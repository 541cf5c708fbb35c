/** Character and string helpers with Python's meaning for ASCII text. */
module Text {

  /** Python's `str.isspace` restricted to ASCII: space, `\t \n \v \f \r` and the
      information separators 0x1C..0x1F. */
  predicate IsSpace(c: char) {
    c == ' ' || 9 <= c as int <= 13 || 28 <= c as int <= 31
  }

  /** Neither end of `s` is whitespace. */
  predicate IsStripped(s: string) {
    |s| == 0 || (!IsSpace(s[0]) && !IsSpace(s[|s| - 1]))
  }

  /** `r` occurs in `s` at index `i` and everything around it is whitespace. */
  predicate CoreAt(r: string, s: string, i: int) {
    && 0 <= i <= i + |r| <= |s|
    && r == s[i..i + |r|]
    && (forall k :: 0 <= k < i ==> IsSpace(s[k]))
    && (forall k :: i + |r| <= k < |s| ==> IsSpace(s[k]))
  }

  function TrimLeft(s: string): (r: string)
    ensures CoreAt(r, s, |s| - |r|)
    ensures |r| > 0 ==> !IsSpace(r[0])
    decreases |s|
  {
    if |s| > 0 && IsSpace(s[0]) then TrimLeft(s[1..]) else s
  }

  function TrimRight(s: string): (r: string)
    ensures CoreAt(r, s, 0)
    ensures |r| > 0 ==> !IsSpace(r[|r| - 1])
    decreases |s|
  {
    if |s| > 0 && IsSpace(s[|s| - 1]) then TrimRight(s[..|s| - 1]) else s
  }

  /** Python's `str.strip()`: `s` with its leading and trailing whitespace removed. */
  function Strip(s: string): (r: string)
    ensures IsStripped(r)
    ensures exists i :: CoreAt(r, s, i)
    ensures IsStripped(s) ==> r == s
  {
    var t := TrimLeft(s);
    var r := TrimRight(t);
    assert |r| > 0 ==> r[0] == t[0];
    assert CoreAt(r, s, |s| - |t|);
    assert IsStripped(s) && |s| > 0 ==> t == s;
    r
  }

  /** Whitespace around a stripped, non-empty core is exactly what `Strip`
      removes: the core comes back unchanged. */
  lemma StripPadded(pre: string, x: string, post: string)
    requires forall k :: 0 <= k < |pre| ==> IsSpace(pre[k])
    requires forall k :: 0 <= k < |post| ==> IsSpace(post[k])
    requires x != "" && IsStripped(x)
    ensures Strip(pre + x + post) == x
  {
    var s := pre + x + post;
    var lo, hi := |pre|, |pre| + |x| - 1;
    assert !IsSpace(s[lo]) && !IsSpace(s[hi]) by {
      assert s[lo] == x[0] && s[hi] == x[|x| - 1];
    }
    forall k | 0 <= k < lo ensures IsSpace(s[k]) {
      assert s[k] == pre[k];
    }
    forall k | hi < k < |s| ensures IsSpace(s[k]) {
      assert s[k] == post[k - hi - 1];
    }
    var i :| CoreAt(Strip(s), s, i);
    CoreBetween(Strip(s), s, i, lo, hi);
    assert s[lo..hi + 1] == x;
  }

  /** A stripped core of `s` runs from the first to the last non-space. */
  lemma CoreBetween(r: string, s: string, i: int, lo: int, hi: int)
    requires CoreAt(r, s, i) && IsStripped(r)
    requires 0 <= lo <= hi < |s| && !IsSpace(s[lo]) && !IsSpace(s[hi])
    requires forall k :: 0 <= k < lo ==> IsSpace(s[k])
    requires forall k :: hi < k < |s| ==> IsSpace(s[k])
    ensures r == s[lo..hi + 1]
  {
    assert i <= lo < i + |r|;
    assert r[0] == s[i] && r[|r| - 1] == s[i + |r| - 1];
  }

  /** Python's `str.lower()` restricted to ASCII letters. */
  function LowerChar(c: char): char {
    if 'A' <= c <= 'Z' then (c as int + 32) as char else c
  }

  function Lower(s: string): (r: string)
    ensures |r| == |s|
    ensures forall i :: 0 <= i < |s| ==> r[i] == LowerChar(s[i])
    ensures forall i :: 0 <= i < |r| ==> !('A' <= r[i] <= 'Z')
    ensures forall i :: 0 <= i < |s| && !('A' <= s[i] <= 'Z') ==> r[i] == s[i]
  {
    seq(|s|, i requires 0 <= i < |s| => LowerChar(s[i]))
  }

  /** The wildcard marker test `'*' in s`. */
  predicate HasStar(s: string) {
    '*' in s
  }

  /** Python's `s.startswith(prefix)`. */
  predicate StartsWith(s: string, prefix: string) {
    |prefix| <= |s| && s[..|prefix|] == prefix
  }
}
