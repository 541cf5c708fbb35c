/** Shell-style wildcard matching as done by Python's `fnmatch.fnmatchcase`
    (the POSIX behaviour of `fnmatch.fnmatch`), and the first-match scan
    `matches_wildcard` built on it.

    A pattern is first read into tokens the way `fnmatch.translate` reads it:
    `*` is any run of characters, `?` is one character, `[...]` is a bracket
    class, and every other character stands for itself. Matching is anchored
    at both ends. */
module Glob {
  import opened Wrappers

  /** One member of a bracket class: a single character or an inclusive range
      (a range whose ends are reversed holds nothing). */
  datatype ClassItem = Single(c: char) | Range(lo: char, hi: char)
  {
    predicate Has(ch: char) {
      match this
      case Single(c) => ch == c
      case Range(lo, hi) => lo <= ch <= hi
    }
  }

  datatype Token = Star | AnyChar | Lit(c: char) | Class(negated: bool, items: seq<ClassItem>)
  {
    /** Whether this token lets character `ch` through; a `*` lets every
        character of its run through. */
    predicate Accepts(ch: char) {
      match this
      case Star => true
      case AnyChar => true
      case Lit(c) => ch == c
      case Class(negated, items) => (exists i :: 0 <= i < |items| && items[i].Has(ch)) != negated
    }
  }

  /** First index `k >= j` with `p[k] == c`. */
  function FindFrom(p: string, j: nat, c: char): (r: Option<nat>)
    ensures r.Some? ==> j <= r.value < |p| && p[r.value] == c
    ensures r.None? ==> forall k :: j <= k < |p| ==> p[k] != c
    decreases |p| - j
  {
    if j >= |p| then None
    else if p[j] == c then Some(j)
    else FindFrom(p, j + 1, c)
  }

  /** The index of the `]` that closes a class opened by `p[0] == '['`, or None
      when the `[` is unclosed and so literal. A `!` right after the `[`, and
      then a `]`, belong to the class body rather than closing it. */
  function ClassClose(p: string): (r: Option<nat>)
    requires |p| > 0 && p[0] == '['
    ensures r.Some? ==> 2 <= r.value < |p| && p[r.value] == ']'
  {
    var j0 := if 1 < |p| && p[1] == '!' then 2 else 1;
    var j1 := if j0 < |p| && p[j0] == ']' then j0 + 1 else j0;
    FindFrom(p, j1, ']')
  }

  /** The members of a class body. A `-` between two characters makes a range;
      a `-` at either end of the body, or right after a range, is literal. */
  function ClassItems(body: string): seq<ClassItem>
    decreases |body|
  {
    if |body| == 0 then []
    else if |body| >= 3 && body[1] == '-' then [Range(body[0], body[2])] + ClassItems(body[3..])
    else [Single(body[0])] + ClassItems(body[1..])
  }

  /** A class body starting with `!` is negated. */
  function ClassToken(body: string): Token {
    if |body| > 0 && body[0] == '!' then Class(true, ClassItems(body[1..]))
    else Class(false, ClassItems(body))
  }

  function Tokenize(p: string): seq<Token>
    decreases |p|
  {
    if |p| == 0 then []
    else if p[0] == '*' then [Star] + Tokenize(p[1..])
    else if p[0] == '?' then [AnyChar] + Tokenize(p[1..])
    else if p[0] == '[' then
      match ClassClose(p)
      case None => [Lit('[')] + Tokenize(p[1..])
      case Some(j) => [ClassToken(p[1..j])] + Tokenize(p[j + 1..])
    else [Lit(p[0])] + Tokenize(p[1..])
  }

  /** Whether the whole of `s` is matched by the token sequence. */
  predicate MatchTokens(s: string, toks: seq<Token>)
    decreases |toks|, |s|
  {
    if |toks| == 0 then |s| == 0
    else if toks[0].Star? then MatchTokens(s, toks[1..]) || (|s| > 0 && MatchTokens(s[1..], toks))
    else |s| > 0 && toks[0].Accepts(s[0]) && MatchTokens(s[1..], toks[1..])
  }

  /** `fnmatch.fnmatch(name, pattern)`, case-sensitive. */
  predicate GlobMatch(name: string, pattern: string) {
    MatchTokens(name, Tokenize(pattern))
  }

  // ---------------------------------------------------------------------------
  // Reference meaning: the name splits into one piece per token, a `*` taking
  // any piece and every other token exactly one character it accepts.

  function Concat(pieces: seq<string>): string
    decreases |pieces|
  {
    if |pieces| == 0 then [] else pieces[0] + Concat(pieces[1..])
  }

  predicate Fits(t: Token, piece: string) {
    t.Star? || (|piece| == 1 && t.Accepts(piece[0]))
  }

  predicate SplitsAs(s: string, toks: seq<Token>, pieces: seq<string>) {
    && |pieces| == |toks|
    && Concat(pieces) == s
    && forall i :: 0 <= i < |toks| ==> Fits(toks[i], pieces[i])
  }

  lemma {:induction false} MatchGivesSplit(s: string, toks: seq<Token>) returns (pieces: seq<string>)
    requires MatchTokens(s, toks)
    ensures SplitsAs(s, toks, pieces)
    decreases |toks|, |s|
  {
    if |toks| == 0 {
      pieces := [];
    } else if toks[0].Star? {
      if MatchTokens(s, toks[1..]) {
        var rest := MatchGivesSplit(s, toks[1..]);
        pieces := [""] + rest;
        assert pieces[1..] == rest;
      } else {
        var more := MatchGivesSplit(s[1..], toks);
        pieces := [[s[0]] + more[0]] + more[1..];
        assert pieces[1..] == more[1..];
        assert Concat(more) == more[0] + Concat(more[1..]);
        assert s == [s[0]] + s[1..];
      }
    } else {
      var rest := MatchGivesSplit(s[1..], toks[1..]);
      pieces := [[s[0]]] + rest;
      assert pieces[1..] == rest;
      assert s == [s[0]] + s[1..];
    }
  }

  lemma {:induction false} SplitGivesMatch(s: string, toks: seq<Token>, pieces: seq<string>)
    requires SplitsAs(s, toks, pieces)
    ensures MatchTokens(s, toks)
    decreases |toks|, |s|
  {
    if |toks| > 0 {
      assert Fits(toks[0], pieces[0]);
      assert s == pieces[0] + Concat(pieces[1..]);
      assert forall i :: 0 <= i < |toks| - 1 ==> toks[1..][i] == toks[i + 1] && pieces[1..][i] == pieces[i + 1];
      if toks[0].Star? && |pieces[0]| > 0 {
        var shorter := [pieces[0][1..]] + pieces[1..];
        assert shorter[1..] == pieces[1..];
        assert s[1..] == pieces[0][1..] + Concat(pieces[1..]);
        SplitGivesMatch(s[1..], toks, shorter);
      } else {
        assert SplitsAs(s[|pieces[0]|..], toks[1..], pieces[1..]);
        SplitGivesMatch(s[|pieces[0]|..], toks[1..], pieces[1..]);
      }
    }
  }

  /** The matcher agrees with the reference meaning, in both directions. */
  lemma GlobMatchMeansSplit(name: string, pattern: string)
    ensures GlobMatch(name, pattern) <==> exists pieces :: SplitsAs(name, Tokenize(pattern), pieces)
  {
    var toks := Tokenize(pattern);
    if MatchTokens(name, toks) {
      var pieces := MatchGivesSplit(name, toks);
      assert SplitsAs(name, toks, pieces);
      assert exists ps :: SplitsAs(name, Tokenize(pattern), ps);
      assert GlobMatch(name, pattern);
    } else {
      forall pieces | SplitsAs(name, toks, pieces)
        ensures false
      {
        SplitGivesMatch(name, toks, pieces);
      }
    }
  }

  // ---------------------------------------------------------------------------
  // Consequences for the patterns the filters use.

  /** No character of `p` is special to the matcher. */
  predicate Plain(p: string) {
    forall i :: 0 <= i < |p| ==> p[i] != '*' && p[i] != '?' && p[i] != '['
  }

  /** A pattern without `*`, `?` or `[` matches exactly itself. */
  lemma {:induction false} PlainMatchesOnlyItself(name: string, p: string)
    requires Plain(p)
    ensures GlobMatch(name, p) <==> name == p
    decreases |p|
  {
    if |p| > 0 {
      var toks := Tokenize(p);
      assert toks == [Lit(p[0])] + Tokenize(p[1..]);
      assert toks[1..] == Tokenize(p[1..]);
      if |name| > 0 {
        PlainMatchesOnlyItself(name[1..], p[1..]);
        assert name == [name[0]] + name[1..];
        assert p == [p[0]] + p[1..];
      }
    }
  }

  /** `*` followed by plain text matches exactly the names ending in that text;
      so `*.example.com` matches `api.example.com` but neither `example.com`
      nor `notexample.com`. */
  lemma StarThenPlain(name: string, rest: string)
    requires Plain(rest)
    ensures GlobMatch(name, "*" + rest) <==> |rest| <= |name| && name[|name| - |rest|..] == rest
  {
    var p := "*" + rest;
    assert p[0] == '*' && p[1..] == rest;
    assert Tokenize(p) == [Star] + Tokenize(rest);
    StarThenTokens(name, rest);
  }

  lemma {:induction false} StarThenTokens(name: string, rest: string)
    requires Plain(rest)
    ensures MatchTokens(name, [Star] + Tokenize(rest)) <==> |rest| <= |name| && name[|name| - |rest|..] == rest
    decreases |name|
  {
    var st := [Star] + Tokenize(rest);
    assert st[1..] == Tokenize(rest);
    PlainMatchesOnlyItself(name, rest);
    if |name| > 0 {
      StarThenTokens(name[1..], rest);
      if |rest| <= |name| - 1 {
        assert name[1..][|name| - 1 - |rest|..] == name[|name| - |rest|..];
      }
    }
  }

  /** A lone `*` matches every name, the empty one included. */
  lemma {:induction false} StarMatchesAll(name: string)
    ensures MatchTokens(name, [Star])
    decreases |name|
  {
    if |name| > 0 {
      StarMatchesAll(name[1..]);
    }
  }

  /** Plain text followed by `*` matches exactly the names that start with that
      text; so a URL entry ending in `/` and then `*` matches every URL under
      that prefix. */
  lemma {:induction false} PlainThenStar(name: string, prefix: string)
    requires Plain(prefix)
    ensures GlobMatch(name, prefix + "*") <==> |prefix| <= |name| && name[..|prefix|] == prefix
    decreases |prefix|
  {
    var p := prefix + "*";
    if |prefix| == 0 {
      assert p == "*" && p[1..] == [];
      assert Tokenize(p) == [Star];
      StarMatchesAll(name);
      assert name[..0] == prefix;
    } else {
      assert p[0] == prefix[0] && p[1..] == prefix[1..] + "*";
      assert Tokenize(p) == [Lit(prefix[0])] + Tokenize(prefix[1..] + "*");
      if |name| > 0 {
        PlainThenStar(name[1..], prefix[1..]);
        assert name == [name[0]] + name[1..];
        assert prefix == [prefix[0]] + prefix[1..];
        if |prefix| <= |name| {
          assert name[..|prefix|] == [name[0]] + name[1..][..|prefix| - 1];
        }
      }
    }
  }

  /** `*.example.com` admits a subdomain but neither the bare domain nor a
      name that merely ends in the same letters. The strings arrive as
      parameters fixed by the preconditions: the verifier unfolds the matcher
      on literal arguments character by character, which is costly, while
      the proof below only needs the shape `*` plus plain text. */
  lemma WildcardExamples(pattern: string, sub: string, apex: string, lookalike: string)
    requires pattern == "*.example.com"
    requires sub == "api.example.com" && apex == "example.com" && lookalike == "notexample.com"
    ensures GlobMatch(sub, pattern)
    ensures !GlobMatch(apex, pattern)
    ensures !GlobMatch(lookalike, pattern)
  {
    var rest := pattern[1..];
    assert pattern == "*" + rest && Plain(rest);
    assert sub == "api" + rest;
    AnyPrefixThenSuffix("api", rest);
    StarThenPlain(apex, rest);
    StarThenPlain(lookalike, rest);
    assert lookalike[|lookalike| - |rest|..][0] == 't' != rest[0];
  }

  /** Bracket classes on a one-character name: `[lo-hi]` admits the
      characters from `lo` to `hi` (none when the ends are reversed), `!`
      right after the `[` negates the class, and a `-` at the end of the body
      is a member itself. */
  lemma ClassRanges(c: char, lo: char, hi: char)
    requires lo != ']' && hi != ']' && lo != '!'
    ensures GlobMatch([c], "[" + [lo, '-', hi] + "]") <==> lo <= c <= hi
    ensures GlobMatch([c], "[!" + [lo, '-', hi] + "]") <==> !(lo <= c <= hi)
    ensures GlobMatch([c], "[" + [lo, '-'] + "]") <==> c == lo || c == '-'
  {
    var range := [lo, '-', hi];
    assert range[3..] == [];
    var items := [Range(lo, hi)];
    assert ClassItems(range) == items;
    assert (exists i :: 0 <= i < |items| && items[i].Has(c)) <==> items[0].Has(c);
    OneCharClass(c, range);
    assert ClassToken(range) == Class(false, items);
    OneCharClass(c, ['!'] + range);
    assert "[!" + range + "]" == "[" + (['!'] + range) + "]";
    assert (['!'] + range)[1..] == range;
    assert ClassToken(['!'] + range) == Class(true, items);
    var dash := [lo, '-'];
    var pair := [Single(lo), Single('-')];
    assert dash[1..] == ['-'] && ['-'][1..] == [];
    assert ClassItems(dash) == pair;
    assert (exists i :: 0 <= i < |pair| && pair[i].Has(c)) <==> pair[0].Has(c) || pair[1].Has(c);
    OneCharClass(c, dash);
    assert ClassToken(dash) == Class(false, pair);
  }

  /** A one-character name matches a one-class pattern exactly when the
      class admits its character. */
  lemma OneCharClass(c: char, body: string)
    requires |body| > 0 && (body[0] == '!' ==> |body| > 1)
    requires forall k :: 0 <= k < |body| ==> body[k] != ']'
    ensures GlobMatch([c], "[" + body + "]") <==> ClassToken(body).Accepts(c)
  {
    ClassPattern(body);
    var t := ClassToken(body);
    assert t.Class? && [t][0] == t && [t][1..] == [] && [c][1..] == [];
    assert MatchTokens([c], [t]) <==> t.Accepts(c) && MatchTokens([], []);
  }

  /** A bracket class whose body holds no `]` is read as one class token. */
  lemma ClassPattern(body: string)
    requires |body| > 0 && (body[0] == '!' ==> |body| > 1)
    requires forall k :: 0 <= k < |body| ==> body[k] != ']'
    ensures Tokenize("[" + body + "]") == [ClassToken(body)]
  {
    var p := "[" + body + "]";
    var n := |body| + 1;
    ClassCloseAtEnd(body);
    TokenizeClass(p, n);
    assert p[1..n] == body && p[n + 1..] == [];
  }

  /** A closed class is read as one token, followed by the rest. */
  lemma TokenizeClass(p: string, j: nat)
    requires |p| > 0 && p[0] == '[' && ClassClose(p) == Some(j)
    ensures Tokenize(p) == [ClassToken(p[1..j])] + Tokenize(p[j + 1..])
  {
  }

  /** The `]` that closes such a class is the last character. */
  lemma ClassCloseAtEnd(body: string)
    requires |body| > 0 && (body[0] == '!' ==> |body| > 1)
    requires forall k :: 0 <= k < |body| ==> body[k] != ']'
    ensures ClassClose("[" + body + "]") == Some(|body| + 1)
  {
    var p := "[" + body + "]";
    var n := |body| + 1;
    assert p[n] == ']';
    forall k | 1 <= k < n ensures p[k] != ']' {
      assert p[k] == body[k - 1];
    }
    assert p[1] == body[0] && (body[0] == '!' ==> p[2] == body[1]);
    FindFromAt(p, if body[0] == '!' then 2 else 1, n, ']');
  }

  lemma {:induction false} FindFromAt(p: string, j: nat, t: nat, c: char)
    requires j <= t < |p| && p[t] == c
    requires forall k :: j <= k < t ==> p[k] != c
    ensures FindFrom(p, j, c) == Some(t)
    decreases t - j
  {
    if j < t {
      FindFromAt(p, j + 1, t, c);
    }
  }

  /** Any text followed by the plain suffix matches `*` + suffix. */
  lemma AnyPrefixThenSuffix(x: string, rest: string)
    requires Plain(rest)
    ensures GlobMatch(x + rest, "*" + rest)
  {
    StarThenPlain(x + rest, rest);
    assert (x + rest)[|x + rest| - |rest|..] == rest;
  }

  // ---------------------------------------------------------------------------
  // matches_wildcard

  /** `patterns[i]` is the first pattern, in iteration order, matching `item`. */
  predicate FirstMatchAt(item: string, patterns: seq<string>, i: int) {
    && 0 <= i < |patterns|
    && GlobMatch(item, patterns[i])
    && forall j :: 0 <= j < i ==> !GlobMatch(item, patterns[j])
  }

  /** `matches_wildcard(item, patterns)`: scans the patterns in iteration order
      and returns the first that matches, or None when none does. */
  function MatchesWildcard(item: string, patterns: seq<string>): (r: Option<string>)
    ensures r.None? <==> forall p :: p in patterns ==> !GlobMatch(item, p)
    ensures r.Some? ==> r.value in patterns && GlobMatch(item, r.value)
    ensures r.Some? ==> exists i :: FirstMatchAt(item, patterns, i) && patterns[i] == r.value
    decreases |patterns|
  {
    if |patterns| == 0 then None
    else if GlobMatch(item, patterns[0]) then
      assert FirstMatchAt(item, patterns, 0);
      Some(patterns[0])
    else
      var r := MatchesWildcard(item, patterns[1..]);
      assert patterns == [patterns[0]] + patterns[1..];
      assert r.Some? ==> exists i :: FirstMatchAt(item, patterns, i) && patterns[i] == r.value by {
        if r.Some? {
          var i :| FirstMatchAt(item, patterns[1..], i) && patterns[1..][i] == r.value;
          assert FirstMatchAt(item, patterns, i + 1);
        }
      }
      r
  }

  /** Python's truth test `if matched_pattern:` on the scan's result. */
  predicate Truthy(o: Option<string>) {
    o.Some? && o.value != ""
  }

  /** Whether some pattern matches does not depend on the iteration order, nor
      on repeats: only the set of patterns counts. */
  lemma MatchesWildcardOrderIrrelevant(item: string, ps: seq<string>, qs: seq<string>)
    requires forall p :: p in ps <==> p in qs
    ensures MatchesWildcard(item, ps).Some? <==> MatchesWildcard(item, qs).Some?
  {
  }
}
