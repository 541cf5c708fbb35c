/** The text side of `load_file` and `save_to_file`: reading a file into a set
    of stripped, non-blank lines, and writing a set back one sorted item per
    line. The file system itself is not modelled; file contents are strings. */
module LineFiles {
  import opened Seqs
  import opened Text
  import opened StringOrder

  /** A line break under universal newlines: `\n`, or `\r` on its own or as
      the first half of `\r\n`. */
  predicate IsBreak(c: char) {
    c == '\n' || c == '\r'
  }

  predicate NoBreak(s: string) {
    forall k :: 0 <= k < |s| ==> !IsBreak(s[k])
  }

  /** The text between consecutive line breaks, in order. A `\r\n` pair gives
      an extra empty piece, which stripping and the blank-line test discard. */
  function Lines(text: string): (r: seq<string>)
    ensures |r| > 0
    ensures forall i :: 0 <= i < |r| ==> NoBreak(r[i])
    ensures NoBreak(text) ==> r == [text]
    decreases |text|
  {
    if |text| == 0 then [""]
    else
      var rest := Lines(text[1..]);
      if IsBreak(text[0]) then [""] + rest
      else
        assert [text[0]] + text[1..] == text;
        [[text[0]] + rest[0]] + rest[1..]
  }

  /** The items `load_file` collects from some lines: each line stripped, blank
      ones dropped. */
  function Collect(lines: seq<string>): (r: set<string>)
    ensures forall x :: x in r ==> x != "" && IsStripped(x)
    ensures forall i :: 0 <= i < |lines| && Strip(lines[i]) != "" ==> Strip(lines[i]) in r
    ensures forall x :: x in r ==> exists i :: 0 <= i < |lines| && Strip(lines[i]) == x
  {
    set i | 0 <= i < |lines| && Strip(lines[i]) != "" :: Strip(lines[i])
  }

  /** `load_file` on a file whose decoded contents are `text`. */
  function LoadItems(text: string): (r: set<string>)
    ensures forall x :: x in r ==> x != "" && IsStripped(x) && NoBreak(x)
    ensures forall x :: x in r <==> x != "" && OnSomeLine(x, Lines(text))
  {
    var lines := Lines(text);
    StrippedLinesHaveNoBreak(lines);
    CollectMeans(lines);
    Collect(lines)
  }

  /** `x` is the stripped text of one of the lines. */
  predicate OnSomeLine(x: string, lines: seq<string>) {
    exists i :: 0 <= i < |lines| && Strip(lines[i]) == x
  }

  /** The collected items are exactly the non-empty stripped lines. */
  lemma CollectMeans(lines: seq<string>)
    ensures forall x :: x in Collect(lines) <==> x != "" && OnSomeLine(x, lines)
  {
    forall x | x != "" && OnSomeLine(x, lines)
      ensures x in Collect(lines)
    {
      var i :| 0 <= i < |lines| && Strip(lines[i]) == x;
    }
  }

  /** Stripping a break-free line leaves a break-free item. */
  lemma StrippedLinesHaveNoBreak(lines: seq<string>)
    requires forall i :: 0 <= i < |lines| ==> NoBreak(lines[i])
    ensures forall x :: x in Collect(lines) ==> NoBreak(x)
  {
    forall x | x in Collect(lines) ensures NoBreak(x) {
      var i :| 0 <= i < |lines| && Strip(lines[i]) == x;
      StripKeepsNoBreak(lines[i]);
    }
  }

  lemma StripKeepsNoBreak(s: string)
    requires NoBreak(s)
    ensures NoBreak(Strip(s))
  {
    var x := Strip(s);
    var j :| CoreAt(x, s, j);
    forall k | 0 <= k < |x| ensures !IsBreak(x[k]) {
      assert x[k] == s[j + k];
    }
  }

  /** Each line followed by `\n`. */
  function Join(lines: seq<string>): string
    decreases |lines|
  {
    if |lines| == 0 then "" else lines[0] + "\n" + Join(lines[1..])
  }

  /** What `save_to_file` writes: the items in `sorted` order, one per line. */
  function Render(items: seq<string>): string {
    Join(Sort(items))
  }

  /** A break-free prefix ended by a line break is exactly the first line. */
  lemma {:induction false} LinesAfterBreak(x: string, b: char, y: string)
    requires NoBreak(x) && IsBreak(b)
    ensures Lines(x + [b] + y) == [x] + Lines(y)
    decreases |x|
  {
    if |x| == 0 {
      assert (x + [b] + y)[1..] == y;
    } else {
      var t := x + [b] + y;
      assert t[1..] == x[1..] + [b] + y;
      LinesAfterBreak(x[1..], b, y);
      assert [x[0]] + x[1..] == x;
    }
  }

  /** A file with padding, a `\r\n` line end, a blank line and a final
      newline loads as its two stripped items `a` and `b`. The text is
      grouped from the right, the way it is read line by line. */
  lemma LoadScenario(a: string, b: string)
    requires a != "" && IsStripped(a) && NoBreak(a)
    requires b != "" && IsStripped(b) && NoBreak(b)
    ensures LoadItems(" " + a + " " + "\r" + ("\n" + ("\n" + (b + "\n")))) == {a, b}
  {
    var text := " " + a + " " + "\r" + ("\n" + ("\n" + (b + "\n")));
    var lines := [" " + a + " ", "", "", b, ""];
    ScenarioLines(a, b);
    ScenarioStrips(a, b, lines);
    forall y ensures y in LoadItems(text) <==> y == a || y == b {
      LoadedFromFive(y, text, lines, a, b);
    }
    PairSet(LoadItems(text), a, b);
  }

  /** A set with exactly the members `a` and `b`. */
  lemma PairSet(s: set<string>, a: string, b: string)
    requires forall y :: y in s <==> y == a || y == b
    ensures s == {a, b}
  {
  }

  /** What stripping makes of each line of the scenario text. */
  lemma ScenarioStrips(a: string, b: string, lines: seq<string>)
    requires a != "" && IsStripped(a) && IsStripped(b)
    requires lines == [" " + a + " ", "", "", b, ""]
    ensures Strip(lines[0]) == a && Strip(lines[3]) == b
    ensures Strip(lines[1]) == "" && Strip(lines[2]) == "" && Strip(lines[4]) == ""
  {
    StripPadded(" ", a, " ");
  }

  /** Five lines stripping to `a`, nothing, nothing, `b`, nothing load as
      `a` and `b`. */
  lemma LoadedFromFive(y: string, text: string, lines: seq<string>, a: string, b: string)
    requires Lines(text) == lines && |lines| == 5 && a != "" && b != ""
    requires Strip(lines[0]) == a && Strip(lines[3]) == b
    requires Strip(lines[1]) == "" && Strip(lines[2]) == "" && Strip(lines[4]) == ""
    ensures y in LoadItems(text) <==> y == a || y == b
  {
    OnFiveLines(y, lines);
  }

  /** Membership in the stripped text of five lines, spelled out. */
  lemma OnFiveLines(y: string, lines: seq<string>)
    requires |lines| == 5
    ensures OnSomeLine(y, lines) <==>
      Strip(lines[0]) == y || Strip(lines[1]) == y || Strip(lines[2]) == y || Strip(lines[3]) == y || Strip(lines[4]) == y
  {
    if OnSomeLine(y, lines) {
      var i :| 0 <= i < |lines| && Strip(lines[i]) == y;
      assert i in {0, 1, 2, 3, 4};
    }
  }

  /** The scenario text splits into the padded line, the empty piece inside
      `\r\n`, the blank line, `b`, and the empty piece after the last `\n`. */
  lemma ScenarioLines(a: string, b: string)
    requires NoBreak(a) && NoBreak(b)
    ensures Lines(" " + a + " " + "\r" + ("\n" + ("\n" + (b + "\n")))) == [" " + a + " ", "", "", b, ""]
  {
    var x := " " + a + " ";
    assert NoBreak(x) by {
      forall k | 0 <= k < |x| ensures !IsBreak(x[k]) {
        if 0 < k < |x| - 1 { assert x[k] == a[k - 1]; }
      }
    }
    var y := b + "\n";
    LinesAfterBreak(b, '\n', "");
    assert b + ['\n'] + "" == y;
    LinesAfterBreak("", '\n', y);
    assert "" + ['\n'] + y == "\n" + y;
    LinesAfterBreak("", '\n', "\n" + y);
    assert "" + ['\n'] + ("\n" + y) == "\n" + ("\n" + y);
    LinesAfterBreak(x, '\r', "\n" + ("\n" + y));
  }

  /** Lines are collected one at a time: the first contributes its stripped
      text unless that is empty. */
  lemma CollectCons(x: string, rest: seq<string>)
    ensures Collect([x] + rest) == (if Strip(x) == "" then {} else {Strip(x)}) + Collect(rest)
  {
    var lines := [x] + rest;
    forall y | y in Collect(lines)
      ensures y in (if Strip(x) == "" then {} else {Strip(x)}) + Collect(rest)
    {
      var i :| 0 <= i < |lines| && Strip(lines[i]) == y;
      if i > 0 {
        assert lines[i] == rest[i - 1];
      }
    }
    forall y | y in Collect(rest) ensures y in Collect(lines) {
      var i :| 0 <= i < |rest| && Strip(rest[i]) == y;
      assert lines[i + 1] == rest[i];
    }
    assert lines[0] == x;
  }

  /** Reading back what was written gives the written lines, plus the empty
      piece after the final `\n`. */
  lemma {:induction false} LinesOfJoin(lines: seq<string>)
    requires forall i :: 0 <= i < |lines| ==> NoBreak(lines[i])
    ensures Lines(Join(lines)) == lines + [""]
    decreases |lines|
  {
    if |lines| > 0 {
      LinesOfJoin(lines[1..]);
      LinesAfterBreak(lines[0], '\n', Join(lines[1..]));
      assert lines[0] + "\n" + Join(lines[1..]) == lines[0] + ['\n'] + Join(lines[1..]);
      assert [lines[0]] + (lines[1..] + [""]) == lines + [""];
    }
  }

  /** The lines of the output file are the items in ascending order, each
      ended by `\n`; items of a set appear once each. */
  lemma RenderLines(items: seq<string>)
    requires forall i :: 0 <= i < |items| ==> NoBreak(items[i])
    ensures Lines(Render(items)) == Sort(items) + [""]
    ensures Ascending(Sort(items)) && multiset(Sort(items)) == multiset(items)
    ensures Distinct(items) ==> Distinct(Sort(items))
  {
    var sorted := Sort(items);
    if Distinct(items) {
      DistinctSorted(items);
    }
    forall i | 0 <= i < |sorted| ensures NoBreak(sorted[i]) {
      assert sorted[i] in multiset(items);
    }
    LinesOfJoin(sorted);
  }

  /** Collecting already-stripped lines keeps exactly the non-empty ones. */
  lemma CollectStripped(lines: seq<string>)
    requires forall i :: 0 <= i < |lines| ==> IsStripped(lines[i])
    ensures forall x :: x in Collect(lines) <==> x in lines && x != ""
  {
    forall x ensures x in Collect(lines) <==> x in lines && x != "" {
      if x in lines && x != "" {
        var i :| 0 <= i < |lines| && lines[i] == x;
        assert Strip(lines[i]) == x;
      }
    }
  }

  /** Saving a set of items that `load_file` could have produced and loading
      the file again gives back the same set. */
  lemma RoundTrip(items: seq<string>)
    requires forall i :: 0 <= i < |items| ==> items[i] != "" && IsStripped(items[i]) && NoBreak(items[i])
    ensures LoadItems(Render(items)) == Elems(items)
  {
    var sorted := Sort(items);
    RenderLines(items);
    var lines := sorted + [""];
    assert forall x :: x in sorted <==> x in items by {
      forall x ensures x in sorted <==> x in items {
        assert x in sorted <==> x in multiset(sorted);
        assert x in items <==> x in multiset(items);
      }
    }
    forall i | 0 <= i < |lines| ensures IsStripped(lines[i]) && (lines[i] != "" <==> i < |sorted|) {
      if i < |sorted| {
        assert lines[i] == sorted[i] && sorted[i] in items;
      }
    }
    CollectStripped(lines);
    assert forall x :: x in lines && x != "" <==> x in sorted;
  }

  /** The output file depends only on the set of items, not on the order in
      which the set is iterated. */
  lemma RenderIgnoresOrder(xs: seq<string>, ys: seq<string>)
    requires Distinct(xs) && Distinct(ys)
    requires forall s :: s in xs <==> s in ys
    ensures Render(xs) == Render(ys)
  {
    SortIgnoresOrder(xs, ys);
  }
}
