/** Subdomain mode: `filter_subdomains` removes every subdomain that equals a
    `*`-free out-of-scope entry or matches a `*`-containing one, and records why. */
module SubdomainFilter {
  import opened Wrappers
  import opened Seqs
  import opened Text
  import opened Glob

  datatype Reason = ExactMatch | WildcardMatch
  {
    /** The reason text the report prints. */
    function Label(): string {
      match this
      case ExactMatch => "exact match"
      case WildcardMatch => "wildcard match"
    }
  }

  /** Why one subdomain is removed: the reason and the matched pattern. */
  datatype Verdict = Verdict(reason: Reason, pattern: string)

  /** One entry of `removed_domains`: `[subdomain, reason, matched_pattern]`. */
  datatype Removal = Removal(subdomain: string, reason: Reason, pattern: string)
  {
    function Why(): Verdict {
      Verdict(reason, pattern)
    }
  }

  /** The subdomains named by a list of records, in order. */
  function RemovedNames(removed: seq<Removal>): (r: seq<string>)
    ensures |r| == |removed|
    ensures forall k :: 0 <= k < |removed| ==> r[k] == removed[k].subdomain
  {
    seq(|removed|, k requires 0 <= k < |removed| => removed[k].subdomain)
  }

  /** The pair `(in_scope, removed_domains)`. */
  datatype Outcome = Outcome(inScope: set<string>, removed: seq<Removal>)

  /** The `*`-containing entries, kept in the order of `outOfScope`; this is the
      iteration order the model fixes for the set `wildcard_patterns`. */
  function WildcardEntries(outOfScope: seq<string>): (r: seq<string>)
    ensures forall p :: p in r <==> p in outOfScope && HasStar(p)
    decreases |outOfScope|
  {
    if |outOfScope| == 0 then []
    else
      var rest := WildcardEntries(outOfScope[1..]);
      assert outOfScope == [outOfScope[0]] + outOfScope[1..];
      if HasStar(outOfScope[0]) then [outOfScope[0]] + rest else rest
  }

  /** The subdomain equals an entry of `exact_matches`. */
  predicate IsExact(s: string, outOfScope: seq<string>) {
    s in outOfScope && !HasStar(s)
  }

  /** Reference meaning: no out-of-scope entry rules the subdomain out. */
  predicate InScope(s: string, outOfScope: seq<string>) {
    && !IsExact(s, outOfScope)
    && forall p :: p in outOfScope && HasStar(p) ==> !GlobMatch(s, p)
  }

  /** A verdict is justified by the out-of-scope entries, and "exact match" is
      given exactly when the subdomain is itself a `*`-free entry. */
  predicate Justified(s: string, v: Verdict, outOfScope: seq<string>) {
    match v.reason
    case ExactMatch => v.pattern == s && IsExact(s, outOfScope)
    case WildcardMatch =>
      && !IsExact(s, outOfScope)
      && v.pattern in outOfScope && HasStar(v.pattern)
      && GlobMatch(s, v.pattern)
  }

  /** The loop body of `filter_subdomains` for one subdomain: why it is removed,
      or None when it is kept. */
  function Decide(s: string, outOfScope: seq<string>): (r: Option<Verdict>)
    ensures r.None? <==> InScope(s, outOfScope)
    ensures r.Some? ==> Justified(s, r.value, outOfScope)
  {
    if IsExact(s, outOfScope) then Some(Verdict(ExactMatch, s))
    else
      var m := MatchesWildcard(s, WildcardEntries(outOfScope));
      if Truthy(m) then Some(Verdict(WildcardMatch, m.value)) else None
  }

  /** The loop of `filter_subdomains`, visiting `subdomains` in order and asking
      `decide` about each: kept subdomains go to the set, removed ones get a
      record appended. */
  function Sweep(subdomains: seq<string>, decide: string -> Option<Verdict>): Outcome
    decreases |subdomains|
  {
    if |subdomains| == 0 then Outcome({}, [])
    else
      var acc := Sweep(subdomains[..|subdomains| - 1], decide);
      var s := subdomains[|subdomains| - 1];
      match decide(s)
      case Some(v) => acc.(removed := acc.removed + [Removal(s, v.reason, v.pattern)])
      case None => acc.(inScope := acc.inScope + {s})
  }

  /** What the loop produces: kept subdomains are exactly those `decide` keeps,
      each record is `decide`'s verdict on an input, and every removed input has
      a record. */
  lemma {:induction false} SweepFacts(subdomains: seq<string>, decide: string -> Option<Verdict>)
    ensures var r := Sweep(subdomains, decide);
      && (forall s :: s in r.inScope <==> s in subdomains && decide(s).None?)
      && (forall k :: 0 <= k < |r.removed| ==>
            r.removed[k].subdomain in subdomains && decide(r.removed[k].subdomain) == Some(r.removed[k].Why()))
      && (forall s :: s in subdomains && decide(s).Some? ==>
            exists k :: 0 <= k < |r.removed| && r.removed[k].subdomain == s)
    decreases |subdomains|
  {
    if |subdomains| > 0 {
      var n := |subdomains| - 1;
      SweepFacts(subdomains[..n], decide);
      var acc := Sweep(subdomains[..n], decide);
      var r := Sweep(subdomains, decide);
      var s := subdomains[n];
      assert subdomains == subdomains[..n] + [s];
      if decide(s).Some? {
        assert r.removed == acc.removed + [Removal(s, decide(s).value.reason, decide(s).value.pattern)];
        assert r.inScope == acc.inScope;
        assert r.removed[|acc.removed|].subdomain == s;
        assert forall k :: 0 <= k < |acc.removed| ==> r.removed[k] == acc.removed[k];
      } else {
        assert r.removed == acc.removed;
        assert r.inScope == acc.inScope + {s};
      }
    }
  }

  /** The loop body as a function value. */
  function Decider(outOfScope: seq<string>): string -> Option<Verdict> {
    s => Decide(s, outOfScope)
  }

  /** One more iteration of the loop. */
  lemma SweepStep(subdomains: seq<string>, s: string, decide: string -> Option<Verdict>)
    ensures var acc := Sweep(subdomains, decide);
      Sweep(subdomains + [s], decide)
      == if decide(s).Some? then acc.(removed := acc.removed + [Removal(s, decide(s).value.reason, decide(s).value.pattern)])
         else acc.(inScope := acc.inScope + {s})
  {
    assert (subdomains + [s])[..|subdomains|] == subdomains;
  }

  /** `filter_subdomains(subdomains, out_of_scope)`. */
  function FilterSubdomains(subdomains: seq<string>, outOfScope: seq<string>): (r: Outcome)
    ensures forall s :: s in r.inScope <==> s in subdomains && InScope(s, outOfScope)
    ensures forall rec :: rec in r.removed ==>
              && rec.subdomain in subdomains && !InScope(rec.subdomain, outOfScope)
              && rec.subdomain !in r.inScope && Justified(rec.subdomain, rec.Why(), outOfScope)
    ensures forall s :: s in subdomains ==> s in r.inScope || exists rec :: rec in r.removed && rec.subdomain == s
  {
    SweepFacts(subdomains, Decider(outOfScope));
    Sweep(subdomains, Decider(outOfScope))
  }

  // ---------------------------------------------------------------------------
  // Properties relating several runs or several inputs.

  /** Over a set of subdomains (no repeats) every removed subdomain gets exactly
      one record, and kept plus removed account for every input. */
  lemma OneRecordPerRemoval(subdomains: seq<string>, outOfScope: seq<string>)
    requires Distinct(subdomains)
    ensures Distinct(RemovedNames(FilterSubdomains(subdomains, outOfScope).removed))
    ensures |FilterSubdomains(subdomains, outOfScope).inScope| + |FilterSubdomains(subdomains, outOfScope).removed| == |subdomains|
  {
    SweepCounts(subdomains, Decider(outOfScope));
    SweepRecordsDistinct(subdomains, Decider(outOfScope));
  }

  lemma {:induction false} SweepCounts(subdomains: seq<string>, decide: string -> Option<Verdict>)
    requires Distinct(subdomains)
    ensures |Sweep(subdomains, decide).inScope| + |Sweep(subdomains, decide).removed| == |subdomains|
    decreases |subdomains|
  {
    if |subdomains| > 0 {
      var n := |subdomains| - 1;
      var prefix := subdomains[..n];
      var s := subdomains[n];
      assert Distinct(prefix);
      SweepCounts(prefix, decide);
      SweepKeepsInputs(prefix, decide);
      var acc := Sweep(prefix, decide);
      var r := Sweep(subdomains, decide);
      if decide(s).None? {
        assert r.inScope == acc.inScope + {s};
        assert r.removed == acc.removed;
        assert s !in acc.inScope;
      } else {
        assert r.inScope == acc.inScope;
        assert |r.removed| == |acc.removed| + 1;
      }
    }
  }

  lemma {:induction false} SweepKeepsInputs(subdomains: seq<string>, decide: string -> Option<Verdict>)
    ensures forall s :: s in Sweep(subdomains, decide).inScope ==> s in subdomains
    decreases |subdomains|
  {
    if |subdomains| > 0 {
      var n := |subdomains| - 1;
      SweepKeepsInputs(subdomains[..n], decide);
      assert subdomains == subdomains[..n] + [subdomains[n]];
    }
  }

  lemma {:induction false} SweepRecordsDistinct(subdomains: seq<string>, decide: string -> Option<Verdict>)
    requires Distinct(subdomains)
    ensures Distinct(RemovedNames(Sweep(subdomains, decide).removed))
    decreases |subdomains|
  {
    if |subdomains| > 0 {
      var n := |subdomains| - 1;
      var prefix := subdomains[..n];
      var s := subdomains[n];
      assert Distinct(prefix);
      SweepRecordsDistinct(prefix, decide);
      SweepFacts(prefix, decide);
      var acc := Sweep(prefix, decide);
      var r := Sweep(subdomains, decide);
      if decide(s).Some? {
        var rec := Removal(s, decide(s).value.reason, decide(s).value.pattern);
        assert r.removed == acc.removed + [rec];
        assert RemovedNames(r.removed) == RemovedNames(acc.removed) + [s];
        assert forall k :: 0 <= k < |acc.removed| ==> acc.removed[k].subdomain in prefix;
        assert s !in RemovedNames(acc.removed);
      } else {
        assert r.removed == acc.removed;
      }
    }
  }

  /** Filtering the in-scope result again, in any iteration order, removes
      nothing and gives the same set back. */
  lemma Idempotent(subdomains: seq<string>, outOfScope: seq<string>, again: seq<string>)
    requires forall s :: s in again <==> s in FilterSubdomains(subdomains, outOfScope).inScope
    ensures FilterSubdomains(again, outOfScope).removed == []
    ensures FilterSubdomains(again, outOfScope).inScope == FilterSubdomains(subdomains, outOfScope).inScope
  {
    var r2 := FilterSubdomains(again, outOfScope);
    NoMemberMeansEmpty(r2.removed);
  }

  lemma {:induction false} RecordMultiplicity(subdomains: seq<string>, decide: string -> Option<Verdict>, rec: Removal)
    ensures multiset(Sweep(subdomains, decide).removed)[rec]
            == if decide(rec.subdomain) == Some(rec.Why()) then multiset(subdomains)[rec.subdomain] else 0
    decreases |subdomains|
  {
    if |subdomains| > 0 {
      var n := |subdomains| - 1;
      assert subdomains == subdomains[..n] + [subdomains[n]];
      RecordMultiplicity(subdomains[..n], decide, rec);
    }
  }

  /** The in-scope set and the bag of records do not depend on the order in
      which the subdomains are visited. */
  lemma InputOrderIrrelevant(xs: seq<string>, ys: seq<string>, outOfScope: seq<string>)
    requires multiset(xs) == multiset(ys)
    ensures FilterSubdomains(xs, outOfScope).inScope == FilterSubdomains(ys, outOfScope).inScope
    ensures multiset(FilterSubdomains(xs, outOfScope).removed) == multiset(FilterSubdomains(ys, outOfScope).removed)
  {
    forall s
      ensures s in xs <==> s in ys
    {
      assert s in xs <==> s in multiset(xs);
      assert s in ys <==> s in multiset(ys);
    }
    var decide := Decider(outOfScope);
    forall rec
      ensures multiset(Sweep(xs, decide).removed)[rec] == multiset(Sweep(ys, decide).removed)[rec]
    {
      RecordMultiplicity(xs, decide, rec);
      RecordMultiplicity(ys, decide, rec);
    }
  }

  /** Which subdomains are removed, in which order and for which reason does not
      depend on the order of the out-of-scope entries (only the chosen wildcard
      may differ when several match). */
  lemma PatternOrderIrrelevant(subdomains: seq<string>, o1: seq<string>, o2: seq<string>)
    requires forall p :: p in o1 <==> p in o2
    ensures var r1 := FilterSubdomains(subdomains, o1);
      var r2 := FilterSubdomains(subdomains, o2);
      && r1.inScope == r2.inScope
      && |r1.removed| == |r2.removed|
      && forall k :: 0 <= k < |r1.removed| ==>
           r1.removed[k].subdomain == r2.removed[k].subdomain && r1.removed[k].reason == r2.removed[k].reason
  {
    var d1 := Decider(o1);
    var d2 := Decider(o2);
    forall s
      ensures d1(s).None? <==> d2(s).None?
      ensures d1(s).Some? ==> d1(s).value.reason == d2(s).value.reason
    {
      assert InScope(s, o1) <==> InScope(s, o2);
      assert IsExact(s, o1) <==> IsExact(s, o2);
    }
    SweepSameShape(subdomains, d1, d2);
  }

  lemma {:induction false} SweepSameShape(subdomains: seq<string>, d1: string -> Option<Verdict>, d2: string -> Option<Verdict>)
    requires forall s :: d1(s).None? <==> d2(s).None?
    requires forall s :: d1(s).Some? ==> d1(s).value.reason == d2(s).value.reason
    ensures var r1 := Sweep(subdomains, d1);
      var r2 := Sweep(subdomains, d2);
      && r1.inScope == r2.inScope
      && |r1.removed| == |r2.removed|
      && forall k :: 0 <= k < |r1.removed| ==>
           r1.removed[k].subdomain == r2.removed[k].subdomain && r1.removed[k].reason == r2.removed[k].reason
    decreases |subdomains|
  {
    if |subdomains| > 0 {
      var n := |subdomains| - 1;
      SweepSameShape(subdomains[..n], d1, d2);
      var s := subdomains[n];
      var a1, a2 := Sweep(subdomains[..n], d1), Sweep(subdomains[..n], d2);
      var r1, r2 := Sweep(subdomains, d1), Sweep(subdomains, d2);
      if d1(s).Some? {
        assert r1.removed == a1.removed + [Removal(s, d1(s).value.reason, d1(s).value.pattern)];
        assert r2.removed == a2.removed + [Removal(s, d2(s).value.reason, d2(s).value.pattern)];
      }
    }
  }

  /** A `*`-free entry is only ever compared for equality, so even one holding
      `?` removes just the identical string: "abc" is kept although it
      glob-matches the entry "a?c". */
  lemma StarFreeEntryIsLiteral(subdomains: seq<string>, outOfScope: seq<string>)
    ensures forall rec :: rec in FilterSubdomains(subdomains, outOfScope).removed && !HasStar(rec.pattern) ==>
              rec.reason == ExactMatch && rec.subdomain == rec.pattern
    ensures GlobMatch("abc", "a?c") && FilterSubdomains(["abc"], ["a?c"]).inScope == {"abc"}
  {
    assert Tokenize("a?c") == [Lit('a'), AnyChar, Lit('c')];
    assert !HasStar("a?c");
    assert InScope("abc", ["a?c"]);
  }

  lemma DecideEndsWith(s: string, suffix: string)
    requires Plain(suffix)
    requires |suffix| <= |s| && s[|s| - |suffix|..] == suffix
    ensures Decide(s, ["*" + suffix]) == Some(Verdict(WildcardMatch, "*" + suffix))
  {
    StarThenPlain(s, suffix);
    assert ("*" + suffix)[0] == '*';
    assert HasStar("*" + suffix);
    assert WildcardEntries(["*" + suffix]) == ["*" + suffix];
  }

  lemma DecideNotEndsWith(s: string, suffix: string)
    requires Plain(suffix)
    requires !(|suffix| <= |s| && s[|s| - |suffix|..] == suffix)
    ensures Decide(s, ["*" + suffix]).None?
  {
    StarThenPlain(s, suffix);
    assert ("*" + suffix)[0] == '*';
    assert InScope(s, ["*" + suffix]);
  }

  /** With the single entry `*` + `suffix` (say `*.example.com`), two
      subdomains ending in the suffix (say "a.example.com" and "b.example.com")
      are removed by the wildcard, in order, and one that does not (say
      "evil.com") is kept. */
  lemma WildcardScenario(a: string, b: string, e: string, suffix: string)
    requires Plain(suffix)
    requires |suffix| <= |a| && a[|a| - |suffix|..] == suffix
    requires |suffix| <= |b| && b[|b| - |suffix|..] == suffix
    requires !(|suffix| <= |e| && e[|e| - |suffix|..] == suffix)
    ensures var r := FilterSubdomains([a, b, e], ["*" + suffix]);
      && r.inScope == {e}
      && r.removed == [Removal(a, WildcardMatch, "*" + suffix), Removal(b, WildcardMatch, "*" + suffix)]
  {
    var d := Decider(["*" + suffix]);
    DecideEndsWith(a, suffix);
    DecideEndsWith(b, suffix);
    DecideNotEndsWith(e, suffix);
    SweepStep([], a, d);
    SweepStep([a], b, d);
    SweepStep([a, b], e, d);
    assert [] + [a] == [a] && [a] + [b] == [a, b] && [a, b] + [e] == [a, b, e];
  }
}
