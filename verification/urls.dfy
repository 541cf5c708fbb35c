/** URL mode: `filter_urls` sorts the out-of-scope entries into four buckets,
    removes a URL when its lower-cased text hits a URL entry or its host hits a
    domain entry (URL entries first), and counts the removals per host, keeping
    the reason and pattern of the first removal of each host. */
module UrlFilter {
  import opened Wrappers
  import opened Seqs
  import opened Text
  import opened Glob

  /** The entry starts with `http://` or `https://`. */
  predicate IsUrlPattern(p: string) {
    StartsWith(p, "http://") || StartsWith(p, "https://")
  }

  /** The scheme test is literal and case-sensitive: any text after `http://`
      or `https://` makes a URL entry, while an upper-case scheme or an entry
      that does not start with `http` is a domain entry. */
  lemma UrlEntryByPrefix(rest: string)
    ensures IsUrlPattern("http://" + rest) && IsUrlPattern("https://" + rest)
    ensures !IsUrlPattern("HTTP://" + rest) && !IsUrlPattern("HTTPS://" + rest)
    ensures !StartsWith(rest, "http") ==> !IsUrlPattern(rest)
  {
    assert ("http://" + rest)[..7] == "http://";
    assert ("https://" + rest)[..8] == "https://";
    assert ("HTTP://" + rest)[0] == 'H' && ("HTTPS://" + rest)[0] == 'H';
    if StartsWith(rest, "http://") {
      assert rest[..4] == rest[..7][..4];
    } else if StartsWith(rest, "https://") {
      assert rest[..4] == rest[..8][..4];
    }
  }

  /** The four sets `domain_exact`, `domain_wildcards`, `url_exact` and
      `url_wildcards`, each kept in the order of the out-of-scope entries. */
  datatype Buckets = Buckets(
    domainExact: seq<string>,
    domainWildcards: seq<string>,
    urlExact: seq<string>,
    urlWildcards: seq<string>)

  /** The classification loop: every entry lands in exactly one bucket, chosen
      by its URL prefix and by whether it holds a `*`. */
  function Classify(outOfScope: seq<string>): (b: Buckets)
    ensures forall p :: p in b.urlExact <==> p in outOfScope && IsUrlPattern(p) && !HasStar(p)
    ensures forall p :: p in b.urlWildcards <==> p in outOfScope && IsUrlPattern(p) && HasStar(p)
    ensures forall p :: p in b.domainExact <==> p in outOfScope && !IsUrlPattern(p) && !HasStar(p)
    ensures forall p :: p in b.domainWildcards <==> p in outOfScope && !IsUrlPattern(p) && HasStar(p)
    ensures |b.domainExact| + |b.domainWildcards| + |b.urlExact| + |b.urlWildcards| == |outOfScope|
    decreases |outOfScope|
  {
    if |outOfScope| == 0 then Buckets([], [], [], [])
    else
      var n := |outOfScope| - 1;
      var b := Classify(outOfScope[..n]);
      var p := outOfScope[n];
      assert outOfScope == outOfScope[..n] + [p];
      if IsUrlPattern(p) then
        if HasStar(p) then b.(urlWildcards := b.urlWildcards + [p])
        else b.(urlExact := b.urlExact + [p])
      else
        if HasStar(p) then b.(domainWildcards := b.domainWildcards + [p])
        else b.(domainExact := b.domainExact + [p])
  }

  datatype UrlReason = ExactUrlMatch | WildcardUrlMatch | ExactDomainMatch | WildcardDomainMatch
  {
    /** The reason text stored in `removed_domain_info`. */
    function Label(): string {
      match this
      case ExactUrlMatch => "exact URL match"
      case WildcardUrlMatch => "wildcard URL match"
      case ExactDomainMatch => "exact domain match"
      case WildcardDomainMatch => "wildcard domain match"
    }
  }

  /** Why one URL is removed: the reason and the matched pattern. */
  datatype Hit = Hit(reason: UrlReason, pattern: string)

  /** Some URL entry rules out the lower-cased URL. */
  predicate UrlLevelHit(url: string, outOfScope: seq<string>) {
    exists p :: p in outOfScope && IsUrlPattern(p) &&
      if HasStar(p) then GlobMatch(Lower(url), p) else p == Lower(url)
  }

  /** Some domain entry rules out the host. */
  predicate HostLevelHit(host: string, outOfScope: seq<string>) {
    exists p :: p in outOfScope && !IsUrlPattern(p) &&
      if HasStar(p) then GlobMatch(host, p) else p == host
  }

  /** Reference meaning: a URL with host `host` is in scope when no entry,
      URL or domain, rules it out. */
  predicate UrlInScope(url: string, host: string, outOfScope: seq<string>) {
    !UrlLevelHit(url, outOfScope) && !HostLevelHit(host, outOfScope)
  }

  /** The body of the `filter_urls` loop for one URL whose host is `host`: why
      it is removed, or None when it is kept. The four tests run in the order
      of the source, so a URL-level hit always wins over a domain-level one. */
  function DecideUrl(url: string, host: string, outOfScope: seq<string>): (r: Option<Hit>)
    ensures r.None? <==> UrlInScope(url, host, outOfScope)
    ensures r.Some? && r.value.reason == ExactUrlMatch <==>
              var low := Lower(url); low in outOfScope && IsUrlPattern(low) && !HasStar(low)
    ensures r.Some? && r.value.reason == ExactUrlMatch ==> r.value.pattern == Lower(url)
    ensures r.Some? && r.value.reason == WildcardUrlMatch ==>
              && r.value.pattern in outOfScope && IsUrlPattern(r.value.pattern) && HasStar(r.value.pattern)
              && GlobMatch(Lower(url), r.value.pattern)
    ensures r.Some? && r.value.reason in {ExactDomainMatch, WildcardDomainMatch} <==>
              !UrlLevelHit(url, outOfScope) && HostLevelHit(host, outOfScope)
    ensures r.Some? && r.value.reason == ExactDomainMatch <==>
              !UrlLevelHit(url, outOfScope) && host in outOfScope && !IsUrlPattern(host) && !HasStar(host)
    ensures r.Some? && r.value.reason == ExactDomainMatch ==> r.value.pattern == host
    ensures r.Some? && r.value.reason == WildcardDomainMatch ==>
              && r.value.pattern in outOfScope && !IsUrlPattern(r.value.pattern) && HasStar(r.value.pattern)
              && GlobMatch(host, r.value.pattern)
  {
    var b := Classify(outOfScope);
    var fullUrl := Lower(url);
    if fullUrl in b.urlExact then Some(Hit(ExactUrlMatch, fullUrl))
    else
      var m := MatchesWildcard(fullUrl, b.urlWildcards);
      if Truthy(m) then Some(Hit(WildcardUrlMatch, m.value))
      else if host in b.domainExact then Some(Hit(ExactDomainMatch, host))
      else
        var d := MatchesWildcard(host, b.domainWildcards);
        if Truthy(d) then Some(Hit(WildcardDomainMatch, d.value)) else None
  }

  /** Python's `if not domain`: a missing or empty hostname skips the URL. */
  predicate HasHost(h: Option<string>) {
    h.Some? && h.value != ""
  }

  /** One value of `removed_domain_info`: `[count, reason, matched_pattern]`. */
  datatype HostRecord = HostRecord(count: nat, reason: UrlReason, pattern: string)

  /** The pair `(in_scope, removed_domain_info)`; `hosts` lists the keys of the
      dictionary in insertion order. */
  datatype UrlOutcome = UrlOutcome(inScope: set<string>, hosts: seq<string>, removed: map<string, HostRecord>)

  /** `url` has a host and `decide` removes it. */
  predicate Removes(url: string, hostOf: string -> Option<string>, decide: (string, string) -> Option<Hit>) {
    HasHost(hostOf(url)) && decide(url, hostOf(url).value).Some?
  }

  /** `url` has a host and `decide` keeps it. */
  predicate Keeps(url: string, hostOf: string -> Option<string>, decide: (string, string) -> Option<Hit>) {
    HasHost(hostOf(url)) && decide(url, hostOf(url).value).None?
  }

  /** `url` is removed and its host is `h`. */
  predicate RemovedAs(url: string, h: string, hostOf: string -> Option<string>, decide: (string, string) -> Option<Hit>) {
    Removes(url, hostOf, decide) && hostOf(url).value == h
  }

  /** `urls[i]` is the first removed URL whose host is `h`. */
  predicate FirstRemovalAt(urls: seq<string>, i: int, h: string,
                           hostOf: string -> Option<string>, decide: (string, string) -> Option<Hit>) {
    && 0 <= i < |urls|
    && RemovedAs(urls[i], h, hostOf, decide)
    && forall j :: 0 <= j < i ==> !RemovedAs(urls[j], h, hostOf, decide)
  }

  /** How many URLs of `urls` are removed with host `h`. */
  function RemovedCount(urls: seq<string>, h: string,
                        hostOf: string -> Option<string>, decide: (string, string) -> Option<Hit>): nat
    decreases |urls|
  {
    if |urls| == 0 then 0
    else
      var n := |urls| - 1;
      RemovedCount(urls[..n], h, hostOf, decide) + if RemovedAs(urls[n], h, hostOf, decide) then 1 else 0
  }

  /** The loop body of `filter_urls` for one URL, given what the URLs before
      it produced. */
  function Step(acc: UrlOutcome, url: string,
                hostOf: string -> Option<string>, decide: (string, string) -> Option<Hit>): UrlOutcome
  {
    var h := hostOf(url);
    if !HasHost(h) then acc
    else
      match decide(url, h.value)
      case None => acc.(inScope := acc.inScope + {url})
      case Some(hit) =>
        if h.value in acc.removed then
          var rec := acc.removed[h.value];
          acc.(removed := acc.removed[h.value := rec.(count := rec.count + 1)])
        else
          acc.(hosts := acc.hosts + [h.value],
               removed := acc.removed[h.value := HostRecord(1, hit.reason, hit.pattern)])
  }

  /** The loop of `filter_urls`, visiting `urls` in order. */
  function Sweep(urls: seq<string>,
                 hostOf: string -> Option<string>, decide: (string, string) -> Option<Hit>): UrlOutcome
    decreases |urls|
  {
    if |urls| == 0 then UrlOutcome({}, [], map[])
    else
      var n := |urls| - 1;
      Step(Sweep(urls[..n], hostOf, decide), urls[n], hostOf, decide)
  }

  /** Kept URLs are exactly the URLs with a host that `decide` keeps. */
  lemma {:induction false} SweepInScope(urls: seq<string>,
                                        hostOf: string -> Option<string>, decide: (string, string) -> Option<Hit>)
    ensures forall u :: u in Sweep(urls, hostOf, decide).inScope <==> u in urls && Keeps(u, hostOf, decide)
    decreases |urls|
  {
    if |urls| > 0 {
      var n := |urls| - 1;
      SweepInScope(urls[..n], hostOf, decide);
      assert urls == urls[..n] + [urls[n]];
    }
  }

  /** The dictionary has a key for exactly the hosts of removed URLs, `hosts`
      lists those keys once each, and every count is the number of removed URLs
      with that host. */
  lemma {:induction false} SweepKeys(urls: seq<string>,
                                     hostOf: string -> Option<string>, decide: (string, string) -> Option<Hit>)
    ensures var r := Sweep(urls, hostOf, decide);
      && (forall h :: h in r.removed <==> exists i :: 0 <= i < |urls| && RemovedAs(urls[i], h, hostOf, decide))
      && (forall h :: h in r.hosts <==> h in r.removed)
      && Distinct(r.hosts)
      && (forall h :: h in r.removed ==> r.removed[h].count == RemovedCount(urls, h, hostOf, decide) > 0)
    decreases |urls|
  {
    if |urls| > 0 {
      var n := |urls| - 1;
      SweepKeys(urls[..n], hostOf, decide);
      var acc := Sweep(urls[..n], hostOf, decide);
      var r := Sweep(urls, hostOf, decide);
      var u := urls[n];
      assert urls == urls[..n] + [u];
      forall h | h !in acc.removed
        ensures RemovedCount(urls[..n], h, hostOf, decide) == 0
      {
        NoneRemovedCount(urls[..n], h, hostOf, decide);
      }
      if Removes(u, hostOf, decide) {
        var h := hostOf(u).value;
        assert RemovedAs(urls[n], h, hostOf, decide);
      }
    }
  }

  /** `hosts` lists the keys of the dictionary, once each. */
  lemma {:induction false} SweepHosts(urls: seq<string>,
                                      hostOf: string -> Option<string>, decide: (string, string) -> Option<Hit>)
    ensures var r := Sweep(urls, hostOf, decide);
      (forall h :: h in r.hosts <==> h in r.removed) && Distinct(r.hosts)
    decreases |urls|
  {
    if |urls| > 0 {
      SweepHosts(urls[..|urls| - 1], hostOf, decide);
    }
  }

  /** `hosts` lists the keys in insertion order: a host listed earlier had
      its first removal earlier. */
  lemma {:induction false} SweepOrder(urls: seq<string>,
                                      hostOf: string -> Option<string>, decide: (string, string) -> Option<Hit>)
    ensures var r := Sweep(urls, hostOf, decide);
      forall a, b, i, j ::
        (0 <= a < b < |r.hosts| && FirstRemovalAt(urls, i, r.hosts[a], hostOf, decide)
         && FirstRemovalAt(urls, j, r.hosts[b], hostOf, decide)) ==> i < j
    decreases |urls|
  {
    if |urls| > 0 {
      var n := |urls| - 1;
      var pre := urls[..n];
      SweepOrder(pre, hostOf, decide);
      SweepKeys(pre, hostOf, decide);
      var acc := Sweep(pre, hostOf, decide);
      var r := Sweep(urls, hostOf, decide);
      var u := urls[n];
      assert r.hosts == acc.hosts
          || (Removes(u, hostOf, decide) && hostOf(u).value !in acc.removed
              && r.hosts == acc.hosts + [hostOf(u).value]);
      forall a, b, i, j | 0 <= a < b < |r.hosts| && FirstRemovalAt(urls, i, r.hosts[a], hostOf, decide)
                          && FirstRemovalAt(urls, j, r.hosts[b], hostOf, decide)
        ensures i < j
      {
        assert r.hosts[a] == acc.hosts[a];
        FirstInPrefix(urls, n, i, r.hosts[a], hostOf, decide);
        if b < |acc.hosts| {
          assert r.hosts[b] == acc.hosts[b];
          FirstInPrefix(urls, n, j, r.hosts[b], hostOf, decide);
        } else {
          var h := r.hosts[b];
          assert h !in acc.removed;
          assert forall k :: 0 <= k < n ==> pre[k] == urls[k] && !RemovedAs(pre[k], h, hostOf, decide);
        }
      }
    }
  }

  /** The first removal of a host already seen among `urls[..n]` lies there. */
  lemma FirstInPrefix(urls: seq<string>, n: int, i: int, h: string,
                      hostOf: string -> Option<string>, decide: (string, string) -> Option<Hit>)
    requires 0 <= n <= |urls| && FirstRemovalAt(urls, i, h, hostOf, decide)
    requires exists k :: 0 <= k < n && RemovedAs(urls[..n][k], h, hostOf, decide)
    ensures i < n && FirstRemovalAt(urls[..n], i, h, hostOf, decide)
  {
    var k :| 0 <= k < n && RemovedAs(urls[..n][k], h, hostOf, decide);
    assert urls[..n][k] == urls[k];
  }

  /** No removed URL with host `h` means a count of zero. */
  lemma {:induction false} NoneRemovedCount(urls: seq<string>, h: string,
                                            hostOf: string -> Option<string>, decide: (string, string) -> Option<Hit>)
    requires forall i :: 0 <= i < |urls| ==> !RemovedAs(urls[i], h, hostOf, decide)
    ensures RemovedCount(urls, h, hostOf, decide) == 0
    decreases |urls|
  {
    if |urls| > 0 {
      NoneRemovedCount(urls[..|urls| - 1], h, hostOf, decide);
    }
  }

  /** Each host's reason and pattern are `decide`'s verdict on the first
      removed URL with that host. */
  lemma {:induction false} SweepFirst(urls: seq<string>,
                                      hostOf: string -> Option<string>, decide: (string, string) -> Option<Hit>)
    ensures var r := Sweep(urls, hostOf, decide);
      forall h :: h in r.removed ==>
        exists i :: FirstRemovalAt(urls, i, h, hostOf, decide)
          && decide(urls[i], h) == Some(Hit(r.removed[h].reason, r.removed[h].pattern))
    decreases |urls|
  {
    if |urls| > 0 {
      var n := |urls| - 1;
      SweepFirst(urls[..n], hostOf, decide);
      SweepKeys(urls[..n], hostOf, decide);
      var acc := Sweep(urls[..n], hostOf, decide);
      var r := Sweep(urls, hostOf, decide);
      var u := urls[n];
      assert urls == urls[..n] + [u];
      forall h | h in r.removed
        ensures exists i :: (FirstRemovalAt(urls, i, h, hostOf, decide)
                             && decide(urls[i], h) == Some(Hit(r.removed[h].reason, r.removed[h].pattern)))
      {
        if h in acc.removed {
          var i :| FirstRemovalAt(urls[..n], i, h, hostOf, decide)
            && decide(urls[..n][i], h) == Some(Hit(acc.removed[h].reason, acc.removed[h].pattern));
          assert r.removed[h].reason == acc.removed[h].reason && r.removed[h].pattern == acc.removed[h].pattern;
          assert FirstRemovalAt(urls, i, h, hostOf, decide);
        } else {
          assert RemovedAs(u, h, hostOf, decide);
          assert FirstRemovalAt(urls, n, h, hostOf, decide);
        }
      }
    }
  }

  /** `sum(info[0] for info in removed_info.values())`, the total the summary
      prints, summed over the keys in insertion order. */
  function TotalRemoved(hosts: seq<string>, removed: map<string, HostRecord>): nat
    decreases |hosts|
  {
    if |hosts| == 0 then 0
    else
      var n := |hosts| - 1;
      TotalRemoved(hosts[..n], removed) + if hosts[n] in removed then removed[hosts[n]].count else 0
  }

  /** How many URLs have no hostname and are skipped. */
  function HostlessCount(urls: seq<string>, hostOf: string -> Option<string>): nat
    decreases |urls|
  {
    if |urls| == 0 then 0
    else
      var n := |urls| - 1;
      HostlessCount(urls[..n], hostOf) + if HasHost(hostOf(urls[n])) then 0 else 1
  }

  /** Changing the record of a host that is not listed leaves the total alone. */
  lemma {:induction false} TotalFrame(hosts: seq<string>, removed: map<string, HostRecord>, h: string, rec: HostRecord)
    requires h !in hosts
    ensures TotalRemoved(hosts, removed[h := rec]) == TotalRemoved(hosts, removed)
    decreases |hosts|
  {
    if |hosts| > 0 {
      var n := |hosts| - 1;
      assert hosts[n] != h;
      TotalFrame(hosts[..n], removed, h, rec);
    }
  }

  /** Adding one to the count of a host listed once adds one to the total. */
  lemma {:induction false} TotalBump(hosts: seq<string>, removed: map<string, HostRecord>, h: string)
    requires Distinct(hosts) && h in hosts && h in removed
    ensures var rec := removed[h];
      TotalRemoved(hosts, removed[h := rec.(count := rec.count + 1)]) == TotalRemoved(hosts, removed) + 1
    decreases |hosts|
  {
    var n := |hosts| - 1;
    var rec := removed[h];
    if hosts[n] == h {
      assert h !in hosts[..n];
      TotalFrame(hosts[..n], removed, h, rec.(count := rec.count + 1));
    } else {
      assert h in hosts[..n] by {
        var k :| 0 <= k < |hosts| && hosts[k] == h;
        assert hosts[..n][k] == h;
      }
      TotalBump(hosts[..n], removed, h);
    }
  }

  /** Over distinct URLs every URL is counted once: as kept, as skipped for
      lack of a host, or in the count of its host. */
  lemma {:induction false} SweepConservation(urls: seq<string>,
                                             hostOf: string -> Option<string>, decide: (string, string) -> Option<Hit>)
    requires Distinct(urls)
    ensures var r := Sweep(urls, hostOf, decide);
      TotalRemoved(r.hosts, r.removed) + |r.inScope| + HostlessCount(urls, hostOf) == |urls|
    decreases |urls|
  {
    if |urls| > 0 {
      var n := |urls| - 1;
      var u := urls[n];
      var acc := Sweep(urls[..n], hostOf, decide);
      var r := Sweep(urls, hostOf, decide);
      SweepConservation(urls[..n], hostOf, decide);
      if HasHost(hostOf(u)) {
        var h := hostOf(u).value;
        if decide(u, h).None? {
          SweepInScope(urls[..n], hostOf, decide);
          assert u !in urls[..n];
          assert u !in acc.inScope;
        } else {
          SweepHosts(urls[..n], hostOf, decide);
          if h in acc.removed {
            TotalBump(acc.hosts, acc.removed, h);
          } else {
            TotalFrame(acc.hosts, acc.removed, h, HostRecord(1, decide(u, h).value.reason, decide(u, h).value.pattern));
            assert (acc.hosts + [h])[..|acc.hosts|] == acc.hosts;
          }
        }
      }
    }
  }

  /** How many URLs of `urls` are removed, counting repeats. */
  function RemovalTotal(urls: seq<string>,
                        hostOf: string -> Option<string>, decide: (string, string) -> Option<Hit>): nat
    decreases |urls|
  {
    if |urls| == 0 then 0
    else
      var n := |urls| - 1;
      RemovalTotal(urls[..n], hostOf, decide) + if Removes(urls[n], hostOf, decide) then 1 else 0
  }

  /** The counts summed over the listed hosts are the number of removed URLs. */
  lemma {:induction false} SweepTotal(urls: seq<string>,
                                      hostOf: string -> Option<string>, decide: (string, string) -> Option<Hit>)
    ensures var r := Sweep(urls, hostOf, decide);
      TotalRemoved(r.hosts, r.removed) == RemovalTotal(urls, hostOf, decide)
    decreases |urls|
  {
    if |urls| > 0 {
      var n := |urls| - 1;
      SweepTotal(urls[..n], hostOf, decide);
      SweepHosts(urls[..n], hostOf, decide);
      TotalStep(Sweep(urls[..n], hostOf, decide), urls[n], hostOf, decide);
    }
  }

  /** One loop step adds one to the total exactly when it removes the URL. */
  lemma TotalStep(acc: UrlOutcome, u: string,
                  hostOf: string -> Option<string>, decide: (string, string) -> Option<Hit>)
    requires Distinct(acc.hosts) && forall h :: h in acc.hosts <==> h in acc.removed
    ensures var r := Step(acc, u, hostOf, decide);
      TotalRemoved(r.hosts, r.removed) == TotalRemoved(acc.hosts, acc.removed) + if Removes(u, hostOf, decide) then 1 else 0
  {
    if Removes(u, hostOf, decide) {
      var h := hostOf(u).value;
      var hit := decide(u, h).value;
      if h in acc.removed {
        TotalBump(acc.hosts, acc.removed, h);
      } else {
        TotalAppend(acc.hosts, acc.removed, h, HostRecord(1, hit.reason, hit.pattern));
      }
    }
  }

  /** Listing a new host with its record adds its count to the total. */
  lemma TotalAppend(hosts: seq<string>, removed: map<string, HostRecord>, h: string, rec: HostRecord)
    requires h !in hosts
    ensures TotalRemoved(hosts + [h], removed[h := rec]) == TotalRemoved(hosts, removed) + rec.count
  {
    TotalFrame(hosts, removed, h, rec);
    assert (hosts + [h])[..|hosts|] == hosts;
  }

  /** The per-URL decision `filter_urls` makes for a list of entries. */
  function UrlDecider(outOfScope: seq<string>): (string, string) -> Option<Hit> {
    (url, host) => DecideUrl(url, host, outOfScope)
  }

  /** `filter_urls(urls, out_of_scope)`, with `hostOf` standing for
      `urlparse(url).hostname`. A URL is kept exactly when it has a host and no
      entry rules it out; the dictionary counts the removed URLs of each host
      and keeps the verdict on the first of them. */
  function FilterUrls(urls: seq<string>, outOfScope: seq<string>, hostOf: string -> Option<string>): (r: UrlOutcome)
    ensures forall u :: u in r.inScope <==>
              u in urls && HasHost(hostOf(u)) && UrlInScope(u, hostOf(u).value, outOfScope)
    ensures forall h :: h in r.removed <==>
              exists i :: 0 <= i < |urls| && HasHost(hostOf(urls[i])) && hostOf(urls[i]).value == h
                          && !UrlInScope(urls[i], h, outOfScope)
    ensures forall h :: h in r.hosts <==> h in r.removed
    ensures Distinct(r.hosts)
    ensures forall a, b, i, j ::
              (0 <= a < b < |r.hosts| && FirstRemovalAt(urls, i, r.hosts[a], hostOf, UrlDecider(outOfScope))
               && FirstRemovalAt(urls, j, r.hosts[b], hostOf, UrlDecider(outOfScope))) ==> i < j
    ensures forall h :: h in r.removed ==>
              r.removed[h].count == RemovedCount(urls, h, hostOf, UrlDecider(outOfScope)) && r.removed[h].count > 0
    ensures forall h :: h in r.removed ==>
              exists i :: (FirstRemovalAt(urls, i, h, hostOf, UrlDecider(outOfScope))
                           && DecideUrl(urls[i], h, outOfScope) == Some(Hit(r.removed[h].reason, r.removed[h].pattern)))
  {
    var decide := UrlDecider(outOfScope);
    UrlSweepFacts(urls, outOfScope, hostOf);
    Sweep(urls, hostOf, decide)
  }

  /** The generic loop facts, read through `DecideUrl`. */
  lemma UrlSweepFacts(urls: seq<string>, outOfScope: seq<string>, hostOf: string -> Option<string>)
    ensures var r := Sweep(urls, hostOf, UrlDecider(outOfScope));
      && (forall u :: u in r.inScope <==>
            u in urls && HasHost(hostOf(u)) && UrlInScope(u, hostOf(u).value, outOfScope))
      && (forall h :: h in r.removed <==>
            exists i :: 0 <= i < |urls| && HasHost(hostOf(urls[i])) && hostOf(urls[i]).value == h
                        && !UrlInScope(urls[i], h, outOfScope))
      && (forall h :: h in r.hosts <==> h in r.removed)
      && Distinct(r.hosts)
      && (forall a, b, i, j ::
            (0 <= a < b < |r.hosts| && FirstRemovalAt(urls, i, r.hosts[a], hostOf, UrlDecider(outOfScope))
             && FirstRemovalAt(urls, j, r.hosts[b], hostOf, UrlDecider(outOfScope))) ==> i < j)
      && (forall h :: h in r.removed ==>
            r.removed[h].count == RemovedCount(urls, h, hostOf, UrlDecider(outOfScope)) > 0)
      && (forall h :: h in r.removed ==>
            exists i :: (FirstRemovalAt(urls, i, h, hostOf, UrlDecider(outOfScope))
                         && DecideUrl(urls[i], h, outOfScope) == Some(Hit(r.removed[h].reason, r.removed[h].pattern))))
  {
    var decide := UrlDecider(outOfScope);
    var r := Sweep(urls, hostOf, decide);
    SweepInScope(urls, hostOf, decide);
    SweepKeys(urls, hostOf, decide);
    SweepFirst(urls, hostOf, decide);
    SweepOrder(urls, hostOf, decide);
    forall u, h ensures decide(u, h) == DecideUrl(u, h, outOfScope) {
    }
    forall h ensures h in r.removed <==>
        exists i :: 0 <= i < |urls| && HasHost(hostOf(urls[i])) && hostOf(urls[i]).value == h
                    && !UrlInScope(urls[i], h, outOfScope)
    {
      if h in r.removed {
        var i :| 0 <= i < |urls| && RemovedAs(urls[i], h, hostOf, decide);
        assert HasHost(hostOf(urls[i])) && hostOf(urls[i]).value == h && !UrlInScope(urls[i], h, outOfScope);
      }
      if exists i :: 0 <= i < |urls| && HasHost(hostOf(urls[i])) && hostOf(urls[i]).value == h
                     && !UrlInScope(urls[i], h, outOfScope) {
        var i :| 0 <= i < |urls| && HasHost(hostOf(urls[i])) && hostOf(urls[i]).value == h
                 && !UrlInScope(urls[i], h, outOfScope);
        assert RemovedAs(urls[i], h, hostOf, decide);
      }
    }
  }

  /** The summary's arithmetic for URL mode: over the distinct URLs read from
      the input file, the removed total plus the in-scope count plus the URLs
      without a hostname is the input count. */
  lemma Conservation(urls: seq<string>, outOfScope: seq<string>, hostOf: string -> Option<string>)
    requires Distinct(urls)
    ensures var r := FilterUrls(urls, outOfScope, hostOf);
      TotalRemoved(r.hosts, r.removed) + |r.inScope| + HostlessCount(urls, hostOf) == |urls|
  {
    SweepConservation(urls, hostOf, UrlDecider(outOfScope));
  }

  /** `total_removed` in URL mode counts removed URLs, not hosts: it is the
      number of URLs, repeats included, that have a host and are out of scope. */
  lemma TotalCountsRemovals(urls: seq<string>, outOfScope: seq<string>, hostOf: string -> Option<string>)
    ensures var r := FilterUrls(urls, outOfScope, hostOf);
      TotalRemoved(r.hosts, r.removed) == RemovalTotal(urls, hostOf, UrlDecider(outOfScope))
  {
    SweepTotal(urls, hostOf, UrlDecider(outOfScope));
  }

  /** Filtering the kept URLs again removes nothing and keeps them all. */
  lemma Idempotent(urls: seq<string>, outOfScope: seq<string>, hostOf: string -> Option<string>, again: seq<string>)
    requires forall u :: u in again <==> u in FilterUrls(urls, outOfScope, hostOf).inScope
    ensures var r2 := FilterUrls(again, outOfScope, hostOf);
      && r2.inScope == FilterUrls(urls, outOfScope, hostOf).inScope
      && r2.removed == map[]
      && r2.hosts == []
  {
    var r2 := FilterUrls(again, outOfScope, hostOf);
    assert r2.removed.Keys == {};
    NoMemberMeansEmpty(r2.hosts);
  }

  /** The order of the out-of-scope entries does not change the kept URLs, the
      hosts in the dictionary and their order, or their counts (only which
      pattern is reported can change). */
  lemma EntryOrderIrrelevant(urls: seq<string>, o1: seq<string>, o2: seq<string>, hostOf: string -> Option<string>)
    requires forall p :: p in o1 <==> p in o2
    ensures var r1 := FilterUrls(urls, o1, hostOf);
      var r2 := FilterUrls(urls, o2, hostOf);
      && r1.inScope == r2.inScope
      && r1.hosts == r2.hosts
      && r1.removed.Keys == r2.removed.Keys
      && forall h :: h in r1.removed ==> r1.removed[h].count == r2.removed[h].count
  {
    SameEntriesSameScope(o1, o2);
    var d1 := UrlDecider(o1);
    var d2 := UrlDecider(o2);
    forall u, h ensures d1(u, h).Some? <==> d2(u, h).Some? {
      assert d1(u, h).None? <==> UrlInScope(u, h, o1);
      assert d2(u, h).None? <==> UrlInScope(u, h, o2);
    }
    SweepSameShape(urls, hostOf, d1, d2);
  }

  /** Entry lists with the same members rule out the same URLs. */
  lemma SameEntriesSameScope(o1: seq<string>, o2: seq<string>)
    requires forall p :: p in o1 <==> p in o2
    ensures forall u, h :: UrlInScope(u, h, o1) <==> UrlInScope(u, h, o2)
  {
    forall u, h ensures UrlInScope(u, h, o1) <==> UrlInScope(u, h, o2) {
      assert UrlLevelHit(u, o1) <==> UrlLevelHit(u, o2);
      assert HostLevelHit(h, o1) <==> HostLevelHit(h, o2);
    }
  }

  /** Two deciders that remove the same URLs give the loop the same shape. */
  lemma {:induction false} SweepSameShape(urls: seq<string>, hostOf: string -> Option<string>,
                                          d1: (string, string) -> Option<Hit>, d2: (string, string) -> Option<Hit>)
    requires forall u, h :: d1(u, h).Some? <==> d2(u, h).Some?
    ensures var r1 := Sweep(urls, hostOf, d1);
      var r2 := Sweep(urls, hostOf, d2);
      && r1.inScope == r2.inScope
      && r1.hosts == r2.hosts
      && r1.removed.Keys == r2.removed.Keys
      && forall h :: h in r1.removed ==> r1.removed[h].count == r2.removed[h].count
    decreases |urls|
  {
    if |urls| > 0 {
      SweepSameShape(urls[..|urls| - 1], hostOf, d1, d2);
    }
  }

  /** `url.lower()` is compared with the entries as written, so an exact URL
      entry that holds an upper-case ASCII letter never matches any URL. */
  lemma UpperCaseExactEntryNeverMatches(url: string, host: string, outOfScope: seq<string>, p: string, k: int)
    requires 0 <= k < |p| && 'A' <= p[k] <= 'Z'
    ensures DecideUrl(url, host, outOfScope) != Some(Hit(ExactUrlMatch, p))
  {
  }

  /** Appending `*` keeps a URL entry a URL entry and makes it a wildcard. */
  lemma PrefixStarIsUrlWildcard(prefix: string)
    requires IsUrlPattern(prefix)
    ensures IsUrlPattern(prefix + "*") && HasStar(prefix + "*")
  {
    var p := prefix + "*";
    assert p[|prefix|] == '*';
    assert p[..7] == prefix[..7] && (|prefix| >= 8 ==> p[..8] == prefix[..8]);
  }

  lemma DecideUnderPrefix(url: string, host: string, prefix: string)
    requires Plain(prefix) && IsUrlPattern(prefix)
    requires StartsWith(Lower(url), prefix)
    ensures DecideUrl(url, host, [prefix + "*"]) == Some(Hit(WildcardUrlMatch, prefix + "*"))
  {
    PrefixStarIsUrlWildcard(prefix);
    PlainThenStar(Lower(url), prefix);
    assert UrlLevelHit(url, [prefix + "*"]);
  }

  lemma DecideOutsidePrefix(url: string, host: string, prefix: string)
    requires Plain(prefix) && IsUrlPattern(prefix)
    requires !StartsWith(Lower(url), prefix)
    ensures DecideUrl(url, host, [prefix + "*"]).None?
  {
    PrefixStarIsUrlWildcard(prefix);
    PlainThenStar(Lower(url), prefix);
    assert !HostLevelHit(host, [prefix + "*"]);
  }

  /** With the single entry `prefix` + `*` (say the prefix
      "http://a.example.com/"), a URL under the prefix (say
      "http://a.example.com/x") is removed as a wildcard URL match, counted
      once under its host, and a URL outside it (say "https://good.com/y") is
      the whole in-scope set. */
  lemma UrlScenario(u1: string, u2: string, prefix: string, hostOf: string -> Option<string>)
    requires Plain(prefix) && IsUrlPattern(prefix)
    requires StartsWith(Lower(u1), prefix) && !StartsWith(Lower(u2), prefix)
    requires HasHost(hostOf(u1)) && HasHost(hostOf(u2))
    ensures var r := FilterUrls([u1, u2], [prefix + "*"], hostOf);
      var h := hostOf(u1).value;
      && r.inScope == {u2}
      && r.hosts == [h]
      && r.removed == map[h := HostRecord(1, WildcardUrlMatch, prefix + "*")]
  {
    var d := UrlDecider([prefix + "*"]);
    DecideUnderPrefix(u1, hostOf(u1).value, prefix);
    DecideOutsidePrefix(u2, hostOf(u2).value, prefix);
    var s0 := Sweep([], hostOf, d);
    var s1 := Sweep([u1], hostOf, d);
    assert [u1][..0] == [] && [u1, u2][..1] == [u1];
    assert s1 == Step(s0, u1, hostOf, d);
    assert Sweep([u1, u2], hostOf, d) == Step(s1, u2, hostOf, d);
  }
}
