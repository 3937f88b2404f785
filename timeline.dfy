/** The timeline's data (src/components/Debugger/Timeline.ts): the summary of every event of
    an exchange, the search filter over summaries, and the page URL shown as the heading. */
module Timeline {
  import opened Wrappers
  import opened Text
  import opened Validator
  import opened Beacons
  import opened Naming
  import opened BeaconValidity

  /** `IBeaconSummary` without its display time. */
  datatype Summary = Summary(
    appId: Option<string>,
    collector: string,
    eventName: string,
    id: string,
    httpMethod: string,
    page: Option<string>,
    payload: Fields,
    validity: Validity)

  /** `req.get(k)`: `undefined` when the field is absent. */
  function Get(params: Fields, k: string): Option<string> {
    if k in params then Some(params[k]) else None
  }

  /** `#${id}-${i}` */
  function BeaconId(gid: string, i: nat): string {
    "#" + gid + "-" + NatToString(i)
  }

  lemma BeaconIdInjective(gid: string, i: nat, j: nat)
    ensures BeaconId(gid, i) == BeaconId(gid, j) ==> i == j
  {
    var prefix := "#" + gid + "-";
    if BeaconId(gid, i) == BeaconId(gid, j) {
      assert NatToString(i) == (prefix + NatToString(i))[|prefix|..];
      assert NatToString(j) == (prefix + NatToString(j))[|prefix|..];
      NatToStringInjective(i, j);
    }
  }

  /** A payload value matches when the pattern finds its base64 decoding (`""` when it does
      not decode) or the raw value. */
  predicate ValueMatches(x: string, test: string -> bool, host: Host) {
    test(host.b64d(x).GetOr("")) || test(x)
  }

  predicate Matches(b: Summary, test: string -> bool, host: Host) {
    || (b.appId.Some? && b.appId.value != "" && test(b.appId.value))
    || test(b.collector)
    || test(b.eventName)
    || test(b.httpMethod)
    || (b.page.Some? && b.page.value != "" && test(b.page.value))
    || exists k :: k in b.payload && ValueMatches(b.payload[k], test, host)
  }

  /** `filterRequest(beacon, filter)`: no filter keeps everything. */
  predicate FilterRequest(b: Summary, filter: Option<string -> bool>, host: Host) {
    filter.None? || Matches(b, filter.value, host)
  }

  /** A filter that finds any payload value, decoded or raw, keeps the summary. */
  lemma FilterFindsPayload(b: Summary, test: string -> bool, host: Host, k: string)
    requires k in b.payload
    requires test(host.b64d(b.payload[k]).GetOr("")) || test(b.payload[k])
    ensures FilterRequest(b, Some(test), host)
  {
    assert ValueMatches(b.payload[k], test, host);
  }

  /** A filter that finds none of the fields drops the summary; an empty application id or
      page is never searched. */
  lemma FilterDropsUnmatched(b: Summary, test: string -> bool, host: Host)
    requires b.appId.None? || b.appId.value == "" || !test(b.appId.value)
    requires !test(b.collector) && !test(b.eventName) && !test(b.httpMethod)
    requires b.page.None? || b.page.value == "" || !test(b.page.value)
    requires forall k :: k in b.payload ==> !test(host.b64d(b.payload[k]).GetOr("")) && !test(b.payload[k])
    ensures !FilterRequest(b, Some(test), host)
  {
  }

  /** Everything the filter is tried against: the application id and page when present and
      non-empty, the collector, event name and method, and every payload value both raw and
      base64-decoded (`""` when it does not decode). */
  function SearchedTexts(b: Summary, host: Host): set<string> {
    (if b.appId.Some? && b.appId.value != "" then {b.appId.value} else {})
    + {b.collector, b.eventName, b.httpMethod}
    + (if b.page.Some? && b.page.value != "" then {b.page.value} else {})
    + (set k | k in b.payload :: b.payload[k])
    + (set k | k in b.payload :: host.b64d(b.payload[k]).GetOr(""))
  }

  /** A filter keeps a summary exactly when it finds one of the searched texts. */
  lemma FilterSearchesExactlyTexts(b: Summary, test: string -> bool, host: Host)
    ensures FilterRequest(b, Some(test), host) <==> exists x :: x in SearchedTexts(b, host) && test(x)
  {
    var texts := SearchedTexts(b, host);
    if Matches(b, test, host) {
      if b.appId.Some? && b.appId.value != "" && test(b.appId.value) {
        assert b.appId.value in texts;
      } else if test(b.collector) {
        assert b.collector in texts;
      } else if test(b.eventName) {
        assert b.eventName in texts;
      } else if test(b.httpMethod) {
        assert b.httpMethod in texts;
      } else if b.page.Some? && b.page.value != "" && test(b.page.value) {
        assert b.page.value in texts;
      } else {
        var k :| k in b.payload && ValueMatches(b.payload[k], test, host);
        if test(b.payload[k]) {
          assert b.payload[k] in texts;
        } else {
          assert host.b64d(b.payload[k]).GetOr("") in texts;
        }
      }
    }
    if exists x :: x in texts && test(x) {
      var x :| x in texts && test(x);
      if x in (set k | k in b.payload :: b.payload[k]) {
        var k :| k in b.payload && b.payload[k] == x;
        assert ValueMatches(b.payload[k], test, host);
      } else if x in (set k | k in b.payload :: host.b64d(b.payload[k]).GetOr("")) {
        var k :| k in b.payload && host.b64d(b.payload[k]).GetOr("") == x;
        assert ValueMatches(b.payload[k], test, host);
      }
    }
  }

  /** The filter never looks at a summary's validity. */
  lemma FilterIgnoresValidity(b: Summary, v: Validity, filter: Option<string -> bool>, host: Host)
    ensures FilterRequest(b.(validity := v), filter, host) == FilterRequest(b, filter, host)
  {
    assert SearchedTexts(b.(validity := v), host) == SearchedTexts(b, host);
    if filter.Some? {
      FilterSearchesExactlyTexts(b, filter.value, host);
      FilterSearchesExactlyTexts(b.(validity := v), filter.value, host);
    }
  }

  /** What `summariseBeacons` has produced after a prefix of the beacons: the registry, the
      kept summaries (`None` once `nameEvent` has thrown, which ends the call), the index of
      the beacon behind each kept summary, and the URLs requested. */
  datatype Summaries = Summaries(reg: RegistryState, kept: Option<seq<Summary>>, positions: seq<nat>, fetches: seq<string>)

  function SummaryOf(g: Group, i: nat, req: Fields, name: string, validity: Validity): Summary {
    Summary(Get(req, "aid"), g.collector, name, BeaconId(g.id, i), g.httpMethod, Get(req, "url"), req, validity)
  }

  /** Beacon `i` is named and its summary passes the filter. The filter never looks at the
      validity, so any verdict will do. */
  predicate Selected(g: Group, i: nat, req: Fields, filter: Option<string -> bool>, host: Host) {
    match NameEvent(req, host)
    case None => false
    case Some(name) => FilterRequest(SummaryOf(g, i, req, name, Valid), filter, host)
  }

  /** One iteration of the loop of `summariseBeacons`, for the beacon at index `i`. */
  function SummariseStep(prev: Summaries, g: Group, i: nat, req: Fields, filter: Option<string -> bool>, host: Host, jsv: Jsv): (r: Summaries)
    ensures prev.kept.None? ==> r == prev
    ensures r.kept.None? <==> prev.kept.None? || NameEvent(req, host).None?
    ensures r.kept.Some? ==>
      || (r.kept == prev.kept && r.positions == prev.positions)
      || (&& |r.kept.value| >= 1 && prev.kept.Some?
          && r.kept.value == prev.kept.value + [r.kept.value[|r.kept.value| - 1]]
          && r.positions == prev.positions + [i]
          && KeptSummaryOf(r.kept.value[|r.kept.value| - 1], g, i, req, filter, host))
    ensures r.kept.Some? && Selected(g, i, req, filter, host) ==> r.positions == prev.positions + [i]
    ensures r.kept.Some? && !Selected(g, i, req, filter, host) ==> r.positions == prev.positions
  {
    if prev.kept.None? then prev
    else
      match NameEvent(req, host)
      case None => prev.(kept := None)
      case Some(name) =>
        var run := ValidateEventSpec(prev.reg, req, host, jsv);
        var sm := SummaryOf(g, i, req, name, VerdictOf(run.acc));
        FilterIgnoresValidity(SummaryOf(g, i, req, name, Valid), VerdictOf(run.acc), filter, host);
        if FilterRequest(sm, filter, host) then
          Summaries(run.reg, Some(prev.kept.value + [sm]), prev.positions + [i], prev.fetches + run.fetches)
        else
          Summaries(run.reg, prev.kept, prev.positions, prev.fetches + run.fetches)
  }

  function SummariseSpec(s: RegistryState, g: Group, reqs: seq<Fields>, filter: Option<string -> bool>, host: Host, jsv: Jsv): Summaries {
    if reqs == [] then Summaries(s, Some([]), [], [])
    else
      var i := |reqs| - 1;
      SummariseStep(SummariseSpec(s, g, reqs[..i], filter, host, jsv), g, i, reqs[i], filter, host, jsv)
  }

  /** Once `nameEvent` has thrown, nothing after it happens. */
  lemma {:induction false} AbortIsFinal(s: RegistryState, g: Group, reqs: seq<Fields>, i: nat, filter: Option<string -> bool>, host: Host, jsv: Jsv)
    requires i <= |reqs|
    requires SummariseSpec(s, g, reqs[..i], filter, host, jsv).kept.None?
    ensures SummariseSpec(s, g, reqs, filter, host, jsv) == SummariseSpec(s, g, reqs[..i], filter, host, jsv)
    decreases |reqs|
  {
    if i < |reqs| {
      var init := reqs[..|reqs| - 1];
      assert init[..i] == reqs[..i];
      AbortIsFinal(s, g, init, i, filter, host, jsv);
    } else {
      assert reqs[..i] == reqs;
    }
  }

  /** A beacon that cannot be named makes the whole call fail. */
  lemma NameFailureAborts(s: RegistryState, g: Group, reqs: seq<Fields>, i: nat, filter: Option<string -> bool>, host: Host, jsv: Jsv)
    requires i < |reqs| && NameEvent(reqs[i], host).None?
    ensures SummariseSpec(s, g, reqs, filter, host, jsv).kept.None?
  {
    var upTo := reqs[..i + 1];
    assert upTo[..i] == reqs[..i] && upTo[i] == reqs[i];
    assert SummariseSpec(s, g, upTo, filter, host, jsv).kept.None?;
    AbortIsFinal(s, g, reqs, i + 1, filter, host, jsv);
  }

  /** When every beacon can be named, the call succeeds. */
  lemma {:induction false} AllNamedSucceeds(s: RegistryState, g: Group, reqs: seq<Fields>, filter: Option<string -> bool>, host: Host, jsv: Jsv)
    requires forall i :: 0 <= i < |reqs| ==> NameEvent(reqs[i], host).Some?
    ensures SummariseSpec(s, g, reqs, filter, host, jsv).kept.Some?
  {
    if reqs != [] {
      var init := reqs[..|reqs| - 1];
      assert forall i :: 0 <= i < |init| ==> init[i] == reqs[i];
      AllNamedSucceeds(s, g, init, filter, host, jsv);
    }
  }

  /** The call fails exactly when some beacon cannot be named. */
  lemma FailsIffSomeNameFails(s: RegistryState, g: Group, reqs: seq<Fields>, filter: Option<string -> bool>, host: Host, jsv: Jsv)
    ensures SummariseSpec(s, g, reqs, filter, host, jsv).kept.None?
        <==> exists i :: 0 <= i < |reqs| && NameEvent(reqs[i], host).None?
  {
    if i :| 0 <= i < |reqs| && NameEvent(reqs[i], host).None? {
      NameFailureAborts(s, g, reqs, i, filter, host, jsv);
    } else {
      AllNamedSucceeds(s, g, reqs, filter, host, jsv);
    }
  }

  predicate StrictlyIncreasing(xs: seq<nat>) {
    forall a, b :: 0 <= a < b < |xs| ==> xs[a] < xs[b]
  }

  /** `b` is the summary of beacon `i`, named by `nameEvent`, carrying the beacon's own
      fields and id, and accepted by the filter. */
  predicate KeptSummaryOf(b: Summary, g: Group, i: nat, req: Fields, filter: Option<string -> bool>, host: Host) {
    && b.id == BeaconId(g.id, i)
    && b.payload == req
    && b.collector == g.collector
    && b.httpMethod == g.httpMethod
    && b.appId == Get(req, "aid")
    && b.page == Get(req, "url")
    && NameEvent(req, host) == Some(b.eventName)
    && FilterRequest(b, filter, host)
  }

  /** Every kept summary is the summary of its beacon; beacons keep their order. */
  predicate KeptFaithful(r: Summaries, g: Group, reqs: seq<Fields>, filter: Option<string -> bool>, host: Host) {
    r.kept.Some? ==>
      && |r.positions| == |r.kept.value|
      && StrictlyIncreasing(r.positions)
      && forall a :: 0 <= a < |r.positions| ==>
           r.positions[a] < |reqs| && KeptSummaryOf(r.kept.value[a], g, r.positions[a], reqs[r.positions[a]], filter, host)
  }

  /** Keeping the previous summaries, or appending the summary of the last beacon at its
      own position, keeps the kept summaries faithful. */
  lemma KeptFaithfulStep(prev: Summaries, next: Summaries, g: Group, reqs: seq<Fields>, filter: Option<string -> bool>, host: Host)
    requires reqs != [] && KeptFaithful(prev, g, reqs[..|reqs| - 1], filter, host)
    requires next.kept.Some? ==> prev.kept.Some?
    requires next.kept.Some? ==>
               || (next.kept == prev.kept && next.positions == prev.positions)
               || (&& |next.kept.value| >= 1
                   && next.kept.value == prev.kept.value + [next.kept.value[|next.kept.value| - 1]]
                   && next.positions == prev.positions + [|reqs| - 1]
                   && KeptSummaryOf(next.kept.value[|next.kept.value| - 1], g, |reqs| - 1, reqs[|reqs| - 1], filter, host))
    ensures KeptFaithful(next, g, reqs, filter, host)
  {
    var n := |reqs| - 1;
    if next.kept.Some? {
      assert forall a :: 0 <= a < |prev.positions| ==> prev.positions[a] < n;
      forall a | 0 <= a < |prev.positions|
        ensures reqs[prev.positions[a]] == reqs[..n][prev.positions[a]]
      {
      }
    }
  }

  lemma {:induction false} KeptAreFilteredBeacons(s: RegistryState, g: Group, reqs: seq<Fields>, filter: Option<string -> bool>, host: Host, jsv: Jsv)
    ensures KeptFaithful(SummariseSpec(s, g, reqs, filter, host, jsv), g, reqs, filter, host)
  {
    if reqs != [] {
      KeptAreFilteredBeacons(s, g, reqs[..|reqs| - 1], filter, host, jsv);
      var prev := SummariseSpec(s, g, reqs[..|reqs| - 1], filter, host, jsv);
      KeptFaithfulStep(prev, SummariseStep(prev, g, |reqs| - 1, reqs[|reqs| - 1], filter, host, jsv), g, reqs, filter, host);
    }
  }

  /** The indices `i` of `xs` at which `p(i, xs[i])` holds, in order. */
  function IndicesWhere<T>(xs: seq<T>, p: (nat, T) -> bool): seq<nat> {
    if xs == [] then []
    else
      var n := |xs| - 1;
      IndicesWhere(xs[..n], p) + (if p(n, xs[n]) then [n] else [])
  }

  lemma {:induction false} IndicesWhereMembers<T>(xs: seq<T>, p: (nat, T) -> bool)
    ensures forall i :: i in IndicesWhere(xs, p) <==> 0 <= i < |xs| && p(i, xs[i])
  {
    if xs != [] {
      var n := |xs| - 1;
      IndicesWhereMembers(xs[..n], p);
      assert forall i :: 0 <= i < n ==> xs[..n][i] == xs[i];
    }
  }

  /** The indices of the selected beacons, in order. */
  function SelectedIndices(g: Group, reqs: seq<Fields>, filter: Option<string -> bool>, host: Host): seq<nat> {
    IndicesWhere(reqs, (i: nat, req: Fields) => Selected(g, i, req, filter, host))
  }

  /** An index is listed exactly when its beacon is selected. */
  lemma SelectedIndicesMembers(g: Group, reqs: seq<Fields>, filter: Option<string -> bool>, host: Host)
    ensures forall i :: i in SelectedIndices(g, reqs, filter, host) <==> 0 <= i < |reqs| && Selected(g, i, reqs[i], filter, host)
  {
    IndicesWhereMembers(reqs, (i: nat, req: Fields) => Selected(g, i, req, filter, host));
  }

  /** The kept beacons are exactly the selected ones, in order: the filter drops every other. */
  lemma {:induction false} KeptExactlySelected(s: RegistryState, g: Group, reqs: seq<Fields>, filter: Option<string -> bool>, host: Host, jsv: Jsv)
    ensures var r := SummariseSpec(s, g, reqs, filter, host, jsv);
      r.kept.Some? ==> r.positions == SelectedIndices(g, reqs, filter, host)
  {
    if reqs != [] {
      KeptExactlySelected(s, g, reqs[..|reqs| - 1], filter, host, jsv);
    }
  }

  /** Ids of the kept summaries are pairwise distinct. */
  lemma KeptIdsDistinct(s: RegistryState, g: Group, reqs: seq<Fields>, filter: Option<string -> bool>, host: Host, jsv: Jsv)
    ensures var r := SummariseSpec(s, g, reqs, filter, host, jsv);
      r.kept.Some? ==> forall a, b :: 0 <= a < b < |r.kept.value| ==> r.kept.value[a].id != r.kept.value[b].id
  {
    var r := SummariseSpec(s, g, reqs, filter, host, jsv);
    KeptAreFilteredBeacons(s, g, reqs, filter, host, jsv);
    if r.kept.Some? {
      forall a, b | 0 <= a < b < |r.kept.value|
        ensures r.kept.value[a].id != r.kept.value[b].id
      {
        BeaconIdInjective(g.id, r.positions[a], r.positions[b]);
      }
    }
  }

  lemma IndicesSnoc(n: nat)
    ensures seq(n + 1, i => i) == seq(n, i => i) + [n]
  {
  }

  /** Without a filter every beacon is kept, in order. */
  lemma {:induction false} NoFilterKeepsEveryBeacon(s: RegistryState, g: Group, reqs: seq<Fields>, host: Host, jsv: Jsv)
    ensures var r := SummariseSpec(s, g, reqs, None, host, jsv);
      r.kept.Some? ==> r.positions == seq(|reqs|, i => i)
  {
    if reqs != [] {
      var n := |reqs| - 1;
      NoFilterKeepsEveryBeacon(s, g, reqs[..n], host, jsv);
      var prev := SummariseSpec(s, g, reqs[..n], None, host, jsv);
      var r := SummariseStep(prev, g, n, reqs[n], None, host, jsv);
      if r.kept.Some? {
        assert Selected(g, n, reqs[n], None, host);
        IndicesSnoc(n);
      }
    }
  }

  /** `summariseBeacons(entry, index, filter)`; `None` when `nameEvent` throws. */
  method SummariseBeacons(reg: SchemaRegistry, entry: Entry, index: nat, filter: Option<string -> bool>, host: Host, jsv: Jsv)
    returns (results: Option<seq<Summary>>, fetches: seq<string>)
    requires reg.Valid()
    modifies reg
    ensures reg.Valid()
    ensures var r := SummariseSpec(old(reg.State()), GroupOf(entry, index, host), ExtractedBeacons(entry.request, host), filter, host, jsv);
      results == r.kept && reg.State() == r.reg && fetches == r.fetches
    ensures reg.storedCache == old(reg.storedCache) && reg.storedStatus == old(reg.storedStatus)
  {
    var group, reqs := ExtractRequests(entry, index, host);
    results, fetches := SummariseRequests(reg, group, reqs, filter, host, jsv);
  }

  /** The loop of `summariseBeacons` over the extracted beacons of one group. */
  method SummariseRequests(reg: SchemaRegistry, group: Group, reqs: seq<Fields>, filter: Option<string -> bool>, host: Host, jsv: Jsv)
    returns (results: Option<seq<Summary>>, fetches: seq<string>)
    requires reg.Valid()
    modifies reg
    ensures reg.Valid()
    ensures var r := SummariseSpec(old(reg.State()), group, reqs, filter, host, jsv);
      results == r.kept && reg.State() == r.reg && fetches == r.fetches
    ensures reg.storedCache == old(reg.storedCache) && reg.storedStatus == old(reg.storedStatus)
  {
    ghost var s := reg.State();
    var kept: seq<Summary> := [];
    fetches := [];
    for i := 0 to |reqs|
      invariant reg.Valid()
      invariant reg.storedCache == old(reg.storedCache) && reg.storedStatus == old(reg.storedStatus)
      invariant var r := SummariseSpec(s, group, reqs[..i], filter, host, jsv);
        r.kept == Some(kept) && r.reg == reg.State() && r.fetches == fetches
    {
      ghost var prev := SummariseSpec(s, group, reqs[..i], filter, host, jsv);
      assert reqs[..i + 1][..i] == reqs[..i];
      assert SummariseSpec(s, group, reqs[..i + 1], filter, host, jsv)
          == SummariseStep(prev, group, i, reqs[i], filter, host, jsv);
      var named;
      named, kept, fetches := SummariseNext(reg, group, i, reqs[i], filter, host, jsv, kept, fetches, prev);
      if !named {
        AbortIsFinal(s, group, reqs, i + 1, filter, host, jsv);
        return None, fetches;
      }
    }
    assert reqs[..|reqs|] == reqs;
    results := Some(kept);
  }

  /** One iteration of the loop of `summariseBeacons`: name the beacon (`false` when
      `nameEvent` throws), validate it, and keep its summary if the filter accepts it. */
  method SummariseNext(reg: SchemaRegistry, g: Group, i: nat, req: Fields, filter: Option<string -> bool>, host: Host, jsv: Jsv,
                       kept: seq<Summary>, fetches: seq<string>, ghost prev: Summaries)
    returns (named: bool, kept': seq<Summary>, fetches': seq<string>)
    requires reg.Valid()
    requires prev.kept == Some(kept) && prev.reg == reg.State() && prev.fetches == fetches
    modifies reg
    ensures reg.Valid()
    ensures var r := SummariseStep(prev, g, i, req, filter, host, jsv);
      && (named <==> r.kept.Some?)
      && (named ==> r.kept == Some(kept'))
      && r.reg == reg.State() && r.fetches == fetches'
    ensures reg.storedCache == old(reg.storedCache) && reg.storedStatus == old(reg.storedStatus)
  {
    kept', fetches' := kept, fetches;
    var name := NameEvent(req, host);
    if name.None? {
      return false, kept', fetches';
    }
    var validity, f := ValidateEvent(reg, req, host, jsv);
    var summary := SummaryOf(g, i, req, name.value, validity);
    if FilterRequest(summary, filter, host) {
      kept' := kept + [summary];
    }
    fetches' := fetches + f;
    named := true;
  }

  /** A header name the pattern `/referr?er/i` matches. */
  predicate MentionsReferrer(name: string) {
    Contains(Lower(name), "referer") || Contains(Lower(name), "referrer")
  }

  /** The value of the first referrer header of each entry that has one, in entry order. */
  function Referrers(entries: seq<Entry>): seq<string> {
    if entries == [] then []
    else
      var init := Referrers(entries[..|entries| - 1]);
      match FirstMatch(entries[|entries| - 1].request.headers, MentionsReferrer)
      case None => init
      case Some(v) => init + [v]
  }

  lemma ReferrersSnoc(entries: seq<Entry>, e: nat)
    requires e < |entries|
    ensures Referrers(entries[..e + 1]) ==
      match FirstMatch(entries[e].request.headers, MentionsReferrer)
      case None => Referrers(entries[..e])
      case Some(v) => Referrers(entries[..e]) + [v]
  {
    assert entries[..e + 1][..e] == entries[..e];
  }

  /** `ac[v] = (ac[v] || 0) + 1` keeps the counts equal to the multiplicities. */
  lemma CountStep(counts: map<string, nat>, seen: seq<string>, v: string)
    requires forall x :: x in counts <==> x in seen
    requires forall x :: x in counts ==> counts[x] == multiset(seen)[x]
    ensures var counts' := counts[v := if v in counts then counts[v] + 1 else 1];
      && (forall x :: x in counts' <==> x in seen + [v])
      && (forall x :: x in counts' ==> counts'[x] == multiset(seen + [v])[x])
  {
    assert multiset(seen + [v]) == multiset(seen) + multiset{v};
    if v !in counts {
      assert multiset(seen)[v] == 0;
    }
  }

  lemma FirstSeenSnoc(refs: seq<string>, v: string)
    ensures FirstSeen(refs + [v]) == if v in FirstSeen(refs) then FirstSeen(refs) else FirstSeen(refs) + [v]
  {
    assert (refs + [v])[..|refs|] == refs;
  }

  /** The referrers in the order their keys were first added to the count object. */
  function FirstSeen(refs: seq<string>): seq<string> {
    AppendNew([], refs)
  }

  /** Each referrer is listed once, and a referrer listed before another first occurs before it. */
  lemma FirstSeenIsFirstOccurrenceOrder(refs: seq<string>)
    ensures forall x :: x in FirstSeen(refs) <==> x in refs
    ensures NoDuplicates(FirstSeen(refs))
    ensures var order := FirstSeen(refs);
      forall i, j :: 0 <= i < j < |order| ==> exists p :: 0 <= p < |refs| && refs[p] == order[i] && order[j] !in refs[..p + 1]
  {
    var order := FirstSeen(refs);
    forall i, j | 0 <= i < j < |order|
      ensures exists p :: 0 <= p < |refs| && refs[p] == order[i] && order[j] !in refs[..p + 1]
    {
      AppendNewOrderAt([], refs, i, j);
    }
  }

  /** The `reduce` of `getPageUrl`: how often each referrer occurs, and the order in which
      the keys of the count object were created. */
  method CountReferrers(entries: seq<Entry>) returns (counts: map<string, nat>, order: seq<string>)
    ensures order == FirstSeen(Referrers(entries))
    ensures forall x :: x in counts <==> x in Referrers(entries)
    ensures forall x :: x in counts ==> counts[x] == multiset(Referrers(entries))[x]
  {
    counts := map[];
    order := [];
    ghost var seen: seq<string> := [];
    for e := 0 to |entries|
      invariant seen == Referrers(entries[..e])
      invariant order == FirstSeen(seen)
      invariant forall x :: x in counts <==> x in seen
      invariant forall x :: x in counts ==> counts[x] == multiset(seen)[x]
    {
      ReferrersSnoc(entries, e);
      var page := FirstMatch(entries[e].request.headers, MentionsReferrer);
      if page.Some? {
        var v := page.value;
        FirstSeenSnoc(seen, v);
        CountStep(counts, seen, v);
        counts := counts[v := if v in counts then counts[v] + 1 else 1];
        order := if v in order then order else order + [v];
        seen := seen + [v];
      }
    }
    assert entries[..|entries|] == entries;
  }

  /** The `for (const p in urls)` loop: the last key, in key order, whose count is at
      least the largest seen before it. */
  method LastMostFrequent(order: seq<string>, counts: map<string, nat>) returns (url: Option<string>)
    requires forall x :: x in order ==> x in counts
    ensures url.None? <==> order == []
    ensures url.Some? ==>
      exists k :: (0 <= k < |order| && order[k] == url.value
        && (forall t :: 0 <= t < |order| ==> counts[order[t]] <= counts[url.value])
        && (forall t :: k < t < |order| ==> counts[order[t]] < counts[url.value]))
  {
    url := None;
    var max := -1;
    ghost var k := 0;
    for j := 0 to |order|
      invariant url.None? <==> j == 0
      invariant url.None? ==> max == -1
      invariant url.Some? ==> 0 <= k < j && order[k] == url.value && max == counts[url.value]
      invariant url.Some? ==> forall t :: 0 <= t < j ==> counts[order[t]] <= max
      invariant url.Some? ==> forall t :: k < t < j ==> counts[order[t]] < max
    {
      if counts[order[j]] >= max {
        url, max, k := Some(order[j]), counts[order[j]], j;
      }
    }
  }

  /** `getPageUrl(entries)`: the most frequent referrer, ties going to the one whose key was
      added to the count object last; `None` when no entry has a referrer header. */
  method GetPageUrl(entries: seq<Entry>) returns (url: Option<string>)
    ensures var refs := Referrers(entries);
      && (url.None? <==> refs == [])
      && (url.Some? ==> url.value in refs)
      && (url.Some? ==> forall r :: r in refs ==> multiset(refs)[r] <= multiset(refs)[url.value])
      && (url.Some? ==>
            exists k :: (0 <= k < |FirstSeen(refs)| && FirstSeen(refs)[k] == url.value
              && forall t :: k < t < |FirstSeen(refs)| ==> multiset(refs)[FirstSeen(refs)[t]] < multiset(refs)[url.value]))
  {
    ghost var refs := Referrers(entries);
    var counts, order := CountReferrers(entries);
    url := LastMostFrequent(order, counts);
    if refs != [] {
      assert refs[0] in order;
    }
    if url.Some? {
      forall r | r in refs
        ensures multiset(refs)[r] <= multiset(refs)[url.value]
      {
        var t :| 0 <= t < |order| && order[t] == r;
      }
    }
  }
}
