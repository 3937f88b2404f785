/** The verdict of one event (`validateEvent`, src/components/Debugger/Timeline.ts:96-158).
    The self-describing payload and the context payload are turned into the sequence of
    `validate` calls the source makes (cut short where it throws), the calls are run
    against the registry one after another, and two accumulators are folded over their
    results. */
module BeaconValidity {
  import opened Wrappers
  import opened Iglu
  import opened Text
  import opened Json
  import opened Validator
  import opened Beacons
  import opened Naming

  datatype Validity = Valid | Unrecognised | Invalid

  /** One effect on the accumulators: a `validate(schema, data)` call, or the
      `unrec = true; valid = false` of a payload that is not self-describing. */
  datatype Action = Check(schema: string, data: Option<Json>) | Unrecognisable

  function AccessData(a: Access): Option<Json>
    requires !a.Throws?
  {
    match a
    case Value(v) => Some(v)
    case _ => None
  }

  /** `validate(obj.schema, obj.data)` with the arguments as JavaScript passes them: the
      schema coerced to a string, the data possibly `undefined`. */
  function CheckOf(obj: Json): Action
    requires !obj.JNull?
  {
    Check(AccessString(Member(obj, "schema")), AccessData(Member(obj, "data")))
  }

  /** `params.get("co") || params.get("cx") || ""` */
  function ContextPayload(params: Fields): string {
    match GetTruthy(params, "co")
    case Some(p) => p
    case None => GetTruthy(params, "cx").GetOr("")
  }

  predicate IsUe(params: Fields) {
    "e" in params && params["e"] == "ue"
  }

  predicate HasContext(params: Fields) {
    "cx" in params || "co" in params
  }

  /** The `ue` branch: the envelope, then its inner payload, unless reading `sde.data.schema`
      throws because `sde.data` is `null`. A payload that does not decode does nothing. */
  function UeActions(params: Fields, host: Host): (r: seq<Action>)
    ensures host.parseJson(host.tryb64(UePayload(params))).None? ==> r == []
    ensures |r| <= 2
    ensures Unrecognisable in r ==> r == [Unrecognisable]
  {
    match host.parseJson(host.tryb64(UePayload(params)))
    case None => []
    case Some(sde) =>
      if !IsSelfDescribing(sde) then [Unrecognisable]
      else
        var data := sde.members["data"];
        [CheckOf(sde)] + (if data.JNull? then [] else [CheckOf(data)])
  }

  /** `ctx.data.forEach(c => validate(c.schema, c.data))`: every element up to the first
      `null`, whose `c.schema` throws. */
  function ElementChecks(items: seq<Json>): seq<Action> {
    ChecksUpTo(items, FirstNull(items))
  }

  /** The checks of the first `n` elements, none of them `null`. */
  function ChecksUpTo(items: seq<Json>, n: nat): seq<Action>
    requires n <= |items| && forall j :: 0 <= j < n ==> !items[j].JNull?
  {
    seq(n, i requires 0 <= i < n => CheckOf(items[i]))
  }

  lemma ChecksUpToSnoc(items: seq<Json>, n: nat)
    requires n < |items| && forall j :: 0 <= j <= n ==> !items[j].JNull?
    ensures ChecksUpTo(items, n + 1) == ChecksUpTo(items, n) + [CheckOf(items[n])]
  {
  }

  /** The context branch: the envelope, then each element when `data` is an array (on
      anything else `forEach` throws). */
  function ContextActions(params: Fields, host: Host): (r: seq<Action>)
    ensures host.parseJson(host.tryb64(ContextPayload(params))).None? ==> r == []
    ensures Unrecognisable in r ==> r == [Unrecognisable]
  {
    match host.parseJson(host.tryb64(ContextPayload(params)))
    case None => []
    case Some(ctx) =>
      if !IsSelfDescribing(ctx) then [Unrecognisable]
      else
        var data := ctx.members["data"];
        [CheckOf(ctx)] + (if data.JArr? then ElementChecks(data.items) else [])
  }

  /** Everything `validateEvent` checks, in order: the self-describing event's actions
      first, then the contexts'. Each payload whose envelope is unrecognisable contributes
      that one forced failure and nothing else. */
  function EventActions(params: Fields, host: Host): (r: seq<Action>)
    ensures !IsUe(params) && !HasContext(params) ==> r == []
    ensures var ue := if IsUe(params) then UeActions(params, host) else [];
      var ctx := if HasContext(params) then ContextActions(params, host) else [];
      |r| == |ue| + |ctx| && r[..|ue|] == ue && r[|ue|..] == ctx
  {
    (if IsUe(params) then UeActions(params, host) else [])
      + (if HasContext(params) then ContextActions(params, host) else [])
  }

  /** At most two forced failures: one per payload whose envelope is unrecognisable. */
  lemma AtMostTwoForcedFailures(params: Fields, host: Host)
    ensures multiset(EventActions(params, host))[Unrecognisable] <= 2
  {
    var ue := if IsUe(params) then UeActions(params, host) else [];
    var ctx := if HasContext(params) then ContextActions(params, host) else [];
    assert EventActions(params, host) == ue + ctx;
    assert multiset(ue)[Unrecognisable] <= 1;
    assert multiset(ctx)[Unrecognisable] <= 1;
  }

  /** The `unrec` and `valid` accumulators. */
  datatype Acc = Acc(unrec: bool, valid: bool)

  const Initial := Acc(false, true)

  /** What one action contributed: a forced failure or a validation result. */
  datatype Outcome = Forced | Checked(result: ValidationResult)

  /** The running state: the registry, the accumulators, the URLs requested so far, and the
      outcome of every action so far. */
  datatype Run = Run(reg: RegistryState, acc: Acc, fetches: seq<string>, outcomes: seq<Outcome>)

  function Step(run: Run, a: Action, jsv: Jsv): (r: Run)
    ensures !run.acc.valid ==> !r.acc.valid
    ensures run.acc.unrec ==> r.acc.unrec
    ensures |r.outcomes| == |run.outcomes| + 1 && r.outcomes[..|run.outcomes|] == run.outcomes
    ensures r.acc.valid <==> run.acc.valid && Passed(r.outcomes[|run.outcomes|])
    ensures r.acc.unrec <==> run.acc.unrec || Unresolved(r.outcomes[|run.outcomes|])
    ensures r.outcomes[|run.outcomes|].Forced? <==> a.Unrecognisable?
  {
    match a
    case Unrecognisable => run.(acc := Acc(true, false), outcomes := run.outcomes + [Forced])
    case Check(schema, data) =>
      var o := ValidateSpec(run.reg, schema, data, jsv);
      Run(o.next,
          Acc(run.acc.unrec || o.result.location == Null, run.acc.valid && o.result.valid),
          run.fetches + o.fetches,
          run.outcomes + [Checked(o.result)])
  }

  function RunActions(start: Run, actions: seq<Action>, jsv: Jsv): Run {
    if actions == [] then start
    else Step(RunActions(start, actions[..|actions| - 1], jsv), actions[|actions| - 1], jsv)
  }

  predicate Passed(o: Outcome) {
    o.Checked? && o.result.valid
  }

  /** A forced failure, or a result whose location is `null` (the schema is not resolved). */
  predicate Unresolved(o: Outcome) {
    o.Forced? || o.result.location == Null
  }

  function VerdictOf(acc: Acc): Validity {
    if acc.valid then Valid else if acc.unrec then Unrecognised else Invalid
  }

  function ValidateEventSpec(s: RegistryState, params: Fields, host: Host, jsv: Jsv): Run {
    RunActions(Run(s, Initial, [], []), EventActions(params, host), jsv)
  }

  lemma RunActionsSnoc(start: Run, done: seq<Action>, a: Action, jsv: Jsv)
    ensures RunActions(start, done + [a], jsv) == Step(RunActions(start, done, jsv), a, jsv)
  {
    assert (done + [a])[..|done|] == done;
  }

  /** The accumulators summarise the outcomes of `actions`: one outcome per action, forced
      exactly for the unrecognisable ones; `valid` is the conjunction of all passes, `unrec`
      the disjunction of all unresolved outcomes. */
  predicate Summarises(r: Run, actions: seq<Action>) {
    && |r.outcomes| == |actions|
    && (forall i :: 0 <= i < |actions| ==> (r.outcomes[i].Forced? <==> actions[i].Unrecognisable?))
    && (r.acc.valid <==> forall i :: 0 <= i < |r.outcomes| ==> Passed(r.outcomes[i]))
    && (r.acc.unrec <==> exists i :: 0 <= i < |r.outcomes| && Unresolved(r.outcomes[i]))
  }

  /** One more outcome, folded into the accumulators as `Step` does, keeps the summary. */
  lemma SummarisesStep(before: Run, after: Run, actions: seq<Action>)
    requires actions != [] && Summarises(before, actions[..|actions| - 1])
    requires |after.outcomes| == |before.outcomes| + 1 && after.outcomes[..|before.outcomes|] == before.outcomes
    requires after.acc.valid <==> before.acc.valid && Passed(after.outcomes[|before.outcomes|])
    requires after.acc.unrec <==> before.acc.unrec || Unresolved(after.outcomes[|before.outcomes|])
    requires after.outcomes[|before.outcomes|].Forced? <==> actions[|actions| - 1].Unrecognisable?
    ensures Summarises(after, actions)
  {
    var last := after.outcomes[|before.outcomes|];
    assert after.outcomes == before.outcomes + [last];
    assert forall i :: 0 <= i < |actions| - 1 ==> actions[..|actions| - 1][i] == actions[i];
  }

  lemma {:induction false} AccumulatorsSummarise(start: Run, actions: seq<Action>, jsv: Jsv)
    requires start.acc == Initial && start.outcomes == []
    ensures Summarises(RunActions(start, actions, jsv), actions)
  {
    if actions != [] {
      var init := actions[..|actions| - 1];
      AccumulatorsSummarise(start, init, jsv);
      var before := RunActions(start, init, jsv);
      SummarisesStep(before, Step(before, actions[|actions| - 1], jsv), actions);
    }
  }

  /** `valid` only ever goes from true to false and `unrec` only from false to true. */
  lemma {:induction false} AccumulatorsOnlyMoveOneWay(start: Run, actions: seq<Action>, i: nat, j: nat, jsv: Jsv)
    requires i <= j <= |actions|
    ensures var early := RunActions(start, actions[..i], jsv).acc;
      var late := RunActions(start, actions[..j], jsv).acc;
      (!early.valid ==> !late.valid) && (early.unrec ==> late.unrec)
  {
    if i < j {
      AccumulatorsOnlyMoveOneWay(start, actions, i, j - 1, jsv);
      assert actions[..j][..j - 1] == actions[..j - 1];
    }
  }

  /** The three-way verdict: `Valid` when every outcome passed; otherwise `Unrecognised` as
      soon as one outcome is unresolved, even when another is a hard failure. */
  lemma VerdictCharacterised(s: RegistryState, params: Fields, host: Host, jsv: Jsv)
    ensures var run := ValidateEventSpec(s, params, host, jsv); var os := run.outcomes;
      && (VerdictOf(run.acc) == Valid <==> forall i :: 0 <= i < |os| ==> Passed(os[i]))
      && (VerdictOf(run.acc) == Unrecognised <==>
            (exists i :: 0 <= i < |os| && !Passed(os[i])) && (exists i :: 0 <= i < |os| && Unresolved(os[i])))
      && (VerdictOf(run.acc) == Invalid <==>
            (exists i :: 0 <= i < |os| && !Passed(os[i])) && (forall i :: 0 <= i < |os| ==> !Unresolved(os[i])))
  {
    AccumulatorsSummarise(Run(s, Initial, [], []), EventActions(params, host), jsv);
  }

  /** A payload, `ue` or context, that decodes to something without `schema` and `data`
      makes the event `Unrecognised`, whatever else it carries. */
  lemma MalformedEnvelopeIsUnrecognised(s: RegistryState, params: Fields, host: Host, jsv: Jsv)
    requires || (IsUe(params) && Malformed(host.parseJson(host.tryb64(UePayload(params)))))
             || (HasContext(params) && Malformed(host.parseJson(host.tryb64(ContextPayload(params)))))
    ensures VerdictOf(ValidateEventSpec(s, params, host, jsv).acc) == Unrecognised
  {
    var actions := EventActions(params, host);
    var ue := if IsUe(params) then UeActions(params, host) else [];
    var i := if IsUe(params) && Malformed(host.parseJson(host.tryb64(UePayload(params)))) then 0 else |ue|;
    assert actions[i] == Unrecognisable;
    AccumulatorsSummarise(Run(s, Initial, [], []), actions, jsv);
  }

  predicate Malformed(decoded: Option<Json>) {
    decoded.Some? && !IsSelfDescribing(decoded.value)
  }

  /** A cache hit for a schema seeded from the local list has no status, so its outcome is
      not unresolved. */
  lemma SeededHitIsResolved(s: RegistryState, schema: string, data: Option<Json>, jsv: Jsv)
    requires ParseUri(schema).Some? && schema in s.cache && schema !in s.status
    ensures !Unresolved(Checked(ValidateSpec(s, schema, data, jsv).result))
  {
  }

  /** An event with neither a `ue` payload nor a context is `Valid`. */
  lemma NothingToCheckIsValid(s: RegistryState, params: Fields, host: Host, jsv: Jsv)
    requires !IsUe(params) && !HasContext(params)
    ensures VerdictOf(ValidateEventSpec(s, params, host, jsv).acc) == Valid
  {
  }

  /** The ghost run describes the registry and the method's locals. */
  predicate Tracks(run: Run, s: RegistryState, unrec: bool, valid: bool, fetches: seq<string>) {
    run.reg == s && run.acc == Acc(unrec, valid) && run.fetches == fetches
  }

  lemma RunActionsAppend(start: Run, xs: seq<Action>, ys: seq<Action>, jsv: Jsv)
    ensures RunActions(start, xs + ys, jsv) == RunActions(RunActions(start, xs, jsv), ys, jsv)
    decreases |ys|
  {
    if ys != [] {
      var init := ys[..|ys| - 1];
      assert (xs + ys)[..|xs + ys| - 1] == xs + init;
      RunActionsAppend(start, xs, init, jsv);
    } else {
      assert xs + ys == xs;
    }
  }

  lemma RunActionsSingle(start: Run, a: Action, jsv: Jsv)
    ensures RunActions(start, [a], jsv) == Step(start, a, jsv)
  {
    RunActionsSnoc(start, [], a, jsv);
  }

  /** One `validate` call followed by the two accumulator updates. */
  method ValidateStep(reg: SchemaRegistry, a: Action, jsv: Jsv, unrec: bool, valid: bool, fetches: seq<string>, ghost run: Run)
    returns (unrec': bool, valid': bool, fetches': seq<string>, ghost run': Run)
    requires a.Check? && reg.Valid()
    requires Tracks(run, reg.State(), unrec, valid, fetches)
    modifies reg
    ensures reg.Valid()
    ensures run' == RunActions(run, [a], jsv)
    ensures Tracks(run', reg.State(), unrec', valid', fetches')
    ensures reg.storedCache == old(reg.storedCache) && reg.storedStatus == old(reg.storedStatus)
  {
    var status, f := reg.Validate(a.schema, a.data, jsv);
    unrec' := unrec || status.location == Null;
    valid' := valid && status.valid;
    fetches' := fetches + f;
    RunActionsSingle(run, a, jsv);
    run' := Step(run, a, jsv);
  }

  /** `unrec = true; valid = false` for a payload that is not self-describing. */
  lemma ForcedStep(run: Run, jsv: Jsv, s: RegistryState, unrec: bool, valid: bool, fetches: seq<string>)
    requires Tracks(run, s, unrec, valid, fetches)
    ensures Tracks(RunActions(run, [Unrecognisable], jsv), s, true, false, fetches)
  {
    RunActionsSingle(run, Unrecognisable, jsv);
  }

  /** The `ue` branch of `validateEvent`. */
  method ValidateUe(reg: SchemaRegistry, params: Fields, host: Host, jsv: Jsv, unrec: bool, valid: bool, fetches: seq<string>, ghost run: Run)
    returns (unrec': bool, valid': bool, fetches': seq<string>, ghost run': Run)
    requires reg.Valid()
    requires Tracks(run, reg.State(), unrec, valid, fetches)
    modifies reg
    ensures reg.Valid()
    ensures run' == RunActions(run, UeActions(params, host), jsv)
    ensures Tracks(run', reg.State(), unrec', valid', fetches')
    ensures reg.storedCache == old(reg.storedCache) && reg.storedStatus == old(reg.storedStatus)
  {
    unrec', valid', fetches', run' := unrec, valid, fetches, run;
    var parsed := host.parseJson(host.tryb64(UePayload(params)));
    if parsed.Some? {
      var sde := parsed.value;
      if IsSelfDescribing(sde) {
        unrec', valid', fetches', run' := ValidateStep(reg, CheckOf(sde), jsv, unrec', valid', fetches', run');
        var data := sde.members["data"];
        if !data.JNull? {
          ghost var mid := run';
          unrec', valid', fetches', run' := ValidateStep(reg, CheckOf(data), jsv, unrec', valid', fetches', run');
          RunActionsAppend(run, [CheckOf(sde)], [CheckOf(data)], jsv);
          assert [CheckOf(sde)] + [CheckOf(data)] == UeActions(params, host);
        } else {
          assert [CheckOf(sde)] + [] == UeActions(params, host);
        }
      } else {
        ForcedStep(run, jsv, reg.State(), unrec, valid, fetches);
        unrec', valid', run' := true, false, RunActions(run, [Unrecognisable], jsv);
      }
    }
  }

  /** `ctx.data.forEach(c => validate(c.schema, c.data))`, stopped by the first `null`. */
  method ValidateElements(reg: SchemaRegistry, items: seq<Json>, jsv: Jsv, unrec: bool, valid: bool, fetches: seq<string>, ghost run: Run)
    returns (unrec': bool, valid': bool, fetches': seq<string>, ghost run': Run)
    requires reg.Valid()
    requires Tracks(run, reg.State(), unrec, valid, fetches)
    modifies reg
    ensures reg.Valid()
    ensures run' == RunActions(run, ElementChecks(items), jsv)
    ensures Tracks(run', reg.State(), unrec', valid', fetches')
    ensures reg.storedCache == old(reg.storedCache) && reg.storedStatus == old(reg.storedStatus)
  {
    unrec', valid', fetches', run' := unrec, valid, fetches, run;
    var i := 0;
    while i < |items| && !items[i].JNull?
      invariant i <= |items|
      invariant forall j :: 0 <= j < i ==> !items[j].JNull?
      invariant run' == RunActions(run, ChecksUpTo(items, i), jsv)
      invariant Tracks(run', reg.State(), unrec', valid', fetches')
      invariant reg.Valid()
      invariant reg.storedCache == old(reg.storedCache) && reg.storedStatus == old(reg.storedStatus)
      decreases |items| - i
    {
      unrec', valid', fetches', run' := ValidateStep(reg, CheckOf(items[i]), jsv, unrec', valid', fetches', run');
      RunActionsAppend(run, ChecksUpTo(items, i), [CheckOf(items[i])], jsv);
      ChecksUpToSnoc(items, i);
      i := i + 1;
    }
    assert i == FirstNull(items);
  }

  /** The context branch of `validateEvent`. */
  method ValidateContexts(reg: SchemaRegistry, params: Fields, host: Host, jsv: Jsv, unrec: bool, valid: bool, fetches: seq<string>, ghost run: Run)
    returns (unrec': bool, valid': bool, fetches': seq<string>, ghost run': Run)
    requires reg.Valid()
    requires Tracks(run, reg.State(), unrec, valid, fetches)
    modifies reg
    ensures reg.Valid()
    ensures run' == RunActions(run, ContextActions(params, host), jsv)
    ensures Tracks(run', reg.State(), unrec', valid', fetches')
    ensures reg.storedCache == old(reg.storedCache) && reg.storedStatus == old(reg.storedStatus)
  {
    unrec', valid', fetches', run' := unrec, valid, fetches, run;
    var parsed := host.parseJson(host.tryb64(ContextPayload(params)));
    if parsed.Some? {
      var ctx := parsed.value;
      if IsSelfDescribing(ctx) {
        unrec', valid', fetches', run' := ValidateStep(reg, CheckOf(ctx), jsv, unrec', valid', fetches', run');
        var data := ctx.members["data"];
        if data.JArr? {
          unrec', valid', fetches', run' := ValidateElements(reg, data.items, jsv, unrec', valid', fetches', run');
          RunActionsAppend(run, [CheckOf(ctx)], ElementChecks(data.items), jsv);
          assert [CheckOf(ctx)] + ElementChecks(data.items) == ContextActions(params, host);
        } else {
          assert [CheckOf(ctx)] + [] == ContextActions(params, host);
        }
      } else {
        ForcedStep(run, jsv, reg.State(), unrec, valid, fetches);
        unrec', valid', run' := true, false, RunActions(run, [Unrecognisable], jsv);
      }
    }
  }

  /** `validateEvent(params)`, against the registry, returning the URLs its `validate` calls
      request. */
  method ValidateEvent(reg: SchemaRegistry, params: Fields, host: Host, jsv: Jsv) returns (v: Validity, fetches: seq<string>)
    requires reg.Valid()
    modifies reg
    ensures reg.Valid()
    ensures var run := ValidateEventSpec(old(reg.State()), params, host, jsv);
      v == VerdictOf(run.acc) && reg.State() == run.reg && fetches == run.fetches
    ensures reg.storedCache == old(reg.storedCache) && reg.storedStatus == old(reg.storedStatus)
  {
    var unrec := false;
    var valid := true;
    fetches := [];
    ghost var start := Run(reg.State(), Initial, [], []);
    ghost var run := start;
    ghost var ue: seq<Action> := [];
    if IsUe(params) {
      ue := UeActions(params, host);
      unrec, valid, fetches, run := ValidateUe(reg, params, host, jsv, unrec, valid, fetches, run);
    }
    ghost var mid := run;
    ghost var cx: seq<Action> := [];
    if HasContext(params) {
      cx := ContextActions(params, host);
      unrec, valid, fetches, run := ValidateContexts(reg, params, host, jsv, unrec, valid, fetches, run);
    }
    RunActionsAppend(start, ue, cx, jsv);
    assert ue + cx == EventActions(params, host);
    v := if valid then Valid else if unrec then Unrecognised else Invalid;
  }
}
