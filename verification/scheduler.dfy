/**
  The claim pass (`processAssets`) and the start-up guard of `main`.

  A pass visits the collected asset ids in list order. For each it looks up the
  next-claim time, reads the clock, and either skips the asset (no answer),
  submits one claim (the claim window is open) or reports the time left; then it
  pauses before the next asset. The environment's answers for one asset are
  gathered in an `Observation`, so a pass is a pure function of the ids and the
  observations.
 */
module Scheduler {
  import opened Tables
  import Lookup
  import Collect

  /** The pause after every asset of a pass, in milliseconds. */
  const PaceMs: nat := 2000

  /** The interval between the starts of two passes, in milliseconds. */
  const PeriodMs: nat := 60000

  /**
    How a claim transaction ended: committed with a transaction id, rejected by
    the node with a structured error, or failed in any other way. The claim step
    catches both failures, so none of them ends the pass.
   */
  datatype TxOutcome = Committed(txId: string) | RpcRejected(detail: string) | Errored(detail: string)

  /**
    What the environment answers while one asset is processed: the reply to the
    point query, the wall clock in milliseconds read right after it, and the
    outcome of the claim transaction should one be submitted.
   */
  datatype Observation = Observation(reply: Reply, clockMs: nat, tx: TxOutcome)

  /** What a pass does with one asset. */
  datatype Decision =
    | Skip(id: AssetId)
    | Claim(id: AssetId, outcome: TxOutcome)
    | Wait(id: AssetId, secondsLeft: int, minutesLeft: int)

  /** One step of a pass: the decision for an asset, then the pause before the next one. */
  datatype Step = Step(decision: Decision, pauseMs: nat)

  /** `Math.floor(Date.now() / 1000)`: whole seconds of a non-negative millisecond clock. */
  function UnixSeconds(ms: nat): (s: nat)
    ensures s * 1000 <= ms < s * 1000 + 1000
  {
    ms / 1000
  }

  /** `Math.ceil(seconds / 60)` for a positive number of seconds. */
  function CeilMinutes(seconds: int): (m: int)
    requires seconds > 0
    ensures m >= 1
    ensures (m - 1) * 60 < seconds <= m * 60
  {
    (seconds + 59) / 60
  }

  /** The claim window of the observed asset is open. */
  predicate Due(obs: Observation) {
    var next := Lookup.NextClaim(obs.reply);
    next.Some? && next.value <= UnixSeconds(obs.clockMs)
  }

  /**
    The decision for one asset: skip it when the lookup has no answer, claim it
    when the claim time has come, and otherwise report the seconds and whole
    minutes (rounded up) until it does.
   */
  function Decide(id: AssetId, obs: Observation): (a: Decision)
    ensures a.id == id
    ensures a.Skip? <==> Lookup.NextClaim(obs.reply).None?
    ensures a.Claim? <==> Due(obs)
    ensures a.Claim? ==> a.outcome == obs.tx
    ensures a.Wait? ==>
      && a.secondsLeft == Lookup.NextClaim(obs.reply).value - UnixSeconds(obs.clockMs)
      && a.secondsLeft > 0
      && a.minutesLeft >= 1
      && (a.minutesLeft - 1) * 60 < a.secondsLeft <= a.minutesLeft * 60
  {
    var now := UnixSeconds(obs.clockMs);
    match Lookup.NextClaim(obs.reply)
    case None => Skip(id)
    case Some(next) =>
      if next <= now then Claim(id, obs.tx)
      else Wait(id, next - now, CeilMinutes(next - now))
  }

  /**
    `processAssets`: every id in list order is decided exactly once, on its own
    observation, and each decision is followed by the pacing pause, whatever the
    decision was.
   */
  function Pass(ids: seq<AssetId>, env: seq<Observation>): (steps: seq<Step>)
    requires |env| == |ids|
    ensures |steps| == |ids|
    ensures forall k :: 0 <= k < |ids| ==> steps[k] == Step(Decide(ids[k], env[k]), PaceMs)
  {
    if |ids| == 0 then []
    else [Step(Decide(ids[0], env[0]), PaceMs)] + Pass(ids[1..], env[1..])
  }

  /** The ids of the claim attempts of a pass, in order. */
  function ClaimedIds(steps: seq<Step>): seq<AssetId> {
    if |steps| == 0 then []
    else (if steps[0].decision.Claim? then [steps[0].decision.id] else []) + ClaimedIds(steps[1..])
  }

  /** The ids observed to be due, in list order (the attempts a pass must make). */
  function DueIds(ids: seq<AssetId>, env: seq<Observation>): seq<AssetId>
    requires |env| == |ids|
  {
    if |ids| == 0 then []
    else (if Due(env[0]) then [ids[0]] else []) + DueIds(ids[1..], env[1..])
  }

  /**
    A pass attempts exactly the due assets: one attempt per due position, in list
    order, and none for an asset without an answer or whose time has not come.
   */
  lemma {:induction false} PassClaimsExactlyDue(ids: seq<AssetId>, env: seq<Observation>)
    requires |env| == |ids|
    ensures ClaimedIds(Pass(ids, env)) == DueIds(ids, env)
  {
    if |ids| > 0 {
      var steps := Pass(ids, env);
      assert steps[1..] == Pass(ids[1..], env[1..]);
      PassClaimsExactlyDue(ids[1..], env[1..]);
    }
  }

  /** The total pacing delay of a pass, in milliseconds. */
  function PausedMs(steps: seq<Step>): nat {
    if |steps| == 0 then 0 else steps[0].pauseMs + PausedMs(steps[1..])
  }

  /** A pass pauses `PaceMs` once per asset, so it lasts at least that long per asset. */
  lemma {:induction false} PassPacing(ids: seq<AssetId>, env: seq<Observation>)
    requires |env| == |ids|
    ensures PausedMs(Pass(ids, env)) == PaceMs * |ids|
  {
    if |ids| > 0 {
      var steps := Pass(ids, env);
      assert steps[1..] == Pass(ids[1..], env[1..]);
      PassPacing(ids[1..], env[1..]);
    }
  }

  /**
    With `PeriodMs / PaceMs` (30) assets or more, the pauses of one pass alone
    take at least the interval between pass starts. With any request latency on
    top, a pass started by the interval timer is then still running when the next
    one starts. The first pass is awaited before the timer is set, so it does not
    overlap.
   */
  lemma PassOutlastsPeriod(ids: seq<AssetId>, env: seq<Observation>)
    requires |env| == |ids|
    requires |ids| >= PeriodMs / PaceMs
    ensures PausedMs(Pass(ids, env)) >= PeriodMs
  {
    PassPacing(ids, env);
  }

  /** Two decisions agree up to the outcome of the claim transaction. */
  predicate SameDecision(a: Decision, b: Decision) {
    match a
    case Claim(id, _) => b.Claim? && b.id == id
    case _ => a == b
  }

  /**
    Failure isolation: the outcome of a claim (committed, rejected or failed)
    changes nothing else in the pass; with the same lookups and clock readings
    every asset gets the same decision and the same pause.
   */
  lemma OutcomesDoNotSteer(ids: seq<AssetId>, env: seq<Observation>, env': seq<Observation>)
    requires |env| == |ids| && |env'| == |ids|
    requires forall k :: 0 <= k < |ids| ==> env[k].reply == env'[k].reply && env[k].clockMs == env'[k].clockMs
    ensures |Pass(ids, env)| == |Pass(ids, env')|
    ensures forall k :: 0 <= k < |ids| ==>
      SameDecision(Pass(ids, env)[k].decision, Pass(ids, env')[k].decision) &&
      Pass(ids, env)[k].pauseMs == Pass(ids, env')[k].pauseMs
  {
  }

  /** The bot's life after start-up. */
  datatype Run =
      // The owner scan failed: a request threw, or the request budget ran out.
    | Aborted
      // The owner has no staked asset.
    | NothingToClaim
      // One pass now, then one per period.
    | Polling(ids: seq<AssetId>, passes: seq<seq<Step>>)

  /**
    `main`: scan once for the owner's assets; with none, stop without any pass;
    otherwise run a pass at once and one more every `PeriodMs`, each over the
    same list (the list is never re-scanned). `rounds[j]` are the observations
    of pass `j`.
   */
  function Launch(collected: Collect.Result<seq<AssetId>>, rounds: seq<seq<Observation>>): (run: Run)
    requires collected.Ok? ==> forall j :: 0 <= j < |rounds| ==> |rounds[j]| == |collected.value|
    ensures run.Aborted? <==> collected.Fail?
    ensures run.NothingToClaim? <==> collected == Collect.Ok([])
    ensures run.Polling? ==> run.ids == collected.value && |run.ids| > 0 && |run.passes| == |rounds|
    ensures run.Polling? ==> forall j :: 0 <= j < |rounds| ==> run.passes[j] == Pass(collected.value, rounds[j])
  {
    match collected
    case Fail(_) => Aborted
    case Ok(ids) =>
      if |ids| == 0 then NothingToClaim
      else Polling(ids, seq(|rounds|, j requires 0 <= j < |rounds| => Pass(ids, rounds[j])))
  }

  /**
    Across the whole run, pass `j` attempts a claim for exactly the assets due in
    its own observations, and an owner without assets never gets an attempt.
   */
  lemma RunClaimsDueAssets(collected: Collect.Result<seq<AssetId>>, rounds: seq<seq<Observation>>, j: nat)
    requires collected.Ok? ==> forall j :: 0 <= j < |rounds| ==> |rounds[j]| == |collected.value|
    requires j < |rounds|
    ensures Launch(collected, rounds).Polling? ==>
      ClaimedIds(Launch(collected, rounds).passes[j]) == DueIds(collected.value, rounds[j])
    ensures !Launch(collected, rounds).Polling? ==> collected.Fail? || collected.value == []
  {
    if Launch(collected, rounds).Polling? {
      PassClaimsExactlyDue(collected.value, rounds[j]);
    }
  }
}
