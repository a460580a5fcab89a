/** The timed speed-calibration sequence of components/domain/include/domain/cal_speed_sm.hpp
    under an arbitrary 32-bit clock, wrap-around included. */
module CalSpeedSeq {

  const VALVE_SWITCH_MS: nat := 1000
  const CAL_SEQ_POINTS: nat := 3
  const UINT32: nat := 0x1_0000_0000

  datatype Action = FillToLimit | EmptyToLimit | Complete | Error | SettleValve
  datatype Phase = Idle | FillFirst | ValveSettleAfterFill | Empty | ValveSettleAfterEmpty | NextPoint | Done

  datatype Sm = Sm(phase: Phase, freqs: seq<nat>, results: seq<real>, seqIdx: nat,
                   elapsedMs: nat, valveSettleStartMs: nat, started: bool)

  /** Unsigned 32-bit subtraction. */
  function Sub32(a: nat, b: nat): nat {
    (a - b) % UINT32
  }

  /** ml/min for a 50 ml stroke that took this many milliseconds. */
  function StrokeSpeed(ms: nat): (speed: real)
    ensures ms > 0 ==> speed * ((ms as real) / 60000.0) == 50.0
    ensures ms == 0 ==> speed == 0.0
  {
    if ms > 0 then 50.0 / ((ms as real) / 60000.0) else 0.0
  }

  predicate Wellformed(sm: Sm) {
    |sm.freqs| == |sm.results| == CAL_SEQ_POINTS && (sm.started && sm.phase == Empty ==> sm.seqIdx < CAL_SEQ_POINTS)
  }

  function Started(freqs: seq<nat>): Sm {
    Sm(FillFirst, freqs, [0.0, 0.0, 0.0], 0, 0, 0, true)
  }

  function Tick(sm: Sm, now: nat): (Sm, Action)
    requires Wellformed(sm)
  {
    if !sm.started then (sm, Error)
    else
      match sm.phase
      case Idle => (sm, Complete)
      case FillFirst => (sm.(phase := ValveSettleAfterFill, valveSettleStartMs := now), SettleValve)
      case ValveSettleAfterFill =>
        if Sub32(now, sm.valveSettleStartMs) >= VALVE_SWITCH_MS
        then (sm.(phase := Empty, elapsedMs := now), EmptyToLimit)
        else (sm, SettleValve)
      case Empty =>
        var measured := sm.(results := sm.results[sm.seqIdx := StrokeSpeed(Sub32(now, sm.elapsedMs))],
                            seqIdx := sm.seqIdx + 1);
        if sm.seqIdx + 1 >= CAL_SEQ_POINTS then (measured.(phase := Done, started := false), Complete)
        else (measured.(phase := ValveSettleAfterEmpty, valveSettleStartMs := now), SettleValve)
      case ValveSettleAfterEmpty =>
        if Sub32(now, sm.valveSettleStartMs) >= VALVE_SWITCH_MS then (sm.(phase := FillFirst), FillToLimit)
        else (sm, SettleValve)
      case NextPoint => (sm, Complete)
      case Done => (sm, Complete)
  }

  class CalSpeedSeqSm {
    var phase: Phase
    var freqs: seq<nat>
    var results: array<real>
    var seqIdx: nat
    var elapsedMs: nat
    var valveSettleStartMs: nat
    var started: bool

    ghost function View(): Sm
      reads this, results
    {
      Sm(phase, freqs, results[..], seqIdx, elapsedMs, valveSettleStartMs, started)
    }

    constructor (freqsIn: seq<nat>)
      requires |freqsIn| == CAL_SEQ_POINTS
      ensures View() == Started(freqsIn) && fresh(results)
    {
      phase, freqs, seqIdx, elapsedMs, valveSettleStartMs, started := FillFirst, freqsIn, 0, 0, 0, true;
      results := new real[3](_ => 0.0);
    }

    method OnTick(nowMs: nat) returns (action: Action)
      requires Wellformed(View())
      modifies this, results
      ensures results == old(results)
      ensures (View(), action) == Tick(old(View()), nowMs)
    {
      if !started {
        return Error;
      }
      match phase {
        case Idle => return Complete;
        case FillFirst =>
          phase := ValveSettleAfterFill;
          valveSettleStartMs := nowMs;
          return SettleValve;
        case ValveSettleAfterFill =>
          if Sub32(nowMs, valveSettleStartMs) >= VALVE_SWITCH_MS {
            phase := Empty;
            elapsedMs := nowMs;
            return EmptyToLimit;
          }
          return SettleValve;
        case Empty =>
          var diff := Sub32(nowMs, elapsedMs);
          var speed := if diff > 0 then 50.0 / ((diff as real) / 60000.0) else 0.0;
          results[seqIdx] := speed;
          seqIdx := seqIdx + 1;
          if seqIdx >= CAL_SEQ_POINTS {
            phase := Done;
            started := false;
            return Complete;
          }
          phase := ValveSettleAfterEmpty;
          valveSettleStartMs := nowMs;
          return SettleValve;
        case ValveSettleAfterEmpty =>
          if Sub32(nowMs, valveSettleStartMs) >= VALVE_SWITCH_MS {
            phase := FillFirst;
            return FillToLimit;
          }
          return SettleValve;
        case NextPoint => return Complete;
        case Done => return Complete;
      }
    }
  }

  // ---- Runs ------------------------------------------------------------------

  /** What every reachable state satisfies, whatever the clock did. */
  predicate Reachable(sm: Sm) {
    && |sm.freqs| == |sm.results| == CAL_SEQ_POINTS
    && (match sm.phase
        case FillFirst => sm.started && sm.seqIdx < 3
        case ValveSettleAfterFill => sm.started && sm.seqIdx < 3
        case Empty => sm.started && sm.seqIdx < 3
        case ValveSettleAfterEmpty => sm.started && 1 <= sm.seqIdx < 3
        case Done => !sm.started && sm.seqIdx == 3
        case _ => false)
  }

  lemma StepReachable(sm: Sm, now: nat)
    requires Reachable(sm) && sm.phase != Done
    ensures Reachable(Tick(sm, now).0)
  {
  }

  datatype Progress = Progress(sm: Sm, actions: seq<Action>)

  /** The run loop: one tick per clock value until the machine is complete. */
  function Drive(freqs: seq<nat>, clocks: seq<nat>): (p: Progress)
    requires |freqs| == CAL_SEQ_POINTS
    ensures Reachable(p.sm) && |p.actions| <= |clocks|
    ensures p.sm.phase != Done ==> |p.actions| == |clocks|
  {
    if clocks == [] then Progress(Started(freqs), [])
    else
      var before := Drive(freqs, clocks[..|clocks| - 1]);
      if before.sm.phase == Done then before
      else
        var (sm, action) := Tick(before.sm, clocks[|clocks| - 1]);
        StepReachable(before.sm, clocks[|clocks| - 1]);
        Progress(sm, before.actions + [action])
  }

  function NonSettle(actions: seq<Action>): seq<Action> {
    if actions == [] then []
    else NonSettle(actions[..|actions| - 1])
         + if actions[|actions| - 1] == SettleValve then [] else [actions[|actions| - 1]]
  }

  const Script: seq<Action> := [EmptyToLimit, FillToLimit, EmptyToLimit, FillToLimit, EmptyToLimit, Complete]

  /** How far into the script a state is. */
  function Reached(sm: Sm): nat
    requires Reachable(sm)
  {
    match sm.phase
    case Empty => 2 * sm.seqIdx + 1
    case ValveSettleAfterEmpty => 2 * sm.seqIdx - 1
    case _ => 2 * sm.seqIdx
  }

  /** Apart from settling, a run follows the script: three empties and two fills in turn,
      then one Complete. */
  lemma {:induction false} RunFollowsScript(freqs: seq<nat>, clocks: seq<nat>)
    requires |freqs| == CAL_SEQ_POINTS
    ensures var p := Drive(freqs, clocks);
            Reached(p.sm) <= 6 && NonSettle(p.actions) == Script[..Reached(p.sm)]
    ensures Drive(freqs, clocks).sm.phase == Done <==> NonSettle(Drive(freqs, clocks).actions) == Script
  {
    if clocks != [] {
      var rest, now := clocks[..|clocks| - 1], clocks[|clocks| - 1];
      RunFollowsScript(freqs, rest);
      var before := Drive(freqs, rest);
      if before.sm.phase != Done {
        ScriptStep(before.sm, now);
        var action := Tick(before.sm, now).1;
        assert (before.actions + [action])[..|before.actions|] == before.actions;
      }
    }
  }

  lemma ScriptStep(sm: Sm, now: nat)
    requires Reachable(sm) && sm.phase != Done
    ensures var (next, action) := Tick(sm, now);
            Reachable(next) && Reached(next) <= 6
            && Script[..Reached(next)] == Script[..Reached(sm)] + if action == SettleValve then [] else [action]
  {
    StepReachable(sm, now);
  }

  // ---- Settling times ------------------------------------------------------------

  /** Where the settle actions that end just before j begin. */
  function SettleStart(actions: seq<Action>, j: nat): (i: nat)
    requires j <= |actions|
    ensures i <= j && forall k :: i <= k < j ==> actions[k] == SettleValve
    ensures i > 0 ==> actions[i - 1] != SettleValve
  {
    if j == 0 || actions[j - 1] != SettleValve then j else SettleStart(actions, j - 1)
  }

  /** A move at j comes at the first tick at least a second after its settling began. */
  predicate SettledBefore(actions: seq<Action>, clocks: seq<nat>, j: nat)
    requires j < |actions| <= |clocks|
  {
    var i := SettleStart(actions, j);
    && i < j
    && Sub32(clocks[j], clocks[i]) >= 1000
    && (forall k :: i < k < j ==> Sub32(clocks[k], clocks[i]) < 1000)
  }

  predicate Moves(action: Action) {
    action == FillToLimit || action == EmptyToLimit
  }

  /** The open settling, if there is one, began at the recorded time and is not over. */
  predicate Settling(p: Progress, clocks: seq<nat>)
    requires |p.actions| <= |clocks|
  {
    var i := SettleStart(p.actions, |p.actions|);
    if p.sm.phase == ValveSettleAfterFill || p.sm.phase == ValveSettleAfterEmpty then
      && i < |p.actions| && p.sm.valveSettleStartMs == clocks[i]
      && (forall k :: i < k < |p.actions| ==> Sub32(clocks[k], clocks[i]) < VALVE_SWITCH_MS)
    else i == |p.actions|
  }

  lemma {:induction false} SettleStartPrefix(a: seq<Action>, b: seq<Action>, j: nat)
    requires j <= |a| && a <= b
    ensures SettleStart(a, j) == SettleStart(b, j)
  {
    if j > 0 {
      SettleStartPrefix(a, b, j - 1);
    }
  }

  lemma SettlingStep(before: Progress, clocks: seq<nat>, now: nat)
    requires Reachable(before.sm) && before.sm.phase != Done && |clocks| == |before.actions|
    requires Settling(before, clocks)
    ensures var (sm, action) := Tick(before.sm, now);
            var after := Progress(sm, before.actions + [action]);
            Settling(after, clocks + [now])
            && (Moves(action) ==> SettledBefore(after.actions, clocks + [now], |before.actions|))
  {
    var (sm, action) := Tick(before.sm, now);
    var actions := before.actions + [action];
    SettleStartPrefix(before.actions, actions, |before.actions|);
    assert SettleStart(actions, |actions|) ==
           if action == SettleValve then SettleStart(actions, |before.actions|) else |actions|;
    hide SettleStart, Sub32;
  }

  lemma DriveStep(freqs: seq<nat>, rest: seq<nat>, now: nat)
    requires |freqs| == CAL_SEQ_POINTS
    ensures var before := Drive(freqs, rest);
            Drive(freqs, rest + [now])
            == if before.sm.phase == Done then before
               else Progress(Tick(before.sm, now).0, before.actions + [Tick(before.sm, now).1])
  {
    assert (rest + [now])[..|rest|] == rest;
    hide Tick;
  }

  lemma NothingSettles(freqs: seq<nat>)
    requires |freqs| == CAL_SEQ_POINTS
    ensures Drive(freqs, []) == Progress(Started(freqs), []) && Settling(Drive(freqs, []), [])
  {
  }

  lemma SettlingOver(p: Progress, clocks: seq<nat>, more: seq<nat>)
    requires p.sm.phase == Done && |p.actions| <= |clocks| && clocks <= more && Settling(p, clocks)
    ensures Settling(p, more)
  {
    hide SettleStart;
  }

  lemma SettledStays(a: seq<Action>, b: seq<Action>, clocks: seq<nat>, more: seq<nat>, j: nat)
    requires j < |a| <= |clocks| && |b| <= |more| && a <= b && clocks <= more
    ensures SettledBefore(a, clocks, j) ==> SettledBefore(b, more, j)
  {
    SettleStartPrefix(a, b, j);
    hide SettleStart, Sub32;
  }

  /** Every fill and every empty of a run comes at the first tick that finds at least
      1000 ms, modulo 2^32, since the first settle action of its own settling. */
  lemma {:induction false} MovesAreSettled(freqs: seq<nat>, clocks: seq<nat>, j: nat)
    requires |freqs| == CAL_SEQ_POINTS
    ensures Settling(Drive(freqs, clocks), clocks)
    ensures j < |Drive(freqs, clocks).actions| && Moves(Drive(freqs, clocks).actions[j]) ==>
              SettledBefore(Drive(freqs, clocks).actions, clocks, j)
  {
    hide Drive, Settling, SettledBefore, Tick, Moves, Reachable;
    if clocks == [] {
      NothingSettles(freqs);
    } else {
      var rest, now := clocks[..|clocks| - 1], clocks[|clocks| - 1];
      assert clocks == rest + [now];
      var before := Drive(freqs, rest);
      DriveStep(freqs, rest, now);
      MovesAreSettled(freqs, rest, j);
      if before.sm.phase == Done {
        SettlingOver(before, rest, clocks);
      } else {
        SettlingStep(before, rest, now);
      }
      if j < |before.actions| {
        SettledStays(before.actions, Drive(freqs, clocks).actions, rest, clocks, j);
      }
    }
  }

  // ---- Measured speeds -------------------------------------------------------------

  function Empties(actions: seq<Action>, n: nat): nat
    requires n <= |actions|
  {
    if n == 0 then 0 else Empties(actions, n - 1) + if actions[n - 1] == EmptyToLimit then 1 else 0
  }

  /** The stroke started by the action at j is measured at the next tick, and stored at the
      next free index. */
  predicate Measured(p: Progress, clocks: seq<nat>, j: nat)
    requires j + 1 < |p.actions| <= |clocks| && |p.sm.results| == CAL_SEQ_POINTS
  {
    var n := Empties(p.actions, j);
    n < p.sm.seqIdx <= CAL_SEQ_POINTS && p.sm.results[n] == StrokeSpeed(Sub32(clocks[j + 1], clocks[j]))
  }

  predicate Counting(p: Progress, clocks: seq<nat>)
    requires |p.actions| <= |clocks|
  {
    var n := |p.actions|;
    if p.sm.phase == Empty then
      && n > 0 && p.actions[n - 1] == EmptyToLimit && p.sm.elapsedMs == clocks[n - 1]
      && Empties(p.actions, n) == p.sm.seqIdx + 1
    else (n > 0 ==> p.actions[n - 1] != EmptyToLimit) && Empties(p.actions, n) == p.sm.seqIdx
  }

  lemma {:induction false} EmptiesPrefix(a: seq<Action>, b: seq<Action>, n: nat)
    requires n <= |a| && a <= b
    ensures Empties(a, n) == Empties(b, n)
  {
    if n > 0 {
      EmptiesPrefix(a, b, n - 1);
    }
  }

  lemma CountingStep(before: Progress, clocks: seq<nat>, now: nat)
    requires Reachable(before.sm) && before.sm.phase != Done && |clocks| == |before.actions|
    requires Counting(before, clocks)
    ensures var (sm, action) := Tick(before.sm, now);
            Reachable(sm) && Counting(Progress(sm, before.actions + [action]), clocks + [now])
            && (|before.actions| > 0 && before.actions[|before.actions| - 1] == EmptyToLimit ==>
                  Measured(Progress(sm, before.actions + [action]), clocks + [now], |before.actions| - 1))
  {
    var (sm, action) := Tick(before.sm, now);
    StepReachable(before.sm, now);
    EmptiesPrefix(before.actions, before.actions + [action], |before.actions|);
    if before.actions != [] {
      EmptiesPrefix(before.actions, before.actions + [action], |before.actions| - 1);
    }
  }

  lemma ResultsStay(sm: Sm, now: nat)
    requires Reachable(sm) && sm.phase != Done
    ensures var next := Tick(sm, now).0;
            |next.results| == |sm.results| && sm.seqIdx <= next.seqIdx <= CAL_SEQ_POINTS
            && forall i :: 0 <= i < sm.seqIdx ==> next.results[i] == sm.results[i]
  {
  }

  /** Results are filled in order, each with the speed of its own stroke. */
  lemma {:induction false} StrokesAreMeasured(freqs: seq<nat>, clocks: seq<nat>, j: nat)
    requires |freqs| == CAL_SEQ_POINTS
    ensures Counting(Drive(freqs, clocks), clocks)
    ensures j + 1 < |Drive(freqs, clocks).actions| && Drive(freqs, clocks).actions[j] == EmptyToLimit ==>
              Measured(Drive(freqs, clocks), clocks, j)
  {
    if clocks != [] {
      var rest, now := clocks[..|clocks| - 1], clocks[|clocks| - 1];
      var before := Drive(freqs, rest);
      StrokesAreMeasured(freqs, rest, j);
      assert clocks == rest + [now];
      if before.sm.phase != Done {
        CountingStep(before, rest, now);
        ResultsStay(before.sm, now);
        hide Counting, Tick;
        var after := Drive(freqs, clocks);
        if j < |before.actions| {
          EmptiesPrefix(before.actions, after.actions, j);
        }
      }
    }
  }
}
