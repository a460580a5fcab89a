/** The rinse machine of components/domain/include/domain/rinse_sm.hpp.  Its Filling arm
    never leaves Filling, and its cycle counter is an unsigned byte. */
module RinseCycles {

  datatype Phase = PreFill | Emptying | Filling | Done
  datatype Action = FillToLimit | EmptyToLimit | Complete | Error

  datatype Sm = Sm(totalCycles: nat, currentCycle: nat, phase: Phase, started: bool)

  predicate Valid(sm: Sm) {
    sm.totalCycles < 256 && sm.currentCycle < 256 && (sm.phase != Done ==> sm.started)
    && (sm.phase == PreFill || sm.phase == Emptying ==> sm.currentCycle == 1)
  }

  function Start(cycles: nat, needsFill: bool): Sm {
    Sm(cycles, 1, if needsFill then PreFill else Emptying, true)
  }

  function Tick(sm: Sm): (Sm, Action) {
    if !sm.started then (sm, Error)
    else
      match sm.phase
      case PreFill => (sm.(phase := Emptying), EmptyToLimit)
      case Emptying => (sm.(phase := Filling), FillToLimit)
      case Filling =>
        var next := (sm.currentCycle + 1) % 256;
        if next > sm.totalCycles then (sm.(currentCycle := next, phase := Done, started := false), Complete)
        else (sm.(currentCycle := next), EmptyToLimit)
      case Done => (sm, Complete)
  }

  /** The state after n turns of the run loop, which stops at Done. */
  function After(sm: Sm, n: nat): Sm {
    if n == 0 then sm
    else
      var before := After(sm, n - 1);
      if before.phase == Done then before else Tick(before).0
  }

  /** The actions of the first n turns. */
  function Made(sm: Sm, n: nat): (actions: seq<Action>)
    ensures |actions| == n
  {
    if n == 0 then [] else Made(sm, n - 1) + [Tick(After(sm, n - 1)).1]
  }

  lemma TickValid(sm: Sm)
    requires Valid(sm)
    ensures Valid(Tick(sm).0)
    ensures sm.phase != Done ==> Tick(sm).1 != Error && (Tick(sm).1 == Complete <==> Tick(sm).0.phase == Done)
  {
  }

  lemma TickShape(sm: Sm)
    requires Valid(sm) && sm.phase != Done
    ensures var (next, action) := Tick(sm);
            && next.totalCycles == sm.totalCycles && action != Error
            && (sm.totalCycles == 255 ==> action != Complete)
  {
  }

  lemma {:induction false} AfterShift(sm: Sm, n: nat)
    requires sm.phase != Done
    ensures After(Tick(sm).0, n) == After(sm, n + 1)
  {
    if n > 0 {
      AfterShift(sm, n - 1);
    }
  }

  lemma {:induction false} FullCounterNeverEnds(sm: Sm, n: nat)
    requires Valid(sm) && sm.phase != Done && sm.totalCycles == 255
    ensures var end := After(sm, n); Valid(end) && end.phase != Done && end.totalCycles == 255
  {
    if n > 0 {
      FullCounterNeverEnds(sm, n - 1);
    }
  }

  /** Turns left before Done. */
  function TurnsLeft(sm: Sm): nat {
    match sm.phase
    case PreFill => 3 + if sm.totalCycles > sm.currentCycle then sm.totalCycles - sm.currentCycle else 0
    case Emptying => 2 + if sm.totalCycles > sm.currentCycle then sm.totalCycles - sm.currentCycle else 0
    case Filling => 1 + if sm.totalCycles > sm.currentCycle then sm.totalCycles - sm.currentCycle else 0
    case Done => 0
  }

  lemma OneTurnLess(sm: Sm)
    requires Valid(sm) && sm.phase != Done && sm.totalCycles < 255 && (sm.phase == Filling ==> sm.currentCycle < 255)
    ensures var next := Tick(sm).0;
            && Valid(next) && next.totalCycles < 255 && TurnsLeft(next) + 1 == TurnsLeft(sm)
            && (next.phase == Filling ==> next.currentCycle < 255)
  {
  }

  lemma {:induction false} EndsInTime(sm: Sm)
    requires Valid(sm) && sm.totalCycles < 255 && (sm.phase == Filling ==> sm.currentCycle < 255)
    ensures After(sm, TurnsLeft(sm)).phase == Done
    decreases TurnsLeft(sm)
  {
    if sm.phase != Done {
      OneTurnLess(sm);
      var next := Tick(sm).0;
      hide Tick, TurnsLeft;
      EndsInTime(next);
      AfterShift(sm, TurnsLeft(next));
    }
  }

  /** A rinse ends for every cycle count but 255, where the byte counter wraps first. */
  lemma RinseEndsExactly(cycles: nat, needsFill: bool)
    requires cycles < 256
    ensures (exists n: nat :: After(Start(cycles, needsFill), n).phase == Done) <==> cycles != 255
  {
    var sm := Start(cycles, needsFill);
    if cycles == 255 {
      forall n: nat
        ensures After(sm, n).phase != Done
      {
        FullCounterNeverEnds(sm, n);
      }
    } else {
      EndsInTime(sm);
    }
  }

  // ---- The moves of a run --------------------------------------------------------

  /** The moves still to come. */
  function Remaining(sm: Sm): seq<Action>
    decreases TurnsLeft(sm)
  {
    match sm.phase
    case PreFill => [EmptyToLimit] + Remaining(sm.(phase := Emptying))
    case Emptying => [FillToLimit] + Remaining(sm.(phase := Filling))
    case Filling =>
      if sm.currentCycle < sm.totalCycles then [EmptyToLimit] + Remaining(sm.(currentCycle := sm.currentCycle + 1))
      else []
    case Done => []
  }

  lemma FillingTick(sm: Sm)
    requires sm.phase == Filling && sm.started && sm.currentCycle < 255
    ensures if sm.currentCycle < sm.totalCycles
            then Tick(sm) == (sm.(currentCycle := sm.currentCycle + 1), EmptyToLimit)
            else Tick(sm).1 == Complete
  {
  }

  lemma TurnTakesNextMove(sm: Sm)
    requires Valid(sm) && sm.phase != Done && sm.totalCycles < 255 && (sm.phase == Filling ==> sm.currentCycle < 255)
    ensures Tick(sm).1 == Complete ==> Remaining(sm) == []
    ensures Tick(sm).1 != Complete ==> Remaining(sm) == [Tick(sm).1] + Remaining(Tick(sm).0)
    ensures Tick(sm).0.phase == Filling ==> Tick(sm).0.currentCycle < 255
  {
    if sm.phase == Filling {
      FillingTick(sm);
      hide Tick;
    }
  }

  function Repeat(a: Action, n: nat): (r: seq<Action>)
    ensures |r| == n && forall i :: 0 <= i < n ==> r[i] == a
  {
    if n == 0 then [] else [a] + Repeat(a, n - 1)
  }

  lemma {:induction false} FillingOnlyEmpties(sm: Sm)
    requires sm.phase == Filling
    ensures Remaining(sm)
         == Repeat(EmptyToLimit, if sm.currentCycle < sm.totalCycles then sm.totalCycles - sm.currentCycle else 0)
    decreases TurnsLeft(sm)
  {
    if sm.currentCycle < sm.totalCycles {
      FillingOnlyEmpties(sm.(currentCycle := sm.currentCycle + 1));
    }
  }

  /** The moves of a rinse: fill before the first emptying when asked to, fill once more,
      and empty once for every cycle but one. */
  lemma RinseMoves(cycles: nat, needsFill: bool)
    ensures Remaining(Start(cycles, needsFill))
         == (if needsFill then [EmptyToLimit, FillToLimit] else [FillToLimit])
            + Repeat(EmptyToLimit, if cycles > 1 then cycles - 1 else 0)
  {
    var start := Start(cycles, needsFill);
    var filling := start.(phase := Filling);
    FillingOnlyEmpties(filling);
    assert Remaining(start.(phase := Emptying)) == [FillToLimit] + Remaining(filling);
    hide Repeat;
    assert [EmptyToLimit] + ([FillToLimit] + Remaining(filling)) == [EmptyToLimit, FillToLimit] + Remaining(filling);
  }

  predicate Alternates(moves: seq<Action>) {
    forall i :: 0 <= i < |moves| - 1 ==> moves[i] != moves[i + 1]
  }

  /** Fills and empties alternate for at most two cycles: later cycles only empty. */
  lemma RinseAlternatesExactly(cycles: nat, needsFill: bool)
    ensures Alternates(Remaining(Start(cycles, needsFill))) <==> cycles <= 2
  {
    var start := Start(cycles, needsFill);
    var filling := start.(phase := Filling);
    FillingOnlyEmpties(filling);
    var moves := Remaining(start);
    var first := if needsFill then [EmptyToLimit, FillToLimit] else [FillToLimit];
    assert moves == first + Remaining(filling);
    if cycles > 2 {
      assert moves[|first|] == EmptyToLimit && moves[|first| + 1] == EmptyToLimit;
    }
  }
}
