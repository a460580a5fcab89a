/** The motor task's command handlers and run loops (task.cpp, motion.cpp and sm_runners.cpp
    in components/infrastructure/src/motor), over any schedule of stop flags and RMT answers
    and any clock values.  A run whose schedule ends before it does is cut off. */
module MotorTask {
  import opened Options
  import P = ClaimProtocol
  import S = Stepper
  import C = CalSpeedSeq
  import R = RinseCycles

  const MAX_STORED_RESULTS: nat := 3
  const INT32: nat := 0x8000_0000

  datatype ResultType = Plain | RinseComplete | CalDoseComplete | CalSpeedComplete | CalSpeedSeqComplete | Failed

  datatype SmResult = SmResult(kind: ResultType, stepsTaken: int, measuredSpeed: real, results: seq<real>,
                               resultCount: nat)

  /** How a run leaves: at its end, cut off, or in a division by zero. */
  datatype Exit = Ended | CutOff | Trapped

  /** A command as it is queued; testHz is the test frequency of a speed calibration. */
  datatype MotorCommand = MotorCommand(kind: P.Command, steps: int, speedHz: nat, testHz: nat)

  /** What a run reads: gSpeed, whether the volume asks for a fill, the nominal volume, and
      the clock where it looks at it. */
  datatype World = World(gSpeed: nat, needsFill: bool, nominalVolumeMl: real,
                         fillEndMs: nat, emptyEndMs: nat, clocks: seq<nat>)

  /** One stretch of driving: its speed, the steps that counted and the symbols queued. */
  datatype Stroke = Stroke(speedHz: nat, moved: nat, sent: nat)

  /** What others can see of the motor task, in order. */
  datatype Event = SetState(state: P.BuretteState) | Stored(result: SmResult)

  /** Only states that the protocol lets a running command store. */
  ghost predicate PhasesOf(cmd: P.Command, phases: seq<Event>) {
    forall i :: 0 <= i < |phases| ==> phases[i].SetState? && P.PhaseOf(cmd, phases[i].state)
  }

  /** How a run that ended leaves its mark: one result, then Idle. */
  function Ending(done: bool, result: SmResult): seq<Event> {
    if done then [Stored(result), SetState(P.Idle)] else []
  }

  class MotorTask {
    const stepper: S.StepperMotor
    var buretteState: P.BuretteState
    var resultQueue: Option<SmResult>
    ghost var log: seq<Event>
    ghost var counters: seq<int>   // the step counter at each state stored

    constructor (stepper: S.StepperMotor)
      ensures this.stepper == stepper && log == [] && resultQueue == None
    {
      this.stepper := stepper;
      buretteState, resultQueue, log, counters := P.Homing, None, [], [];
    }

    method SetBuretteState(state: P.BuretteState)
      modifies this
      ensures log == old(log) + [SetState(state)] && buretteState == state && resultQueue == old(resultQueue)
      ensures counters == old(counters) + [stepper.position]
    {
      buretteState := state;
      log, counters := log + [SetState(state)], counters + [stepper.position];
    }

    method StoreResult(kind: ResultType, stepsTaken: int, measuredSpeed: real, results: seq<real>, resultCount: nat)
      requires resultCount <= |results|
      modifies this
      ensures resultQueue == Some(SmResult(kind, stepsTaken, measuredSpeed, Kept(results, resultCount), resultCount))
      ensures log == old(log) + Ending(true, resultQueue.value) && buretteState == P.Idle
      ensures counters == old(counters) + [stepper.position]
    {
      var stored := [0.0, 0.0, 0.0];
      var i := 0;
      while i < resultCount && i < MAX_STORED_RESULTS
        invariant i <= resultCount && i <= MAX_STORED_RESULTS && |stored| == 3
        invariant stored == Kept(results, i)
      {
        stored := stored[i := results[i]];
        i := i + 1;
      }
      assert stored == Kept(results, resultCount);
      resultQueue := Some(SmResult(kind, stepsTaken, measuredSpeed, stored, resultCount));
      log := log + [Stored(resultQueue.value)];
      buretteState := P.Idle;
      log, counters := log + [SetState(P.Idle)], counters + [stepper.position];
    }

    /** A result without measurements. */
    static lemma NothingKept()
      ensures Kept([], 0) == [0.0, 0.0, 0.0]
    {
    }

    /** The first three of the counted results, padded with zeros. */
    static function Kept(results: seq<real>, count: nat): (kept: seq<real>)
      requires count <= |results|
      ensures |kept| == 3
    {
      seq(3, i requires 0 <= i < 3 => if i < count then results[i] else 0.0)
    }

    // ---- Moves -------------------------------------------------------------------

    /** What a move has done to the stepper since it stood at `before` with these symbols
        queued: the counter advanced by the steps moved, and the symbols of those, and of at
        most one chunk more, were queued in order. */
    static ghost predicate Stepped(before: int, symbols: seq<S.Symbol>, stepper: S.StepperMotor, intervalUs: nat,
                                   moved: nat, sent: nat)
      reads stepper`position, stepper`queued
    {
      && S.Advanced(before, stepper.position, moved)
      && stepper.queued == symbols + S.Pulses(intervalUs, sent)
      && moved <= sent <= moved + S.RMT_CHUNK_SYMBOLS
    }

    static lemma NotStepped(stepper: S.StepperMotor, intervalUs: nat)
      ensures Stepped(stepper.position, stepper.queued, stepper, intervalUs, 0, 0)
    {
    }

    /** Microseconds a step; the division traps at zero. */
    static function IntervalOf(speedHz: nat): nat {
      if speedHz == 0 then 0 else 1_000_000 / speedHz
    }

    /** The longest interval at which a second holds that many steps. */
    static lemma IntervalFillsSecond(speedHz: nat)
      requires speedHz > 0
      ensures speedHz * IntervalOf(speedHz) <= 1_000_000 < speedHz * (IntervalOf(speedHz) + 1)
    {
    }

    /** One call of the driver with a single interval for all its steps, after `done` of
        them: the accounts of the two add up. */
    method MoveChunk(intervalUs: nat, steps: nat, ghost before: int, ghost symbols: seq<S.Symbol>, ghost done: nat)
        returns (r: S.MoveResult, ghost sent: nat)
      requires Stepped(before, symbols, stepper, intervalUs, done, done)
      requires 0 < steps <= S.RMT_CHUNK_SYMBOLS && stepper.Ready()
      modifies stepper
      ensures sent <= steps
      ensures r == S.Completed ==> Stepped(before, symbols, stepper, intervalUs, done + steps, done + steps)
      ensures r != S.Completed ==> Stepped(before, symbols, stepper, intervalUs, done, done + sent)
      ensures stepper.Ready() && stepper.Explains(r, old(stepper.seen), stepper.seen)
      ensures stepper.InStep(2, old(stepper.seen), stepper.seen, if r == S.Completed then 1 else 0, r)
    {
      var intervals := seq(steps, _ => intervalUs);
      hide S.Advanced, S.SymbolsOf, S.Pulses, S.StepperMotor.Explains, S.StepperMotor.InStep;
      ghost var here, queued := stepper.position, stepper.queued;
      ghost var moved, chunks;
      r, moved, sent, chunks := stepper.MoveStepsIntervals(intervals);
      S.PulsesAreSymbols(intervalUs, steps, sent);
      S.AdvancedTwice(before, here, stepper.position, done, moved);
      QueuedTwice(symbols, intervalUs, done, sent);
    }

    static lemma QueuedTwice(before: seq<S.Symbol>, intervalUs: nat, m: nat, n: nat)
      ensures before + S.Pulses(intervalUs, m) + S.Pulses(intervalUs, n) == before + S.Pulses(intervalUs, m + n)
    {
      S.PulsesConcat(intervalUs, m, n);
      assert before + S.Pulses(intervalUs, m) + S.Pulses(intervalUs, n)
          == before + (S.Pulses(intervalUs, m) + S.Pulses(intervalUs, n));
    }

    /** One turn of a move's loop: the stop flag, which ends the move `early`, and a call of
        the driver. */
    method MoveTurn(intervalUs: nat, steps: nat, ghost before: int, ghost symbols: seq<S.Symbol>, ghost done: nat,
                    ghost from: S.Seen, ghost chunks: nat)
        returns (r: S.MoveResult, early: bool, ghost sent: nat)
      requires Stepped(before, symbols, stepper, intervalUs, done, done)
      requires 0 < steps <= S.RMT_CHUNK_SYMBOLS && stepper.Ready()
      requires stepper.Explains(S.Completed, from, stepper.seen)
      requires stepper.InStep(3, from, stepper.seen, chunks, S.Completed)
      modifies stepper
      ensures sent <= steps
      ensures r == S.Completed ==> Stepped(before, symbols, stepper, intervalUs, done + steps, done + steps)
      ensures r != S.Completed ==> Stepped(before, symbols, stepper, intervalUs, done, done + sent)
      ensures stepper.Ready() && stepper.Explains(r, from, stepper.seen)
      ensures stepper.InStep(3, from, stepper.seen, if r == S.Completed then chunks + 1 else chunks, r)
      ensures early ==> r == S.LimitSwitchTriggered
      ensures r == S.LimitSwitchTriggered && stepper.Smooth(from) ==>
                (early <==> stepper.seen.stops - from.stops == 3 * chunks + 1)
      ensures r != S.CutShort ==> old(stepper.seen.stops) < stepper.seen.stops
    {
      hide Stepped;
      ghost var here := stepper.seen;
      var stop := stepper.ReadStop();
      early, sent := false, 0;
      if stop == None {
        stepper.StopMissing(3, from, here, chunks);
        r := S.CutShort;
      } else if stop.value {
        stepper.StopRead(3, from, here, chunks);
        r, early := S.LimitSwitchTriggered, true;
      } else {
        ghost var there := stepper.seen;
        r, sent := MoveChunk(intervalUs, steps, before, symbols, done);
        assert there.stops <= stepper.seen.stops;
        stepper.ChunkRead(3, from, here, stepper.seen, chunks, r);
      }
    }

    /** Runs chunks until the stop flag or an error ends the move, and for no other reason.  A
        frequency of zero traps in the division before the first.  As long as the RMT makes
        no trouble, the move makes the chunks before the first flag that is set, three flags
        being read for each. */
    method MoveToEndstop(speedHz: nat) returns (exit: Exit, ghost moved: nat, ghost sent: nat)
      requires stepper.Ready()
      modifies stepper
      ensures stepper.Ready()
      ensures exit == Trapped <==> speedHz == 0
      ensures Stepped(old(stepper.position), old(stepper.queued), stepper, IntervalOf(speedHz), moved, sent)
      ensures S.WholeChunks(moved) && (speedHz == 0 ==> sent == 0)
      ensures EndstopFollows(stepper, old(stepper.seen), stepper.seen, exit, moved)
    {
      moved, sent := 0, 0;
      NotStepped(stepper, IntervalOf(speedHz));
      stepper.NothingRead(3, stepper.seen);
      if speedHz == 0 {
        return Trapped, 0, 0;
      }
      hide *;
      var intervalUs := IntervalOf(speedHz);
      ghost var chunks := 0;
      while true
        invariant Stepped(old(stepper.position), old(stepper.queued), stepper, intervalUs, moved, moved)
        invariant moved == S.RMT_CHUNK_SYMBOLS * chunks && stepper.Ready()
        invariant stepper.Explains(S.Completed, old(stepper.seen), stepper.seen)
        invariant stepper.InStep(3, old(stepper.seen), stepper.seen, chunks, S.Completed)
        decreases |stepper.stops| - stepper.seen.stops
      {
        var r, early, n := MoveTurn(intervalUs, S.RMT_CHUNK_SYMBOLS, old(stepper.position), old(stepper.queued), moved,
                                    old(stepper.seen), chunks);
        if r != S.Completed {
          exit, sent := if r == S.CutShort then CutOff else Ended, moved + n;
          EndstopEnds(stepper, old(stepper.seen), stepper.seen, r, chunks);
          return;
        }
        moved, chunks := moved + S.RMT_CHUNK_SYMBOLS, chunks + 1;
      }
    }

    /** What a schedule makes of a move to an endstop: only a flag that is set or an answer
        other than Ok ends it.  Without trouble from the RMT the first such flag decides how
        far it gets, and it gets there if the schedule is long enough. */
    static ghost predicate EndstopFollows(stepper: S.StepperMotor, from: S.Seen, to: S.Seen, exit: Exit, moved: nat) {
      && (exit == Trapped ==> to == from)
      && (exit == Ended ==> stepper.Disturbed(from, to) && from.stops < to.stops)
      && (exit == CutOff ==> to.stops == |stepper.stops| || to.answers == |stepper.answers|)
      && (exit == Ended && stepper.Smooth(from) ==>
            stepper.FirstStop(from, to.stops - 1) && moved == 128 * ((to.stops - 1 - from.stops) / 3))
      && (exit == CutOff && stepper.Smooth(from) ==>
            forall f: nat :: stepper.FirstStop(from, f) ==>
              |stepper.answers| < from.answers + 2 * ((f - from.stops) / 3 + 1))
    }

    static lemma EndstopEnds(stepper: S.StepperMotor, from: S.Seen, to: S.Seen, r: S.MoveResult, chunks: nat)
      requires r != S.Completed && stepper.Explains(r, from, to) && stepper.InStep(3, from, to, chunks, r)
      requires from.stops < to.stops || r == S.CutShort
      ensures EndstopFollows(stepper, from, to, if r == S.CutShort then CutOff else Ended, 128 * chunks)
      ensures S.WholeChunks(128 * chunks)
    {
    }

    method MoveFill(speedHz: nat) returns (exit: Exit, ghost stroke: Stroke)
      requires stepper.Ready()
      modifies this, stepper
      ensures stepper.Ready() && (exit == CutOff ==> stepper.Exhausted())
      ensures exit == Trapped <==> speedHz == 0
      ensures exit == Ended ==> old(stepper.seen.stops) < stepper.seen.stops
      ensures log == old(log) + [SetState(P.Filling)] && resultQueue == old(resultQueue)
      ensures counters == old(counters) + [old(stepper.position)]
      ensures Stepped(old(stepper.position), old(stepper.queued), stepper,
                      IntervalOf(speedHz), stroke.moved, stroke.sent)
      ensures Drove(old(stepper.position), old(stepper.queued), stepper.position, stepper.queued, [stroke])
      ensures stroke.speedHz == speedHz && SpeedsOf([stroke]) == [speedHz] && S.WholeChunks(stroke.moved)
      ensures EndstopFollows(stepper, old(stepper.seen), stepper.seen, exit, stroke.moved)
    {
      hide Stepped, Drove, SpeedsOf;
      SetBuretteState(P.Filling);
      ghost var moved, sent;
      exit, moved, sent := MoveToEndstop(speedHz);
      stroke := Stroke(speedHz, moved, sent);
      OneStroke(old(stepper.position), old(stepper.queued), stepper, stroke);
    }

    method MoveEmpty(speedHz: nat) returns (exit: Exit, ghost stroke: Stroke)
      requires stepper.Ready()
      modifies this, stepper
      ensures stepper.Ready() && (exit == CutOff ==> stepper.Exhausted())
      ensures exit == Trapped <==> speedHz == 0
      ensures exit == Ended ==> old(stepper.seen.stops) < stepper.seen.stops
      ensures log == old(log) + [SetState(P.Emptying)] && resultQueue == old(resultQueue)
      ensures counters == old(counters) + [old(stepper.position)]
      ensures Stepped(old(stepper.position), old(stepper.queued), stepper,
                      IntervalOf(speedHz), stroke.moved, stroke.sent)
      ensures Drove(old(stepper.position), old(stepper.queued), stepper.position, stepper.queued, [stroke])
      ensures stroke.speedHz == speedHz && SpeedsOf([stroke]) == [speedHz] && S.WholeChunks(stroke.moved)
      ensures EndstopFollows(stepper, old(stepper.seen), stepper.seen, exit, stroke.moved)
    {
      hide Stepped, Drove, SpeedsOf;
      SetBuretteState(P.Emptying);
      ghost var moved, sent;
      exit, moved, sent := MoveToEndstop(speedHz);
      stroke := Stroke(speedHz, moved, sent);
      OneStroke(old(stepper.position), old(stepper.queued), stepper, stroke);
    }

    /** The permitted speed nearest to the one that is set. */
    static function ClampedSpeed(gSpeed: nat): (speed: nat)
      ensures 30 <= speed <= 3000
      ensures forall other :: 30 <= other <= 3000 ==> Apart(gSpeed, speed) <= Apart(gSpeed, other)
    {
      if gSpeed < S.STEP_FREQ_MIN_HZ then S.STEP_FREQ_MIN_HZ
      else if gSpeed > S.STEP_FREQ_MAX_HZ then S.STEP_FREQ_MAX_HZ
      else gSpeed
    }

    static function Apart(a: int, b: int): int {
      if a < b then b - a else a - b
    }

    /** Moves in chunks of 128 until all steps are made, and stops short only at a flag that
        is set or an answer other than Ok.  Error is shown when the driver found the flag,
        not when the loop did. */
    method ExecuteMoveSteps(steps: int, gSpeed: nat)
        returns (exit: Exit, ghost moved: nat, ghost sent: nat, ghost phases: seq<Event>)
      requires steps < INT32 && stepper.Ready()
      modifies this, stepper
      ensures stepper.Ready()
      ensures exit != Trapped && moved <= sent <= Wanted(steps)
      ensures exit == Ended && moved < steps ==> S.WholeChunks(moved)
      ensures Stepped(old(stepper.position), old(stepper.queued), stepper,
                      IntervalOf(ClampedSpeed(gSpeed)), moved, sent)
      ensures MoveFollows(stepper, old(stepper.seen), stepper.seen, exit, Wanted(steps), moved)
      ensures phases == [] || (phases == [SetState(P.Error)] && exit == Ended && moved < steps)
      ensures exit == Ended && moved < steps && stepper.Smooth(old(stepper.seen)) ==>
                (phases == [] <==> FoundByLoop(old(stepper.seen), stepper.seen))
      ensures log == old(log) + phases && resultQueue == old(resultQueue)
    {
      exit, moved, sent, phases := Ended, 0, 0, [];
      NotStepped(stepper, IntervalOf(ClampedSpeed(gSpeed)));
      MoveStarts(stepper, stepper.seen);
      if steps <= 0 {
        return;
      }
      var speed := gSpeed;
      if speed < S.STEP_FREQ_MIN_HZ {
        speed := S.STEP_FREQ_MIN_HZ;
      }
      if speed > S.STEP_FREQ_MAX_HZ {
        speed := S.STEP_FREQ_MAX_HZ;
      }
      assert speed == ClampedSpeed(gSpeed);
      hide ClampedSpeed, IntervalOf, Stepped, MoveFollows;
      exit, moved, sent, phases := RunSteps(steps, IntervalOf(speed));
    }

    /** The loop of a move of a number of steps. */
    method RunSteps(steps: nat, intervalUs: nat)
        returns (exit: Exit, ghost moved: nat, ghost sent: nat, ghost phases: seq<Event>)
      requires stepper.Ready() && steps > 0
      modifies this, stepper
      ensures stepper.Ready()
      ensures exit != Trapped && moved <= sent <= steps && (moved < steps ==> S.WholeChunks(moved))
      ensures Stepped(old(stepper.position), old(stepper.queued), stepper, intervalUs, moved, sent)
      ensures MoveFollows(stepper, old(stepper.seen), stepper.seen, exit, steps, moved)
      ensures phases == [] || (phases == [SetState(P.Error)] && exit == Ended && moved < steps)
      ensures exit == Ended && moved < steps && stepper.Smooth(old(stepper.seen)) ==>
                (phases == [] <==> FoundByLoop(old(stepper.seen), stepper.seen))
      ensures log == old(log) + phases && resultQueue == old(resultQueue)
    {
      exit, moved, phases := Ended, 0, [];
      NotStepped(stepper, intervalUs);
      stepper.NothingRead(3, stepper.seen);
      S.NoChunk(steps);
      hide *;
      var remaining: nat := steps;
      ghost var chunks := 0;
      while remaining > 0
        invariant remaining <= steps && moved == steps - remaining && S.Counted(chunks, steps, moved)
        invariant Stepped(old(stepper.position), old(stepper.queued), stepper, intervalUs, moved, moved)
        invariant stepper.Ready() && stepper.Explains(S.Completed, old(stepper.seen), stepper.seen)
        invariant stepper.InStep(3, old(stepper.seen), stepper.seen, chunks, S.Completed)
        invariant log == old(log) && resultQueue == old(resultQueue) && phases == []
      {
        var again, chunk;
        again, chunk, exit, sent, phases := StepsTurn(remaining, intervalUs, old(stepper.position), old(stepper.queued),
                                                      old(stepper.seen), steps, chunks);
        if !again {
          return;
        }
        remaining, moved, chunks := remaining - chunk, moved + chunk, chunks + 1;
      }
      sent, exit := moved, Ended;
      MoveEnds(stepper, old(stepper.seen), stepper.seen, S.Completed, chunks, steps, moved);
    }

    /** One turn of the loop; `again` says whether the chunk was made. */
    method StepsTurn(remaining: nat, intervalUs: nat, ghost before: int, ghost symbols: seq<S.Symbol>,
                     ghost from: S.Seen, ghost steps: nat, ghost chunks: nat)
        returns (again: bool, chunk: nat, exit: Exit, ghost sent: nat, ghost phases: seq<Event>)
      requires 0 < remaining <= steps && S.Counted(chunks, steps, steps - remaining)
      requires Stepped(before, symbols, stepper, intervalUs, steps - remaining, steps - remaining)
      requires stepper.Ready() && stepper.Explains(S.Completed, from, stepper.seen)
      requires stepper.InStep(3, from, stepper.seen, chunks, S.Completed)
      modifies this, stepper
      ensures stepper.Ready() && 0 < chunk <= remaining
      ensures again ==>
                && S.Counted(chunks + 1, steps, steps - remaining + chunk)
                && Stepped(before, symbols, stepper, intervalUs, steps - remaining + chunk, steps - remaining + chunk)
                && stepper.Explains(S.Completed, from, stepper.seen)
                && stepper.InStep(3, from, stepper.seen, chunks + 1, S.Completed)
      ensures !again ==>
                && exit != Trapped && steps - remaining <= sent <= steps && S.WholeChunks(steps - remaining)
                && Stepped(before, symbols, stepper, intervalUs, steps - remaining, sent)
                && MoveFollows(stepper, from, stepper.seen, exit, steps, steps - remaining)
      ensures phases == [] || (phases == [SetState(P.Error)] && !again && exit == Ended)
      ensures !again && exit == Ended && stepper.Smooth(from) ==> (phases == [] <==> FoundByLoop(from, stepper.seen))
      ensures log == old(log) + phases && resultQueue == old(resultQueue)
    {
      chunk := remaining;
      if chunk > S.RMT_CHUNK_SYMBOLS {
        chunk := S.RMT_CHUNK_SYMBOLS;
      }
      ghost var moved := steps - remaining;
      S.NextChunk(chunks, steps, moved, chunk);
      hide *;
      var r, early, n := MoveTurn(intervalUs, chunk, before, symbols, moved, from, chunks);
      again, sent, phases := r == S.Completed, moved + n, [];
      exit := if r == S.CutShort then CutOff else Ended;
      if !again {
        MoveEnds(stepper, from, stepper.seen, r, chunks, steps, moved);
        phases := ShowError(r == S.LimitSwitchTriggered && !early);
      }
    }

    /** The flag that was read last was read at the head of the loop. */
    static predicate FoundByLoop(from: S.Seen, to: S.Seen) {
      (to.stops - 1 - from.stops) % 3 == 0
    }

    method ShowError(found: bool) returns (ghost phases: seq<Event>)
      modifies this
      ensures phases == if found then [SetState(P.Error)] else []
      ensures log == old(log) + phases && resultQueue == old(resultQueue)
    {
      phases := [];
      if found {
        SetBuretteState(P.Error);
        phases := [SetState(P.Error)];
      }
    }

    /** The steps that are asked for; a negative number asks for none. */
    static function Wanted(steps: int): nat {
      if steps > 0 then steps else 0
    }

    /** What a schedule makes of a move of a number of steps.  It stops short exactly when its
        last flag is set or its last answer is not Ok.  Without trouble from the RMT it makes
        the chunks before the first flag that is set, and is cut off only by a schedule of
        less than three flags and two answers a chunk. */
    static ghost predicate MoveFollows(stepper: S.StepperMotor, from: S.Seen, to: S.Seen, exit: Exit,
                                       steps: nat, moved: nat) {
      && moved <= steps && from.stops <= to.stops <= |stepper.stops|
      && (exit == Ended ==> (moved < steps <==> stepper.Disturbed(from, to)))
      && (exit == CutOff ==> to.stops == |stepper.stops| || to.answers == |stepper.answers|)
      && (exit == Ended && stepper.Smooth(from) && moved < steps ==>
            stepper.FirstStop(from, to.stops - 1) && moved == 128 * ((to.stops - 1 - from.stops) / 3))
      && (exit == Ended && stepper.Smooth(from) && moved == steps ==>
            && to.stops == from.stops + 3 * ((steps + 127) / 128)
            && forall k :: from.stops <= k < to.stops ==> !stepper.stops[k])
      && (exit == CutOff && stepper.Smooth(from) ==>
            || |stepper.stops| < from.stops + 3 * ((steps + 127) / 128)
            || |stepper.answers| < from.answers + 2 * ((steps + 127) / 128))
    }

    static lemma MoveStarts(stepper: S.StepperMotor, here: S.Seen)
      requires here.stops <= |stepper.stops|
      ensures MoveFollows(stepper, here, here, Ended, 0, 0)
    {
    }

    static lemma MoveEnds(stepper: S.StepperMotor, from: S.Seen, to: S.Seen, r: S.MoveResult, chunks: nat,
                          steps: nat, moved: nat)
      requires steps > 0 && stepper.Explains(r, from, to) && stepper.InStep(3, from, to, chunks, r)
      requires S.Counted(chunks, steps, moved) && (r == S.Completed <==> moved == steps)
      ensures MoveFollows(stepper, from, to, if r == S.CutShort then CutOff else Ended, steps, moved)
      ensures moved < steps ==> S.WholeChunks(moved)
      ensures r != S.Completed && r != S.CutShort && stepper.Smooth(from) ==>
                && r == S.LimitSwitchTriggered
                && (FoundByLoop(from, to) <==> to.stops - from.stops == 3 * chunks + 1)
    {
      ChunksNeeded(chunks, steps, moved);
      hide S.Counted;
    }

    static lemma ChunksNeeded(chunks: nat, steps: nat, moved: nat)
      requires S.Counted(chunks, steps, moved) && steps > 0
      ensures moved < steps ==>
                moved == 128 * chunks && S.WholeChunks(moved) && chunks + 1 <= (steps + 127) / 128
      ensures moved == steps ==> chunks == (steps + 127) / 128
      ensures moved <= steps
    {
    }

    /** With no flag set and the RMT answering Ok, for long enough, every step is made. */
    static lemma UndisturbedMoveCompletes(stepper: S.StepperMotor, from: S.Seen, to: S.Seen, exit: Exit,
                                          steps: nat, moved: nat)
      requires MoveFollows(stepper, from, to, exit, steps, moved) && exit != Trapped && stepper.Smooth(from)
      requires forall k :: from.stops <= k < |stepper.stops| ==> !stepper.stops[k]
      ensures exit == Ended ==> moved == steps
      ensures var n := (steps + 127) / 128;
              |stepper.stops| >= from.stops + 3 * n && |stepper.answers| >= from.answers + 2 * n ==> exit == Ended
    {
    }

    /** A flag that is first set at the n-th chunk leaves the n chunks before it, unless the
        move is shorter. */
    static lemma StoppedMoveCounts(stepper: S.StepperMotor, from: S.Seen, to: S.Seen, steps: nat, moved: nat, f: nat)
      requires MoveFollows(stepper, from, to, Ended, steps, moved) && stepper.Smooth(from)
      requires stepper.FirstStop(from, f)
      ensures moved == var n := (f - from.stops) / 3; if 128 * n < steps then 128 * n else steps
    {
    }

    // ---- Strokes -------------------------------------------------------------------

    /** The symbols of some strokes, in order. */
    static function StrokePulses(strokes: seq<Stroke>): seq<S.Symbol> {
      if strokes == [] then []
      else
        var last := strokes[|strokes| - 1];
        StrokePulses(strokes[..|strokes| - 1]) + S.Pulses(IntervalOf(last.speedHz), last.sent)
    }

    static function StrokeSteps(strokes: seq<Stroke>): nat {
      if strokes == [] then 0 else StrokeSteps(strokes[..|strokes| - 1]) + strokes[|strokes| - 1].moved
    }

    static function SpeedsOf(strokes: seq<Stroke>): (speeds: seq<nat>)
      ensures |speeds| == |strokes|
    {
      seq(|strokes|, i requires 0 <= i < |strokes| => strokes[i].speedHz)
    }

    /** Strokes that bring the stepper from one counter value and symbol queue to another: the
        counter advances by their steps, and their symbols are queued in order, each at its
        own interval and at most a chunk more than the steps that counted. */
    static ghost predicate Drove(before: int, symbols: seq<S.Symbol>, after: int, queued: seq<S.Symbol>,
                                 strokes: seq<Stroke>) {
      && S.Advanced(before, after, StrokeSteps(strokes))
      && queued == symbols + StrokePulses(strokes)
      && forall i :: 0 <= i < |strokes| ==>
           strokes[i].moved <= strokes[i].sent <= strokes[i].moved + S.RMT_CHUNK_SYMBOLS
    }

    /** Every stroke is driven at this speed. */
    static predicate AtSpeed(strokes: seq<Stroke>, speedHz: nat) {
      forall i :: 0 <= i < |strokes| ==> strokes[i].speedHz == speedHz
    }

    static lemma AtSpeedConcat(a: seq<Stroke>, b: seq<Stroke>, speedHz: nat)
      requires AtSpeed(a, speedHz) && AtSpeed(b, speedHz)
      ensures AtSpeed(a + b, speedHz)
    {
    }

    static lemma DroveNothing(here: int, symbols: seq<S.Symbol>)
      ensures Drove(here, symbols, here, symbols, []) && SpeedsOf([]) == []
    {
    }

    static lemma OneStroke(before: int, symbols: seq<S.Symbol>, stepper: S.StepperMotor, stroke: Stroke)
      requires Stepped(before, symbols, stepper, IntervalOf(stroke.speedHz), stroke.moved, stroke.sent)
      ensures Drove(before, symbols, stepper.position, stepper.queued, [stroke])
      ensures SpeedsOf([stroke]) == [stroke.speedHz]
    {
      assert [stroke][..0] == [] && StrokeSteps([stroke]) == stroke.moved;
      assert StrokePulses([stroke]) == S.Pulses(IntervalOf(stroke.speedHz), stroke.sent);
    }

    static lemma {:induction false} StrokesConcat(a: seq<Stroke>, b: seq<Stroke>)
      ensures StrokeSteps(a + b) == StrokeSteps(a) + StrokeSteps(b)
      ensures StrokePulses(a + b) == StrokePulses(a) + StrokePulses(b)
      ensures SpeedsOf(a + b) == SpeedsOf(a) + SpeedsOf(b)
    {
      if b == [] {
        assert a + b == a;
      } else {
        StrokesConcat(a, b[..|b| - 1]);
        assert (a + b)[..|a + b| - 1] == a + b[..|b| - 1];
        hide S.Pulses, SpeedsOf, IntervalOf;
      }
      SpeedsConcat(a, b);
    }

    static lemma SpeedsConcat(a: seq<Stroke>, b: seq<Stroke>)
      ensures SpeedsOf(a + b) == SpeedsOf(a) + SpeedsOf(b)
    {
    }

    static lemma PulsesOn(symbols: seq<S.Symbol>, a: seq<S.Symbol>, b: seq<S.Symbol>)
      ensures symbols + a + b == symbols + (a + b)
    {
    }

    /** The strokes of two stretches one after the other. */
    static lemma DroveOn(before: int, symbols: seq<S.Symbol>, here: int, queued: seq<S.Symbol>, a: seq<Stroke>,
                         after: int, queuedAfter: seq<S.Symbol>, b: seq<Stroke>)
      requires Drove(before, symbols, here, queued, a) && Drove(here, queued, after, queuedAfter, b)
      ensures Drove(before, symbols, after, queuedAfter, a + b)
      ensures SpeedsOf(a + b) == SpeedsOf(a) + SpeedsOf(b)
    {
      StrokesConcat(a, b);
      S.AdvancedTwice(before, here, after, StrokeSteps(a), StrokeSteps(b));
      PulsesOn(symbols, StrokePulses(a), StrokePulses(b));
      hide StrokeSteps, StrokePulses, SpeedsOf, S.Advanced;
    }

    // ---- Commands ------------------------------------------------------------------

    /** The reported steps are those really moved, wherever the 32-bit counter stands. */
    method HandleMoveSteps(steps: int, gSpeed: nat)
        returns (exit: Exit, ghost moved: nat, ghost sent: nat, ghost phases: seq<Event>)
      requires steps < INT32 && stepper.Ready()
      modifies this, stepper
      ensures stepper.Ready()
      ensures exit != Trapped && moved <= sent <= Wanted(steps)
      ensures exit == Ended && moved < steps ==> S.WholeChunks(moved)
      ensures Stepped(old(stepper.position), old(stepper.queued), stepper,
                      IntervalOf(ClampedSpeed(gSpeed)), moved, sent)
      ensures MoveFollows(stepper, old(stepper.seen), stepper.seen, exit, Wanted(steps), moved)
      ensures phases == [] || (phases == [SetState(P.Error)] && exit == Ended && moved < steps)
      ensures log == old(log) + phases + Ending(exit == Ended, SmResult(Plain, moved, 0.0, [0.0, 0.0, 0.0], 0))
    {
      hide MoveFollows, ClampedSpeed, IntervalOf;
      var stepsBefore := stepper.position;
      exit, moved, sent, phases := ExecuteMoveSteps(steps, gSpeed);
      if exit != Ended {
        return;
      }
      var stepsTaken := S.Wrap32(stepper.position - stepsBefore);
      S.WrappedDifference(stepsBefore, stepper.position, moved);
      if stepsTaken < 0 {
        stepsTaken := -stepsTaken;
      }
      StoreResult(Plain, stepsTaken, 0.0, [], 0);
      NothingKept();
    }

    method HandleMoveContinuous(speedHz: nat) returns (exit: Exit, ghost moved: nat, ghost sent: nat)
      requires stepper.Ready()
      modifies this, stepper
      ensures stepper.Ready()
      ensures exit == Trapped <==> speedHz == 0
      ensures Stepped(old(stepper.position), old(stepper.queued), stepper, IntervalOf(speedHz), moved, sent)
      ensures EndstopFollows(stepper, old(stepper.seen), stepper.seen, exit, moved)
      ensures log == old(log) + Ending(exit == Ended, SmResult(Plain, 0, 0.0, [0.0, 0.0, 0.0], 0))
    {
      exit, moved, sent := MoveToEndstop(speedHz);
      if exit == Ended {
        StoreResult(Plain, 0, 0.0, [], 0);
        NothingKept();
      }
    }

    method HandleStop()
      modifies this
      ensures log == old(log) + [SetState(P.Stopping), SetState(P.Idle)] && resultQueue == old(resultQueue)
    {
      SetBuretteState(P.Stopping);
      SetBuretteState(P.Idle);
    }

    /** Fill unless full, then empty and report.  The counter is recorded with every state
        stored: the dose of a stroke after a fill is the difference from where it stood when
        the emptying began, and without a fill it is the counter itself. */
    method RunCalDose(speedHz: nat, needsFill: bool)
        returns (exit: Exit, ghost phases: seq<Event>, ghost result: SmResult, ghost start: int,
                 ghost strokes: seq<Stroke>)
      requires stepper.Ready()
      modifies this, stepper
      ensures stepper.Ready() && (exit == CutOff ==> stepper.Exhausted())
      ensures exit == Trapped <==> speedHz == 0
      ensures log == old(log) + phases + Ending(exit == Ended, result)
      ensures phases <= FirstFill(needsFill) + [SetState(P.Emptying)] && |strokes| == |phases|
      ensures exit == Ended ==> phases == FirstFill(needsFill) + [SetState(P.Emptying)]
      ensures !needsFill ==> start == old(stepper.position)
      ensures Drove(old(stepper.position), old(stepper.queued), stepper.position, stepper.queued, strokes)
      ensures AtSpeed(strokes, speedHz) && forall i :: 0 <= i < |strokes| ==> S.WholeChunks(strokes[i].moved)
      ensures exit == Ended ==>
                && result.kind == CalDoseComplete
                && result.stepsTaken == Magnitude(S.Wrap32(stepper.position - if needsFill then start else 0))
      ensures exit == Ended ==>
                counters == old(counters) + (if needsFill then [old(stepper.position)] else [])
                            + [start, stepper.position]
      ensures exit == Ended ==> S.Advanced(start, stepper.position, strokes[|strokes| - 1].moved)
      ensures exit == Ended && needsFill ==> S.Advanced(old(stepper.position), start, strokes[0].moved)
      ensures exit == Ended && needsFill && strokes[|strokes| - 1].moved < INT32 ==>
                result.stepsTaken == strokes[|strokes| - 1].moved
      ensures exit == Ended && !needsFill && strokes[|strokes| - 1].moved < INT32 ==>
                var stroke := strokes[|strokes| - 1].moved;
                (result.stepsTaken == stroke <==> S.Wrap32(start) == 0 || S.Wrap32(start + 2 * stroke) == 0)
    {
      phases, result := [], SmResult(CalDoseComplete, 0, 0.0, [], 0);
      start, strokes := stepper.position, [];
      DroveNothing(stepper.position, stepper.queued);
      hide S.Advanced, S.WholeChunks, S.Pulses, IntervalOf, Magnitude, Drove, SpeedsOf, EndstopFollows;
      ghost var stroke: Stroke;
      var stepsBefore := 0;
      if needsFill {
        exit, stroke := MoveFill(speedHz);
        AdvancesOf(old(stepper.position), old(stepper.queued), stepper, stroke);
        phases, strokes := [SetState(P.Filling)], [stroke];
        if exit != Ended {
          return;
        }
        stepsBefore := stepper.position;
        start := stepper.position;
      }
      ghost var queued := stepper.queued;
      exit, result, stroke := EmptyAndReport(stepsBefore, speedHz);
      DroveOn(old(stepper.position), old(stepper.queued), start, queued, strokes,
              stepper.position, stepper.queued, [stroke]);
      phases, strokes := phases + [SetState(P.Emptying)], strokes + [stroke];
    }

    static lemma AdvancesOf(before: int, symbols: seq<S.Symbol>, stepper: S.StepperMotor, stroke: Stroke)
      requires Stepped(before, symbols, stepper, IntervalOf(stroke.speedHz), stroke.moved, stroke.sent)
      ensures S.Advanced(before, stepper.position, stroke.moved)
    {
    }

    /** The emptying of a dose, measured from a counter value: from where the counter stands
        the report is the stroke, from zero it is exactly when the counter wraps to zero at
        the start, or twice the stroke further. */
    method EmptyAndReport(stepsBefore: int, speedHz: nat)
        returns (exit: Exit, ghost result: SmResult, ghost stroke: Stroke)
      requires stepper.Ready()
      modifies this, stepper
      ensures stepper.Ready() && (exit == CutOff ==> stepper.Exhausted())
      ensures exit == Trapped <==> speedHz == 0
      ensures log == old(log) + [SetState(P.Emptying)] + Ending(exit == Ended, result)
      ensures Drove(old(stepper.position), old(stepper.queued), stepper.position, stepper.queued, [stroke])
      ensures S.Advanced(old(stepper.position), stepper.position, stroke.moved)
      ensures stroke.speedHz == speedHz && S.WholeChunks(stroke.moved)
      ensures exit == Ended ==> counters == old(counters) + [old(stepper.position), stepper.position]
      ensures exit == Ended ==>
                && result.kind == CalDoseComplete
                && result.stepsTaken == Magnitude(S.Wrap32(stepper.position - stepsBefore))
      ensures exit == Ended && stroke.moved < INT32 && stepsBefore == old(stepper.position) ==>
                result.stepsTaken == stroke.moved
      ensures exit == Ended && stroke.moved < INT32 && stepsBefore == 0 ==>
                (result.stepsTaken == stroke.moved
                 <==> S.Wrap32(old(stepper.position)) == 0 || S.Wrap32(old(stepper.position) + 2 * stroke.moved) == 0)
    {
      result := SmResult(CalDoseComplete, 0, 0.0, [], 0);
      hide Drove, SpeedsOf, EndstopFollows, IntervalOf;
      ghost var start := stepper.position;
      exit, stroke := MoveEmpty(speedHz);
      if exit != Ended {
        return;
      }
      var diff := S.Wrap32(stepper.position - stepsBefore);
      if stroke.moved < INT32 {
        S.WrappedDifference(start, stepper.position, stroke.moved);
        DoseFromZero(start, stepper.position, stroke.moved);
      }
      hide S.Wrap32;
      StoreResult(CalDoseComplete, Magnitude(diff), 0.0, [], 0);
      result := resultQueue.value;
    }

    static function Magnitude(x: int): int {
      if x > 0 then x else -x
    }

    /** When the counter itself has the magnitude of the stroke. */
    static lemma DoseFromZero(start: int, after: int, stroke: nat)
      requires S.Advanced(start, after, stroke) && stroke < INT32
      ensures Magnitude(S.Wrap32(after)) == stroke <==> S.Wrap32(start) == 0 || S.Wrap32(start + 2 * stroke) == 0
    {
      S.WrapAdd(start + stroke, 0);
      S.WrapsTo(start + stroke, stroke);
      S.WrapsTo(start + stroke, -(stroke as int));
      assert start + stroke - stroke == start && start + stroke + stroke == start + 2 * stroke;
      hide S.Wrap32;
    }

    /** From any other start, a thousand say, another dose is reported. */
    static lemma DoseFromElsewhere()
      ensures S.Advanced(1000, 1128, 128) && Magnitude(S.Wrap32(1128)) == 1128
      ensures !(S.Wrap32(1000) == 0 || S.Wrap32(1000 + 2 * 128) == 0)
    {
    }

    /** The fill a run begins with, unless the burette is full. */
    method FirstMove(fills: bool, speedHz: nat) returns (exit: Exit, ghost strokes: seq<Stroke>)
      requires stepper.Ready()
      modifies this, stepper
      ensures stepper.Ready() && (exit == CutOff ==> stepper.Exhausted())
      ensures exit == Trapped <==> fills && speedHz == 0
      ensures log == old(log) + FirstFill(fills)
      ensures Drove(old(stepper.position), old(stepper.queued), stepper.position, stepper.queued, strokes)
      ensures |strokes| == |FirstFill(fills)| == (if fills then 1 else 0)
      ensures SpeedsOf(strokes) == (if fills then [speedHz] else []) && AtSpeed(strokes, speedHz)
      ensures exit != Ended ==> fills
    {
      exit, strokes := Ended, [];
      DroveNothing(stepper.position, stepper.queued);
      hide Drove, SpeedsOf, Stepped, EndstopFollows, IntervalOf;
      if fills {
        ghost var stroke: Stroke;
        exit, stroke := MoveFill(speedHz);
        strokes := [stroke];
      }
    }

    /** Fill unless full, empty at the test speed, report the speed at which the nominal
        volume takes the time from one clock reading to the other: from the end of the fill,
        or without one from clock value zero. */
    method RunCalSpeed(fillHz: nat, testHz: nat, needsFill: bool, nominalVolumeMl: real,
                       fillEndMs: nat, emptyEndMs: nat)
        returns (exit: Exit, ghost phases: seq<Event>, ghost result: SmResult, ghost strokes: seq<Stroke>)
      requires stepper.Ready()
      modifies this, stepper
      ensures stepper.Ready() && (exit == CutOff ==> stepper.Exhausted())
      ensures exit == Trapped ==> testHz == 0 || (needsFill && fillHz == 0)
      ensures exit == Ended ==> testHz != 0 && (needsFill ==> fillHz != 0)
      ensures log == old(log) + phases + Ending(exit == Ended, result)
      ensures phases <= FirstFill(needsFill) + [SetState(P.Emptying)]
      ensures exit == Ended ==> result.kind == CalSpeedComplete
      ensures exit == Ended ==> phases == FirstFill(needsFill) + [SetState(P.Emptying)]
      ensures exit == Ended ==>
                var from := if needsFill then fillEndMs else 0;
                result.measuredSpeed == SpeedOver(nominalVolumeMl, C.Sub32(emptyEndMs, from))
      ensures Drove(old(stepper.position), old(stepper.queued), stepper.position, stepper.queued, strokes)
      ensures |strokes| == |phases|
      ensures SpeedsOf(strokes) <= (if needsFill then [fillHz] else []) + [testHz]
    {
      result := SmResult(CalSpeedComplete, 0, 0.0, [], 0);
      hide *;
      var elapsedMs: nat := 0;
      exit, strokes := FirstMove(needsFill, fillHz);
      phases := FirstFill(needsFill);
      if exit != Ended {
        NothingEnds(log, result);
        return;
      }
      if needsFill {
        elapsedMs := fillEndMs;
      }
      ghost var here, queued := stepper.position, stepper.queued;
      ghost var stroke: Stroke;
      exit, result, stroke := EmptyAndTime(testHz, nominalVolumeMl, elapsedMs, emptyEndMs);
      LogGrows(old(log), phases, [SetState(P.Emptying)], Ending(exit == Ended, result));
      DroveOn(old(stepper.position), old(stepper.queued), here, queued, strokes,
              stepper.position, stepper.queued, [stroke]);
      phases, strokes := phases + [SetState(P.Emptying)], strokes + [stroke];
    }

    method EmptyAndTime(testHz: nat, nominalVolumeMl: real, elapsedMs: nat, emptyEndMs: nat)
        returns (exit: Exit, ghost result: SmResult, ghost stroke: Stroke)
      requires stepper.Ready()
      modifies this, stepper
      ensures stepper.Ready() && (exit == CutOff ==> stepper.Exhausted())
      ensures exit == Trapped <==> testHz == 0
      ensures log == old(log) + [SetState(P.Emptying)] + Ending(exit == Ended, result)
      ensures exit == Ended ==>
                && result.kind == CalSpeedComplete
                && result.measuredSpeed == SpeedOver(nominalVolumeMl, C.Sub32(emptyEndMs, elapsedMs))
      ensures Drove(old(stepper.position), old(stepper.queued), stepper.position, stepper.queued, [stroke])
      ensures SpeedsOf([stroke]) == [testHz]
    {
      hide Drove, SpeedsOf, Stepped, EndstopFollows, IntervalOf;
      result := SmResult(CalSpeedComplete, 0, 0.0, [], 0);
      exit, stroke := MoveEmpty(testHz);
      if exit != Ended {
        return;
      }
      var diff := C.Sub32(emptyEndMs, elapsedMs);
      if diff == 0 {
        diff := 1;
      }
      StoreResult(CalSpeedComplete, 0, nominalVolumeMl / ((diff as real) / 60000.0), [], 0);
      result := resultQueue.value;
    }

    static function AtLeastOne(ms: nat): (t: nat)
      ensures t > 0
    {
      if ms == 0 then 1 else ms
    }

    /** The speed in ml/min at which a volume takes so many milliseconds, or one. */
    static function SpeedOver(volumeMl: real, ms: nat): (speed: real)
      ensures speed * ((AtLeastOne(ms) as real) / 60000.0) == volumeMl
    {
      volumeMl / ((AtLeastOne(ms) as real) / 60000.0)
    }

    /** Two times give one speed for a volume exactly when they are the same time. */
    static lemma SpeedTellsTime(volumeMl: real, a: nat, b: nat)
      requires volumeMl != 0.0
      ensures SpeedOver(volumeMl, a) == SpeedOver(volumeMl, b) <==> AtLeastOne(a) == AtLeastOne(b)
    {
      var s, t := SpeedOver(volumeMl, a), SpeedOver(volumeMl, b);
      SameProduct(s, (AtLeastOne(a) as real) / 60000.0, (AtLeastOne(b) as real) / 60000.0, volumeMl);
    }

    static lemma SameProduct(s: real, x: real, y: real, v: real)
      requires s * x == v && v != 0.0
      ensures s * y == v <==> x == y
    {
    }

    /** Without a fill, the speed of a stroke that began at `began` is measured right exactly
        when the clock stood at zero then, give or take the shortest times, 0 and 1 ms,
        which count as one. */
    static lemma SpeedFromZero(volumeMl: real, began: nat, ended: nat)
      requires volumeMl != 0.0
      ensures SpeedOver(volumeMl, C.Sub32(ended, 0)) == SpeedOver(volumeMl, C.Sub32(ended, began))
         <==> || C.Sub32(began, 0) == 0
              || (C.Sub32(began, 0) == 1 && C.Sub32(ended, 0) == 1)
              || (C.Sub32(began, 0) == C.UINT32 - 1 && C.Sub32(ended, 0) == 0)
    {
      SpeedTellsTime(volumeMl, C.Sub32(ended, 0), C.Sub32(ended, began));
      hide SpeedOver;
      ClockDifference(ended, began, C.Sub32(ended, 0), C.Sub32(began, 0));
    }

    static lemma ClockDifference(ended: nat, began: nat, e: nat, b: nat)
      requires e == C.Sub32(ended, 0) && b == C.Sub32(began, 0)
      ensures e < C.UINT32 && b < C.UINT32
      ensures C.Sub32(ended, began) == if e >= b then e - b else e - b + C.UINT32
    {
    }

    /** Drives the sequence machine with the clock values it reads, one a turn.  The strokes
        are driven at the frequencies in turn, with a fill between each two, and a run that
        ends has made all five. */
    method RunCalSpeedSeq(freqs: seq<nat>, fillHz: nat, clocks: seq<nat>)
        returns (exit: Exit, ghost phases: seq<Event>, ghost result: SmResult, ghost turns: nat,
                 ghost strokes: seq<Stroke>)
      requires |freqs| == 3 && stepper.Ready()
      modifies this, stepper
      ensures stepper.Ready() && (exit == CutOff ==> stepper.Exhausted() || turns == |clocks|)
      ensures log == old(log) + phases + Ending(exit == Ended, result)
      ensures turns <= |clocks| && phases == MovePhases(Driven(freqs, clocks, turns).actions)
      ensures exit == Trapped ==> fillHz == 0 || !P.Finishes(P.StartCalSpeedSeq(freqs))
      ensures exit == Ended ==> P.Finishes(P.StartCalSpeedSeq(freqs))
      ensures exit == Ended ==>
                var end := Driven(freqs, clocks, turns).sm;
                end.phase == C.Done && result == SmResult(CalSpeedSeqComplete, 0, 0.0, end.results, 3)
      ensures Drove(old(stepper.position), old(stepper.queued), stepper.position, stepper.queued, strokes)
      ensures SpeedsOf(strokes) <= [freqs[0], fillHz, freqs[1], fillHz, freqs[2]]
      ensures exit == Ended ==> SpeedsOf(strokes) == [freqs[0], fillHz, freqs[1], fillHz, freqs[2]]
    {
      phases, result, turns, strokes := [], SmResult(Failed, 0, 0.0, [], 0), 0, [];
      var sm := new C.CalSpeedSeqSm(freqs);
      DriveStarts(freqs);
      assert clocks[..0] == [] && InSequence(sm, freqs, clocks, 0);
      NothingEnds(log, result);
      DroveNothing(stepper.position, stepper.queued);
      PlanStarts(freqs, fillHz, clocks);
      hide *;
      exit := CutOff;
      for turn := 0 to |clocks|
        invariant turns == turn && log == old(log) + phases && fresh(sm) && fresh(sm.results)
        invariant InSequence(sm, freqs, clocks, turn) && sm.phase != C.Done && exit == CutOff
        invariant phases == MovePhases(Driven(freqs, clocks, turn).actions) && stepper.Ready()
        invariant Drove(old(stepper.position), old(stepper.queued), stepper.position, stepper.queued, strokes)
        invariant SpeedsOf(strokes) == PlanUpTo(freqs, fillHz, Driven(freqs, clocks, turn).sm)
      {
        var again;
        ghost var before, phase, made := phases, [], [];
        ghost var here, queued := stepper.position, stepper.queued;
        again, exit, phase, result, made := SequenceStep(sm, freqs, fillHz, clocks, turn);
        LogGrows(old(log), before, phase, Ending(!again && exit == Ended, result));
        DroveOn(old(stepper.position), old(stepper.queued), here, queued, strokes,
                stepper.position, stepper.queued, made);
        turns, phases, strokes := turn + 1, before + phase, strokes + made;
        PlanMeans(freqs, fillHz, Driven(freqs, clocks, turn + 1).sm);
        if !again {
          return;
        }
        NothingEnds(old(log) + phases, result);
        exit := CutOff;
      }
      PlanMeans(freqs, fillHz, Driven(freqs, clocks, turns).sm);
    }

    /** The speeds of the strokes that have brought the machine to a state. */
    static function PlanUpTo(freqs: seq<nat>, fillHz: nat, sm: C.Sm): seq<nat>
      requires |freqs| == 3 && C.Reachable(sm)
    {
      [freqs[0], fillHz, freqs[1], fillHz, freqs[2]][..if C.Reached(sm) < 5 then C.Reached(sm) else 5]
    }

    static lemma PlanStarts(freqs: seq<nat>, fillHz: nat, clocks: seq<nat>)
      requires |freqs| == 3
      ensures PlanUpTo(freqs, fillHz, Driven(freqs, clocks, 0).sm) == []
    {
      assert clocks[..0] == [];
    }

    static lemma PlanMeans(freqs: seq<nat>, fillHz: nat, sm: C.Sm)
      requires |freqs| == 3 && C.Reachable(sm)
      ensures PlanUpTo(freqs, fillHz, sm) <= [freqs[0], fillHz, freqs[1], fillHz, freqs[2]]
      ensures sm.phase == C.Done ==> PlanUpTo(freqs, fillHz, sm) == [freqs[0], fillHz, freqs[1], fillHz, freqs[2]]
    {
    }

    /** A move takes the next speed of the plan, and nothing else does. */
    static lemma PlanTurn(freqs: seq<nat>, fillHz: nat, sm: C.Sm, now: nat)
      requires |freqs| == 3 && C.Reachable(sm) && sm.phase != C.Done && sm.freqs == freqs
      ensures var (next, action) := C.Tick(sm, now);
              && C.Reachable(next) && next.freqs == freqs && (action == C.EmptyToLimit ==> next.seqIdx < 3)
              && PlanUpTo(freqs, fillHz, next)
                 == PlanUpTo(freqs, fillHz, sm)
                    + if action == C.FillToLimit then [fillHz]
                      else if action == C.EmptyToLimit then [freqs[next.seqIdx]] else []
    {
      C.StepReachable(sm, now);
    }

    /** The specification after the first n clock values. */
    static function Driven(freqs: seq<nat>, clocks: seq<nat>, n: nat): (p: C.Progress)
      requires |freqs| == 3 && n <= |clocks|
      ensures C.Reachable(p.sm)
    {
      C.Drive(freqs, clocks[..n])
    }

    static lemma NothingEnds(log: seq<Event>, result: SmResult)
      ensures log + Ending(false, result) == log
    {
    }

    static lemma LogGrows(log: seq<Event>, phases: seq<Event>, phase: seq<Event>, ending: seq<Event>)
      ensures log + phases + phase + ending == log + (phases + phase) + ending
    {
    }

    /** The machine is where the clock values read so far have brought it, and has emptied
        at nonzero frequencies only. */
    static ghost predicate InSequence(sm: C.CalSpeedSeqSm, freqs: seq<nat>, clocks: seq<nat>, n: nat)
      requires |freqs| == 3 && n <= |clocks|
      reads sm, sm.results
    {
      && sm.View() == Driven(freqs, clocks, n).sm && sm.freqs == freqs
      && forall i :: 0 <= i < Used(sm.View()) && i < 3 ==> freqs[i] != 0
    }

    /** How many of the frequencies have been used. */
    static function Used(sm: C.Sm): nat {
      sm.seqIdx + if sm.phase == C.Empty then 1 else 0
    }

    /** One turn of the loop: take the clock value, tick, act. */
    method SequenceStep(sm: C.CalSpeedSeqSm, freqs: seq<nat>, fillHz: nat, clocks: seq<nat>, n: nat)
        returns (again: bool, exit: Exit, ghost phase: seq<Event>, ghost result: SmResult, ghost made: seq<Stroke>)
      requires |freqs| == 3 && n < |clocks| && InSequence(sm, freqs, clocks, n) && sm.phase != C.Done
      requires stepper.Ready()
      modifies this, stepper, sm, sm.results
      ensures stepper.Ready() && (exit == CutOff ==> stepper.Exhausted())
      ensures sm.results == old(sm.results) && (again ==> InSequence(sm, freqs, clocks, n + 1) && sm.phase != C.Done)
      ensures log == old(log) + phase + Ending(!again && exit == Ended, result)
      ensures MovePhases(Driven(freqs, clocks, n + 1).actions) == MovePhases(Driven(freqs, clocks, n).actions) + phase
      ensures exit == Trapped ==> fillHz == 0 || !P.Finishes(P.StartCalSpeedSeq(freqs))
      ensures !again && exit == Ended ==>
                var end := Driven(freqs, clocks, n + 1).sm;
                && end.phase == C.Done && result == SmResult(CalSpeedSeqComplete, 0, 0.0, end.results, 3)
                && P.Finishes(P.StartCalSpeedSeq(freqs))
      ensures Drove(old(stepper.position), old(stepper.queued), stepper.position, stepper.queued, made)
      ensures PlanUpTo(freqs, fillHz, Driven(freqs, clocks, n + 1).sm)
           == PlanUpTo(freqs, fillHz, Driven(freqs, clocks, n).sm) + SpeedsOf(made)
    {
      hide C.Drive, MovePhases, Drove, SpeedsOf, PlanUpTo;
      var nowMs := clocks[n];
      assert clocks[..n + 1] == clocks[..n] + [nowMs];
      SequenceTurn(C.Drive(freqs, clocks[..n]).sm, nowMs);
      DriveExtends(freqs, clocks[..n], nowMs);
      PlanTurn(freqs, fillHz, C.Drive(freqs, clocks[..n]).sm, nowMs);
      var action := sm.OnTick(nowMs);
      again, exit, made := DispatchCalSpeedAction(action, sm, fillHz);
      phase, result := PhaseFor(action), SmResult(Failed, 0, 0.0, [], 0);
      if action == C.Complete {
        result := resultQueue.value;
        assert Kept(sm.results[..], 3) == sm.results[..];
      }
    }

    /** One action of the sequence; `again` says whether the loop goes on. */
    method DispatchCalSpeedAction(action: C.Action, sm: C.CalSpeedSeqSm, fillHz: nat)
        returns (again: bool, exit: Exit, ghost made: seq<Stroke>)
      requires sm.results.Length == 3 && sm.seqIdx <= 3 && stepper.Ready()
      requires action == C.EmptyToLimit ==> sm.seqIdx < |sm.freqs|
      modifies this, stepper
      ensures stepper.Ready() && (exit == CutOff ==> stepper.Exhausted())
      ensures again <==> exit == Ended && action != C.Complete && action != C.Error
      ensures action == C.Complete || action == C.Error ==> exit == Ended
      ensures exit == Trapped <==> (action == C.FillToLimit && fillHz == 0)
                                   || (action == C.EmptyToLimit && sm.freqs[sm.seqIdx] == 0)
      ensures action != C.Complete && action != C.Error ==> log == old(log) + PhaseFor(action)
      ensures action == C.Complete ==>
                resultQueue == Some(SmResult(CalSpeedSeqComplete, 0, 0.0, Kept(sm.results[..], sm.seqIdx), sm.seqIdx))
      ensures action == C.Complete || action == C.Error ==>
                resultQueue.Some? && log == old(log) + Ending(true, resultQueue.value)
      ensures Drove(old(stepper.position), old(stepper.queued), stepper.position, stepper.queued, made)
      ensures SpeedsOf(made) == if action == C.FillToLimit then [fillHz]
                                else if action == C.EmptyToLimit then [sm.freqs[sm.seqIdx]] else []
    {
      exit, made := Ended, [];
      DroveNothing(stepper.position, stepper.queued);
      hide Drove, SpeedsOf, Stepped, EndstopFollows, IntervalOf;
      ghost var stroke: Stroke;
      match action {
        case FillToLimit =>
          exit, stroke := MoveFill(fillHz);
          made := [stroke];
        case EmptyToLimit =>
          exit, stroke := MoveEmpty(sm.freqs[sm.seqIdx]);
          made := [stroke];
        case SettleValve =>
        case Complete =>
          StoreResult(CalSpeedSeqComplete, 0, 0.0, sm.results[..], sm.seqIdx);
          return false, Ended, [];
        case Error =>
          StoreResult(Failed, 0, 0.0, [], 0);
          return false, Ended, [];
      }
      again := exit == Ended;
    }

    /** The rinse loop; a cycle count of 255 is allowed, and then it never stores a result. */
    method RunRinse(cycles: nat, speedHz: nat, needsFill: bool)
        returns (exit: Exit, ghost phases: seq<Event>, ghost result: SmResult, ghost moves: seq<R.Action>,
                 ghost strokes: seq<Stroke>)
      requires cycles < 256 && stepper.Ready()
      modifies this, stepper
      ensures stepper.Ready() && (exit == CutOff ==> stepper.Exhausted())
      ensures exit == Trapped ==> speedHz == 0
      ensures log == old(log) + phases + Ending(exit == Ended, result)
      ensures phases == FirstFill(needsFill) + RinsePhases(moves)
      ensures moves == R.Made(R.Start(cycles, needsFill), |moves|)
      ensures exit == Ended ==> result.kind == RinseComplete && cycles != 255
      ensures exit == Ended ==> moves == R.Remaining(R.Start(cycles, needsFill))
      ensures Drove(old(stepper.position), old(stepper.queued), stepper.position, stepper.queued, strokes)
      ensures |strokes| == (if needsFill then 1 else 0) + |moves| && AtSpeed(strokes, speedHz)
    {
      phases, result, moves := [], SmResult(RinseComplete, 0, 0.0, [], 0), [];
      RinseStarts(cycles, needsFill);
      hide *;
      var sm := R.Start(cycles, needsFill);
      exit, strokes := FirstMove(sm.phase == R.PreFill, speedHz);
      if exit != Ended {
        phases := FirstFill(needsFill);
        NothingEnds(log, result);
        return;
      }
      ghost var turned, made;
      ghost var here, queued := stepper.position, stepper.queued;
      exit, turned, result, moves, made := RinseLoop(sm, cycles, speedHz, needsFill);
      phases := FirstFill(needsFill) + turned;
      LogGrows(old(log), FirstFill(needsFill), turned, Ending(exit == Ended, result));
      DroveOn(old(stepper.position), old(stepper.queued), here, queued, strokes,
              stepper.position, stepper.queued, made);
      AtSpeedConcat(strokes, made, speedHz);
      strokes := strokes + made;
    }

    /** The turns after the first fill; only the end of the schedule cuts them off. */
    method RinseLoop(start: R.Sm, ghost cycles: nat, speedHz: nat, ghost needsFill: bool)
        returns (exit: Exit, ghost phases: seq<Event>, ghost result: SmResult, ghost moves: seq<R.Action>,
                 ghost strokes: seq<Stroke>)
      requires InRinse(start, cycles, needsFill, []) && stepper.Ready()
      modifies this, stepper
      ensures stepper.Ready() && (exit == CutOff ==> stepper.Exhausted())
      ensures exit == Trapped ==> speedHz == 0
      ensures log == old(log) + phases + Ending(exit == Ended, result) && phases == RinsePhases(moves)
      ensures moves == R.Made(R.Start(cycles, needsFill), |moves|)
      ensures exit == Ended ==> result.kind == RinseComplete && cycles != 255
                                && moves == R.Remaining(R.Start(cycles, needsFill))
      ensures Drove(old(stepper.position), old(stepper.queued), stepper.position, stepper.queued, strokes)
      ensures |strokes| == |moves| && AtSpeed(strokes, speedHz)
    {
      phases, result, moves, strokes := [], SmResult(RinseComplete, 0, 0.0, [], 0), [], [];
      var sm := start;
      assert RinsePhases([]) == [];
      DroveNothing(stepper.position, stepper.queued);
      NothingEnds(log, result);
      hide *;
      while true
        invariant log == old(log) + phases && phases == RinsePhases(moves) && stepper.Ready()
        invariant InRinse(sm, cycles, needsFill, moves)
        invariant Drove(old(stepper.position), old(stepper.queued), stepper.position, stepper.queued, strokes)
        invariant |strokes| == |moves| && AtSpeed(strokes, speedHz)
        decreases |stepper.stops| - stepper.seen.stops
      {
        var again;
        ghost var before, phase, made := phases, [], [];
        ghost var here, queued := stepper.position, stepper.queued;
        sm, again, exit, moves, phase, result, made := RinseStep(sm, speedHz, cycles, needsFill, moves);
        LogGrows(old(log), before, phase, Ending(!again && exit == Ended, result));
        DroveOn(old(stepper.position), old(stepper.queued), here, queued, strokes,
                stepper.position, stepper.queued, made);
        AtSpeedConcat(strokes, made, speedHz);
        phases, strokes := before + phase, strokes + made;
        if !again {
          return;
        }
        NothingEnds(old(log) + phases, result);
      }
    }

    /** The machine has made these moves of its rinse; from 255 cycles on they never end. */
    static ghost predicate InRinse(sm: R.Sm, cycles: nat, needsFill: bool, moves: seq<R.Action>) {
      && R.Valid(sm) && sm.phase != R.Done && sm.totalCycles == cycles
      && sm == R.After(R.Start(cycles, needsFill), |moves|) && moves == R.Made(R.Start(cycles, needsFill), |moves|)
      && (cycles < 255 ==> moves + R.Remaining(sm) == R.Remaining(R.Start(cycles, needsFill))
                           && (sm.phase == R.Filling ==> sm.currentCycle < 255))
    }

    static lemma RinseStarts(cycles: nat, needsFill: bool)
      requires cycles < 256
      ensures var sm := R.Start(cycles, needsFill);
              InRinse(sm, cycles, needsFill, []) && (sm.phase == R.PreFill <==> needsFill)
      ensures FirstFill(needsFill) == (if needsFill then [SetState(P.Filling)] else []) && RinsePhases([]) == []
      ensures FirstFill(needsFill) + RinsePhases([]) == FirstFill(needsFill)
      ensures R.Made(R.Start(cycles, needsFill), 0) == []
    {
      assert [] + R.Remaining(R.Start(cycles, needsFill)) == R.Remaining(R.Start(cycles, needsFill));
    }

    /** One turn of the loop; `again` says whether it goes on. */
    method RinseStep(sm: R.Sm, speedHz: nat, ghost cycles: nat, ghost needsFill: bool, ghost moves: seq<R.Action>)
        returns (next: R.Sm, again: bool, exit: Exit, ghost more: seq<R.Action>, ghost phase: seq<Event>,
                 ghost result: SmResult, ghost made: seq<Stroke>)
      requires InRinse(sm, cycles, needsFill, moves) && stepper.Ready()
      modifies this, stepper
      ensures stepper.Ready() && (exit == CutOff ==> stepper.Exhausted())
      ensures again ==> old(stepper.seen.stops) < stepper.seen.stops
      ensures exit == Trapped ==> speedHz == 0
      ensures log == old(log) + phase + Ending(!again && exit == Ended, result)
      ensures RinsePhases(more) == RinsePhases(moves) + phase
      ensures again ==> InRinse(next, cycles, needsFill, more)
      ensures more == R.Made(R.Start(cycles, needsFill), |more|)
      ensures !again && exit == Ended ==> result.kind == RinseComplete && cycles != 255
                                          && more == R.Remaining(R.Start(cycles, needsFill))
      ensures Drove(old(stepper.position), old(stepper.queued), stepper.position, stepper.queued, made)
      ensures |more| == |moves| + |made| && AtSpeed(made, speedHz)
    {
      hide R.Tick, R.Remaining, RinsePhases, Drove, SpeedsOf;
      RinseTurn(sm, moves);
      MadeStep(sm, cycles, needsFill, moves);
      var (after, action) := R.Tick(sm);
      next, more, phase, result := after, moves, [], SmResult(RinseComplete, 0, 0.0, [], 0);
      hide R.Made, R.After;
      if action == R.Complete {
        DroveNothing(stepper.position, stepper.queued);
        StoreResult(RinseComplete, 0, 0.0, [], 0);
        assert moves + [] == moves;
        result := resultQueue.value;
        again, exit, made := false, Ended, [];
      } else {
        ghost var stroke: Stroke;
        exit, stroke := RinseMove(action, speedHz);
        again := exit == Ended;
        RinsePhasesAppend(moves, action);
        more, phase, made := moves + [action], [RinsePhase(action)], [stroke];
      }
    }

    static lemma MadeStep(sm: R.Sm, cycles: nat, needsFill: bool, moves: seq<R.Action>)
      requires InRinse(sm, cycles, needsFill, moves)
      ensures var start, n := R.Start(cycles, needsFill), |moves|;
              && R.Tick(sm).0 == R.After(start, n + 1)
              && moves + [R.Tick(sm).1] == R.Made(start, n + 1)
    {
    }

    method RinseMove(action: R.Action, speedHz: nat) returns (exit: Exit, ghost stroke: Stroke)
      requires (action == R.FillToLimit || action == R.EmptyToLimit) && stepper.Ready()
      modifies this, stepper
      ensures stepper.Ready() && (exit == CutOff ==> stepper.Exhausted())
      ensures exit == Ended ==> old(stepper.seen.stops) < stepper.seen.stops
      ensures exit == Trapped <==> speedHz == 0
      ensures log == old(log) + [RinsePhase(action)]
      ensures Drove(old(stepper.position), old(stepper.queued), stepper.position, stepper.queued, [stroke])
      ensures stroke.speedHz == speedHz
    {
      hide Drove, SpeedsOf, Stepped, EndstopFollows, IntervalOf;
      if action == R.FillToLimit {
        exit, stroke := MoveFill(speedHz);
      } else {
        exit, stroke := MoveEmpty(speedHz);
      }
    }

    // ---- The dispatch --------------------------------------------------------------

    /** What the result of a command says about its run: the strokes it drove, and the clock
        values a sequence read. */
    static ghost predicate Accounts(cmd: MotorCommand, world: World, stepper: S.StepperMotor, result: SmResult,
                                    strokes: seq<Stroke>, turns: nat)
      reads stepper`position
    {
      match cmd.kind
      case MoveSteps =>
        && |strokes| == 1 && SpeedsOf(strokes) == [ClampedSpeed(world.gSpeed)]
        && result == SmResult(Plain, strokes[0].moved, 0.0, [0.0, 0.0, 0.0], 0)
      case MoveContinuous =>
        SpeedsOf(strokes) == [cmd.speedHz] && result == SmResult(Plain, 0, 0.0, [0.0, 0.0, 0.0], 0)
      case StartRinse(_) =>
        result.kind == RinseComplete && AtSpeed(strokes, cmd.speedHz)
      case StartCalDose =>
        && result.kind == CalDoseComplete
        && AtSpeed(strokes, cmd.speedHz)
        && |strokes| == (if world.needsFill then 2 else 1)
        && (world.needsFill && strokes[1].moved < INT32 ==> result.stepsTaken == strokes[1].moved)
        && (!world.needsFill ==> result.stepsTaken == Magnitude(S.Wrap32(stepper.position)))
      case StartCalSpeed =>
        && result.kind == CalSpeedComplete
        && SpeedsOf(strokes) == (if world.needsFill then [cmd.speedHz] else []) + [cmd.testHz]
        && result.measuredSpeed == SpeedOver(world.nominalVolumeMl,
                                             C.Sub32(world.emptyEndMs, if world.needsFill then world.fillEndMs else 0))
      case StartCalSpeedSeq(freqs) =>
        && |freqs| == 3 && turns <= |world.clocks|
        && SpeedsOf(strokes) == [freqs[0], cmd.speedHz, freqs[1], cmd.speedHz, freqs[2]]
        && var end := Driven(freqs, world.clocks, turns).sm;
           end.phase == C.Done && result == SmResult(CalSpeedSeqComplete, 0, 0.0, end.results, 3)
      case _ => strokes == []
    }

    /** The switch of the receive loop.  Setters change only what the model leaves out. */
    method HandleCommand(cmd: MotorCommand, world: World)
        returns (exit: Exit, ghost phases: seq<Event>, ghost result: SmResult, ghost strokes: seq<Stroke>,
                 ghost turns: nat)
      requires cmd.steps < INT32 && (cmd.kind.StartRinse? ==> cmd.kind.cycles < 256)
      requires (cmd.kind.StartCalSpeedSeq? ==> |cmd.kind.freqs| == 3) && stepper.Ready()
      modifies this, stepper
      ensures stepper.Ready()
      ensures exit == CutOff ==> stepper.Exhausted() || (cmd.kind.StartCalSpeedSeq? && turns == |world.clocks|)
      ensures log == old(log) + TraceOf(cmd.kind, phases, exit == Ended, result)
      ensures P.IsAckThen(cmd.kind) ==> PhasesOf(cmd.kind, phases)
      ensures exit == Ended ==> P.Finishes(cmd.kind)
      ensures Drove(old(stepper.position), old(stepper.queued), stepper.position, stepper.queued, strokes)
      ensures exit == Ended ==> Accounts(cmd, world, stepper, result, strokes, turns)
      ensures cmd.kind.MoveSteps? && exit == Ended ==>
                MoveFollows(stepper, old(stepper.seen), stepper.seen, exit, Wanted(cmd.steps), result.stepsTaken)
      ensures exit == Trapped ==> cmd.speedHz == 0 || cmd.testHz == 0 || !P.Finishes(cmd.kind)
    {
      exit, phases, result, strokes, turns := Ended, [], SmResult(Plain, 0, 0.0, [], 0), [], 0;
      hide Drove, MoveFollows;
      if P.IsAckThen(cmd.kind) {
        exit, phases, result, strokes, turns := HandleRun(cmd, world);
      } else {
        DroveNothing(stepper.position, stepper.queued);
        match cmd.kind {
          case Stop => HandleStop();
          case EmergencyStop => SetBuretteState(P.Error);
          case _ =>
        }
      }
    }

    /** The commands that end in a result. */
    method HandleRun(cmd: MotorCommand, world: World)
        returns (exit: Exit, ghost phases: seq<Event>, ghost result: SmResult, ghost strokes: seq<Stroke>,
                 ghost turns: nat)
      requires P.IsAckThen(cmd.kind) && cmd.steps < INT32 && (cmd.kind.StartRinse? ==> cmd.kind.cycles < 256)
      requires (cmd.kind.StartCalSpeedSeq? ==> |cmd.kind.freqs| == 3) && stepper.Ready()
      modifies this, stepper
      ensures stepper.Ready()
      ensures exit == CutOff ==> stepper.Exhausted() || (cmd.kind.StartCalSpeedSeq? && turns == |world.clocks|)
      ensures log == old(log) + Opening(cmd.kind) + phases + Ending(exit == Ended, result)
      ensures PhasesOf(cmd.kind, phases) && (exit == Ended ==> P.Finishes(cmd.kind))
      ensures Drove(old(stepper.position), old(stepper.queued), stepper.position, stepper.queued, strokes)
      ensures exit == Ended ==> Accounts(cmd, world, stepper, result, strokes, turns)
      ensures cmd.kind.MoveSteps? && exit == Ended ==>
                MoveFollows(stepper, old(stepper.seen), stepper.seen, exit, Wanted(cmd.steps), result.stepsTaken)
      ensures exit == Trapped ==> cmd.speedHz == 0 || cmd.testHz == 0 || !P.Finishes(cmd.kind)
    {
      hide Drove, SpeedsOf, MoveFollows, ClampedSpeed, IntervalOf, Stepped, Driven, MovePhases;
      turns := 0;
      match cmd.kind {
        case MoveSteps =>
          exit, phases, result, strokes := CountedMove(cmd.steps, world.gSpeed);
          assert old(log) + [] + phases == old(log) + phases;
        case MoveContinuous =>
          phases := [];
          exit, result, strokes := FreeMove(cmd.speedHz);
          assert old(log) + [] + [] == old(log);
        case _ =>
          exit, phases, result, strokes, turns := HandleMachine(cmd, world);
      }
    }

    /** The commands that run a state machine. */
    method HandleMachine(cmd: MotorCommand, world: World)
        returns (exit: Exit, ghost phases: seq<Event>, ghost result: SmResult, ghost strokes: seq<Stroke>,
                 ghost turns: nat)
      requires P.IsAckThen(cmd.kind) && !cmd.kind.MoveSteps? && !cmd.kind.MoveContinuous?
      requires (cmd.kind.StartRinse? ==> cmd.kind.cycles < 256) && stepper.Ready()
      requires cmd.kind.StartCalSpeedSeq? ==> |cmd.kind.freqs| == 3
      modifies this, stepper
      ensures stepper.Ready()
      ensures exit == CutOff ==> stepper.Exhausted() || (cmd.kind.StartCalSpeedSeq? && turns == |world.clocks|)
      ensures log == old(log) + Opening(cmd.kind) + phases + Ending(exit == Ended, result)
      ensures PhasesOf(cmd.kind, phases) && (exit == Ended ==> P.Finishes(cmd.kind))
      ensures Drove(old(stepper.position), old(stepper.queued), stepper.position, stepper.queued, strokes)
      ensures exit == Ended ==> Accounts(cmd, world, stepper, result, strokes, turns)
      ensures exit == Trapped ==> cmd.speedHz == 0 || cmd.testHz == 0 || !P.Finishes(cmd.kind)
    {
      hide Drove, SpeedsOf, Driven, MovePhases, AtSpeed;
      turns := 0;
      match cmd.kind {
        case StartRinse(cycles) =>
          ghost var moves;
          SetBuretteState(P.Rinsing);
          exit, phases, result, moves, strokes := RunRinse(cycles, cmd.speedHz, world.needsFill);
          RinsePhasesAllowed(cmd.kind, world.needsFill, moves);
        case StartCalDose =>
          ghost var start;
          SetBuretteState(P.Dosing);
          exit, phases, result, start, strokes := RunCalDose(cmd.speedHz, world.needsFill);
        case StartCalSpeed =>
          SetBuretteState(P.Dosing);
          exit, phases, result, strokes := RunCalSpeed(cmd.speedHz, cmd.testHz, world.needsFill,
                                                       world.nominalVolumeMl, world.fillEndMs, world.emptyEndMs);
        case StartCalSpeedSeq(freqs) =>
          SetBuretteState(P.Dosing);
          exit, phases, result, turns, strokes := RunCalSpeedSeq(freqs, cmd.speedHz, world.clocks);
          MovePhasesAllowed(cmd.kind, Driven(freqs, world.clocks, turns).actions);
      }
    }

    method CountedMove(steps: int, gSpeed: nat)
        returns (exit: Exit, ghost phases: seq<Event>, ghost result: SmResult, ghost strokes: seq<Stroke>)
      requires steps < INT32 && stepper.Ready()
      modifies this, stepper
      ensures stepper.Ready() && exit != Trapped && (exit == CutOff ==> stepper.Exhausted())
      ensures phases == [] || phases == [SetState(P.Error)]
      ensures |strokes| == 1 && SpeedsOf(strokes) == [ClampedSpeed(gSpeed)]
      ensures result == SmResult(Plain, strokes[0].moved, 0.0, [0.0, 0.0, 0.0], 0)
      ensures log == old(log) + phases + Ending(exit == Ended, result)
      ensures Drove(old(stepper.position), old(stepper.queued), stepper.position, stepper.queued, strokes)
      ensures MoveFollows(stepper, old(stepper.seen), stepper.seen, exit, Wanted(steps), result.stepsTaken)
    {
      hide Drove, ClampedSpeed, Stepped, SpeedsOf, IntervalOf;
      ghost var moved, sent;
      exit, moved, sent, phases := HandleMoveSteps(steps, gSpeed);
      result := SmResult(Plain, moved, 0.0, [0.0, 0.0, 0.0], 0);
      strokes := [Stroke(ClampedSpeed(gSpeed), moved, sent)];
      OneStroke(old(stepper.position), old(stepper.queued), stepper, strokes[0]);
    }

    method FreeMove(speedHz: nat) returns (exit: Exit, ghost result: SmResult, ghost strokes: seq<Stroke>)
      requires stepper.Ready()
      modifies this, stepper
      ensures stepper.Ready() && (exit == CutOff ==> stepper.Exhausted())
      ensures exit == Trapped <==> speedHz == 0
      ensures SpeedsOf(strokes) == [speedHz] && result == SmResult(Plain, 0, 0.0, [0.0, 0.0, 0.0], 0)
      ensures log == old(log) + Ending(exit == Ended, result)
      ensures Drove(old(stepper.position), old(stepper.queued), stepper.position, stepper.queued, strokes)
    {
      hide Drove, Stepped, SpeedsOf, IntervalOf;
      ghost var moved, sent;
      exit, moved, sent := HandleMoveContinuous(speedHz);
      result := SmResult(Plain, 0, 0.0, [0.0, 0.0, 0.0], 0);
      strokes := [Stroke(speedHz, moved, sent)];
      OneStroke(old(stepper.position), old(stepper.queued), stepper, strokes[0]);
    }
  }

  // ---- Phases of the run loops -----------------------------------------------------

  function PhaseFor(action: C.Action): seq<Event> {
    match action
    case FillToLimit => [SetState(P.Filling)]
    case EmptyToLimit => [SetState(P.Emptying)]
    case _ => []
  }

  function MovePhases(actions: seq<C.Action>): seq<Event> {
    if actions == [] then [] else MovePhases(actions[..|actions| - 1]) + PhaseFor(actions[|actions| - 1])
  }

  lemma MovePhasesAppend(actions: seq<C.Action>, action: C.Action)
    ensures MovePhases(actions + [action]) == MovePhases(actions) + PhaseFor(action)
  {
    assert (actions + [action])[..|actions|] == actions;
  }

  lemma {:induction false} MovePhasesAllowed(cmd: P.Command, actions: seq<C.Action>)
    requires cmd.StartCalSpeedSeq?
    ensures PhasesOf(cmd, MovePhases(actions))
  {
    if actions != [] {
      MovePhasesAllowed(cmd, actions[..|actions| - 1]);
    }
  }

  lemma DriveStarts(freqs: seq<nat>)
    requires |freqs| == 3
    ensures C.Drive(freqs, []) == C.Progress(C.Started(freqs), []) && MovePhases([]) == []
  {
  }

  lemma DriveExtends(freqs: seq<nat>, clocks: seq<nat>, now: nat)
    requires |freqs| == 3 && C.Drive(freqs, clocks).sm.phase != C.Done
    ensures var before := C.Drive(freqs, clocks);
            var (sm, action) := C.Tick(before.sm, now);
            C.Drive(freqs, clocks + [now]) == C.Progress(sm, before.actions + [action])
            && MovePhases(before.actions + [action]) == MovePhases(before.actions) + PhaseFor(action)
  {
    assert (clocks + [now])[..|clocks|] == clocks;
    MovePhasesAppend(C.Drive(freqs, clocks).actions, C.Tick(C.Drive(freqs, clocks).sm, now).1);
  }

  function RinsePhase(move: R.Action): Event {
    SetState(if move == R.FillToLimit then P.Filling else P.Emptying)
  }

  function RinsePhases(moves: seq<R.Action>): seq<Event> {
    if moves == [] then [] else RinsePhases(moves[..|moves| - 1]) + [RinsePhase(moves[|moves| - 1])]
  }

  function FirstFill(needsFill: bool): seq<Event> {
    if needsFill then [SetState(P.Filling)] else []
  }

  /** A rinse shows only states the protocol lets it store. */
  lemma {:induction false} RinsePhasesAllowed(cmd: P.Command, needsFill: bool, moves: seq<R.Action>)
    requires cmd.StartRinse?
    ensures PhasesOf(cmd, FirstFill(needsFill) + RinsePhases(moves))
  {
    if moves == [] {
      assert FirstFill(needsFill) + RinsePhases(moves) == FirstFill(needsFill);
    } else {
      var rest := moves[..|moves| - 1];
      RinsePhasesAllowed(cmd, needsFill, rest);
      assert FirstFill(needsFill) + RinsePhases(moves)
          == FirstFill(needsFill) + RinsePhases(rest) + [RinsePhase(moves[|moves| - 1])];
    }
  }

  /** One turn of the rinse loop: it never fails, it completes only below 255 cycles and
      with no move left, and otherwise takes the next move. */
  lemma RinseTurn(sm: R.Sm, moves: seq<R.Action>)
    requires R.Valid(sm) && sm.phase != R.Done
    requires sm.totalCycles < 255 && sm.phase == R.Filling ==> sm.currentCycle < 255
    ensures var (next, action) := R.Tick(sm);
            && R.Valid(next) && next.totalCycles == sm.totalCycles
            && (action == R.FillToLimit || action == R.EmptyToLimit || action == R.Complete)
            && (action == R.Complete ==> sm.totalCycles < 255 && R.Remaining(sm) == [])
            && (action != R.Complete ==> next.phase != R.Done)
            && (sm.totalCycles < 255 && action != R.Complete ==>
                  moves + R.Remaining(sm) == (moves + [action]) + R.Remaining(next)
                  && (next.phase == R.Filling ==> next.currentCycle < 255))
  {
    R.TickValid(sm);
    R.TickShape(sm);
    hide R.Tick, R.Remaining;
    if sm.totalCycles < 255 {
      R.TurnTakesNextMove(sm);
      MoveOver(moves, R.Tick(sm).1, R.Remaining(R.Tick(sm).0));
    }
  }

  lemma MoveOver<T>(moves: seq<T>, move: T, rest: seq<T>)
    ensures moves + ([move] + rest) == (moves + [move]) + rest
  {
  }

  lemma RinsePhasesAppend(moves: seq<R.Action>, move: R.Action)
    ensures RinsePhases(moves + [move]) == RinsePhases(moves) + [RinsePhase(move)]
  {
    assert (moves + [move])[..|moves|] == moves;
  }

  /** No turn of a running sequence is an error, and it completes with three results. */
  lemma SequenceTurn(sm: C.Sm, now: nat)
    requires C.Reachable(sm) && sm.phase != C.Done
    ensures var (next, action) := C.Tick(sm, now);
            action != C.Error && (action == C.Complete <==> next.phase == C.Done)
            && (action == C.Complete ==> next.seqIdx == 3) && (action == C.EmptyToLimit ==> next.seqIdx < 3)
  {
  }

  lemma {:induction false} PhasesIgnoreSettling(actions: seq<C.Action>)
    ensures MovePhases(actions) == MovePhases(C.NonSettle(actions))
  {
    if actions != [] {
      var rest, last := actions[..|actions| - 1], actions[|actions| - 1];
      PhasesIgnoreSettling(rest);
      MovePhasesAppend(C.NonSettle(rest), last);
      assert MovePhases(rest) + [] == MovePhases(rest) && C.NonSettle(rest) + [] == C.NonSettle(rest);
    }
  }

  /** A completed sequence shows three emptyings with two fillings between them. */
  lemma CompletedSequencePhases(freqs: seq<nat>, clocks: seq<nat>)
    requires |freqs| == 3 && C.Drive(freqs, clocks).sm.phase == C.Done
    ensures MovePhases(C.Drive(freqs, clocks).actions)
         == [SetState(P.Emptying), SetState(P.Filling), SetState(P.Emptying), SetState(P.Filling), SetState(P.Emptying)]
  {
    C.RunFollowsScript(freqs, clocks);
    PhasesIgnoreSettling(C.Drive(freqs, clocks).actions);
    ScriptPhases();
  }

  lemma ScriptPhases()
    ensures MovePhases(C.Script)
         == [SetState(P.Emptying), SetState(P.Filling), SetState(P.Emptying), SetState(P.Filling), SetState(P.Emptying)]
  {
    var s1 := [C.EmptyToLimit];
    var s2 := s1 + [C.FillToLimit];
    var s3 := s2 + [C.EmptyToLimit];
    var s4 := s3 + [C.FillToLimit];
    var s5 := s4 + [C.EmptyToLimit];
    assert s1 == [] + [C.EmptyToLimit] && C.Script == s5 + [C.Complete];
    MovePhasesAppend([], C.EmptyToLimit);
    hide MovePhases;
    MovePhasesAppend(s1, C.FillToLimit);
    MovePhasesAppend(s2, C.EmptyToLimit);
    MovePhasesAppend(s3, C.FillToLimit);
    MovePhasesAppend(s4, C.EmptyToLimit);
    MovePhasesAppend(s5, C.Complete);
  }

  // ---- One result per run ------------------------------------------------------------

  function ResultsIn(log: seq<Event>): nat {
    if log == [] then 0 else ResultsIn(log[..|log| - 1]) + if log[|log| - 1].Stored? then 1 else 0
  }

  lemma {:induction false} ResultsConcat(a: seq<Event>, b: seq<Event>)
    ensures ResultsIn(a + b) == ResultsIn(a) + ResultsIn(b)
  {
    if b == [] {
      assert a + b == a;
    } else {
      assert (a + b)[..|a + b| - 1] == a + b[..|b| - 1];
      ResultsConcat(a, b[..|b| - 1]);
    }
  }

  lemma {:induction false} PhasesHoldNoResult(cmd: P.Command, phases: seq<Event>)
    requires PhasesOf(cmd, phases)
    ensures ResultsIn(phases) == 0
  {
    if phases != [] {
      PhasesHoldNoResult(cmd, phases[..|phases| - 1]);
    }
  }

  /** The state a run is announced with. */
  function Opening(cmd: P.Command): seq<Event> {
    match cmd
    case StartRinse(_) => [SetState(P.Rinsing)]
    case StartCalDose | StartCalSpeed | StartCalSpeedSeq(_) => [SetState(P.Dosing)]
    case _ => []
  }

  /** Everything others see of one command. */
  function TraceOf(cmd: P.Command, phases: seq<Event>, done: bool, result: SmResult): seq<Event> {
    match cmd
    case Stop => [SetState(P.Stopping), SetState(P.Idle)]
    case EmergencyStop => [SetState(P.Error)]
    case SetDirection | SetSpeed | SetAccel | SetStallThreshold | ReadTmcRegister => []
    case _ => Opening(cmd) + phases + Ending(done, result)
  }

  lemma SetsStoreNothing(events: seq<Event>)
    requires |events| <= 2 && forall i :: 0 <= i < |events| ==> events[i].SetState?
    ensures ResultsIn(events) == 0
  {
    if |events| == 2 {
      assert events[..1][..0] == [];
    }
  }

  /** A dispatched command that claims an answer stores exactly one result when it ends, with
      Idle right after it, and none before; every other command stores none. */
  lemma OneResultPerRun(cmd: P.Command, phases: seq<Event>, done: bool, result: SmResult)
    requires P.IsAckThen(cmd) ==> PhasesOf(cmd, phases)
    ensures var trace := TraceOf(cmd, phases, done, result);
            && ResultsIn(trace) == (if P.IsAckThen(cmd) && done then 1 else 0)
            && (P.IsAckThen(cmd) && done ==>
                  |trace| >= 2 && trace[|trace| - 1] == SetState(P.Idle) && trace[|trace| - 2] == Stored(result))
  {
    if P.IsAckThen(cmd) {
      SetsStoreNothing(Opening(cmd));
      PhasesHoldNoResult(cmd, phases);
      ResultsConcat(Opening(cmd), phases);
      ResultsConcat(Opening(cmd) + phases, Ending(done, result));
      var ending := [Stored(result), SetState(P.Idle)];
      assert ending[..1] == [Stored(result)] && ending[..1][..0] == [];
      assert ResultsIn(ending[..1]) == 1;
    } else {
      SetsStoreNothing(TraceOf(cmd, phases, done, result));
    }
  }

  /** The protocol's steps for a run under way: its phases, its result, its release. */
  function StepsOf(phases: seq<Event>): (steps: seq<P.Step>)
    requires forall i :: 0 <= i < |phases| ==> phases[i].SetState?
    ensures |steps| == |phases| + 2
  {
    if phases == [] then [P.StoreResult, P.StoreIdle] else [P.MotorPhase(phases[0].state)] + StepsOf(phases[1..])
  }

  lemma {:induction false} RunningRefines(s: P.State, phases: seq<Event>)
    requires s.motor.Running? && P.Finishes(s.motor.cmd) && PhasesOf(s.motor.cmd, phases)
    ensures P.Path(s, StepsOf(phases), s.(motor := P.Waiting, burette := P.Idle, stored := s.stored + 1))
    decreases |phases|
  {
    if phases == [] {
      var steps := StepsOf(phases);
      var mid := P.Apply(s, P.StoreResult);
      assert steps[1..] == [P.StoreIdle] && steps[1..][1..] == [];
      assert P.Path(mid, steps[1..], P.Apply(mid, P.StoreIdle));
    } else {
      var step := P.MotorPhase(phases[0].state);
      RunningRefines(P.Apply(s, step), phases[1..]);
      assert StepsOf(phases)[1..] == StepsOf(phases[1..]);
    }
  }

  /** The protocol's steps for a command taken from the queue, from its begin on. */
  ghost function CommandSteps(cmd: P.Command, phases: seq<Event>): seq<P.Step>
    requires P.IsAckThen(cmd) ==> PhasesOf(cmd, phases)
  {
    [P.MotorBegin] + match cmd
                     case Stop => [P.StoreIdle]
                     case EmergencyStop => [P.EsStore]
                     case _ => if P.IsAckThen(cmd) then StepsOf(phases) else []
  }

  /** The last state stored, if there is one. */
  function LastState(trace: seq<Event>, before: P.BuretteState): P.BuretteState {
    if trace == [] then before
    else if trace[|trace| - 1].SetState? then trace[|trace| - 1].state
    else LastState(trace[..|trace| - 1], before)
  }

  /** Every dispatched command that ends is a path of the claim protocol: from the command
      just received to a waiting motor, the burette state it stored last, and as many more
      results as it stored. */
  lemma RunRefinesProtocol(s: P.State, cmd: P.Command, phases: seq<Event>, result: SmResult)
    requires s.motor == P.Started(cmd) && P.Finishes(cmd)
    requires P.IsAckThen(cmd) ==> PhasesOf(cmd, phases)
    ensures var trace := TraceOf(cmd, phases, true, result);
            P.Path(s, CommandSteps(cmd, phases),
                   s.(motor := P.Waiting, burette := LastState(trace, s.burette), stored := s.stored + ResultsIn(trace),
                      settling := s.settling && cmd != P.EmergencyStop))
  {
    OneResultPerRun(cmd, phases, true, result);
    TraceEnds(cmd, phases, result, s.burette);
    hide TraceOf, LastState, ResultsIn;
    if P.IsAckThen(cmd) {
      AnsweredRefines(s, cmd, phases);
    } else {
      UnansweredRefines(s, cmd);
    }
  }

  lemma TraceEnds(cmd: P.Command, phases: seq<Event>, result: SmResult, before: P.BuretteState)
    ensures LastState(TraceOf(cmd, phases, true, result), before)
         == if P.IsAckThen(cmd) || cmd == P.Stop then P.Idle else if cmd == P.EmergencyStop then P.Error else before
  {
    if P.IsAckThen(cmd) {
      var trace := TraceOf(cmd, phases, true, result);
      assert trace[|trace| - 1] == SetState(P.Idle);
    }
  }

  lemma AnsweredRefines(s: P.State, cmd: P.Command, phases: seq<Event>)
    requires s.motor == P.Started(cmd) && P.IsAckThen(cmd) && P.Finishes(cmd) && PhasesOf(cmd, phases)
    ensures P.Path(s, CommandSteps(cmd, phases), s.(motor := P.Waiting, burette := P.Idle, stored := s.stored + 1))
  {
    assert CommandSteps(cmd, phases) == [P.MotorBegin] + StepsOf(phases);
    hide *;
    var begun := RunBegins(s, cmd);
    RunningRefines(begun, phases);
    P.PathConcat(s, [P.MotorBegin], begun, StepsOf(phases),
                 begun.(motor := P.Waiting, burette := P.Idle, stored := begun.stored + 1));
  }

  /** The opening of a run changes nothing but its own state and the burette's. */
  lemma RunBegins(s: P.State, cmd: P.Command) returns (begun: P.State)
    requires s.motor == P.Started(cmd) && P.IsAckThen(cmd)
    ensures P.Path(s, [P.MotorBegin], begun) && begun.motor == P.Running(cmd)
    ensures begun.(motor := P.Waiting, burette := P.Idle, stored := begun.stored + 1)
         == s.(motor := P.Waiting, burette := P.Idle, stored := s.stored + 1)
  {
    begun := P.Apply(s, P.MotorBegin);
    P.OneStep(s, P.MotorBegin);
  }

  /** Taking up a command stores its opening state, and an emergency stop clears the flag. */
  lemma RunOpens(s: P.State, cmd: P.Command)
    requires s.motor == P.Started(cmd)
    ensures var begun := P.Apply(s, P.MotorBegin);
            && (P.IsAckThen(cmd) ==> begun.burette == LastState(Opening(cmd), s.burette))
            && (cmd.StartRinse? ==> begun.burette == P.Rinsing)
            && (cmd == P.StartCalDose || cmd == P.StartCalSpeed || cmd.StartCalSpeedSeq? ==>
                  begun.burette == P.Dosing)
            && (cmd == P.Stop ==> begun.burette == P.Stopping)
            && (cmd == P.MoveSteps || cmd == P.MoveContinuous || cmd == P.EmergencyStop || P.IsSetter(cmd) ==>
                  begun.burette == s.burette)
            && (begun.settling <==> s.settling && cmd != P.EmergencyStop)
  {
    if P.IsAckThen(cmd) && Opening(cmd) != [] {
      assert Opening(cmd)[|Opening(cmd)| - 1].SetState?;
    }
  }

  lemma UnansweredRefines(s: P.State, cmd: P.Command)
    requires s.motor == P.Started(cmd) && !P.IsAckThen(cmd)
    ensures P.Path(s, CommandSteps(cmd, []),
                   s.(motor := P.Waiting, settling := s.settling && cmd != P.EmergencyStop,
                      burette := if cmd == P.Stop then P.Idle
                                 else if cmd == P.EmergencyStop then P.Error else s.burette))
  {
    var steps := CommandSteps(cmd, []);
    var begun := P.Apply(s, P.MotorBegin);
    P.OneStep(s, P.MotorBegin);
    if cmd == P.Stop || cmd == P.EmergencyStop {
      P.OneStep(begun, steps[1]);
      P.PathConcat(s, [P.MotorBegin], begun, [steps[1]], P.Apply(begun, steps[1]));
    }
  }

  /** The protocol's condition for a rinse is that of the rinse machine. */
  lemma RinseFinishesExactly(cycles: nat, needsFill: bool)
    requires cycles < 256
    ensures P.Finishes(P.StartRinse(cycles))
       <==> exists n: nat :: R.After(R.Start(cycles, needsFill), n).phase == R.Done
  {
    R.RinseEndsExactly(cycles, needsFill);
  }

  // ---- The frequencies of a calibration run ------------------------------------------

  /** lround of a positive frequency, cut to 16 bits. */
  function RoundedFreq(f: real): nat {
    if f > 0.0 then (f + 0.5).Floor % 0x1_0000 else 0
  }

  /** The three frequencies of the command. */
  function PackedFreqs(freqs: seq<real>): (packed: seq<nat>)
    ensures |packed| == 3
  {
    seq(3, i requires 0 <= i < 3 => if i < |freqs| then RoundedFreq(freqs[i]) else 0)
  }

  /** handleRunCalibration copies at most three points into an array of three zeros. */
  method CommandFreqs(freqs: seq<real>) returns (cmdFreqs: seq<nat>)
    requires |freqs| >= 2
    ensures cmdFreqs == PackedFreqs(freqs)
  {
    cmdFreqs := [0, 0, 0];
    var count := if |freqs| > 3 then 3 else |freqs|;
    for i := 0 to count
      invariant |cmdFreqs| == 3
      invariant forall j :: 0 <= j < 3 ==> cmdFreqs[j] == if j < i then RoundedFreq(freqs[j]) else 0
    {
      cmdFreqs := cmdFreqs[i := RoundedFreq(freqs[i])];
    }
  }

  /** A frequency rounds to zero when it is below one half, or a multiple of 65536 away. */
  lemma RoundsToZeroExactly(f: real)
    ensures RoundedFreq(f) == 0 <==> f < 0.5 || (f + 0.5).Floor % 0x1_0000 == 0
  {
  }

  /** The handler accepts two points, but the sequence it sends can finish exactly when
      a third is given and none of the three is below one half or rounds to a multiple of
      65536; otherwise the command keeps the claim for good, since its move divides by zero. */
  lemma SequenceCanRunExactly(freqs: seq<real>)
    requires |freqs| >= 2
    ensures P.Finishes(P.StartCalSpeedSeq(PackedFreqs(freqs)))
       <==> |freqs| >= 3 && (forall i :: 0 <= i < 3 ==> freqs[i] >= 0.5 && (freqs[i] + 0.5).Floor % 0x1_0000 != 0)
  {
    var packed := PackedFreqs(freqs);
    assert packed[2] == if 2 < |freqs| then RoundedFreq(freqs[2]) else 0;
    forall i | 0 <= i < 3 && i < |freqs|
      ensures packed[i] != 0 <==> freqs[i] >= 0.5 && (freqs[i] + 0.5).Floor % 0x1_0000 != 0
    {
      assert packed[i] == RoundedFreq(freqs[i]);
      RoundsToZeroExactly(freqs[i]);
    }
  }
}
