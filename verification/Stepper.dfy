/** The chunked stepper driver of components/infrastructure/src/drivers/stepper.cpp.  What the
    reads of the stop flag find and what the RMT answers is a schedule, given in advance; a
    move whose schedule ends before it does is cut short. */
module Stepper {
  import opened Options

  const RMT_CHUNK_SYMBOLS: nat := 128
  const MAX_RETRIES: nat := 10
  const UINT32: nat := 0x1_0000_0000

  // ---- Pulse symbols ---------------------------------------------------------

  /** One pulse: high for duration0 microseconds, then low for duration1. */
  datatype Symbol = Symbol(duration0: nat, duration1: nat)

  /** The duration fields of a symbol word hold 15 bits. */
  function Field(x: nat): nat {
    (x % 0x1_0000) % 0x8000
  }

  function SymbolFor(interval: nat): Symbol {
    var pulseUs := if interval <= 10 then interval / 2 else 5;
    Symbol(Field(pulseUs), Field(interval - pulseUs))
  }

  /** The two durations add up to the interval exactly up to 32772 microseconds; beyond
      that the low time does not fit its field and the step comes out too short.  The high
      time is 5, or the smaller half of an interval of at most 10. */
  lemma SymbolKeepsInterval(interval: nat)
    ensures var s := SymbolFor(interval); s.duration0 + s.duration1 <= interval
    ensures var s := SymbolFor(interval);
            if interval <= 10 then s.duration0 <= s.duration1 <= s.duration0 + 1 else s.duration0 == 5
    ensures var s := SymbolFor(interval); s.duration0 + s.duration1 == interval <==> interval <= 32772
  {
  }

  const STEP_FREQ_MIN_HZ: nat := 30
  const STEP_FREQ_MAX_HZ: nat := 3000

  /** Over all speeds, that is every speed from 31 Hz on; 30 Hz is the lowest that a move
      of a number of steps is clamped to, and a continuous move is not clamped at all. */
  lemma SpeedKeepsInterval(speedHz: nat)
    requires speedHz > 0
    ensures var s := SymbolFor(1_000_000 / speedHz);
            s.duration0 + s.duration1 == 1_000_000 / speedHz <==> speedHz >= 31
  {
    hide SymbolFor;
    SymbolKeepsInterval(1_000_000 / speedHz);
    if speedHz >= 31 {
      QuotientBounded(1_000_000, speedHz, 31, 1_000_000 / speedHz);
    } else {
      QuotientAtLeast(1_000_000, speedHz, 30, 1_000_000 / speedHz);
    }
  }

  lemma QuotientAtLeast(n: nat, d: nat, most: nat, q: nat)
    requires 0 < d <= most && q == n / d
    ensures n < most * (q + 1)
  {
    assert n < d * (q + 1);
    ProductGrows(d, most, q + 1);
  }

  lemma ProductGrows(a: nat, b: nat, c: nat)
    requires a <= b
    ensures a * c <= b * c
  {
  }

  lemma QuotientBounded(n: nat, d: nat, least: nat, q: nat)
    requires 0 < least <= d && q == n / d
    ensures least * q <= n
  {
    assert d * q <= n;
    assert (d - least) * q >= 0;
  }

  function SymbolsOf(intervals: seq<nat>): (symbols: seq<Symbol>)
    ensures |symbols| == |intervals|
  {
    seq(|intervals|, i requires 0 <= i < |intervals| => SymbolFor(intervals[i]))
  }

  /** A number of steps that ends on a chunk boundary. */
  predicate WholeChunks(n: nat) {
    n % RMT_CHUNK_SYMBOLS == 0
  }

  /** The steps in the first chunks of a move. */
  function StepsIn(chunks: nat, steps: nat): nat {
    if 128 * chunks <= steps then 128 * chunks else steps
  }

  /** So many chunks, the last of them perhaps shorter, make so many of the steps. */
  predicate Counted(chunks: nat, steps: nat, done: nat) {
    done == StepsIn(chunks, steps) && (chunks > 0 ==> 128 * (chunks - 1) < steps)
  }

  lemma NextChunk(chunks: nat, steps: nat, done: nat, chunk: nat)
    requires Counted(chunks, steps, done) && done < steps
    requires chunk == if steps - done > RMT_CHUNK_SYMBOLS then RMT_CHUNK_SYMBOLS else steps - done
    ensures Counted(chunks + 1, steps, done + chunk) && done == 128 * chunks
  {
  }

  lemma NoChunk(steps: nat)
    ensures Counted(0, steps, 0)
  {
  }

  /** n symbols of one interval. */
  function Pulses(interval: nat, n: nat): (symbols: seq<Symbol>)
    ensures |symbols| == n
  {
    seq(n, _ => SymbolFor(interval))
  }

  lemma PulsesAreSymbols(interval: nat, len: nat, n: nat)
    requires n <= len
    ensures SymbolsOf(seq(len, _ => interval)[..n]) == Pulses(interval, n)
  {
  }

  lemma PulsesConcat(interval: nat, m: nat, n: nat)
    ensures Pulses(interval, m) + Pulses(interval, n) == Pulses(interval, m + n)
  {
  }

  // ---- The position counter --------------------------------------------------

  /** Two's complement wrap-around to 32 bits. */
  function Wrap32(x: int): (y: int)
    ensures -0x8000_0000 <= y < 0x8000_0000
  {
    (x + 0x8000_0000) % UINT32 - 0x8000_0000
  }

  lemma WrapCongruent(x: int)
    ensures exists q :: x == Wrap32(x) + UINT32 * q
  {
    var q := (x + 0x8000_0000) / UINT32;
    assert x == Wrap32(x) + UINT32 * q;
  }

  lemma WrapIsUnique(x: int, y: int, q: int)
    requires x == y + UINT32 * q && -0x8000_0000 <= y < 0x8000_0000
    ensures Wrap32(x) == y
  {
  }

  lemma WrapAdd(x: int, n: int)
    ensures Wrap32(Wrap32(x) + n) == Wrap32(x + n)
  {
    WrapCongruent(x);
    WrapCongruent(x + n);
    var p :| x == Wrap32(x) + UINT32 * p;
    var q :| x + n == Wrap32(x + n) + UINT32 * q;
    WrapIsUnique(Wrap32(x) + n, Wrap32(x + n), q - p);
  }

  /** A value wraps to n exactly when its distance from n wraps to zero. */
  lemma WrapsTo(z: int, n: int)
    requires -0x8000_0000 <= n < 0x8000_0000
    ensures Wrap32(z) == n <==> Wrap32(z - n) == 0
  {
    WrapCongruent(z);
    WrapCongruent(z - n);
    var q :| z == Wrap32(z) + UINT32 * q;
    var r :| z - n == Wrap32(z - n) + UINT32 * r;
    if Wrap32(z) == n {
      WrapIsUnique(z - n, 0, q);
    }
    if Wrap32(z - n) == 0 {
      WrapIsUnique(z, n, r);
    }
  }

  /** A counter that has been advanced by `moved` steps, or not touched at all. */
  predicate Advanced(before: int, after: int, moved: nat) {
    after == Wrap32(before + moved) || (moved == 0 && after == before)
  }

  lemma AdvancedBy(before: int, after: int, n: nat)
    requires after == Wrap32(before + n)
    ensures Advanced(before, after, n)
  {
  }

  lemma AdvancedTwice(a: int, b: int, c: int, m: nat, n: nat)
    requires Advanced(a, b, m) && Advanced(b, c, n)
    ensures Advanced(a, c, m + n)
  {
    WrapAdd(a + m, n);
    assert a + m + n == a + (m + n);
    hide Wrap32;
  }

  /** A counter difference gives the steps back, wherever the counter started. */
  lemma WrappedDifference(before: int, after: int, moved: nat)
    requires Advanced(before, after, moved) && moved < 0x8000_0000
    ensures Wrap32(after - before) == moved
  {
    WrapCongruent(before + moved);
    var q :| before + moved == Wrap32(before + moved) + UINT32 * q;
    if after == Wrap32(before + moved) {
      WrapIsUnique(after - before, moved, -q);
    }
  }

  // ---- The driver --------------------------------------------------------------

  /** CutShort: the schedule ended before the move did. */
  datatype MoveResult = Completed | LimitSwitchTriggered | RmtError | CutShort

  datatype RmtStatus = Ok | InvalidState | Timeout | OtherError

  /** How much of the schedule has been read: stop flags and RMT answers. */
  datatype Seen = Seen(stops: nat, answers: nat)

  class StepperMotor {
    const stops: seq<bool>           // what the reads of the stop flag find
    const answers: seq<RmtStatus>    // what the RMT answers
    var seen: Seen
    var position: int
    ghost var queued: seq<Symbol>    // everything the RMT accepted, in order

    constructor (stops: seq<bool>, answers: seq<RmtStatus>)
      ensures this.stops == stops && this.answers == answers
      ensures Ready() && seen == Seen(0, 0) && position == 0 && queued == []
    {
      this.stops, this.answers := stops, answers;
      seen, position, queued := Seen(0, 0), 0, [];
    }

    ghost predicate Ready()
      reads this`seen
    {
      seen.stops <= |stops| && seen.answers <= |answers|
    }

    ghost predicate Exhausted()
      reads this`seen
    {
      seen.stops == |stops| || seen.answers == |answers|
    }

    method ReadStop() returns (stop: Option<bool>)
      requires Ready()
      modifies this`seen
      ensures Ready()
      ensures if old(seen.stops) < |stops| then stop == Some(stops[old(seen.stops)])
                                                && seen == Seen(old(seen.stops) + 1, old(seen.answers))
              else stop == None && seen == old(seen)
    {
      if seen.stops == |stops| {
        return None;
      }
      stop, seen := Some(stops[seen.stops]), seen.(stops := seen.stops + 1);
    }

    method ReadAnswer() returns (answer: Option<RmtStatus>)
      requires Ready()
      modifies this`seen
      ensures Ready()
      ensures if old(seen.answers) < |answers| then answer == Some(answers[old(seen.answers)])
                                                    && seen == Seen(old(seen.stops), old(seen.answers) + 1)
              else answer == None && seen == old(seen)
    {
      if seen.answers == |answers| {
        return None;
      }
      answer, seen := Some(answers[seen.answers]), seen.(answers := seen.answers + 1);
    }

    // ---- What the schedule says about a move ---------------------------------------

    /** The part of the schedule that was read accounts for the result: a stop is the last
        flag read and the only one set, an error the last answer, a completed move ends on
        Ok, and the rest is a schedule that ended. */
    ghost predicate Explains(r: MoveResult, from: Seen, to: Seen) {
      && from.stops <= to.stops <= |stops| && from.answers <= to.answers <= |answers|
      && (forall k :: from.stops <= k < to.stops ==>
            (stops[k] <==> r == LimitSwitchTriggered && k == to.stops - 1))
      && (r == LimitSwitchTriggered ==> from.stops < to.stops)
      && (r == RmtError ==> from.answers < to.answers && answers[to.answers - 1] != Ok)
      && (r == Completed && from.answers < to.answers ==> answers[to.answers - 1] == Ok)
      && (r == CutShort ==> to.stops == |stops| || to.answers == |answers|)
    }

    /** The last flag read is set, or the last answer is not Ok. */
    ghost predicate Disturbed(from: Seen, to: Seen) {
      || (from.stops < to.stops <= |stops| && stops[to.stops - 1])
      || (from.answers < to.answers <= |answers| && answers[to.answers - 1] != Ok)
    }

    /** The first flag from here on that is set. */
    ghost predicate FirstStop(from: Seen, f: nat) {
      from.stops <= f < |stops| && stops[f] && forall k :: from.stops <= k < f ==> !stops[k]
    }

    /** From here on the RMT answers Ok. */
    ghost predicate Smooth(from: Seen) {
      forall k :: from.answers <= k < |answers| ==> answers[k] == Ok
    }

    /** Without trouble from the RMT every completed chunk has read `each` flags and two
        answers, and the flag that stops a move, or the end of the schedule, lies in the
        chunk after them. */
    ghost predicate InStep(each: nat, from: Seen, to: Seen, chunks: nat, r: MoveResult) {
      Smooth(from) ==>
        && (r == Completed ==> to == Seen(from.stops + each * chunks, from.answers + 2 * chunks))
        && (r == LimitSwitchTriggered ==> each * chunks < to.stops - from.stops <= each * chunks + each)
        && (r == CutShort ==> to.stops - from.stops >= each * chunks)
        && (r == CutShort ==>
              || (to.stops == |stops| && to.stops - from.stops < each * chunks + each)
              || (to.answers == |answers| && to.answers - from.answers < 2 * chunks + 2))
    }

    lemma NothingRead(each: nat, from: Seen)
      requires from.stops <= |stops| && from.answers <= |answers|
      ensures Explains(Completed, from, from) && InStep(each, from, from, 0, Completed)
    {
    }

    /** A flag read at the head of a loop that is set ends the move. */
    lemma StopRead(each: nat, from: Seen, here: Seen, chunks: nat)
      requires 2 <= each <= 3 && Explains(Completed, from, here) && InStep(each, from, here, chunks, Completed)
      requires here.stops < |stops| && stops[here.stops]
      ensures var to := Seen(here.stops + 1, here.answers);
              && Explains(LimitSwitchTriggered, from, to)
              && InStep(each, from, to, chunks, LimitSwitchTriggered)
              && (Smooth(from) ==> to.stops - from.stops == each * chunks + 1)
    {
    }

    lemma StopMissing(each: nat, from: Seen, here: Seen, chunks: nat)
      requires 2 <= each <= 3 && Explains(Completed, from, here) && InStep(each, from, here, chunks, Completed)
      requires here.stops == |stops|
      ensures Explains(CutShort, from, here) && InStep(each, from, here, chunks, CutShort)
    {
    }

    /** A flag that is not set, and then one chunk. */
    lemma ChunkRead(each: nat, from: Seen, here: Seen, to: Seen, chunks: nat, r: MoveResult)
      requires 2 <= each <= 3 && Explains(Completed, from, here) && InStep(each, from, here, chunks, Completed)
      requires here.stops < |stops| && !stops[here.stops]
      requires var there, more := Seen(here.stops + 1, here.answers), if r == Completed then 1 else 0;
               Explains(r, there, to) && InStep(each - 1, there, to, more, r)
      ensures Explains(r, from, to)
      ensures InStep(each, from, to, if r == Completed then chunks + 1 else chunks, r)
      ensures r == LimitSwitchTriggered && Smooth(from) ==> to.stops - from.stops > each * chunks + 1
    {
    }

    /** One chunk of symbols: the transmission is tried again after up to ten InvalidState
        answers, then the wait goes on through any number of timeouts. */
    method TransmitChunk(symbols: seq<Symbol>) returns (r: MoveResult, ghost accepted: bool, ghost retries: nat)
      requires Ready()
      modifies this`queued, this`seen
      ensures Ready() && Explains(r, old(seen), seen)
      ensures InStep(1, old(seen), seen, if r == Completed then 1 else 0, r)
      ensures queued == old(queued) + if accepted then symbols else []
      ensures r == Completed ==> accepted && old(seen.answers) < seen.answers
      ensures retries <= 10 && old(seen.answers) + retries <= seen.answers
      ensures forall k :: old(seen.answers) <= k < old(seen.answers) + retries ==> answers[k] == InvalidState
      ensures !accepted && r != RmtError ==> seen.answers == old(seen.answers) + retries
      ensures !accepted && r == RmtError ==>
                && seen.answers == old(seen.answers) + retries + 1
                && (answers[seen.answers - 1] == InvalidState ==> retries == 10)
      ensures accepted ==>
                var sentAt, last := old(seen.answers) + retries, seen.answers - 1;
                && sentAt <= last && answers[sentAt] == Ok
                && (forall k :: sentAt < k < last ==> answers[k] == Timeout)
                && (sentAt < last && r != Completed ==> (answers[last] == Timeout <==> r != RmtError))
                && (r == Completed || r == RmtError ==> sentAt < last)
    {
      retries, accepted := 0, false;
      var tries := 0;
      while true
        invariant Ready() && queued == old(queued) && tries == retries <= MAX_RETRIES
        invariant Explains(Completed, old(seen), seen.(answers := old(seen.answers)))
        invariant seen == Seen(old(seen.stops) + retries, old(seen.answers) + retries)
        invariant forall k :: old(seen.answers) <= k < old(seen.answers) + retries ==> answers[k] == InvalidState
        invariant Smooth(old(seen)) ==> retries == 0
        decreases MAX_RETRIES - tries
      {
        var stop := ReadStop();
        if stop == None {
          return CutShort, false, retries;
        }
        if stop.value {
          return LimitSwitchTriggered, false, retries;
        }
        var err := ReadAnswer();
        if err == None {
          return CutShort, false, retries;
        }
        if err.value == Ok {
          break;
        }
        if err.value != InvalidState || tries >= MAX_RETRIES {
          return RmtError, false, retries;
        }
        tries := tries + 1;
        retries := retries + 1;
      }
      queued, accepted := queued + symbols, true;
      r := AwaitDone(old(seen), retries);
    }

    /** The wait after a transmission that was accepted. */
    method AwaitDone(ghost from: Seen, ghost retries: nat) returns (r: MoveResult)
      requires Ready() && seen == Seen(from.stops + retries + 1, from.answers + retries + 1)
      requires forall k :: from.stops <= k < seen.stops ==> !stops[k]
      requires answers[seen.answers - 1] == Ok
      requires Smooth(from) ==> retries == 0
      modifies this`seen
      ensures Ready() && Explains(r, from, seen) && InStep(1, from, seen, if r == Completed then 1 else 0, r)
      ensures var sentAt, last := from.answers + retries, seen.answers - 1;
              && sentAt <= last
              && (forall k :: sentAt < k < last ==> answers[k] == Timeout)
              && (sentAt < last && r != Completed ==> (answers[last] == Timeout <==> r != RmtError))
              && (r == Completed || r == RmtError ==> sentAt < last)
    {
      while true
        invariant Ready() && old(seen.answers) <= seen.answers && old(seen.stops) <= seen.stops
        invariant seen.answers - old(seen.answers) == seen.stops - old(seen.stops)
        invariant forall k :: from.stops <= k < seen.stops ==> !stops[k]
        invariant forall k :: old(seen.answers) <= k < seen.answers ==> answers[k] == Timeout
        invariant Smooth(from) ==> seen.answers == old(seen.answers)
        decreases |answers| - seen.answers
      {
        var err := ReadAnswer();
        if err == None {
          return CutShort;
        }
        if err.value == Ok {
          return Completed;
        }
        if err.value != Timeout {
          return RmtError;
        }
        var stop := ReadStop();
        if stop == None {
          return CutShort;
        }
        if stop.value {
          return LimitSwitchTriggered;
        }
      }
    }

    /** Each interval is queued at most once and in order; the position counts the chunks
        that completed, and whatever is interrupted ends on a multiple of 128.  The schedule
        read accounts for the result, two flags and two answers a chunk when the RMT makes
        no trouble. */
    method MoveStepsIntervals(intervals: seq<nat>)
        returns (r: MoveResult, ghost moved: nat, ghost sent: nat, ghost chunks: nat)
      requires Ready()
      modifies this
      ensures moved <= sent <= |intervals| && sent <= moved + RMT_CHUNK_SYMBOLS
      ensures queued == old(queued) + SymbolsOf(intervals[..sent])
      ensures Advanced(old(position), position, moved)
      ensures r == Completed <==> moved == |intervals|
      ensures Counted(chunks, |intervals|, moved)
      ensures Ready() && Explains(r, old(seen), seen) && InStep(2, old(seen), seen, chunks, r)
    {
      NothingMoved(this, intervals);
      NothingRead(2, seen);
      NoChunk(|intervals|);
      hide Moved, Explains, InStep, Counted;
      var offset := 0;
      chunks := 0;
      while offset < |intervals|
        invariant offset <= |intervals| && Moved(old(position), old(queued), this, intervals, offset, offset)
        invariant Counted(chunks, |intervals|, offset)
        invariant Ready() && Explains(Completed, old(seen), seen) && InStep(2, old(seen), seen, chunks, Completed)
      {
        var outcome, chunkSize, accepted := DriverTurn(intervals, offset, old(seen), chunks,
                                                       old(position), old(queued));
        if outcome != Completed {
          MovedMeans(old(position), old(queued), this, intervals, offset, accepted);
          return outcome, offset, accepted, chunks;
        }
        offset, chunks := offset + chunkSize, chunks + 1;
      }
      MovedMeans(old(position), old(queued), this, intervals, offset, offset);
      return Completed, offset, offset, chunks;
    }

    /** One turn of the loop: the stop flag, then the next chunk. */
    method DriverTurn(intervals: seq<nat>, offset: nat, ghost from: Seen, ghost chunks: nat,
                      ghost before: int, ghost symbols: seq<Symbol>)
        returns (r: MoveResult, chunkSize: nat, ghost accepted: nat)
      requires offset < |intervals| && Moved(before, symbols, this, intervals, offset, offset)
      requires Counted(chunks, |intervals|, offset)
      requires Ready() && Explains(Completed, from, seen) && InStep(2, from, seen, chunks, Completed)
      modifies this
      ensures offset + chunkSize <= |intervals| && 0 < chunkSize <= RMT_CHUNK_SYMBOLS
      ensures accepted == offset || accepted == offset + chunkSize
      ensures r != Completed ==> Moved(before, symbols, this, intervals, offset, accepted)
      ensures r == Completed ==> Moved(before, symbols, this, intervals, offset + chunkSize, offset + chunkSize)
      ensures r == Completed ==> Counted(chunks + 1, |intervals|, offset + chunkSize)
      ensures Ready() && Explains(r, from, seen)
      ensures InStep(2, from, seen, if r == Completed then chunks + 1 else chunks, r)
    {
      hide Moved, Explains, InStep, Counted;
      ghost var here := seen;
      var stop := ReadStop();
      chunkSize := |intervals| - offset;
      if chunkSize > RMT_CHUNK_SYMBOLS {
        chunkSize := RMT_CHUNK_SYMBOLS;
      }
      NextChunk(chunks, |intervals|, offset, chunkSize);
      if stop == None {
        StopMissing(2, from, here, chunks);
        return CutShort, chunkSize, offset;
      }
      if stop.value {
        StopRead(2, from, here, chunks);
        return LimitSwitchTriggered, chunkSize, offset;
      }
      r, accepted := SendChunk(intervals, offset, chunkSize, before, symbols);
      ChunkRead(2, from, here, seen, chunks, r);
    }

    /** Since the driver stood at `before` with these symbols queued, the counter advanced by
        `moved` steps and the symbols of the first `sent` intervals were queued. */
    static ghost predicate Moved(before: int, symbols: seq<Symbol>, stepper: StepperMotor, intervals: seq<nat>,
                                 moved: nat, sent: nat)
      reads stepper`position, stepper`queued
    {
      && sent <= |intervals| && stepper.queued == symbols + SymbolsOf(intervals[..sent])
      && Advanced(before, stepper.position, moved)
    }

    static lemma NothingMoved(stepper: StepperMotor, intervals: seq<nat>)
      ensures Moved(stepper.position, stepper.queued, stepper, intervals, 0, 0)
    {
      assert SymbolsOf(intervals[..0]) == [];
    }

    static lemma MovedMeans(before: int, symbols: seq<Symbol>, stepper: StepperMotor, intervals: seq<nat>,
                            moved: nat, sent: nat)
      requires Moved(before, symbols, stepper, intervals, moved, sent)
      ensures sent <= |intervals| && stepper.queued == symbols + SymbolsOf(intervals[..sent])
      ensures Advanced(before, stepper.position, moved)
    {
    }

    /** One chunk: its symbols are queued or not, and it counts when it completed. */
    method SendChunk(intervals: seq<nat>, offset: nat, chunkSize: nat,
                     ghost before: int, ghost symbols: seq<Symbol>)
        returns (outcome: MoveResult, ghost accepted: nat)
      requires offset + chunkSize <= |intervals| && Moved(before, symbols, this, intervals, offset, offset)
      requires Ready()
      modifies this
      ensures accepted == offset || accepted == offset + chunkSize
      ensures outcome != Completed ==> Moved(before, symbols, this, intervals, offset, accepted)
      ensures outcome == Completed ==> Moved(before, symbols, this, intervals, offset + chunkSize, offset + chunkSize)
      ensures Ready() && Explains(outcome, old(seen), seen)
      ensures InStep(1, old(seen), seen, if outcome == Completed then 1 else 0, outcome)
    {
      hide Wrap32, SymbolsOf, Advanced, Explains, InStep;
      var chunk := BuildSymbols(intervals, offset, chunkSize);
      ghost var here, retries := position, 0;
      ghost var through;
      outcome, through, retries := TransmitChunk(chunk);
      SymbolsConcat(intervals, offset, chunkSize);
      accepted := if through then offset + chunkSize else offset;
      if outcome == Completed {
        position := Wrap32(position + chunkSize);
        AdvancedBy(here, position, chunkSize);
        AdvancedTwice(before, here, position, offset, chunkSize);
      }
    }

    method BuildSymbols(intervals: seq<nat>, offset: nat, chunkSize: nat) returns (symbols: seq<Symbol>)
      requires offset + chunkSize <= |intervals|
      ensures symbols == SymbolsOf(intervals[offset..offset + chunkSize])
    {
      symbols := [];
      for i := 0 to chunkSize
        invariant |symbols| == i && forall j :: 0 <= j < i ==> symbols[j] == SymbolFor(intervals[offset + j])
      {
        var interval := intervals[offset + i];
        var pulseUs := 5;
        if interval <= pulseUs * 2 {
          pulseUs := interval / 2;
        }
        symbols := symbols + [Symbol(Field(pulseUs), Field(interval - pulseUs))];
      }
    }
  }

  lemma SymbolsConcat(intervals: seq<nat>, offset: nat, n: nat)
    requires offset + n <= |intervals|
    ensures SymbolsOf(intervals[..offset + n])
         == SymbolsOf(intervals[..offset]) + SymbolsOf(intervals[offset..offset + n])
  {
  }
}
