# Verified model of the burette firmware

This project models the parts of the titration burette repository where a mistake is hardest to
see by reading: the claim protocol between request handlers and the motor task, the codecs and
checksums on its wires, the stores and buffers, the numerical cores, and the include-graph check
of its build scripts. Each module stands for one component. Code that updates state in place is a
class or a method proved against a specification; what the design promises is then proved about
that specification, over every input or every run.

- `CycleDetector`: the depth-first include-graph cycle search. Every report is a simple cycle, every
  closed walk of the pruned graph runs through a reported closing edge, so nothing is reported
  exactly when the graph is acyclic, and no edge closes two reports.
- `ClaimProtocol`: any number of handlers race for the burette state with a compare-and-swap and
  push into a queue of four; one motor task pops, works and stores Idle. Over every interleaving,
  emergency stops included, at most one claim is in flight, an Idle burette means none is, and
  the claims answered AckThen are the results stored plus the one still pending.
- `HandlerRuns`: what one handler does in such a run, from its arrival to its answer: the checks it has passed,
  the state it puts in the place of Idle, the command it sends and how it answers; and the order of the commands.
- `MotorTask`, `Stepper`, `CalSpeedSeq`, `RinseCycles`: the dispatch, the command handlers and the run loops.
  Every command that ends is a path of the claim protocol, and one that owes a result stores exactly one and
  then Idle; the steps reported by a move are the steps by which the counter advanced, wherever it
  stands, and all that were asked for unless a stop flag or an RMT error of the schedule ends it; the speed
  sequence follows its script under an arbitrary wrapping clock, each stroke at its own frequency.
- `Crc8`, `TmcFrame`: the byte loop is the remainder modulo x^8 + x^2 + x + 1, hence the errors it detects;
  a written register frame is accepted and gives its value back, a damaged one is rejected.
- `SerialLines`: the two-cursor splitter refines a plain split of the byte stream at its newlines.
- `DnsWire`, `DnsReply`: a reader of RFC 1035 messages (sections 3.1 and 4.1), and what it makes of the
  replies of the two builders.
- `WifiStore`, `LogRing`: the saved-network slots and the log ring refine plain lists.
- `ValveSettle`: the settle flag, its one-shot timer and its racy armed flag.
- `LeastSquares`, `AdcCalibration`, `ZFactor`: the numerical cores over the reals, and the error of
  the fixed-point form.

## Where the code does not do what it is for

The code is modelled as it is. Where a promise fails, the exact condition under which it holds is
proved.

- A handler that gives up after its compare-and-swap (no calibration, a dose that cannot be planned), and an
  emergency stop of an Idle burette, lose the claim for good: `ClaimProtocol.StuckOnlyByLosing`,
  `ClaimProtocol.StuckForever`; the first fill without a calibration does it: `ClaimProtocol.FillWithoutCalibration`.
- So does a command that cannot finish, once it has left its handler: the burette can become Idle again
  exactly when it is Idle or a claim in flight is recoverable, `ClaimProtocol.RecoveryExactly`. While the handler
  still has such a command it can come back, because the queue can fill up with emergency stops and the send fail.
- A rinse of 255 cycles never ends, and a rinse of more than two cycles stops alternating:
  `RinseCycles.RinseEndsExactly`, `RinseCycles.RinseAlternatesExactly`, `ClaimProtocol.RinseOfAllCycles`.
- A calibration run is accepted with two points but divides by a third: it can finish exactly when three are given
  and each is at least one half and does not round to a multiple of 65536, `MotorTask.SequenceCanRunExactly`.
- A calibration dose that needs no fill is measured from counter value zero: it reports its stroke exactly when
  the counter wraps to zero at the start, or twice the stroke further, `MotorTask.MotorTask.EmptyAndReport`.
- A speed calibration that needs no fill is timed from clock value zero: it reports its speed exactly when the
  clock stood at zero, apart from strokes of at most a millisecond, `MotorTask.MotorTask.SpeedFromZero`.
- The C++ DNS reply leaves out the type and class of the question, so it parses only for addresses
  x.0.1.y and never carries an A record: `DnsReply.CppReplyReadsBackOnlyByAccident`.
- The Rust DNS reply keeps the authority and additional counts of the query and copies none of their records, so it
  parses exactly when the query counts none, which an EDNS query does not: `DnsReply.RustReplyParsesExactly`.
- With emergency stops there is never a second settle token, nor one under a clear flag, exactly when none of them
  clears the flag while a token exists: `ValveSettle.EmergencyKeepsTokenLawExactly`. One run starts the timer
  while it runs: `ValveSettle.EmergencyCanDoubleStart`.
- Every settle event names the position of the first settle, so it is right exactly when its own settle was for that
  position: `ValveSettle.EventsNameFirstPosition`, `ValveSettle.EventCanNameWrongPosition`.
- The serial buffer takes a newline without the capacity test that other characters get:
  `SerialLines.KeptExactlyWhenItFits`, `SerialLines.FullLineOverflows`.
- The method that saves WiFi credentials does not keep its list for strings of 64 characters and more: such a password is
  not moved by an eviction, such an SSID is never found again (`WifiStore.EvictionKeepsPairing`,
  `WifiStore.ListedIsUpdatedExactly`). Its callers never pass one: `WifiStore.SlotsRepresentList`.
- A step symbol loses its interval beyond 32772 microseconds, that is at every speed below 31 Hz: at 30 Hz,
  the lowest speed of a move of a number of steps, and in continuous moves, whose speed is not clamped:
  `Stepper.SymbolKeepsInterval`, `Stepper.SpeedKeepsInterval`. The Rust driver
  (legacy/rust/src/infrastructure/drivers/stepper.rs:262) clamps the interval.
- The r-squared of the speed calibration is 1 only for points on a line through the origin, since its residuals leave
  the intercept out: `LeastSquares.RSquaredAtMostOne`, `LeastSquares.ExactLineReachesOne`.
- The driver's fixed-point product fits 32 bits exactly below 2^31: `AdcCalibration.ProductFitsExactly`.
- A response frame's second checksum byte is not looked at: `TmcFrame.ValidateResponse`.

## Model

| member | source | states |
|---|---|---|
| `CycleDetector.DetectCyclesFromEdges` | scripts/check_arch.py:1231-1269 | every reported list is a simple closed path; each of its components is one of the project that includes the next, a different one; every closed walk of the pruned graph contains a reported closing edge; nothing is reported exactly when no components of the project include each other in a circle; no edge closes two reports |
| `CycleDetector.CycleSearch.Prune` | scripts/check_arch.py:1240-1247 | the pruned graph has a row for every project component, holding exactly the other project components that it includes |
| `CycleDetector.ClosedWalkIncludes` | scripts/check_arch.py:1240-1247 | a closed walk of the pruned graph is a path of project components, each of which includes the next and differs from it |
| `CycleDetector.CycleSearch.Dfs` | scripts/check_arch.py:1252-1263 | terminates on unvisited components, keeps the search invariant, gives the stack back as it was, and attributes each new report to a component not visited before |
| `CycleDetector.CycleSearch.Explore` | scripts/check_arch.py:1255-1262 | after a neighbour is handled it is finished, or its edge closes a report |
| `CycleDetector.CycleSearch.ReportCycle` | scripts/check_arch.py:1258-1262 | an edge back into the stack adds one report, closed by that edge |
| `CycleDetector.CycleSearch.IndexOf` | scripts/check_arch.py:1260 | the index lookup finds the first position of a component known to be on the path |
| `CycleDetector.CycleSearch.CloseCycle` | scripts/check_arch.py:1260-1262 | the stack from the found component on, closed, is a simple cycle |
| `CycleDetector.ExtendOrder` | scripts/check_arch.py:1263 | a component whose edges all lead to finished ones or close reports can be finished next |
| `CycleDetector.OrderedGraphIsCut` | scripts/check_arch.py:1265-1269 | a finishing order that covers every component leaves no closed walk without a reported edge |
| `CycleDetector.NoReportMeansAcyclic` | scripts/check_arch.py:1265-1269 | simple cycles that cut every closed walk are none exactly when the graph is acyclic |
| `ClaimProtocol.ClaimsExclude` | components/application/src/handlers/burette_ops.cpp:21-431 | over every interleaving of handlers and motor task at most one claim is in flight, an Idle burette means none is, and the queue never holds more than four |
| `ClaimProtocol.ResultsMatchAcks` | components/infrastructure/src/motor/task.cpp:283-349 | claims answered AckThen equal results stored plus pending claims, of which there is at most one, and none when the burette is Idle |
| `ClaimProtocol.InvKept` | components/infrastructure/src/motor/task.cpp:283-349 | every step of a handler or of the motor task keeps exclusion, freedom when Idle, and conservation |
| `ClaimProtocol.RunKeepsInv` | components/application/src/handlers/burette_ops.cpp:21-431 | every state of every run satisfies the invariant |
| `ClaimProtocol.HeldBefore` | components/application/src/handlers/burette_ops.cpp:21-53 | a claim in flight after a step was in flight before it, at the place it came from, unless the step won the compare-and-swap |
| `ClaimProtocol.OriginInjective` | components/application/src/handlers/burette_ops.cpp:47-52 | no step splits one claim into two |
| `ClaimProtocol.ClaimMovesOn` | components/application/src/handlers/burette_ops.cpp:47-52 | every step but a give-up keeps a claim in flight, at a known place, or ends with an Idle burette |
| `ClaimProtocol.IdleMeansFree` | components/infrastructure/src/motor/motion.cpp:147 | Idle is stored only by the holder of the claim, and ends it |
| `ClaimProtocol.AcksConserved` | components/infrastructure/src/motor/motion.cpp:114-148 | every step keeps answered claims equal to stored results plus pending ones |
| `ClaimProtocol.QueuedAcksAtMostOne` | components/application/src/handlers/burette_cal.cpp:193-217 | a queue in which no two claims are in flight holds at most one that awaits a result |
| `ClaimProtocol.StuckStays` | components/application/src/handlers/burette_ops.cpp:33-35 | no step leaves a state in which the burette is claimed and nobody holds the claim |
| `ClaimProtocol.StuckForever` | components/application/src/handlers/burette_ops.cpp:115-119 | a run that lost the claim never stores Idle again and answers no further AckThen |
| `ClaimProtocol.StuckOnlyByLosing` | components/application/src/handlers/burette_ops.cpp:33-35 | the claim is lost exactly by a handler whose cache is null or whose dose is out of range after the compare-and-swap, or by an emergency stop that finds the burette Idle |
| `ClaimProtocol.ClaimCanEnd` | components/infrastructure/src/motor/task.cpp:107-126 | from every state with a recoverable claim in flight there is a path to an Idle burette |
| `ClaimProtocol.RecoveryExactly` | components/application/src/handlers/burette_ops.cpp:145-175 | the burette can become Idle again exactly when it is Idle or a claim in flight is recoverable: not a rinse of 255 cycles or a sequence with a zero frequency, queued or with the motor, nor a dose outside 0.01 to 50 ml |
| `ClaimProtocol.DoomedStays` | components/infrastructure/src/motor/task.cpp:170-210 | no step of anybody makes a burette recoverable whose claims in flight are all beyond recovery |
| `ClaimProtocol.DoomedForever` | components/infrastructure/src/motor/task.cpp:170-210 | a run that has reached such a state never has an Idle burette again |
| `ClaimProtocol.SendCanFail` | components/application/src/handlers/burette_ops.cpp:169-173 | a command that is still with its handler can come back, whatever it is, because the queue can fill |
| `ClaimProtocol.FillWithoutCalibration` | components/application/src/handlers/burette_ops.cpp:21-36 | a run from the start in which the first fill, without a calibration, loses the claim for good |
| `ClaimProtocol.RinseOfAllCycles` | components/application/src/handlers/burette_ops.cpp:145-175 | a run from the start in which a rinse of 255 cycles reaches the motor and the burette can never be Idle again |
| `HandlerRuns.HandlerServes` | components/application/src/handlers/burette_ops.cpp:21-431 | over every run a handler stays on the way its request prescribes, from its arrival to its answer |
| `HandlerRuns.SendServes` | components/application/src/handlers/burette_ops.cpp:165-276 | a send with room appends Stop exactly for a stop, StartCalDose or StartCalSpeed as the mode says, MoveContinuous exactly for a continuous move, StartRinse with the cycles modulo 256 exactly for a rinse, the sequence with its frequencies, MoveSteps for the rest; a stop is answered Single and every other request AckThen; a full queue sends nothing; the check and the plan of the request were passed before |
| `HandlerRuns.ClaimPutsState` | components/application/src/handlers/burette_ops.cpp:23-31 | the compare-and-swap puts the state of the request in the place of Idle and of nothing else, in a run in which the handler has found the valve at rest before |
| `HandlerRuns.CheckIsBehind` | components/application/src/handlers/burette_ops.cpp:147-152 | a handler that has claimed, sent or been answered passed its check at a state in which the valve was not settling, with its parameters given |
| `HandlerRuns.SettlingKeepsOut` | components/application/src/handlers/burette_ops.cpp:23-24 | a handler that arrives in a stretch of a run in which the flag stays set neither claims nor sends in that stretch |
| `HandlerRuns.LoadIsBehind` | components/application/src/handlers/burette_ops.cpp:188-218 | a calibration run that claims has found a calibration and an Idle burette before |
| `HandlerRuns.PlanIsBehind` | components/application/src/handlers/burette_ops.cpp:109-119 | a request that needs a calibration found one before it sent, and a dose is between 0.01 and 50 ml then |
| `HandlerRuns.SetterSends` | components/application/src/handlers/burette_ops.cpp:339-404 | a setter sends its own command; direction, speed and acceleration only after the valve was found at rest and then the burette Idle |
| `HandlerRuns.EmergencySends` | components/application/src/handlers/burette_ops.cpp:280-301 | an emergency stop clears the settle flag, then marks an Idle burette and no other as failed, and then sends its command, whatever it finds |
| `HandlerRuns.CommandsStayInOrder` | components/application/src/send_motor_command.cpp:4-9 | over every run the commands handed to the queue are those the motor task has taken and then those still queued, in order |
| `MotorTask.MotorTask.StoreResult` | components/infrastructure/src/motor/motion.cpp:114-148 | one result with at most three kept measurements, padded with zeros, then Idle |
| `MotorTask.MotorTask.MoveToEndstop` | components/infrastructure/src/motor/motion.cpp:63-92 | for every schedule of stop flags and RMT answers only a flag that is set or an answer other than Ok ends the move; without trouble from the RMT it has made exactly the chunks before the first such flag, and gets there if the schedule is long enough; the position advances by whole chunks of 128 steps whose symbols are queued in order; a zero frequency traps before the first, and nothing else does |
| `MotorTask.MotorTask.MoveChunk` | components/infrastructure/src/motor/motion.cpp:150-213 | after a number of steps done, one driver call adds its steps when it completed, and its symbols in order; the schedule read accounts for its result |
| `MotorTask.MotorTask.ExecuteMoveSteps` | components/infrastructure/src/motor/motion.cpp:150-213 | for every schedule an ended move is short exactly when its last flag is set or its last answer is not Ok, and then it is a multiple of 128; the position advances by exactly the steps moved, their symbols at the clamped speed and at most one chunk more are queued in order; Error is stored exactly when the driver, and not the loop, found the flag |
| `MotorTask.MotorTask.MoveTurn` | components/infrastructure/src/motor/motion.cpp:175-209 | one turn of a move reads one flag and, unless it is set, runs one chunk; what was read before and now accounts for the result |
| `MotorTask.MotorTask.UndisturbedMoveCompletes` | components/infrastructure/src/motor/motion.cpp:175-211 | with no flag set and the RMT answering Ok an ended move has made every step, and a schedule of three flags and two answers a chunk suffices |
| `MotorTask.MotorTask.StoppedMoveCounts` | components/infrastructure/src/motor/motion.cpp:182-186 | a flag that is first set at the n-th chunk leaves exactly the n chunks before it, unless the move is shorter |
| `MotorTask.MotorTask.ClampedSpeed` | components/infrastructure/src/motor/motion.cpp:160-164 | the speed of a counted move is the one from 30 to 3000 Hz that is nearest to the one set |
| `MotorTask.MotorTask.IntervalFillsSecond` | components/infrastructure/src/motor/motion.cpp:166 | the interval is the longest at which a second holds as many steps as the frequency says |
| `MotorTask.MotorTask.HandleMoveSteps` | components/infrastructure/src/motor/task.cpp:97-105 | the reported steps are those by which the counter advanced, for every start of the 32-bit counter, and those the schedule allows: all of them when nothing disturbs the move; one result, then Idle |
| `MotorTask.MotorTask.HandleMoveContinuous` | components/infrastructure/src/motor/task.cpp:107-111 | the counter advances by the chunks the schedule allows, no phase is shown, and one result of zero steps is stored, then Idle |
| `MotorTask.MotorTask.RunCalDose` | components/infrastructure/src/motor/sm_runners.cpp:121-164 | fills only when asked, empties, both at the given frequency, and reports the difference of the counter from where it stood when Emptying was stored, or without a fill from zero; the strokes add up to the counter's advance and to the symbols queued; one result, then Idle; only the end of the schedule cuts it off |
| `MotorTask.MotorTask.EmptyAndReport` | components/infrastructure/src/motor/sm_runners.cpp:139-156 | measured from where the counter stands, the report of an emptying is the steps by which it advanced the counter; measured from zero it is exactly when the counter wraps to zero at the start or twice the stroke further |
| `MotorTask.MotorTask.DoseFromZero` | components/domain/include/domain/cal_dose_sm.hpp:57-64 | a difference taken from counter zero has the magnitude of the stroke exactly when the counter wraps to zero at the start or twice the stroke further |
| `MotorTask.MotorTask.DoseFromElsewhere` | components/domain/include/domain/cal_dose_sm.hpp:37-48 | from counter 1000 a stroke of 128 steps is reported as 1128 |
| `MotorTask.MotorTask.RunCalSpeed` | components/infrastructure/src/motor/sm_runners.cpp:167-220 | fills at the fill frequency only when asked, empties at the test frequency, and reports the speed of the nominal volume over the wrapped difference of the two clock values read, the first being zero without a fill; the symbols queued are those of the two strokes; one result, then Idle |
| `MotorTask.MotorTask.SpeedFromZero` | components/domain/include/domain/cal_speed_sm.hpp:38-68 | a stroke timed from clock zero gives its own speed exactly when it began at clock zero, apart from the times 0 and 1 ms, which count alike |
| `MotorTask.MotorTask.RunCalSpeedSeq` | components/infrastructure/src/motor/sm_runners.cpp:270-293 | the phases shown are the moves of the sequence machine driven by the clock values read; the strokes are driven at the first, second and third frequency with a fill at the fill frequency between each two, in that order and no others, and the symbols queued are theirs; the run ends with its three measurements as the one result, which takes three nonzero frequencies and all five strokes, and traps only at a zero frequency |
| `MotorTask.MotorTask.DispatchCalSpeedAction` | components/infrastructure/src/motor/sm_runners.cpp:225-268 | a fill is driven at the fill frequency and an emptying at the frequency of the current point; moves and settles continue the loop, Complete and Error store one result and end it, and a move at a zero frequency traps |
| `MotorTask.MotorTask.PlanTurn` | components/domain/include/domain/cal_speed_sm.hpp:112-164 | whatever the clock says, a move of the machine takes the next of the five frequencies, and nothing else takes one |
| `MotorTask.MotorTask.DroveOn` | components/infrastructure/src/motor/motion.cpp:63-92 | two stretches of strokes one after the other add up: the counter by their steps, the queue by their symbols in order |
| `MotorTask.MotorTask.RunRinse` | components/infrastructure/src/motor/sm_runners.cpp:82-118 | the phases shown are the first fill and the actions of the machine's first turns, one stroke each, all at the rinse frequency; a run that ends has made all the moves of its rinse, stored one result, and had other than 255 cycles; only the end of the schedule cuts it off |
| `MotorTask.MotorTask.HandleCommand` | components/infrastructure/src/motor/task.cpp:283-349 | everything others see of a dispatched command, opening state included, is the trace of its kind; the strokes it drove, at the frequencies of its kind, account for the counter, the symbols queued and its result; a counted move makes the steps its schedule allows; a command that ends can finish, and one that traps has a zero frequency |
| `MotorTask.RinseTurn` | components/domain/include/domain/rinse_sm.hpp:44-70 | a turn never fails, completes only below 255 cycles with no move left, and otherwise makes the next remaining move |
| `MotorTask.RinsePhasesAllowed` | components/infrastructure/src/motor/sm_runners.cpp:90-117 | a rinse shows only states its claim allows |
| `MotorTask.MovePhasesAllowed` | components/infrastructure/src/motor/sm_runners.cpp:225-268 | a speed sequence shows only states its claim allows |
| `MotorTask.CompletedSequencePhases` | components/domain/include/domain/cal_speed_sm.hpp:97-164 | a completed sequence shows three emptyings with two fillings between them, for every clock |
| `MotorTask.OneResultPerRun` | components/infrastructure/src/motor/motion.cpp:114-148 | the trace of a dispatched command holds exactly one result, right before its last Idle, when the command owes one and has ended, and none otherwise |
| `MotorTask.RunRefinesProtocol` | components/infrastructure/src/motor/task.cpp:283-349 | every dispatched command that ends, stops and setters included, is a path of the claim protocol from the command received to a waiting motor, the burette state stored last and as many more results as were stored |
| `MotorTask.RunOpens` | components/infrastructure/src/motor/task.cpp:113-126 | taking up a command stores its opening state, Rinsing, Dosing or Stopping, and no other; an emergency stop clears the settle flag |
| `MotorTask.RinseFinishesExactly` | components/domain/include/domain/rinse_sm.hpp:44-70 | the rinses the protocol lets finish are those whose machine reaches its end |
| `MotorTask.CommandFreqs` | components/application/src/handlers/burette_cal.cpp:201-211 | at most three points are rounded to 16 bits, the missing ones stay zero |
| `MotorTask.SequenceCanRunExactly` | components/application/src/handlers/burette_cal.cpp:184-211 | the command the handler sends can finish exactly when three points are given, each at least one half and none rounding to a multiple of 65536 |
| `Stepper.StepperMotor.MoveStepsIntervals` | components/infrastructure/src/drivers/stepper.cpp:131-219 | for every schedule of stop flags and RMT answers each interval is queued at most once and in order, the position counts the completed chunks, an interruption falls on a multiple of 128, and the last flag or answer read accounts for the result, two of each a chunk when the RMT makes no trouble |
| `Stepper.StepperMotor.SendChunk` | components/infrastructure/src/drivers/stepper.cpp:143-215 | after a number of intervals done, a chunk adds its symbols at most once, and its steps to the position exactly when it completed; the schedule read accounts for its outcome |
| `Stepper.StepperMotor.TransmitChunk` | components/infrastructure/src/drivers/stepper.cpp:172-212 | a chunk is queued at the first Ok after at most ten InvalidState answers, and never twice; an error is any other answer, or the eleventh InvalidState; a flag that is set stops it before any further answer is read |
| `Stepper.StepperMotor.AwaitDone` | components/infrastructure/src/drivers/stepper.cpp:198-212 | the wait goes on through timeouts only: Ok completes it, another answer fails it, and a flag set after a timeout stops it |
| `Stepper.StepperMotor.ChunkRead` | components/infrastructure/src/drivers/stepper.cpp:144-212 | a flag that is not set and then one chunk extend the account of the schedule by that chunk |
| `Stepper.StepperMotor.BuildSymbols` | components/infrastructure/src/drivers/stepper.cpp:155-170 | one symbol per interval of the chunk, in order |
| `Stepper.SymbolKeepsInterval` | components/infrastructure/src/drivers/stepper.cpp:158-169 | the two 15-bit durations sum to the interval exactly when it is at most 32772; the high time is 5, or the smaller half of an interval of at most 10 |
| `Stepper.SpeedKeepsInterval` | components/infrastructure/src/motor/motion.cpp:69 | over all positive speeds the symbol keeps its interval exactly from 31 Hz on |
| `Stepper.WrappedDifference` | components/infrastructure/src/motor/task.cpp:99-103 | a wrapped counter difference gives the steps back |
| `CalSpeedSeq.CalSpeedSeqSm.OnTick` | components/domain/include/domain/cal_speed_sm.hpp:112-164 | the in-place machine takes the step of the specification, its result index in bounds |
| `CalSpeedSeq.RunFollowsScript` | components/domain/include/domain/cal_speed_sm.hpp:97-164 | apart from settling, every run is a prefix of empty, fill, empty, fill, empty, complete, and is done exactly when it is all of it |
| `CalSpeedSeq.MovesAreSettled` | components/domain/include/domain/cal_speed_sm.hpp:122-157 | every move comes at the first tick at least 1000 ms, modulo 2^32, after its own settling began |
| `CalSpeedSeq.StrokesAreMeasured` | components/domain/include/domain/cal_speed_sm.hpp:127-149 | the n-th result is the speed of the n-th stroke, from its own two clock values |
| `CalSpeedSeq.StrokeSpeed` | components/domain/include/domain/cal_speed_sm.hpp:127-149 | the speed at which 50 ml take the measured minutes, and zero for no time at all |
| `RinseCycles.RinseEndsExactly` | components/domain/include/domain/rinse_sm.hpp:44-70 | a rinse reaches its end exactly when the cycle count is not 255 |
| `RinseCycles.RinseAlternatesExactly` | components/domain/include/domain/rinse_sm.hpp:50-64 | fills and empties alternate throughout exactly for at most two cycles |
| `RinseCycles.RinseMoves` | components/domain/include/domain/rinse_sm.hpp:44-70 | the moves of a rinse are an emptying first if the burette was filled for it, then one fill, then one emptying for every cycle but one |
| `RinseCycles.TurnTakesNextMove` | components/domain/include/domain/rinse_sm.hpp:44-70 | a turn makes the first of the remaining moves, or completes when none is left |
| `RinseCycles.FillingOnlyEmpties` | components/domain/include/domain/rinse_sm.hpp:56-65 | from the filling phase on only empties follow, one per cycle left |
| `Crc8.ComputeCrc` | components/infrastructure/src/drivers/tmc_uart.cpp:22-41 | the nested loops compute the byte-wise CRC of the first bytes |
| `Crc8.CrcIsRegister` | components/infrastructure/src/drivers/tmc_uart.cpp:25-39 | the byte-wise CRC is what a bit-serial shift register holds after the message |
| `Crc8.RegisterIsRemainder` | components/infrastructure/src/drivers/tmc_uart.cpp:25-39 | the register is the only octet that makes the message a multiple of the generator |
| `Crc8.CrcIsRemainder` | components/infrastructure/src/drivers/tmc_uart.cpp:22-41 | message and check byte are divisible by x^8 + x^2 + x + 1 exactly when the byte is the CRC |
| `Crc8.CrcLinear` | components/infrastructure/src/drivers/tmc_uart.cpp:22-41 | the CRC of a bytewise exclusive or is the exclusive or of the CRCs |
| `Crc8.RegisterParity` | components/infrastructure/src/drivers/tmc_uart.cpp:30-37 | the register has the parity of the message, since x + 1 divides the generator |
| `Crc8.BurstIsSeen` | components/infrastructure/src/drivers/tmc_uart.cpp:22-41 | a nonzero error within eight consecutive bits leaves a nonzero register, at any length |
| `Crc8.CrcDetectsErrors` | components/infrastructure/src/drivers/tmc_uart.cpp:22-41 | an odd number of flipped bits or a burst of at most eight changes the CRC of a message of any length |
| `TmcFrame.WriteRegister` | components/infrastructure/src/drivers/tmc_uart.cpp:101-117 | the eight bytes sent: sync, register, value from its high byte down, the CRC of the first six twice |
| `TmcFrame.ValidateResponse` | components/infrastructure/src/drivers/tmc_uart.cpp:174-193 | accepts exactly the frames that name the register and whose first seven bytes are divisible by the generator, and then returns the four payload bytes; otherwise leaves the value alone |
| `TmcFrame.WrittenFrameIsAccepted` | components/infrastructure/src/drivers/tmc_uart.cpp:106-115 | a written frame is accepted for its register and gives its value back, for all registers and values |
| `TmcFrame.DamagedFrameIsRejected` | components/infrastructure/src/drivers/tmc_uart.cpp:174-193 | any odd number of bit flips, or any burst of at most eight bits, in the first seven bytes is rejected, whatever the last byte |
| `SerialLines.SerialReader.SplitBuffer` | components/interface/include/interface/serial.hpp:86-152 | in place over 256 bytes: the pending characters become those of the specification, and the line returned is its first |
| `SerialLines.SerialReader.Compact` | components/interface/include/interface/serial.hpp:94-108 | moving the pending characters to the front keeps them |
| `SerialLines.SerialReader.AppendAll` | components/interface/include/interface/serial.hpp:110-138 | appends a chunk, dropping carriage returns and leading newlines, with the overflow rule of the code |
| `SerialLines.SplitLosesNothing` | components/interface/include/interface/serial.hpp:140-149 | lines and unfinished line joined by newlines are the stream |
| `SerialLines.KeptExactlyWhenItFits` | components/interface/include/interface/serial.hpp:110-138 | a chunk is kept in full, without an overflowing newline, exactly when it fits with its newlines counted; otherwise, unless a newline overflows, the buffer is emptied |
| `SerialLines.FullLineOverflows` | components/interface/include/interface/serial.hpp:120-134 | a newline that finds the buffer full is written past its end |
| `SerialLines.SplitterRefinesSplit` | components/interface/include/interface/serial.hpp:86-152 | for every chunking that fits, the non-empty lines returned and then those pending are those of the stream without carriage returns, and so is the unfinished line |
| `SerialLines.ChunkingDoesNotMatter` | components/interface/include/interface/serial.hpp:86-152 | two chunkings of one stream that fit and are drained return the same non-empty lines |
| `SerialLines.DrainedResult` | components/interface/include/interface/serial.hpp:86-152 | a drained splitter has returned exactly the non-empty lines of the stream |
| `SerialLines.DrainingEnds` | components/interface/include/interface/serial.hpp:140-151 | empty chunks drain the splitter after finitely many calls |
| `LeastSquares.CalculateSpeedCalibration` | components/domain/include/domain/ols.hpp:15-58 | zero for fewer than two points or a degenerate denominator, otherwise the regression slope and its r-squared |
| `LeastSquares.Accumulate` | components/domain/include/domain/ols.hpp:22-32 | the loop computes the four sums |
| `LeastSquares.ComputeRSquared` | components/domain/include/domain/ols.hpp:41-55 | one minus the residuals of the line through the origin over the squared deviations, or zero without spread |
| `LeastSquares.DenominatorIsSpread` | components/domain/include/domain/ols.hpp:35 | the denominator is the sum of squared deviations, hence not negative |
| `LeastSquares.SlopeIsOptimal` | components/domain/include/domain/ols.hpp:39 | no slope and intercept have a smaller squared error, and another slope has a larger one |
| `LeastSquares.SlopeIsRecovered` | components/domain/include/domain/ols.hpp:39 | points on a line give its slope back |
| `LeastSquares.InterceptIsRecovered` | components/domain/include/domain/ols.hpp:39 | points on a line give its intercept back with the optimal one |
| `LeastSquares.RSquaredAtMostOne` | components/domain/include/domain/ols.hpp:41-55 | r-squared never exceeds 1, and is 1 exactly when every point lies on the line through the origin |
| `LeastSquares.ExactLineReachesOne` | components/domain/include/domain/ols.hpp:41-55 | for points on a line with enough spread r-squared is 1 exactly when the intercept is zero |
| `LeastSquares.WholeFrequenciesDegenerateExactly` | components/domain/include/domain/ols.hpp:35-37 | whole frequencies are rejected as degenerate exactly when they are all the same |
| `LeastSquares.RSquaredMeans` | components/domain/include/domain/ols.hpp:52-55 | one minus r-squared times the spread of the speeds is the squared error of the line through the origin |
| `LeastSquares.SpreadSplits` | components/domain/include/domain/ols.hpp:35-39 | the spread of the values is the error of the best line plus the denominator times its squared slope |
| `AdcCalibration.ComputeCalibration` | components/application/src/handlers/sensors.cpp:218-291 | each outcome exactly under its condition: too few points, coinciding references, a zero slope (clamped infinities, or no number when the readings sum to zero), and otherwise the inverse line with its two quantised coefficients and its r-squared |
| `AdcCalibration.Regress` | components/application/src/handlers/sensors.cpp:241-273 | the line through the points and its r-squared, unless their references coincide |
| `AdcCalibration.CalibratedFromRaw` | components/infrastructure/src/drivers/adc.cpp:13-21 | for every raw value the reading stays within 16 bits, and is the fixed-point reading whose error `ReadingIsClose` bounds |
| `AdcCalibration.ProductFitsExactly` | components/infrastructure/src/drivers/adc.cpp:17 | the 32-bit product is the product exactly below 2^31 |
| `AdcCalibration.DeterminationIsExplained` | components/application/src/handlers/sensors.cpp:269-273 | the reported r-squared is one minus the error of the regression line over the spread of the readings |
| `AdcCalibration.DeterminationBetween` | components/application/src/handlers/sensors.cpp:269-273 | it lies between 0 and 1, and is 1 exactly when every point is on the regression line |
| `AdcCalibration.RegressionIsLeastSquares` | components/application/src/handlers/sensors.cpp:255-262 | slope and intercept of the handler are the least-squares ones |
| `AdcCalibration.ReadingIsClose` | components/application/src/handlers/sensors.cpp:264-279 | with no clamp hit the reading is within 1.5 + raw/2000 of the exact line, and the 32-bit product does not overflow |
| `AdcCalibration.CalibratedReadingIsClose` | components/infrastructure/src/drivers/adc.cpp:13-21 | calibrating on points of a line and reading one of them gives its reference back within that error |
| `ZFactor.GetZFactor` | components/domain/include/domain/z_factor.hpp:52-84 | the clamping and scanning code computes interpolation along the temperatures of interpolations along the pressures |
| `ZFactor.LookupMonotone` | components/domain/include/domain/z_factor.hpp:52-84 | with a table monotone in both directions the lookup is monotone in temperature and pressure over all reals, across cells |
| `ZFactor.LookupHitsGrid` | components/domain/include/domain/z_factor.hpp:52-84 | the lookup gives the table's value at every grid point |
| `ZFactor.LookupBetweenExtremes` | components/domain/include/domain/z_factor.hpp:52-84 | the lookup stays between the table's first and last value for every real input |
| `ZFactor.BilinearTableIsReproduced` | components/domain/include/domain/z_factor.hpp:52-84 | on a table that is bilinear in temperature and pressure the lookup is exact for every input within the axes, and outside takes the nearest end of the axis |
| `ZFactor.LineIsReproduced` | components/domain/include/domain/z_factor.hpp:63-83 | on values of a straight line the interpolation along one axis gives the line |
| `ZFactor.InterpolationMonotone` | components/domain/include/domain/z_factor.hpp:63-83 | interpolation along one axis is monotone across cell boundaries |
| `ZFactor.ShippedTableIsMonotone` | components/domain/include/domain/z_factor.hpp:18-50 | the shipped table of 31 by 6 values is monotone in both directions |
| `WifiStore.Store.SaveCredentials` | components/infrastructure/network/src/wifi.cpp:460-524 | the slots afterwards hold the updated, appended or shifted list, with the count kept |
| `WifiStore.Store.Evict` | components/infrastructure/network/src/wifi.cpp:494-515 | every slot but the last holds what can be read of the next |
| `WifiStore.Store.MoveSlot` | components/infrastructure/network/src/wifi.cpp:498-514 | one slot takes over what can be read of another, and no other slot changes |
| `WifiStore.Store.ReadStr` | components/infrastructure/network/src/wifi.cpp:472-474 | a stored string is read back exactly when it fits the buffer |
| `WifiStore.EvictionKeepsPairing` | components/infrastructure/network/src/wifi.cpp:494-515 | an eviction drops exactly the oldest and keeps every pairing if and only if each moved SSID is readable and each moved password is readable or equals the one it replaces |
| `WifiStore.ListedIsUpdatedExactly` | components/infrastructure/network/src/wifi.cpp:468-524 | a listed network is updated in place exactly when its SSID can be read back, or when it is the last of a full store that an eviction leaves untouched |
| `WifiStore.WrittenIsSaved` | components/infrastructure/network/src/wifi.cpp:460-524 | with readable strings the code's slots are the abstract list after the save |
| `WifiStore.SlotsRepresentList` | components/infrastructure/network/src/http_server.cpp:205-214 | for every run of connect requests, whose strings are copied into fields of 32 and 64 bytes, the slots represent the abstract list |
| `WifiStore.ReadableRunsRepresentList` | components/infrastructure/network/src/wifi.cpp:460-524 | so they do for every run of saves whose strings can be read back |
| `WifiStore.ListStaysSmallAndDistinct` | components/infrastructure/network/src/wifi.cpp:468-493 | at most five networks, no SSID twice, after any run of saves |
| `WifiStore.PasswordsAreLatest` | components/infrastructure/network/src/wifi.cpp:468-481 | every listed network has the password it was last saved with |
| `WifiStore.ListIsFifo` | components/infrastructure/network/src/wifi.cpp:494-523 | the list holds the last five SSIDs that entered it, in that order |
| `LogRing.LogBuffer.Push` | components/domain/src/log_buffer.cpp:45-71 | the entry, its level cut to 7 and its message to 127 characters, becomes the newest, the ring keeping the last pushes |
| `LogRing.LogBuffer.Clear` | components/domain/src/log_buffer.cpp:114-125 | nothing counts as pushed any more |
| `LogRing.LogBuffer.Fetch` | components/domain/src/log_buffer.cpp:132-164 | writes exactly the first matching entries, newest first, of the last pushes the ring holds, and nothing beyond them |
| `LogRing.LogBuffer.SlotAt` | components/domain/src/log_buffer.cpp:138-146 | the slot at an offset behind the head holds that push, or is empty |
| `LogRing.OldestIsOverwritten` | components/domain/src/log_buffer.cpp:53 | the slot of a push is not one of the other pushes still held |
| `LogRing.FetchedIsRecentAndMatching` | components/domain/src/log_buffer.cpp:132-164 | a fetched entry has a timestamp, the level of the filter unless that is empty, and is among the last pushes; all such are fetched while the output has room |
| `LogRing.FoundInOrder` | components/domain/src/log_buffer.cpp:136-162 | the entries found come from ever older pushes |
| `LogRing.NewestAt` | components/domain/src/log_buffer.cpp:138-143 | the i-th newest entry is the i-th from the end of the pushes |
| `DnsReply.BuildDnsResponse` | legacy/rust/prototype/src/wifi.rs:545-587 | a reply exactly when an encoded name stands in the question with four bytes after it; header, the whole question, and the answer |
| `DnsReply.RustReplyReadsBack` | legacy/rust/prototype/src/wifi.rs:545-587 | for every well-formed query of one question the reply parses by sections 4.1.1 to 4.1.4 of RFC 1035 to the same id and question and exactly one A record, named by a pointer to that question and holding the address |
| `DnsReply.RustReplyParsesExactly` | legacy/rust/prototype/src/wifi.rs:552-576 | for every query with one well-formed question the reply parses exactly when NSCOUNT and ARCOUNT are zero |
| `DnsReply.BuildDnsResponseInto` | components/domain/include/domain/dns.hpp:44-100 | nonzero exactly when an encoded name stands in the question with four bytes after it, QDCOUNT is nonzero and the reply fits; then the reply has the query's id and question count, the flags 0x8180, one answer, the name at offset 12, and right after the name reads as exactly one A record of that name, 60 seconds to live, with the address, ending at the end; nothing is written beyond it |
| `DnsReply.CppReplyAnswers` | components/domain/include/domain/dns.hpp:80-97 | so does the reply to every query whose question starts with a valid name |
| `DnsReply.CppAcceptsExactly` | components/domain/include/domain/dns.hpp:49-78 | the builder's conditions in terms of the name asked for |
| `DnsReply.WalkedNameStands` | components/domain/include/domain/dns.hpp:59-69 | the label walk succeeds on nothing but encoded names, and ends right after them |
| `DnsReply.FindNameEnd` | components/domain/include/domain/dns.hpp:59-71 | the pointer walk ends after the zero byte of the name, or beyond the query |
| `DnsReply.CppReplyReadsBackOnlyByAccident` | components/domain/include/domain/dns.hpp:72-97 | the reply to a well-formed query parses exactly for addresses x.0.1.y, and then never as an A record |
| `DnsReply.ExtractDomainName` | components/domain/include/domain/dns.hpp:125-183 | the walk in place: its text, zero-terminated and in bounds, or 0 and an empty text |
| `DnsReply.ExtractedNameIsDotJoined` | components/domain/include/domain/dns.hpp:125-183 | for every encoded label list the text is the dot-joined labels if they fit with their terminator, and none otherwise |
| `DnsReply.WalkFindsNameEnd` | components/domain/include/domain/dns.hpp:59-71 | the walk over an encoded name ends right after it |
| `DnsWire.EncodedNameIsRead` | legacy/rust/prototype/src/wifi.rs:558-569 | an encoded label list reads back as itself, ending right after it |
| `DnsWire.PointerIsRead` | legacy/rust/prototype/src/wifi.rs:578-579 | a two-byte pointer reads as the name it points to |
| `ValveSettle.SettleFlagIsToken` | components/application/src/handlers/valve.cpp:28-44 | in every run without an emergency stop the flag is set exactly when one token exists, and the timer is never started while pending |
| `ValveSettle.InvKept` | components/infrastructure/src/drivers/valve.cpp:91-150 | every step of a handler, the timer or its callback keeps the token law, although the armed flag is updated racily |
| `ValveSettle.NeverDoubleStart` | components/infrastructure/src/drivers/valve.cpp:123-150 | a start of the timer finds it not pending |
| `ValveSettle.EventsNameFirstPosition` | components/infrastructure/src/drivers/valve.cpp:123-133 | in every run without an emergency stop each settle event names the position settled by the first one, and so is right exactly when its own settle was for that position |
| `ValveSettle.EmergencyKeepsTokenLawExactly` | components/infrastructure/src/drivers/valve.cpp:152-165 | over every run and interleaving, emergency stops included, there is never a second token nor one under a clear flag exactly when no emergency stop clears the flag while a token exists |
| `ValveSettle.StepIsSafeExactly` | components/application/src/handlers/burette_ops.cpp:280-285 | every single step keeps that, except a clear of the flag under a token |
| `ValveSettle.NoDoubleStartBefore` | components/infrastructure/src/drivers/valve.cpp:134-149 | up to and at the first such clear no start finds the timer running |
| `ValveSettle.FlagIsNeverOrphaned` | components/infrastructure/src/drivers/valve.cpp:118 | in every run a set flag has a token, or an emergency stop about to clear it |
| `ValveSettle.ArmedSinceExchange` | components/infrastructure/src/drivers/valve.cpp:119-165 | the armed flag is set exactly when some re-arming has not been followed by a callback's end or an emergency stop |
| `ValveSettle.StopsExactlyWhenArmed` | components/infrastructure/src/drivers/valve.cpp:134-165 | a settle stops the timer before it starts it exactly then, and an emergency stop exactly then and once the timer is created |
| `ValveSettle.EventCanNameWrongPosition` | components/infrastructure/src/drivers/valve.cpp:125-132 | a run in which a settle for Output is reported as Input |
| `ValveSettle.EmergencyCanDoubleStart` | components/application/src/handlers/burette_ops.cpp:280-285 | a run with an emergency stop that starts the timer while it is pending |

## Left out

- CycleDetector.DetectCyclesFromEdges: visits components and neighbours in any order where the script sorts them, so the order of the reports is not modelled.
- ClaimProtocol and ValveSettle are values stepped by a transition function, since their subject is interleaving; each atomic load, store, compare-and-swap and queue operation is one step, and memory order is not modelled.
- ClaimProtocol starts at the top of the motor loop, after boot homing; the Home command, which no handler sends, and MotorControllerImpl are not part of this model.
- ClaimProtocol: the stop flags are left out and do not change who holds the claim; a run of a command may be cut at any point by nondeterminism.
- ClaimProtocol: no fairness is assumed, so that a claim in flight can end is stated, and not that it does; recovery is over all continuations, other handlers' emergency stops included.
- ClaimProtocol: a division by zero is a run that stays where it is, since the reset it causes is outside the model; requests carry the parameters that decide whether they can be planned and finish, and no others.
- MotorTask.MotorTask.MoveToEndstop: does not model the direction pin, the settling waits and the re-enabling of the driver, which no state of the model reads.
- MotorTask: a run is over a schedule of stop flags and RMT answers, any finite ones, whoever sets and clears the flags; a run whose schedule, or list of clock values, ends before it does is cut off, and `exit` says so.
- MotorTask.MotorTask.RunCalSpeedSeq: the settling wait of an action reads no stop flag in the model.
- MotorTask.MotorTask.RunRinse: the isComplete test of the loop is left out because a run returns before it could be true.
- MotorTask: the broadcast of a completed move, state tracing and the volume estimate.
- MotorTask.MotorTask.HandleCommand: the conversion from ml/min to Hz and the lowest test speed are parameters, as are the clock values read, gSpeed and whether the volume asks for a fill; the setters' own effects are left out.
- Stepper.StepperMotor.MoveStepsIntervals: GPIO, the delay between retries and the emergency stop of the driver have no effect in the model; what a null stop flag would do, which no caller passes, is that of a flag that is never set.
- TmcFrame.WriteRegister: the UART write and its failure are left out, as is the read request.
- SerialLines.SerialReader.SplitBuffer: requires that no newline finds the buffer full, because there the code writes past its array; file descriptors and the timestamp of the last data are left out.
- AdcCalibration.ComputeCalibration: doubles are reals; the infinities of a division by a zero slope appear as the ends of the ranges they are clamped to, a quotient of zeros as an outcome of its own, and the square of num / sqrt(denomR) as num^2 / denomR.
- LeastSquares, ZFactor: floats are reals, so rounding is not modelled.
- WifiStore.Store.SaveCredentials: storage writes succeed; the number in a key is modelled, not its text.
- LogRing: pushes, clears and fetches one at a time; concurrent pushes, the worker task, a wrapped head counter and timestamp 0 are left out.
- DnsReply.BuildDnsResponseInto: the address arrives in network order, as its four bytes.
- DnsWire is a reader for the replies modelled here; class and type codes are numbers and record data is not interpreted.
- planDose, planCalRun, speedMlMinToHz and BuretteController: one-branch or small finite facts.
- Result correlation through gLastCmdId: written after dispatch and not set on the HTTP path.
- WebUI, HTTP routes, BLE, WiFi events, boot sequence, panic handling, JSON parsing and status formatting: plumbing.
- The other scripts and the rest of the Rust prototype.
