/** What one handler of burette_ops.cpp and burette_cal.cpp does over a run of the claim
    protocol, from its arrival to its answer: which checks it has passed, which state it puts
    in the place of Idle, which command it sends and how it answers. */
module HandlerRuns {
  import opened Options
  import opened ClaimProtocol

  /** The command belongs to the request; the cycle count of a rinse is cut to a byte. */
  predicate Serves(r: Request, cmd: Command) {
    && (cmd == Stop <==> r == StopMotor)
    && (cmd == StartCalDose <==> r == CalRun(true))
    && (cmd == StartCalSpeed <==> r == CalRun(false))
    && (cmd == MoveContinuous <==> r == MoveOn)
    && (cmd == MoveSteps <==> r == Fill || r == Empty || r == Move || r.DoseVolume?)
    && (cmd.StartRinse? <==> r.Rinse?) && (r.Rinse? ==> cmd.cycles == r.cycles % 256)
    && (cmd.StartCalSpeedSeq? <==> r.RunCalibration?) && (r.RunCalibration? ==> cmd.freqs == r.freqs)
  }

  /** Where a handler of this request can be; it answers Single exactly for a stop. */
  predicate Serving(pc: HandlerPc, r: Request) {
    match pc
    case Checking(q) => q == r
    case CalLoading(q) => q == r && r.CalRun?
    case Claiming(q) => q == r
    case Planning(q) => q == r
    case Sending(cmd) => Serves(r, cmd)
    case RollingBack => true
    case Answered(response) => (response == Single ==> r == StopMotor) && (response == AckThen ==> r != StopMotor)
    case _ => false
  }

  /** A handler of this request arrives with step a of a run. */
  ghost predicate Arrives(states: seq<State>, steps: seq<Step>, id: nat, r: Request, a: nat) {
    Run(states, steps) && a < |steps| && steps[a] == Arrive(id, Checking(r))
  }

  /** Only a handler's own steps move it. */
  lemma OthersStay(s: State, step: Step, id: nat)
    requires Enabled(s, step) && id in s.handlers && (ByHandler(step) ==> step.id != id)
    ensures id in Apply(s, step).handlers && Apply(s, step).handlers[id] == s.handlers[id]
  {
    if ByHandler(step) {
      HandlerFrame(s, step);
      hide Apply, Enabled;
    } else {
      MotorFrame(s, step);
    }
  }

  lemma ServingStep(s: State, step: Step, id: nat, r: Request)
    requires Enabled(s, step) && id in s.handlers && Serving(s.handlers[id], r)
    ensures id in Apply(s, step).handlers && Serving(Apply(s, step).handlers[id], r)
  {
    if !ByHandler(step) || step.id != id {
      OthersStay(s, step, id);
    }
  }

  lemma ArrivedAtCheck(states: seq<State>, steps: seq<Step>, id: nat, r: Request, a: nat)
    requires Arrives(states, steps, id, r, a)
    ensures id in states[a + 1].handlers && states[a + 1].handlers[id] == Checking(r)
  {
  }

  lemma {:induction false} HandlerServes(states: seq<State>, steps: seq<Step>, id: nat, r: Request, a: nat, i: nat)
    requires Arrives(states, steps, id, r, a) && a < i < |states|
    ensures id in states[i].handlers && Serving(states[i].handlers[id], r)
  {
    if i > a + 1 {
      HandlerServes(states, steps, id, r, a, i - 1);
      ServingStep(states[i - 1], steps[i - 1], id, r);
    }
  }

  // ---- The checks behind it --------------------------------------------------------

  /** The valve is not settling, and the parameters are there. */
  predicate CheckHolds(s: State, r: Request) {
    !s.settling && (r.Rinse? ==> r.cycles >= 1) && (r.RunCalibration? ==> |r.freqs| == 3)
  }

  predicate Checked(pc: HandlerPc) {
    !pc.Checking? && pc != Answered(Failed)
  }

  lemma CheckPassed(s: State, step: Step, id: nat, r: Request)
    requires Enabled(s, step) && id in s.handlers && Serving(s.handlers[id], r)
    requires Checked(Apply(s, step).handlers[id]) && !Checked(s.handlers[id])
    ensures step == PassCheck(id) && CheckHolds(s, r)
  {
    if !ByHandler(step) || step.id != id {
      OthersStay(s, step, id);
    }
  }

  /** A handler that is past its check, on its way to claim or further, passed it. */
  lemma {:induction false} CheckIsBehind(states: seq<State>, steps: seq<Step>, id: nat, r: Request, a: nat, i: nat)
      returns (j: nat)
    requires Arrives(states, steps, id, r, a) && a < i < |states|
    requires id in states[i].handlers && Checked(states[i].handlers[id])
    ensures a < j < i && steps[j] == PassCheck(id) && CheckHolds(states[j], r)
  {
    hide Apply, Enabled, Serving, CheckHolds;
    if i == a + 1 {
      ArrivedAtCheck(states, steps, id, r, a);
    } else {
      HandlerServes(states, steps, id, r, a, i - 1);
      if Checked(states[i - 1].handlers[id]) {
        j := CheckIsBehind(states, steps, id, r, a, i - 1);
      } else {
        CheckPassed(states[i - 1], steps[i - 1], id, r);
        j := i - 1;
      }
    }
  }

  /** While the valve keeps settling, no handler that arrives claims the burette, or sends. */
  lemma SettlingKeepsOut(states: seq<State>, steps: seq<Step>, id: nat, r: Request, a: nat, i: nat)
    requires Arrives(states, steps, id, r, a) && a < i < |states|
    requires forall k :: a < k < i ==> states[k].settling
    ensures id in states[i].handlers && !HandlerHolds(states[i].handlers[id])
    ensures states[i].handlers[id] == Checking(r) || states[i].handlers[id] == Answered(Failed)
    ensures i < |steps| ==> steps[i] != CompareAndSwap(id) && steps[i] != Send(id)
  {
    HandlerServes(states, steps, id, r, a, i);
    if Checked(states[i].handlers[id]) {
      var j := CheckIsBehind(states, steps, id, r, a, i);
      assert false;
    }
  }

  predicate Loaded(pc: HandlerPc) {
    Checked(pc) && !pc.CalLoading?
  }

  lemma LoadPassed(s: State, step: Step, id: nat, r: Request)
    requires Enabled(s, step) && id in s.handlers && Serving(s.handlers[id], r) && r.CalRun?
    requires Loaded(Apply(s, step).handlers[id]) && !Loaded(s.handlers[id])
    ensures step == PassLoad(id) && s.burette == Idle && s.cache.Some?
  {
    if !ByHandler(step) || step.id != id {
      OthersStay(s, step, id);
    }
  }

  /** What a CalRun loads before its compare-and-swap. */
  lemma {:induction false} LoadIsBehind(states: seq<State>, steps: seq<Step>, id: nat, r: Request, a: nat, i: nat)
      returns (j: nat)
    requires Arrives(states, steps, id, r, a) && a < i < |states| && r.CalRun?
    requires id in states[i].handlers && Loaded(states[i].handlers[id])
    ensures a < j < i && steps[j] == PassLoad(id) && states[j].burette == Idle && states[j].cache.Some?
  {
    hide Apply, Enabled, Serving, CheckHolds;
    if i == a + 1 {
      ArrivedAtCheck(states, steps, id, r, a);
    } else {
      HandlerServes(states, steps, id, r, a, i - 1);
      if Loaded(states[i - 1].handlers[id]) {
        j := LoadIsBehind(states, steps, id, r, a, i - 1);
      } else {
        LoadPassed(states[i - 1], steps[i - 1], id, r);
        j := i - 1;
      }
    }
  }

  /** A calibration is loaded where the request needs one, and the dose is within its bounds. */
  predicate PlanHolds(s: State, r: Request) {
    && (r == Fill || r == Empty || r.DoseVolume? || r.Rinse? ==> s.cache.Some?)
    && (r.DoseVolume? ==> 0.01 <= r.volumeMl <= 50.0 && s.cache.value >= 0.001)
  }

  predicate Planned(pc: HandlerPc) {
    pc.Sending? || pc == RollingBack || pc == Answered(Single) || pc == Answered(AckThen)
  }

  lemma PlanPassed(s: State, step: Step, id: nat, r: Request)
    requires Enabled(s, step) && id in s.handlers && Serving(s.handlers[id], r)
    requires Planned(Apply(s, step).handlers[id]) && !Planned(s.handlers[id])
    ensures step == Plan(id) && PlanHolds(s, r)
  {
    if !ByHandler(step) || step.id != id {
      OthersStay(s, step, id);
    }
  }

  lemma {:induction false} PlanIsBehind(states: seq<State>, steps: seq<Step>, id: nat, r: Request, a: nat, i: nat)
      returns (j: nat)
    requires Arrives(states, steps, id, r, a) && a < i < |states|
    requires id in states[i].handlers && Planned(states[i].handlers[id])
    ensures a < j < i && steps[j] == Plan(id) && PlanHolds(states[j], r)
  {
    hide Apply, Enabled, Serving, PlanHolds;
    if i == a + 1 {
      ArrivedAtCheck(states, steps, id, r, a);
    } else {
      HandlerServes(states, steps, id, r, a, i - 1);
      if Planned(states[i - 1].handlers[id]) {
        j := PlanIsBehind(states, steps, id, r, a, i - 1);
      } else {
        PlanPassed(states[i - 1], steps[i - 1], id, r);
        j := i - 1;
      }
    }
  }

  // ---- Its claim and its command ---------------------------------------------------

  /** The state in the place of Idle is that of the request; no other state is touched, and
      the handler that finds one fails. */
  lemma ClaimPutsState(states: seq<State>, steps: seq<Step>, id: nat, r: Request, a: nat, i: nat)
    requires Arrives(states, steps, id, r, a) && a < i < |steps| && steps[i] == CompareAndSwap(id)
    ensures states[i].burette != Idle ==>
              states[i + 1].burette == states[i].burette && states[i + 1].handlers[id] == Answered(Failed)
    ensures states[i].burette == Idle ==>
              && states[i + 1].handlers[id] == Planning(r)
              && (states[i + 1].burette == Filling <==> r == Fill)
              && (states[i + 1].burette == Emptying <==> r == Empty)
              && (states[i + 1].burette == Rinsing <==> r.Rinse?)
              && (states[i + 1].burette == Stopping <==> r == StopMotor)
              && states[i + 1].burette in {Filling, Emptying, Rinsing, Stopping, Dosing}
    ensures exists j :: a < j < i && steps[j] == PassCheck(id) && !states[j].settling
  {
    HandlerServes(states, steps, id, r, a, i);
    var j := CheckIsBehind(states, steps, id, r, a, i);
  }

  /** A send with room puts the request's command behind the others and answers AckThen, a
      stop Single; a full queue leaves everything to the rollback, which stores Idle. */
  lemma SendServes(states: seq<State>, steps: seq<Step>, id: nat, r: Request, a: nat, i: nat)
    requires Arrives(states, steps, id, r, a) && a < i < |steps| && steps[i] == Send(id)
    ensures |states[i].queue| >= 4 ==>
              states[i + 1].queue == states[i].queue && states[i + 1].handlers[id] == RollingBack
    ensures |states[i].queue| < 4 ==>
              && states[i + 1].handlers[id] == Answered(if r == StopMotor then Single else AckThen)
              && |states[i + 1].queue| == |states[i].queue| + 1
              && states[i + 1].queue[..|states[i].queue|] == states[i].queue
              && Serves(r, states[i + 1].queue[|states[i].queue|])
    ensures exists j :: a < j < i && steps[j] == PassCheck(id) && CheckHolds(states[j], r)
    ensures exists j :: a < j < i && steps[j] == Plan(id) && PlanHolds(states[j], r)
  {
    HandlerServes(states, steps, id, r, a, i);
    var j := CheckIsBehind(states, steps, id, r, a, i);
    var k := PlanIsBehind(states, steps, id, r, a, i);
  }

  // ---- Setters and emergency stops -------------------------------------------------

  predicate Guarded(cmd: Command) {
    cmd == SetDirection || cmd == SetSpeed || cmd == SetAccel
  }

  /** Where a setter can be; only the guarded ones look at the burette. */
  predicate Setting(pc: HandlerPc, cmd: Command) {
    match pc
    case SetChecking(c) => c == cmd
    case SetLoading(c) => c == cmd && Guarded(cmd)
    case SetSending(c) => c == cmd
    case Answered(response) => response != AckThen
    case _ => false
  }

  ghost predicate SetterArrives(states: seq<State>, steps: seq<Step>, id: nat, cmd: Command, a: nat) {
    Run(states, steps) && a < |steps| && steps[a] == Arrive(id, SetChecking(cmd))
  }

  lemma SetterStep(s: State, step: Step, id: nat, cmd: Command)
    requires Enabled(s, step) && id in s.handlers && Setting(s.handlers[id], cmd)
    ensures id in Apply(s, step).handlers && Setting(Apply(s, step).handlers[id], cmd)
  {
    if !ByHandler(step) || step.id != id {
      OthersStay(s, step, id);
    }
  }

  lemma {:induction false} SetterServes(states: seq<State>, steps: seq<Step>, id: nat, cmd: Command, a: nat, i: nat)
    requires SetterArrives(states, steps, id, cmd, a) && a < i < |states|
    ensures id in states[i].handlers && Setting(states[i].handlers[id], cmd)
    ensures i == a + 1 ==> states[i].handlers[id] == SetChecking(cmd)
  {
    if i > a + 1 {
      SetterServes(states, steps, id, cmd, a, i - 1);
      SetterStep(states[i - 1], steps[i - 1], id, cmd);
    }
  }

  predicate ValveTested(pc: HandlerPc) {
    pc.SetLoading? || pc.SetSending? || pc == Answered(Single)
  }

  lemma ValveTest(s: State, step: Step, id: nat, cmd: Command)
    requires Enabled(s, step) && id in s.handlers && Setting(s.handlers[id], cmd) && Guarded(cmd)
    requires ValveTested(Apply(s, step).handlers[id]) && !ValveTested(s.handlers[id])
    ensures step == SetPass(id) && !s.settling
  {
    if !ByHandler(step) || step.id != id {
      OthersStay(s, step, id);
    }
  }

  lemma {:induction false} ValveTestIsBehind(states: seq<State>, steps: seq<Step>, id: nat, cmd: Command,
                                             a: nat, i: nat) returns (j: nat)
    requires SetterArrives(states, steps, id, cmd, a) && a < i < |states| && Guarded(cmd)
    requires id in states[i].handlers && ValveTested(states[i].handlers[id])
    ensures a < j < i && steps[j] == SetPass(id) && !states[j].settling
  {
    hide Apply, Enabled, Setting, Guarded;
    SetterServes(states, steps, id, cmd, a, if i == a + 1 then i else i - 1);
    if i > a + 1 {
      if ValveTested(states[i - 1].handlers[id]) {
        j := ValveTestIsBehind(states, steps, id, cmd, a, i - 1);
      } else {
        ValveTest(states[i - 1], steps[i - 1], id, cmd);
        j := i - 1;
      }
    }
  }

  predicate BuretteTested(pc: HandlerPc) {
    pc.SetSending? || pc == Answered(Single)
  }

  lemma BuretteTest(s: State, step: Step, id: nat, cmd: Command)
    requires Enabled(s, step) && id in s.handlers && Setting(s.handlers[id], cmd) && Guarded(cmd)
    requires BuretteTested(Apply(s, step).handlers[id]) && !BuretteTested(s.handlers[id])
    ensures step == SetPass(id) && s.burette == Idle && ValveTested(s.handlers[id])
  {
    if !ByHandler(step) || step.id != id {
      OthersStay(s, step, id);
    }
  }

  /** A setter that is about to send, or has sent, found the valve at rest and then Idle. */
  lemma {:induction false} TestsAreBehind(states: seq<State>, steps: seq<Step>, id: nat, cmd: Command,
                                          a: nat, i: nat) returns (j: nat, k: nat)
    requires SetterArrives(states, steps, id, cmd, a) && a < i < |states| && Guarded(cmd)
    requires id in states[i].handlers && BuretteTested(states[i].handlers[id])
    ensures a < j < k < i && steps[j] == SetPass(id) && steps[k] == SetPass(id)
    ensures !states[j].settling && states[k].burette == Idle
  {
    hide Apply, Enabled, Setting, Guarded, ValveTested;
    SetterServes(states, steps, id, cmd, a, if i == a + 1 then i else i - 1);
    if i > a + 1 {
      if BuretteTested(states[i - 1].handlers[id]) {
        j, k := TestsAreBehind(states, steps, id, cmd, a, i - 1);
      } else {
        BuretteTest(states[i - 1], steps[i - 1], id, cmd);
        k := i - 1;
        j := ValveTestIsBehind(states, steps, id, cmd, a, k);
      }
    }
  }

  /** A setter sends its own command and answers Single, or fails on a full queue. */
  lemma SetterSends(states: seq<State>, steps: seq<Step>, id: nat, cmd: Command, a: nat, i: nat)
    requires SetterArrives(states, steps, id, cmd, a) && a < i < |steps| && steps[i] == SetSend(id)
    ensures |states[i].queue| >= 4 ==>
              states[i + 1].queue == states[i].queue && states[i + 1].handlers[id] == Answered(Failed)
    ensures |states[i].queue| < 4 ==>
              states[i + 1].queue == states[i].queue + [cmd] && states[i + 1].handlers[id] == Answered(Single)
    ensures cmd == SetDirection || cmd == SetSpeed || cmd == SetAccel ==>
              exists j, k :: a < j < k < i && steps[j] == SetPass(id) && steps[k] == SetPass(id)
                             && !states[j].settling && states[k].burette == Idle
  {
    SetterServes(states, steps, id, cmd, a, i);
    if Guarded(cmd) {
      var j, k := TestsAreBehind(states, steps, id, cmd, a, i);
    }
  }

  ghost predicate EmergencyArrives(states: seq<State>, steps: seq<Step>, id: nat, a: nat) {
    Run(states, steps) && a < |steps| && steps[a] == Arrive(id, EsClearing)
  }

  /** The three steps of an emergency stop. */
  datatype EsTrail = EsTrail(cleared: nat, marked: nat)

  ghost predicate EsAt(states: seq<State>, steps: seq<Step>, id: nat, a: nat, i: nat, trail: EsTrail)
    requires a < i < |states| == |steps| + 1
  {
    && id in states[i].handlers
    && var pc := states[i].handlers[id];
       (pc == EsClearing || pc == EsMarking || pc == EsSending || pc == Answered(Failed) || pc == Answered(Single))
       && (pc != EsClearing ==> a < trail.cleared < i && steps[trail.cleared] == EsClear(id)
                                && !states[trail.cleared + 1].settling)
       && (pc != EsClearing && pc != EsMarking ==>
             trail.cleared < trail.marked < i && steps[trail.marked] == EsMark(id)
             && states[trail.marked + 1].burette
                == if states[trail.marked].burette == Idle then ClaimProtocol.BuretteState.Error
                   else states[trail.marked].burette)
  }

  /** An emergency stop has one step at each of its places, and none after its answer. */
  lemma EsMoves(s: State, step: Step, id: nat)
    requires Enabled(s, step) && ByHandler(step) && step.id == id && id in s.handlers
    requires s.handlers[id].EsClearing? || s.handlers[id].EsMarking? || s.handlers[id].EsSending?
             || s.handlers[id].Answered?
    ensures var pc, s' := s.handlers[id], Apply(s, step);
            && id in s'.handlers
            && (pc.EsClearing? ==> step == EsClear(id) && s'.handlers[id] == EsMarking && !s'.settling)
            && (pc.EsMarking? ==> step == EsMark(id) && s'.handlers[id] == EsSending
                                  && s'.burette == if s.burette == Idle then ClaimProtocol.BuretteState.Error
                                                   else s.burette)
            && (pc.EsSending? ==> step == EsSend(id)
                                  && if |s.queue| < 4 then s'.queue == s.queue + [EmergencyStop]
                                                           && s'.handlers[id] == Answered(Single)
                                     else s'.queue == s.queue && s'.handlers[id] == Answered(Failed))
            && !pc.Answered?
  {
  }

  lemma EsStep(states: seq<State>, steps: seq<Step>, id: nat, a: nat, i: nat, trail: EsTrail) returns (next: EsTrail)
    requires Run(states, steps) && a < i < |steps| && EsAt(states, steps, id, a, i, trail)
    ensures EsAt(states, steps, id, a, i + 1, next)
  {
    var s, step := states[i], steps[i];
    next := trail;
    if !ByHandler(step) || step.id != id {
      OthersStay(s, step, id);
    } else {
      EsMoves(s, step, id);
      hide Apply, Enabled;
      next := if step.EsClear? then EsTrail(i, i) else if step.EsMark? then trail.(marked := i) else trail;
    }
  }

  lemma {:induction false} EmergencyServes(states: seq<State>, steps: seq<Step>, id: nat, a: nat, i: nat)
      returns (trail: EsTrail)
    requires EmergencyArrives(states, steps, id, a) && a < i < |states|
    ensures EsAt(states, steps, id, a, i, trail)
  {
    if i == a + 1 {
      trail := EsTrail(0, 0);
    } else {
      trail := EmergencyServes(states, steps, id, a, i - 1);
      trail := EsStep(states, steps, id, a, i - 1, trail);
    }
  }

  /** An emergency stop clears the settle flag, then marks an Idle burette, and no other, as
      failed, and then sends its command, whatever the state of the valve and the burette. */
  lemma EmergencySends(states: seq<State>, steps: seq<Step>, id: nat, a: nat, i: nat)
      returns (j: nat, k: nat)
    requires EmergencyArrives(states, steps, id, a) && a < i < |steps| && steps[i] == EsSend(id)
    ensures |states[i].queue| >= 4 ==>
              states[i + 1].queue == states[i].queue && states[i + 1].handlers[id] == Answered(Failed)
    ensures |states[i].queue| < 4 ==>
              && states[i + 1].queue == states[i].queue + [EmergencyStop]
              && states[i + 1].handlers[id] == Answered(Single)
    ensures a < j < k < i && steps[j] == EsClear(id) && steps[k] == EsMark(id) && !states[j + 1].settling
    ensures states[k + 1].burette
         == if states[k].burette == Idle then ClaimProtocol.BuretteState.Error else states[k].burette
  {
    var trail := EmergencyServes(states, steps, id, a, i);
    EsMoves(states[i], steps[i], id);
    hide Apply, Enabled;
    j, k := trail.cleared, trail.marked;
  }

  // ---- The order of the commands ---------------------------------------------------

  /** The command a step hands to the queue, if it finds room. */
  function Handed(s: State, step: Step): seq<Command> {
    if |s.queue| >= 4 then []
    else
      match step
      case Send(id) => if id in s.handlers && s.handlers[id].Sending? then [s.handlers[id].cmd] else []
      case SetSend(id) => if id in s.handlers && s.handlers[id].SetSending? then [s.handlers[id].cmd] else []
      case EsSend(_) => [EmergencyStop]
      case _ => []
  }

  /** The command the motor task starts with a step. */
  function Taken(next: State, step: Step): seq<Command> {
    if step.Receive? && next.motor.Started? then [next.motor.cmd] else []
  }

  ghost function AllHanded(states: seq<State>, steps: seq<Step>, i: nat): seq<Command>
    requires i < |states| == |steps| + 1
  {
    if i == 0 then [] else AllHanded(states, steps, i - 1) + Handed(states[i - 1], steps[i - 1])
  }

  ghost function AllTaken(states: seq<State>, steps: seq<Step>, i: nat): seq<Command>
    requires i < |states| == |steps| + 1
  {
    if i == 0 then [] else AllTaken(states, steps, i - 1) + Taken(states[i], steps[i - 1])
  }

  lemma QueueStep(s: State, step: Step)
    requires Enabled(s, step)
    ensures s.queue + Handed(s, step) == Taken(Apply(s, step), step) + Apply(s, step).queue
  {
    if ByHandler(step) {
      HandlerFrame(s, step);
      hide Apply;
    } else {
      MotorFrame(s, step);
    }
  }

  lemma Requeue<T>(a: seq<T>, b: seq<T>, c: seq<T>, d: seq<T>, e: seq<T>)
    requires b + c == d + e
    ensures (a + b) + c == (a + d) + e
  {
    assert (a + b) + c == a + (b + c) && (a + d) + e == a + (d + e);
  }

  lemma OneStepFurther(states: seq<State>, steps: seq<Step>, i: nat)
    requires Run(states, steps) && 0 < i < |states|
    ensures Enabled(states[i - 1], steps[i - 1]) && states[i] == Apply(states[i - 1], steps[i - 1])
    ensures AllHanded(states, steps, i) == AllHanded(states, steps, i - 1) + Handed(states[i - 1], steps[i - 1])
    ensures AllTaken(states, steps, i) == AllTaken(states, steps, i - 1) + Taken(states[i], steps[i - 1])
  {
    hide Apply, Enabled, Handed, Taken;
  }

  /** No command is lost, doubled or overtaken: those handed over in a run are those the
      motor task has taken, and then those still queued. */
  lemma {:induction false} CommandsStayInOrder(states: seq<State>, steps: seq<Step>, i: nat)
    requires Run(states, steps) && i < |states|
    ensures AllHanded(states, steps, i) == AllTaken(states, steps, i) + states[i].queue
  {
    if i > 0 {
      var s, step := states[i - 1], steps[i - 1];
      OneStepFurther(states, steps, i);
      hide *;
      CommandsStayInOrder(states, steps, i - 1);
      QueueStep(s, step);
      Requeue(AllTaken(states, steps, i - 1), s.queue, Handed(s, step), Taken(states[i], step), states[i].queue);
    }
  }
}
