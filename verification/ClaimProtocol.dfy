/** The burette claim and the motor command queue.

    Any number of request handlers race for gBuretteState with a compare-and-swap,
    push a command into a bounded queue and answer; one motor task pops commands,
    overwrites the state while it works and finally stores Idle.  Every atomic load,
    store, compare-and-swap and queue operation is one step of the machine below. */
module ClaimProtocol {
  import opened Options

  const MOTOR_CMD_QUEUE_LEN: nat := 4

  datatype BuretteState = Idle | Homing | Filling | Emptying | Dosing | Rinsing | Stopping | Error

  /** The motor commands, with the parameters that decide whether their run can end. */
  datatype Command =
    | MoveSteps | MoveContinuous | StartRinse(cycles: nat)
    | StartCalDose | StartCalSpeed | StartCalSpeedSeq(freqs: seq<nat>)
    | Stop | EmergencyStop
    | SetDirection | SetSpeed | SetAccel | SetStallThreshold | ReadTmcRegister

  /** A call of one of the nine handlers that claim the burette, as it arrives. */
  datatype Request =
    | Fill | Empty | DoseVolume(volumeMl: real) | Rinse(cycles: nat) | CalRun(dose: bool)
    | RunCalibration(freqs: seq<nat>) | StopMotor | Move | MoveOn

  datatype Response = Failed | AckThen | Single

  datatype HandlerPc =
    | Checking(request: Request)
    | CalLoading(request: Request)
    | Claiming(request: Request)
    | Planning(request: Request)
    | Sending(cmd: Command)
    | RollingBack
    | EsClearing | EsMarking | EsSending
    | SetChecking(cmd: Command) | SetLoading(cmd: Command) | SetSending(cmd: Command)
    | Answered(response: Response)

  datatype MotorPc =
    | Waiting
    | Started(cmd: Command)
    | Running(cmd: Command)
    | StopDelay
    | EsStoring
    | Releasing(cmd: Command)

  datatype State = State(
    burette: BuretteState,
    settling: bool,
    cache: Option<real>,    // gCalCache: the nominal volume, once a calibration is there
    queue: seq<Command>,
    handlers: map<nat, HandlerPc>,
    motor: MotorPc,
    acked: nat,     // claims answered AckThen
    stored: nat)    // results stored by the motor task

  /** What the compare-and-swap puts in the place of Idle. */
  function Target(r: Request): BuretteState {
    match r
    case Fill => Filling
    case Empty => Emptying
    case Rinse(_) => Rinsing
    case StopMotor => Stopping
    case DoseVolume(_) | CalRun(_) | RunCalibration(_) | Move | MoveOn => Dosing
  }

  /** The command a request sends; the cycle count is cut to a byte. */
  function CommandOf(r: Request): Command {
    match r
    case Fill | Empty | DoseVolume(_) | Move => MoveSteps
    case Rinse(cycles) => StartRinse(cycles % 256)
    case CalRun(dose) => if dose then StartCalDose else StartCalSpeed
    case RunCalibration(freqs) => StartCalSpeedSeq(freqs)
    case StopMotor => Stop
    case MoveOn => MoveContinuous
  }

  /** The parameters that pass the checks before the claim. */
  predicate WellFormed(r: Request) {
    (r.Rinse? ==> r.cycles > 0) && (r.RunCalibration? ==> |r.freqs| == 3)
  }

  /** planDose accepts these volumes, given a nominal volume of at least a thousandth. */
  predicate DoseInRange(r: Request) {
    r.DoseVolume? ==> 0.01 <= r.volumeMl <= 50.0
  }

  /** Fill, Empty, DoseVolume and Rinse load the calibration cache, and DoseVolume plans
      the dose, only after they have claimed. */
  predicate PlanFails(cache: Option<real>, r: Request) {
    || ((r.Fill? || r.Empty? || r.DoseVolume? || r.Rinse?) && cache.None?)
    || (r.DoseVolume? && !(DoseInRange(r) && cache.value >= 0.001))
  }

  predicate IsAckThen(cmd: Command) {
    || cmd.MoveSteps? || cmd.MoveContinuous? || cmd.StartRinse?
    || cmd.StartCalDose? || cmd.StartCalSpeed? || cmd.StartCalSpeedSeq?
  }

  predicate IsClaiming(cmd: Command) {
    IsAckThen(cmd) || cmd == Stop
  }

  /** A rinse of 255 cycles never ends, and a sequence traps when it divides by a zero frequency. */
  predicate Finishes(cmd: Command) {
    && (cmd.StartRinse? ==> cmd.cycles != 255)
    && (cmd.StartCalSpeedSeq? ==> forall i :: 0 <= i < |cmd.freqs| ==> cmd.freqs[i] != 0)
  }

  predicate IsSetter(cmd: Command) {
    cmd in {SetDirection, SetSpeed, SetAccel, SetStallThreshold, ReadTmcRegister}
  }

  // ---- Steps -------------------------------------------------------------

  datatype Step =
    | Arrive(id: nat, pc: HandlerPc)
    | Reject(id: nat)
    | PassCheck(id: nat)
    | PassLoad(id: nat)
    | CompareAndSwap(id: nat)
    | GiveUpPlan(id: nat)
    | Plan(id: nat)
    | Send(id: nat)
    | RollBack(id: nat)
    | EsClear(id: nat)
    | EsMark(id: nat)
    | EsSend(id: nat)
    | SetPass(id: nat)
    | SetSend(id: nat)
    | ValveChanges(settling: bool)
    | CalibrationSaved(nominalMl: real)
    | Receive
    | MotorBegin
    | MotorPhase(state: BuretteState)
    | StoreResult
    | StoreIdle
    | EsStore

  predicate Init(s: State) {
    s.burette == Idle && s.queue == [] && s.handlers == map[] && s.motor == Waiting && s.acked == 0 && s.stored == 0
  }

  predicate Entry(pc: HandlerPc) {
    pc.Checking? || pc.EsClearing? || (pc.SetChecking? && IsSetter(pc.cmd))
  }

  predicate Enabled(s: State, step: Step) {
    match step
    case Arrive(id, pc) => id !in s.handlers && Entry(pc)
    case Reject(id) => id in s.handlers && Rejects(s, s.handlers[id])
    case PassCheck(id) =>
      id in s.handlers && s.handlers[id].Checking? && !s.settling && WellFormed(s.handlers[id].request)
    case PassLoad(id) => id in s.handlers && s.handlers[id].CalLoading? && s.burette == Idle && s.cache.Some?
    case CompareAndSwap(id) => id in s.handlers && s.handlers[id].Claiming?
    case GiveUpPlan(id) => id in s.handlers && s.handlers[id].Planning? && PlanFails(s.cache, s.handlers[id].request)
    case Plan(id) => id in s.handlers && s.handlers[id].Planning? && !PlanFails(s.cache, s.handlers[id].request)
    case Send(id) => id in s.handlers && s.handlers[id].Sending?
    case RollBack(id) => id in s.handlers && s.handlers[id].RollingBack?
    case EsClear(id) => id in s.handlers && s.handlers[id].EsClearing?
    case EsMark(id) => id in s.handlers && s.handlers[id].EsMarking?
    case EsSend(id) => id in s.handlers && s.handlers[id].EsSending?
    case SetPass(id) => id in s.handlers && SetPasses(s, s.handlers[id])
    case SetSend(id) => id in s.handlers && s.handlers[id].SetSending?
    case ValveChanges(settling) => true
    case CalibrationSaved(nominalMl) => true
    case Receive => s.motor == Waiting && s.queue != []
    case MotorBegin => s.motor.Started?
    case MotorPhase(state) => s.motor.Running? && PhaseOf(s.motor.cmd, state)
    case StoreResult => s.motor.Running? && Finishes(s.motor.cmd)
    case StoreIdle => s.motor.Releasing? || s.motor.StopDelay?
    case EsStore => s.motor.EsStoring?
  }

  /** Bad parameters, a settling valve, a null cache, an invalid mode or a busy burette,
      before any claim.  Only CalRun loads the state before its compare-and-swap. */
  predicate Rejects(s: State, pc: HandlerPc) {
    pc.Checking? || pc.CalLoading? || (pc.SetChecking? && pc.cmd in {SetDirection, SetSpeed, SetAccel})
    || (pc.SetLoading? && s.burette != Idle)
  }

  /** The three setters test the valve flag, then the burette; the other two send at once. */
  predicate SetPasses(s: State, pc: HandlerPc) {
    || (pc.SetChecking? && (pc.cmd in {SetDirection, SetSpeed, SetAccel} ==> !s.settling))
    || (pc.SetLoading? && s.burette == Idle)
  }

  /** The states a running command stores: an interrupted move stores Error, the
      state-machine runners store Filling and Emptying, a continuous move nothing. */
  predicate PhaseOf(cmd: Command, state: BuretteState) {
    match cmd
    case MoveSteps => state == Error
    case StartRinse(_) | StartCalDose | StartCalSpeed | StartCalSpeedSeq(_) => state == Filling || state == Emptying
    case _ => false
  }

  function Apply(s: State, step: Step): State
    requires Enabled(s, step)
  {
    match step
    case Arrive(id, pc) => At(s, id, pc)
    case Reject(id) => At(s, id, Answered(Failed))
    case PassCheck(id) =>
      var r := s.handlers[id].request;
      At(s, id, if r.CalRun? then CalLoading(r) else Claiming(r))
    case PassLoad(id) => At(s, id, Claiming(s.handlers[id].request))
    case CompareAndSwap(id) =>
      var r := s.handlers[id].request;
      if s.burette == Idle then At(s.(burette := Target(r)), id, Planning(r)) else At(s, id, Answered(Failed))
    case GiveUpPlan(id) => At(s, id, Answered(Failed))
    case Plan(id) => At(s, id, Sending(CommandOf(s.handlers[id].request)))
    case Send(id) =>
      var cmd := s.handlers[id].cmd;
      if |s.queue| < MOTOR_CMD_QUEUE_LEN then
        At(s.(queue := s.queue + [cmd], acked := s.acked + if cmd == Stop then 0 else 1), id,
           Answered(if cmd == Stop then Single else AckThen))
      else
        At(s, id, RollingBack)
    case RollBack(id) => At(s.(burette := Idle), id, Answered(Failed))
    case EsClear(id) => At(s.(settling := false), id, EsMarking)
    case EsMark(id) => At(s.(burette := if s.burette == Idle then Error else s.burette), id, EsSending)
    case EsSend(id) => Push(s, id, EmergencyStop)
    case SetPass(id) =>
      var cmd := s.handlers[id].cmd;
      At(s, id, if s.handlers[id].SetChecking? && cmd in {SetDirection, SetSpeed, SetAccel} then SetLoading(cmd)
                else SetSending(cmd))
    case SetSend(id) => Push(s, id, s.handlers[id].cmd)
    case ValveChanges(settling) => s.(settling := settling)
    case CalibrationSaved(nominalMl) => s.(cache := Some(nominalMl))
    case Receive => s.(queue := s.queue[1..], motor := Started(s.queue[0]))
    case MotorBegin =>
      (match s.motor.cmd
       case MoveSteps | MoveContinuous => s.(motor := Running(s.motor.cmd))
       case StartRinse(_) => s.(motor := Running(s.motor.cmd), burette := Rinsing)
       case StartCalDose | StartCalSpeed | StartCalSpeedSeq(_) => s.(motor := Running(s.motor.cmd), burette := Dosing)
       case Stop => s.(motor := StopDelay, burette := Stopping)
       case EmergencyStop => s.(motor := EsStoring, settling := false)
       case _ => s.(motor := Waiting))
    case MotorPhase(state) => s.(burette := state)
    case StoreResult => s.(motor := Releasing(s.motor.cmd), stored := s.stored + 1)
    case StoreIdle => s.(motor := Waiting, burette := Idle)
    case EsStore => s.(motor := Waiting, burette := Error)
  }

  function At(s: State, id: nat, pc: HandlerPc): State {
    s.(handlers := s.handlers[id := pc])
  }

  /** A send whose failure is only reported. */
  function Push(s: State, id: nat, cmd: Command): State {
    if |s.queue| < MOTOR_CMD_QUEUE_LEN then At(s.(queue := s.queue + [cmd]), id, Answered(Single))
    else At(s, id, Answered(Failed))
  }

  ghost predicate Run(states: seq<State>, steps: seq<Step>) {
    && |states| == |steps| + 1 && Init(states[0])
    && forall i :: 0 <= i < |steps| ==> Enabled(states[i], steps[i]) && states[i + 1] == Apply(states[i], steps[i])
  }

  // ---- Claims in flight --------------------------------------------------

  /** Where a claim can be: in a handler between its compare-and-swap and its answer,
      in the queue, or with the motor task. */
  datatype Holder = Handler(id: nat) | Queued(pos: nat) | Motor

  predicate HandlerHolds(pc: HandlerPc) {
    pc.Planning? || pc.Sending? || pc.RollingBack?
  }

  predicate MotorHolds(m: MotorPc) {
    (m.Started? && IsClaiming(m.cmd)) || m.Running? || m.StopDelay? || m.Releasing?
  }

  predicate Holds(s: State, h: Holder) {
    match h
    case Handler(id) => id in s.handlers && HandlerHolds(s.handlers[id])
    case Queued(pos) => pos < |s.queue| && IsClaiming(s.queue[pos])
    case Motor => MotorHolds(s.motor)
  }

  function InFlight(s: State): set<Holder> {
    (set id | id in s.handlers && HandlerHolds(s.handlers[id]) :: Handler(id))
    + (set pos | 0 <= pos < |s.queue| && IsClaiming(s.queue[pos]) :: Queued(pos))
    + (if MotorHolds(s.motor) then {Motor} else {})
  }

  /** AckThen claims in the queue. */
  function QueuedAcks(queue: seq<Command>): nat {
    if queue == [] then 0 else (if IsAckThen(queue[0]) then 1 else 0) + QueuedAcks(queue[1..])
  }

  /** AckThen claims answered but not yet resulted: queued, or with the motor before its result. */
  function PendingAcks(s: State): nat {
    QueuedAcks(s.queue) + if (s.motor.Started? && IsAckThen(s.motor.cmd)) || s.motor.Running? then 1 else 0
  }

  predicate HandlerShaped(pc: HandlerPc) {
    && (pc.Sending? ==> IsClaiming(pc.cmd))
    && (pc.SetChecking? || pc.SetLoading? || pc.SetSending? ==> IsSetter(pc.cmd))
  }

  predicate MotorShaped(m: MotorPc) {
    m.Running? || m.Releasing? ==> IsAckThen(m.cmd)
  }

  predicate Shaped(s: State) {
    && |s.queue| <= MOTOR_CMD_QUEUE_LEN && MotorShaped(s.motor)
    && forall id :: id in s.handlers ==> HandlerShaped(s.handlers[id])
  }

  ghost predicate Inv(s: State) {
    && Shaped(s)
    && (forall g, h :: Holds(s, g) && Holds(s, h) ==> g == h)
    && (s.burette == Idle ==> forall h :: !Holds(s, h))
    && s.acked == s.stored + PendingAcks(s)
  }

  lemma {:induction false} QueuedAcksAppend(queue: seq<Command>, cmd: Command)
    ensures QueuedAcks(queue + [cmd]) == QueuedAcks(queue) + if IsAckThen(cmd) then 1 else 0
  {
    if queue == [] {
    } else {
      assert (queue + [cmd])[1..] == queue[1..] + [cmd];
      QueuedAcksAppend(queue[1..], cmd);
    }
  }

  /** What a step does to the claims: the old place of each claim of the new state. */
  ghost function Origin(s: State, step: Step, h: Holder): Holder
    requires Enabled(s, step)
  {
    match step
    case Receive => (if h.Motor? then Queued(0) else if h.Queued? then Queued(h.pos + 1) else h)
    case Send(id) => if h == Queued(|s.queue|) then Handler(id) else h
    case _ => h
  }

  ghost predicate Claims(s: State, step: Step) {
    step.CompareAndSwap? && step.id in s.handlers && s.handlers[step.id].Claiming? && s.burette == Idle
  }

  predicate ByHandler(step: Step) {
    !(step.ValveChanges? || step.CalibrationSaved? || step.Receive? || step.MotorBegin? || step.MotorPhase?
      || step.StoreResult? || step.StoreIdle? || step.EsStore?)
  }

  /** A handler's step moves that handler only, and can append one command; the send of a
      claim that finds room is answered AckThen, unless it is the stop. */
  lemma HandlerFrame(s: State, step: Step)
    requires Enabled(s, step) && ByHandler(step)
    ensures var s' := Apply(s, step);
            && s'.motor == s.motor && s'.stored == s.stored
            && step.id in s'.handlers && s'.handlers == s.handlers[step.id := s'.handlers[step.id]]
    ensures var s' := Apply(s, step);
            || (s'.queue == s.queue && s'.acked == s.acked && (step.Send? ==> |s.queue| >= MOTOR_CMD_QUEUE_LEN))
            || (|s.queue| < MOTOR_CMD_QUEUE_LEN && (step.Send? || step.EsSend? || step.SetSend?)
                && var cmd := if step.EsSend? then EmergencyStop else s.handlers[step.id].cmd;
                   s'.queue == s.queue + [cmd]
                   && s'.acked == s.acked + if step.Send? && cmd != Stop then 1 else 0)
  {
  }

  /** Every other step leaves the handlers and the answers alone. */
  lemma MotorFrame(s: State, step: Step)
    requires Enabled(s, step) && !ByHandler(step)
    ensures var s' := Apply(s, step);
            && s'.handlers == s.handlers && s'.acked == s.acked
            && s'.queue == (if step.Receive? then s.queue[1..] else s.queue)
            && s'.stored == s.stored + (if step.StoreResult? then 1 else 0)
  {
  }

  lemma HandlerMoves(s: State, step: Step)
    requires Enabled(s, step) && ByHandler(step)
    requires step.id in s.handlers ==> HandlerShaped(s.handlers[step.id])
    ensures step.id in Apply(s, step).handlers && HandlerShaped(Apply(s, step).handlers[step.id])
    ensures HandlerHolds(Apply(s, step).handlers[step.id]) && !Claims(s, step) ==>
              step.id in s.handlers && HandlerHolds(s.handlers[step.id])
    ensures step.Send? && Apply(s, step).queue != s.queue ==> !HandlerHolds(Apply(s, step).handlers[step.id])
  {
  }

  lemma MotorMoves(s: State, step: Step)
    requires Enabled(s, step) && !ByHandler(step) && MotorShaped(s.motor)
    ensures MotorShaped(Apply(s, step).motor)
    ensures MotorHolds(Apply(s, step).motor) ==>
              if step.Receive? then IsClaiming(s.queue[0]) else MotorHolds(s.motor)
    ensures step.Receive? ==> s.motor == Waiting && Apply(s, step).motor == Started(s.queue[0])
  {
  }

  lemma HeldBefore(s: State, step: Step, h: Holder)
    requires Enabled(s, step) && Shaped(s) && !Claims(s, step)
    requires Holds(Apply(s, step), h)
    ensures Holds(s, Origin(s, step, h))
  {
    if ByHandler(step) {
      HandlerFrame(s, step);
      HandlerMoves(s, step);
      SenderHolds(s, step);
      hide Apply, HandlerHolds, MotorHolds, Enabled, IsClaiming;
    } else {
      MotorFrame(s, step);
      MotorMoves(s, step);
      hide Apply, HandlerHolds, MotorHolds, Enabled, IsClaiming;
    }
  }

  /** Only a claim's send appends a claiming command. */
  lemma SenderHolds(s: State, step: Step)
    requires Enabled(s, step) && Shaped(s)
    ensures step.Send? ==> step.id in s.handlers && HandlerHolds(s.handlers[step.id])
    ensures step.SetSend? ==> !IsClaiming(s.handlers[step.id].cmd) && !IsAckThen(s.handlers[step.id].cmd)
    ensures step.Send? ==> IsClaiming(s.handlers[step.id].cmd)
    ensures !IsClaiming(EmergencyStop) && !IsAckThen(EmergencyStop)
  {
  }

  lemma OriginInjective(s: State, step: Step, g: Holder, h: Holder)
    requires Enabled(s, step) && Shaped(s) && !Claims(s, step)
    requires Holds(Apply(s, step), g) && Holds(Apply(s, step), h)
    requires Origin(s, step, g) == Origin(s, step, h)
    ensures g == h
  {
  }

  lemma ShapeKept(s: State, step: Step)
    requires Enabled(s, step) && Shaped(s)
    ensures Shaped(Apply(s, step))
  {
    if ByHandler(step) {
      HandlerFrame(s, step);
      HandlerMoves(s, step);
      hide Apply, HandlerShaped, MotorShaped, HandlerHolds, Enabled;
    } else {
      MotorFrame(s, step);
      MotorMoves(s, step);
      hide Apply, HandlerShaped, MotorShaped, HandlerHolds, Enabled;
    }
  }

  lemma AcksConserved(s: State, step: Step)
    requires Enabled(s, step) && Shaped(s) && s.acked == s.stored + PendingAcks(s)
    ensures Apply(s, step).acked == Apply(s, step).stored + PendingAcks(Apply(s, step))
  {
    if ByHandler(step) {
      HandlerFrame(s, step);
      SenderHolds(s, step);
      hide Apply, Enabled, QueuedAcks;
      if step.Send? || step.EsSend? || step.SetSend? {
        QueuedAcksAppend(s.queue, if step.EsSend? then EmergencyStop else s.handlers[step.id].cmd);
      }
    } else {
      MotorFrame(s, step);
    }
  }

  /** Idle is only stored by the one who holds the claim, and ends it. */
  lemma IdleMeansFree(s: State, step: Step, h: Holder)
    requires Enabled(s, step) && Inv(s) && Apply(s, step).burette == Idle
    ensures !Holds(Apply(s, step), h)
  {
    if step.RollBack? {
      assert Holds(s, Handler(step.id));
    } else if step.StoreIdle? {
      assert Holds(s, Motor);
    }
    if Holds(Apply(s, step), h) && !Claims(s, step) {
      HeldBefore(s, step, h);
    }
  }

  lemma InvKept(s: State, step: Step)
    requires Enabled(s, step) && Inv(s)
    ensures Inv(Apply(s, step))
  {
    var s' := Apply(s, step);
    ShapeKept(s, step);
    AcksConserved(s, step);
    forall g, h | Holds(s', g) && Holds(s', h)
      ensures g == h
    {
      if Claims(s, step) {
        assert forall k :: Holds(s', k) && k != Handler(step.id) ==> Holds(s, k);
      } else {
        HeldBefore(s, step, g);
        HeldBefore(s, step, h);
        OriginInjective(s, step, g, h);
      }
    }
    if s'.burette == Idle {
      forall h ensures !Holds(s', h) { IdleMeansFree(s, step, h); }
    }
  }

  lemma {:induction false} RunKeepsInv(states: seq<State>, steps: seq<Step>, i: nat)
    requires Run(states, steps) && i < |states|
    ensures Inv(states[i])
  {
    if i == 0 {
    } else {
      RunKeepsInv(states, steps, i - 1);
      InvKept(states[i - 1], steps[i - 1]);
    }
  }

  lemma AtMostOneElement<T>(s: set<T>)
    requires forall x, y :: x in s && y in s ==> x == y
    ensures |s| <= 1
  {
    if s != {} {
      var x :| x in s;
      assert s == {x};
    }
  }

  /** Mutual exclusion: over every interleaving at most one claim is in flight, and an
      Idle burette means that none is. */
  lemma ClaimsExclude(states: seq<State>, steps: seq<Step>, i: nat)
    requires Run(states, steps) && i < |states|
    ensures |InFlight(states[i])| <= 1
    ensures states[i].burette == Idle ==> InFlight(states[i]) == {}
    ensures |states[i].queue| <= MOTOR_CMD_QUEUE_LEN
  {
    var s := states[i];
    RunKeepsInv(states, steps, i);
    assert forall h :: h in InFlight(s) ==> Holds(s, h);
    AtMostOneElement(InFlight(s));
  }

  lemma {:induction false} QueuedAcksAtMostOne(s: State, from: nat)
    requires from <= |s.queue|
    requires forall g, h :: Holds(s, g) && Holds(s, h) ==> g == h
    ensures QueuedAcks(s.queue[from..]) <= 1
    ensures QueuedAcks(s.queue[from..]) == 1 ==> exists pos: nat :: from <= pos < |s.queue| && Holds(s, Queued(pos))
    decreases |s.queue| - from
  {
    if from < |s.queue| {
      QueuedAcksAtMostOne(s, from + 1);
      assert s.queue[from..][1..] == s.queue[from + 1..];
      if IsAckThen(s.queue[from]) {
        assert Holds(s, Queued(from));
      }
    }
  }

  /** Conservation: the claims answered AckThen are the results stored, plus the one
      claim that is queued or running, if there is one. */
  lemma ResultsMatchAcks(states: seq<State>, steps: seq<Step>, i: nat)
    requires Run(states, steps) && i < |states|
    ensures states[i].acked == states[i].stored + PendingAcks(states[i])
    ensures PendingAcks(states[i]) <= 1
    ensures states[i].burette == Idle ==> states[i].acked == states[i].stored
  {
    var s := states[i];
    RunKeepsInv(states, steps, i);
    QueuedAcksAtMostOne(s, 0);
    assert s.queue[0..] == s.queue;
    if MotorHolds(s.motor) {
      assert Holds(s, Motor);
    }
  }

  // ---- Claims that are never given back ------------------------------------

  /** The burette is not Idle and nobody is left to store Idle. */
  ghost predicate Stuck(s: State) {
    s.burette != Idle && forall h :: !Holds(s, h)
  }

  lemma NobodyHolds(s: State)
    requires forall h :: !Holds(s, h)
    ensures !MotorHolds(s.motor)
    ensures forall id :: id in s.handlers ==> !HandlerHolds(s.handlers[id])
  {
    assert !Holds(s, Motor);
    forall id | id in s.handlers
      ensures !HandlerHolds(s.handlers[id])
    {
      assert !Holds(s, Handler(id));
    }
  }

  lemma StuckStays(s: State, step: Step)
    requires Enabled(s, step) && Inv(s) && Stuck(s)
    ensures Stuck(Apply(s, step)) && Apply(s, step).acked == s.acked
  {
    forall h
      ensures !Holds(Apply(s, step), h)
    {
      if Holds(Apply(s, step), h) {
        HeldBefore(s, step, h);
      }
    }
    NobodyHolds(s);
  }

  /** A run that is stuck once stays stuck, and answers no further claim with AckThen. */
  lemma {:induction false} StuckForever(states: seq<State>, steps: seq<Step>, i: nat, j: nat)
    requires Run(states, steps) && i <= j < |states| && Stuck(states[i])
    ensures Stuck(states[j]) && states[j].acked == states[i].acked
    decreases j
  {
    if i < j {
      StuckForever(states, steps, i, j - 1);
      RunKeepsInv(states, steps, j - 1);
      StuckStays(states[j - 1], steps[j - 1]);
    }
  }

  /** The steps that lose the claim: a handler that gives up after its compare-and-swap,
      and an emergency stop that marks an Idle burette as failed. */
  predicate LosesClaim(s: State, step: Step) {
    step.GiveUpPlan? || ((step.EsMark? || step.EsStore?) && s.burette == Idle)
  }

  lemma StuckOnlyByLosing(s: State, step: Step)
    requires Enabled(s, step) && Inv(s) && !Stuck(s)
    ensures Stuck(Apply(s, step)) <==> LosesClaim(s, step)
  {
    var s' := Apply(s, step);
    if LosesClaim(s, step) {
      if step.GiveUpPlan? {
        assert Holds(s, Handler(step.id));
      }
      forall h
        ensures !Holds(s', h)
      {
        if Holds(s', h) {
          HeldBefore(s, step, h);
        }
      }
    } else if s.burette == Idle {
      assert !Holds(s, Motor);
      if Claims(s, step) {
        assert Holds(s', Handler(step.id));
      }
    } else {
      var h :| Holds(s, h);
      ClaimMovesOn(s, step, h);
    }
  }

  /** Where a step takes a claim. */
  ghost function Destination(s: State, step: Step, h: Holder): Holder
    requires Enabled(s, step)
  {
    match step
    case Receive => if h.Queued? then (if h.pos == 0 then Motor else Queued(h.pos - 1)) else h
    case Send(id) => if h == Handler(id) && |s.queue| < MOTOR_CMD_QUEUE_LEN then Queued(|s.queue|) else h
    case _ => h
  }

  /** Any other step keeps the claim in flight or ends with an Idle burette. */
  lemma ClaimMovesOn(s: State, step: Step, h: Holder)
    requires Enabled(s, step) && Inv(s) && Holds(s, h) && !step.GiveUpPlan?
    ensures Apply(s, step).burette == Idle || Holds(Apply(s, step), Destination(s, step, h))
  {
    if ByHandler(step) {
      HandlerFrame(s, step);
      SenderHolds(s, step);
      if step.id in s.handlers && HandlerHolds(s.handlers[step.id]) {
        HandlerKeepsClaim(s, step);
      }
      hide Apply, HandlerHolds, MotorHolds, IsClaiming;
    } else {
      MotorFrame(s, step);
      MotorKeepsClaim(s, step);
      assert step.Receive? ==> !MotorHolds(s.motor);
      hide Apply, HandlerHolds, MotorHolds, IsClaiming;
    }
  }

  lemma HandlerKeepsClaim(s: State, step: Step)
    requires Enabled(s, step) && ByHandler(step) && !step.GiveUpPlan?
    requires step.id in s.handlers && HandlerHolds(s.handlers[step.id])
    ensures Apply(s, step).burette == Idle || HandlerHolds(Apply(s, step).handlers[step.id])
            || (step.Send? && |s.queue| < MOTOR_CMD_QUEUE_LEN)
  {
  }

  lemma MotorKeepsClaim(s: State, step: Step)
    requires Enabled(s, step) && !ByHandler(step)
    ensures MotorHolds(s.motor) ==> Apply(s, step).burette == Idle || MotorHolds(Apply(s, step).motor)
    ensures step.Receive? ==> MotorHolds(Apply(s, step).motor) == IsClaiming(s.queue[0])
  {
  }

  ghost predicate Path(s: State, steps: seq<Step>, t: State)
    decreases |steps|
  {
    if steps == [] then s == t
    else Enabled(s, steps[0]) && Path(Apply(s, steps[0]), steps[1..], t)
  }

  lemma {:induction false} PathConcat(a: State, xs: seq<Step>, b: State, ys: seq<Step>, c: State)
    requires Path(a, xs, b) && Path(b, ys, c)
    ensures Path(a, xs + ys, c)
    decreases |xs|
  {
    if xs == [] {
      assert xs + ys == ys;
    } else {
      assert (xs + ys)[1..] == xs[1..] + ys;
      PathConcat(Apply(a, xs[0]), xs[1..], b, ys, c);
    }
  }

  lemma OneStep(s: State, step: Step)
    requires Enabled(s, step)
    ensures Path(s, [step], Apply(s, step))
  {
    assert Path(Apply(s, step), [], Apply(s, step)) && [step][1..] == [];
  }

  /** A path and one more step. */
  lemma Then(s: State, steps: seq<Step>, t: State, step: Step) returns (more: seq<Step>, next: State)
    requires Path(s, steps, t) && Inv(t) && Enabled(t, step)
    ensures Path(s, more, next) && next == Apply(t, step) && Inv(next)
  {
    OneStep(t, step);
    InvKept(t, step);
    PathConcat(s, steps, t, [step], Apply(t, step));
    more, next := steps + [step], Apply(t, step);
  }

  ghost predicate CanBecomeIdle(s: State) {
    exists steps, t :: Path(s, steps, t) && t.burette == Idle
  }

  // ---- Claims that can still be given back -----------------------------------

  /** A claim is beyond recovery once a command that cannot finish has left its handler, or
      when its dose can never be planned. */
  predicate Recoverable(s: State, h: Holder)
    requires Holds(s, h)
  {
    match h
    case Handler(id) => s.handlers[id].Planning? ==> DoseInRange(s.handlers[id].request)
    case Queued(pos) => Finishes(s.queue[pos])
    case Motor => s.motor.Started? || s.motor.Running? ==> Finishes(s.motor.cmd)
  }

  /** The burette is claimed, and no claim in flight is recoverable. */
  ghost predicate Doomed(s: State) {
    s.burette != Idle && forall h :: Holds(s, h) ==> !Recoverable(s, h)
  }

  lemma DoomedHandler(s: State, step: Step)
    requires Enabled(s, step) && Doomed(s) && ByHandler(step)
    ensures Apply(s, step).burette != Idle && !step.Send?
    ensures HandlerHolds(Apply(s, step).handlers[step.id]) ==>
              && step.id in s.handlers && HandlerHolds(s.handlers[step.id])
              && Apply(s, step).handlers[step.id] == s.handlers[step.id]
  {
    assert step.id in s.handlers && HandlerHolds(s.handlers[step.id]) ==>
             Holds(s, Handler(step.id)) && !Recoverable(s, Handler(step.id));
  }

  lemma DoomedMotor(s: State, step: Step)
    requires Enabled(s, step) && Inv(s) && Doomed(s) && !ByHandler(step)
    ensures Apply(s, step).burette != Idle
    ensures MotorHolds(Apply(s, step).motor) && !step.Receive? ==>
              && MotorHolds(s.motor) && (s.motor.Started? || s.motor.Running?)
              && (Apply(s, step).motor.Started? || Apply(s, step).motor.Running?)
              && Apply(s, step).motor.cmd == s.motor.cmd
  {
    if MotorHolds(s.motor) {
      assert Holds(s, Motor) && !Recoverable(s, Motor);
    }
  }

  lemma DoomedStays(s: State, step: Step)
    requires Enabled(s, step) && Inv(s) && Doomed(s)
    ensures Doomed(Apply(s, step))
  {
    var s' := Apply(s, step);
    if ByHandler(step) {
      DoomedHandler(s, step);
      HandlerFrame(s, step);
    } else {
      DoomedMotor(s, step);
      MotorFrame(s, step);
      MotorMoves(s, step);
    }
    forall h | Holds(s', h)
      ensures !Recoverable(s', h)
    {
      HeldBefore(s, step, h);
      hide Apply, Enabled, HandlerHolds, MotorHolds, Finishes, DoseInRange, IsClaiming;
      assert !Recoverable(s, Origin(s, step, h));
    }
  }

  lemma {:induction false} PathFromDoomed(s: State, steps: seq<Step>, t: State)
    requires Inv(s) && Doomed(s) && Path(s, steps, t)
    ensures Doomed(t)
    decreases |steps|
  {
    if steps == [] {
    } else {
      DoomedStays(s, steps[0]);
      InvKept(s, steps[0]);
      PathFromDoomed(Apply(s, steps[0]), steps[1..], t);
    }
  }

  /** A run that is doomed once stays doomed: the burette is never Idle again. */
  lemma {:induction false} DoomedForever(states: seq<State>, steps: seq<Step>, i: nat, j: nat)
    requires Run(states, steps) && i <= j < |states| && Doomed(states[i])
    ensures Doomed(states[j])
    decreases j
  {
    if i < j {
      DoomedForever(states, steps, i, j - 1);
      RunKeepsInv(states, steps, j - 1);
      DoomedStays(states[j - 1], steps[j - 1]);
    }
  }

  lemma Fresh(keys: set<nat>) returns (id: nat)
    ensures forall k :: k in keys ==> k < id
  {
    if keys == {} {
      id := 0;
    } else {
      var k :| k in keys;
      var rest := Fresh(keys - {k});
      assert forall j :: j in keys ==> j == k || j in keys - {k};
      id := if rest > k then rest else k + 1;
    }
  }

  /** Anybody's emergency stop puts one more command into the queue. */
  lemma OneMoreQueued(s: State, held: nat) returns (steps: seq<Step>, t: State)
    requires Inv(s) && held in s.handlers && s.handlers[held].Sending? && |s.queue| < MOTOR_CMD_QUEUE_LEN
    ensures Path(s, steps, t) && Inv(t) && |t.queue| == |s.queue| + 1
    ensures held in t.handlers && t.handlers[held] == s.handlers[held]
  {
    var id := Fresh(s.handlers.Keys);
    steps, t := [], s;
    steps, t := Then(s, steps, t, Arrive(id, EsClearing));
    steps, t := Then(s, steps, t, EsClear(id));
    steps, t := Then(s, steps, t, EsMark(id));
    steps, t := Then(s, steps, t, EsSend(id));
  }

  /** A command that is not yet sent comes back when the queue is full. */
  lemma {:induction false} SendCanFail(s: State, id: nat) returns (steps: seq<Step>, t: State)
    requires Inv(s) && id in s.handlers && s.handlers[id].Sending?
    ensures Path(s, steps, t) && t.burette == Idle
    decreases MOTOR_CMD_QUEUE_LEN - |s.queue|
  {
    if |s.queue| < MOTOR_CMD_QUEUE_LEN {
      var first, mid := OneMoreQueued(s, id);
      var rest, last := SendCanFail(mid, id);
      PathConcat(s, first, mid, rest, last);
      steps, t := first + rest, last;
    } else {
      steps, t := [], s;
      steps, t := Then(s, steps, t, Send(id));
      steps, t := Then(s, steps, t, RollBack(id));
    }
  }

  lemma HandlerCanEnd(s: State, id: nat) returns (steps: seq<Step>, t: State)
    requires Inv(s) && Holds(s, Handler(id)) && Recoverable(s, Handler(id))
    ensures Path(s, steps, t) && t.burette == Idle
  {
    match s.handlers[id] {
      case RollingBack =>
        steps, t := Then(s, [], s, RollBack(id));
      case Sending(_) =>
        steps, t := SendCanFail(s, id);
      case Planning(_) =>
        var first, mid := Then(s, [], s, CalibrationSaved(8.14));
        first, mid := Then(s, first, mid, Plan(id));
        var rest, last := SendCanFail(mid, id);
        PathConcat(s, first, mid, rest, last);
        steps, t := first + rest, last;
    }
  }

  /** The motor task's next step. */
  ghost function MotorNext(s: State): Step {
    match s.motor
    case Waiting => Receive
    case Started(_) => MotorBegin
    case Running(_) => StoreResult
    case EsStoring => EsStore
    case _ => StoreIdle
  }

  ghost function Distance(s: State): nat {
    10 * |s.queue|
    + match s.motor
      case Started(_) => 3
      case Running(_) => 2
      case Waiting => 0
      case _ => 1
  }

  lemma MotorGoesOn(s: State, h: Holder)
    requires Inv(s) && Holds(s, h) && !h.Handler? && Recoverable(s, h)
    ensures Enabled(s, MotorNext(s)) && Distance(Apply(s, MotorNext(s))) < Distance(s)
    ensures var s', g := Apply(s, MotorNext(s)), Destination(s, MotorNext(s), h);
            s'.burette == Idle || (Holds(s', g) && !g.Handler? && Recoverable(s', g))
  {
    assert MotorHolds(s.motor) ==> Holds(s, Motor);
    match s.motor {
      case Waiting => assert h.Queued?;
      case Started(_) =>
      case Running(_) =>
      case _ =>
    }
  }

  lemma {:induction false} ClaimCanEnd(s: State, h: Holder) returns (steps: seq<Step>, t: State)
    requires Inv(s) && Holds(s, h) && Recoverable(s, h)
    ensures Path(s, steps, t) && t.burette == Idle
    decreases Distance(s)
  {
    if h.Handler? {
      steps, t := HandlerCanEnd(s, h.id);
    } else {
      MotorGoesOn(s, h);
      var step, g := MotorNext(s), Destination(s, MotorNext(s), h);
      var s' := Apply(s, step);
      OneStep(s, step);
      InvKept(s, step);
      hide Apply, Enabled, MotorNext, Destination, Distance, Holds;
      if s'.burette == Idle {
        steps, t := [step], s';
      } else {
        var rest, last := ClaimCanEnd(s', g);
        PathConcat(s, [step], s', rest, last);
        steps, t := [step] + rest, last;
      }
    }
  }

  /** The burette can become Idle again exactly when it is Idle or a claim in flight is
      recoverable: not a command that cannot finish, queued or with the motor, nor a dose
      that can never be planned. */
  lemma RecoveryExactly(s: State)
    requires Inv(s)
    ensures CanBecomeIdle(s) <==> s.burette == Idle || exists h :: Holds(s, h) && Recoverable(s, h)
  {
    if s.burette == Idle {
      assert Path(s, [], s);
    } else if h :| Holds(s, h) && Recoverable(s, h) {
      var steps, t := ClaimCanEnd(s, h);
    } else {
      forall steps, t | Path(s, steps, t)
        ensures t.burette != Idle
      {
        PathFromDoomed(s, steps, t);
      }
    }
  }

  // ---- Runs that lose the burette ------------------------------------------------

  lemma Extend(states: seq<State>, steps: seq<Step>, step: Step)
      returns (more: seq<State>, moreSteps: seq<Step>, last: State)
    requires Run(states, steps) && Enabled(states[|states| - 1], step)
    ensures Run(more, moreSteps) && last == more[|more| - 1] == Apply(states[|states| - 1], step)
  {
    last := Apply(states[|states| - 1], step);
    more, moreSteps := states + [last], steps + [step];
  }

  /** The first handler of a run claims the burette. */
  lemma FirstClaim(r: Request, cache: Option<real>) returns (states: seq<State>, steps: seq<Step>, s: State)
    requires WellFormed(r) && !r.CalRun?
    ensures Run(states, steps) && s == states[|states| - 1]
    ensures s == State(Target(r), false, cache, [], map[0 := Planning(r)], Waiting, 0, 0)
  {
    s := State(Idle, false, cache, [], map[], Waiting, 0, 0);
    states, steps := [s], [];
    states, steps, s := Extend(states, steps, Arrive(0, Checking(r)));
    states, steps, s := Extend(states, steps, PassCheck(0));
    states, steps, s := Extend(states, steps, CompareAndSwap(0));
  }

  /** Without a calibration the first fill takes the burette away for good. */
  lemma FillWithoutCalibration() returns (states: seq<State>, steps: seq<Step>, s: State)
    ensures Run(states, steps) && s == states[|states| - 1] && Stuck(s) && s.acked == 0
  {
    states, steps, s := FirstClaim(Fill, None);
    states, steps, s := Extend(states, steps, GiveUpPlan(0));
  }

  /** A rinse of 255 cycles, claimed and sent. */
  lemma RinseSent() returns (states: seq<State>, steps: seq<Step>, s: State)
    ensures Run(states, steps) && s == states[|states| - 1]
    ensures s.queue == [StartRinse(255)] && s.motor == Waiting
  {
    states, steps, s := FirstClaim(Rinse(255), Some(8.14));
    states, steps, s := Extend(states, steps, Plan(0));
    states, steps, s := Extend(states, steps, Send(0));
  }

  /** Once the motor runs it the burette cannot become Idle again. */
  lemma RinseOfAllCycles() returns (states: seq<State>, steps: seq<Step>, s: State)
    ensures Run(states, steps) && s == states[|states| - 1]
    ensures s.motor == Running(StartRinse(255)) && !CanBecomeIdle(s)
  {
    states, steps, s := RinseSent();
    states, steps, s := Extend(states, steps, Receive);
    states, steps, s := Extend(states, steps, MotorBegin);
    RunKeepsInv(states, steps, |states| - 1);
    hide Run, Apply, Enabled;
    MotorAloneDecides(s);
  }

  /** A claim with the motor is the only one, so its command decides. */
  lemma MotorAloneDecides(s: State)
    requires Inv(s) && s.motor.Running? && s.burette != Idle
    ensures CanBecomeIdle(s) <==> Finishes(s.motor.cmd)
  {
    assert Holds(s, Motor);
    RecoveryExactly(s);
    hide CanBecomeIdle;
    if h :| Holds(s, h) && Recoverable(s, h) {
      assert h == Motor;
    }
  }
}
