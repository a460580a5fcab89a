/** The valve settle flag and its one-shot timer
    (components/application/src/handlers/valve.cpp and
    components/infrastructure/src/drivers/valve.cpp), as interleaved atomic steps of any
    number of handlers and the timer task. */
module ValveSettle {
  import opened Options

  datatype Position = Input | Output

  datatype HandlerPc =
    | Entering(pos: Position)
    | Contending(pos: Position)
    | Positioning(pos: Position)
    | Arming(pos: Position)
    | Creating(pos: Position)
    | Exchanging(pos: Position)
    | Stopping(pos: Position)
    | Starting(pos: Position)
    | EsExchanging | EsStopping | EsClearing
    | Finished

  /** The callback's place: before the flag is cleared, or before the timer is disarmed. */
  datatype CallbackPc = Idle | Firing | Disarming

  /** One valve_settled event: what it says and which position was being settled. */
  datatype Event = Event(reported: Position, settled: Position)

  datatype State = State(
    settling: bool,              // gValveIsSettling
    armed: bool,                 // s_valveTimerArmed
    callbackArg: Option<Position>,   // set when the timer is created
    pending: bool,               // the one-shot timer is running
    callback: CallbackPc,
    handlers: map<nat, HandlerPc>,
    position: Position,          // the position of the latest holder
    events: seq<Event>,
    aborted: bool)               // a start found the timer running

  datatype Step =
    | Arrive(id: nat, pc: HandlerPc)
    | LeaveBusy(id: nat)
    | PassIdle(id: nat)
    | CompareAndSwap(id: nat)
    | SetPosition(id: nat)
    | CheckCreated(id: nat)
    | Create(id: nat)
    | Exchange(id: nat)
    | Stop(id: nat)
    | Start(id: nat)
    | Fire
    | ClearFlag
    | Disarm
    | EsExchange(id: nat)
    | EsStop(id: nat)
    | EsClear(id: nat)

  predicate Init(s: State) {
    !s.settling && !s.armed && s.callbackArg == None && !s.pending && s.callback == Idle
    && s.handlers == map[] && s.events == [] && !s.aborted
  }

  predicate Enabled(s: State, step: Step) {
    match step
    case Arrive(id, pc) => id !in s.handlers && (pc.Entering? || pc.EsExchanging?)
    case LeaveBusy(id) => id in s.handlers && s.handlers[id].Entering?
    case PassIdle(id) => id in s.handlers && s.handlers[id].Entering?
    case CompareAndSwap(id) => id in s.handlers && s.handlers[id].Contending?
    case SetPosition(id) => id in s.handlers && s.handlers[id].Positioning?
    case CheckCreated(id) => id in s.handlers && s.handlers[id].Arming?
    case Create(id) => id in s.handlers && s.handlers[id].Creating?
    case Exchange(id) => id in s.handlers && s.handlers[id].Exchanging?
    case Stop(id) => id in s.handlers && s.handlers[id].Stopping?
    case Start(id) => id in s.handlers && s.handlers[id].Starting?
    case Fire => s.pending && s.callback == Idle && s.callbackArg.Some?
    case ClearFlag => s.callback == Firing
    case Disarm => s.callback == Disarming
    case EsExchange(id) => id in s.handlers && s.handlers[id].EsExchanging?
    case EsStop(id) => id in s.handlers && s.handlers[id].EsStopping?
    case EsClear(id) => id in s.handlers && s.handlers[id].EsClearing?
  }

  function At(s: State, id: nat, pc: HandlerPc): State {
    s.(handlers := s.handlers[id := pc])
  }

  function Apply(s: State, step: Step): State
    requires Enabled(s, step)
  {
    match step
    case Arrive(id, pc) => At(s, id, pc)
    case LeaveBusy(id) => At(s, id, Finished)
    case PassIdle(id) => At(s, id, Contending(s.handlers[id].pos))
    case CompareAndSwap(id) =>
      if s.settling then At(s, id, Finished)
      else At(s.(settling := true), id, Positioning(s.handlers[id].pos))
    case SetPosition(id) => At(s.(position := s.handlers[id].pos), id, Arming(s.handlers[id].pos))
    case CheckCreated(id) =>
      At(s, id, if s.callbackArg.None? then Creating(s.handlers[id].pos) else Exchanging(s.handlers[id].pos))
    case Create(id) => At(s.(callbackArg := Some(s.handlers[id].pos)), id, Starting(s.handlers[id].pos))
    case Exchange(id) =>
      At(s.(armed := true), id, if s.armed then Stopping(s.handlers[id].pos) else Starting(s.handlers[id].pos))
    case Stop(id) => At(s.(pending := false), id, Starting(s.handlers[id].pos))
    case Start(id) => At(s.(pending := true, aborted := s.aborted || s.pending), id, Finished)
    case Fire => s.(pending := false, callback := Firing, events := s.events + [Event(s.callbackArg.value, s.position)])
    case ClearFlag => s.(settling := false, callback := Disarming)
    case Disarm => s.(armed := false, callback := Idle)
    case EsExchange(id) =>
      At(s.(armed := false), id, if s.armed && s.callbackArg.Some? then EsStopping else EsClearing)
    case EsStop(id) => At(s.(pending := false), id, EsClearing)
    case EsClear(id) => At(s.(settling := false), id, Finished)
  }

  ghost predicate Run(states: seq<State>, steps: seq<Step>) {
    && |states| == |steps| + 1 && Init(states[0])
    && forall i :: 0 <= i < |steps| ==> Enabled(states[i], steps[i]) && states[i + 1] == Apply(states[i], steps[i])
  }

  /** No emergency stop arrives. */
  ghost predicate Calm(steps: seq<Step>) {
    forall i :: 0 <= i < |steps| ==> !(steps[i].Arrive? && steps[i].pc.EsExchanging?)
  }

  // ---- Tokens ----------------------------------------------------------------

  /** Where the settle token can be. */
  datatype Holder = Handler(id: nat) | Timer | Callback

  predicate HandlerHolds(pc: HandlerPc) {
    pc.Positioning? || pc.Arming? || pc.Creating? || pc.Exchanging? || pc.Stopping? || pc.Starting?
  }

  predicate Holds(s: State, h: Holder) {
    match h
    case Handler(id) => id in s.handlers && HandlerHolds(s.handlers[id])
    case Timer => s.pending
    case Callback => s.callback == Firing
  }

  /** The flag is set exactly while one token exists, and there is never a second one. */
  ghost predicate TokenLaw(s: State) {
    && (forall g, h :: Holds(s, g) && Holds(s, h) ==> g == h)
    && (s.settling <==> exists h :: Holds(s, h))
  }

  predicate CalmState(s: State) {
    && (forall id :: id in s.handlers ==>
          !s.handlers[id].EsExchanging? && !s.handlers[id].EsStopping? && !s.handlers[id].EsClearing?)
    && (forall id :: id in s.handlers
                     && (s.handlers[id].Exchanging? || s.handlers[id].Stopping? || s.handlers[id].Starting?)
                     ==> s.callbackArg.Some?)
    && (s.pending ==> s.callbackArg.Some?)
  }

  ghost predicate Inv(s: State) {
    CalmState(s) && TokenLaw(s) && !s.aborted
  }

  ghost function Origin(s: State, step: Step, h: Holder): Holder
    requires Enabled(s, step)
  {
    match step
    case Start(id) => if h.Timer? then Handler(id) else h
    case Fire => if h.Callback? then Timer else h
    case _ => h
  }

  ghost predicate TakesToken(s: State, step: Step) {
    step.CompareAndSwap? && !s.settling
  }

  lemma HeldBefore(s: State, step: Step, h: Holder)
    requires Enabled(s, step) && CalmState(s) && !TakesToken(s, step)
    requires Holds(Apply(s, step), h)
    ensures Holds(s, Origin(s, step, h))
  {
  }

  lemma UniqueAfter(s: State, step: Step, g: Holder, h: Holder)
    requires Enabled(s, step) && Inv(s)
    requires Holds(Apply(s, step), g) && Holds(Apply(s, step), h)
    ensures g == h
  {
    if TakesToken(s, step) {
      assert forall k :: Holds(Apply(s, step), k) && k != Handler(step.id) ==> Holds(s, k);
    } else {
      HeldBefore(s, step, g);
      HeldBefore(s, step, h);
    }
  }

  lemma TokenMovesOn(s: State, step: Step, h: Holder)
    requires Enabled(s, step) && Inv(s) && Holds(s, h) && !step.ClearFlag?
    ensures exists g :: Holds(Apply(s, step), g)
  {
    var s' := Apply(s, step);
    match step
    case Start(_) => assert Holds(s', Timer);
    case Fire => assert Holds(s', Callback);
    case Stop(id) => assert Holds(s, Handler(id)); assert Holds(s', Handler(id));
    case _ => assert Holds(s', h);
  }

  lemma FlagMatches(s: State, step: Step)
    requires Enabled(s, step) && Inv(s)
    ensures Apply(s, step).settling <==> exists h :: Holds(Apply(s, step), h)
  {
    var s' := Apply(s, step);
    if TakesToken(s, step) {
      assert Holds(s', Handler(step.id));
    } else if step.ClearFlag? {
      assert Holds(s, Callback);
      assert forall h :: Holds(s', h) ==> Holds(s, h);
    } else {
      if s.settling {
        var h :| Holds(s, h);
        TokenMovesOn(s, step, h);
      }
      forall h | Holds(s', h)
        ensures s.settling
      {
        HeldBefore(s, step, h);
      }
    }
  }

  lemma NeverDoubleStart(s: State, step: Step)
    requires Enabled(s, step) && Inv(s)
    ensures !Apply(s, step).aborted
    ensures step.Stop? ==> !s.pending
  {
    if step.Start? || step.Stop? {
      assert Holds(s, Handler(step.id));
      assert s.pending ==> Holds(s, Timer);
    }
  }

  lemma InvKept(s: State, step: Step)
    requires Enabled(s, step) && Inv(s) && !(step.Arrive? && step.pc.EsExchanging?)
    ensures Inv(Apply(s, step))
  {
    NeverDoubleStart(s, step);
    FlagMatches(s, step);
    forall g, h | Holds(Apply(s, step), g) && Holds(Apply(s, step), h)
      ensures g == h
    {
      UniqueAfter(s, step, g, h);
    }
  }

  lemma {:induction false} RunKeepsInv(states: seq<State>, steps: seq<Step>, i: nat)
    requires Run(states, steps) && Calm(steps) && i < |states|
    ensures Inv(states[i])
  {
    if i == 0 {
    } else {
      RunKeepsInv(states, steps, i - 1);
      InvKept(states[i - 1], steps[i - 1]);
    }
  }

  /** In every run without an emergency stop the flag is set exactly while one token exists,
      the timer is never started while it runs, and a stop never cancels a running timer. */
  lemma SettleFlagIsToken(states: seq<State>, steps: seq<Step>, i: nat)
    requires Run(states, steps) && Calm(steps) && i < |states|
    ensures TokenLaw(states[i]) && !states[i].aborted
    ensures i < |steps| && steps[i].Start? ==> !states[i].pending
    ensures i < |steps| && steps[i].Stop? ==> !states[i].pending
  {
    RunKeepsInv(states, steps, i);
    if i < |steps| {
      NeverDoubleStart(states[i], steps[i]);
      RunKeepsInv(states, steps, i + 1);
    }
  }

  // ---- The armed flag ----------------------------------------------------------

  /** Step j re-arms the timer, and nobody has disarmed it since. */
  predicate ArmedBy(steps: seq<Step>, j: nat, i: nat) {
    && j < i <= |steps| && steps[j].Exchange?
    && forall k :: j < k < i ==> !steps[k].Disarm? && !steps[k].EsExchange?
  }

  lemma {:induction false} ArmedSinceExchange(states: seq<State>, steps: seq<Step>, i: nat)
    requires Run(states, steps) && i < |states|
    ensures states[i].armed <==> exists j :: ArmedBy(steps, j, i)
  {
    if i > 0 {
      ArmedSinceExchange(states, steps, i - 1);
      var step := steps[i - 1];
      ArmedStep(states[i - 1], step);
      forall j: nat
        ensures ArmedBy(steps, j, i) <==> (j == i - 1 && step.Exchange?)
                                          || (ArmedBy(steps, j, i - 1) && !step.Disarm? && !step.EsExchange?)
      {
      }
      hide Apply, Enabled;
      if step.Exchange? {
        assert ArmedBy(steps, i - 1, i);
      } else if states[i].armed {
        var j :| ArmedBy(steps, j, i - 1);
        assert ArmedBy(steps, j, i);
      }
    }
  }

  lemma ArmedStep(s: State, step: Step)
    requires Enabled(s, step)
    ensures Apply(s, step).armed == (step.Exchange? || (s.armed && !step.Disarm? && !step.EsExchange?))
  {
  }

  /** A settle stops the timer before it starts it exactly when an earlier settle has re-armed
      it and nobody has disarmed it since; an emergency stop stops it under that condition
      once it is created.  The first settle, which creates the timer, does not arm it. */
  lemma StopsExactlyWhenArmed(states: seq<State>, steps: seq<Step>, i: nat)
    requires Run(states, steps) && i < |steps|
    ensures steps[i].Exchange? ==>
              var pc := states[i + 1].handlers[steps[i].id];
              (pc.Stopping? || pc.Starting?) && (pc.Stopping? <==> exists j :: ArmedBy(steps, j, i))
    ensures steps[i].EsExchange? ==>
              var pc := states[i + 1].handlers[steps[i].id];
              && (pc.EsStopping? || pc.EsClearing?)
              && (pc.EsStopping? <==> states[i].callbackArg.Some? && exists j :: ArmedBy(steps, j, i))
  {
    ArmedSinceExchange(states, steps, i);
    hide ArmedBy;
  }

  // ---- What the events say -----------------------------------------------------

  /** The callback reports the argument it was created with, which is the position of the
      first settle: as long as nothing has fired it is the position being settled. */
  ghost predicate EventsNameFirst(s: State) {
    && (forall k :: 0 <= k < |s.events| ==> s.callbackArg == Some(s.events[k].reported))
    && (s.events != [] ==> s.callbackArg == Some(s.events[0].settled))
    && (s.events == [] && s.callbackArg.Some? ==> s.callbackArg == Some(s.position) && FirstSettling(s))
    && (forall id :: id in s.handlers && PastPosition(s.handlers[id]) ==> s.handlers[id].pos == s.position)
  }

  predicate PastPosition(pc: HandlerPc) {
    pc.Arming? || pc.Creating?
  }

  /** The first token, from the creation of the timer until it fires. */
  ghost predicate FirstSettling(s: State) {
    s.pending || exists id :: id in s.handlers && s.handlers[id].Starting?
  }

  /** Every event of a run names the position of the first settle, so an event is right
      exactly when its own settle was for that position too. */
  lemma {:induction false} EventsNameFirstPosition(states: seq<State>, steps: seq<Step>, i: nat)
    requires Run(states, steps) && Calm(steps) && i < |states|
    ensures EventsNameFirst(states[i])
    ensures forall k :: 0 <= k < |states[i].events| ==> states[i].events[k].reported == states[i].events[0].settled
    ensures forall k :: 0 <= k < |states[i].events| ==>
              (states[i].events[k].reported == states[i].events[k].settled
               <==> states[i].events[k].settled == states[i].events[0].settled)
  {
    if i > 0 {
      EventsNameFirstPosition(states, steps, i - 1);
      CreatedOnce(states, steps, i - 1);
      RunKeepsInv(states, steps, i - 1);
      EventStep(states[i - 1], steps[i - 1]);
    }
  }

  lemma EventStep(s: State, step: Step)
    requires Enabled(s, step) && Inv(s) && CreatesOnce(s) && EventsNameFirst(s)
    ensures EventsNameFirst(Apply(s, step))
  {
    PositionFollows(s, step);
    if HandlerMoves(step) {
      if step.Create? {
        assert Apply(s, step).handlers[step.id].Starting?;
      } else if s.events == [] && s.callbackArg.Some? {
        FirstStays(s, step);
      }
    }
  }

  /** Only the holder of the token sets the position. */
  lemma PositionFollows(s: State, step: Step)
    requires Enabled(s, step) && Inv(s)
    requires forall id :: id in s.handlers && PastPosition(s.handlers[id]) ==> s.handlers[id].pos == s.position
    ensures var s' := Apply(s, step);
            forall id :: id in s'.handlers && PastPosition(s'.handlers[id]) ==> s'.handlers[id].pos == s'.position
    ensures !step.SetPosition? ==> Apply(s, step).position == s.position
  {
    if step.SetPosition? {
      OnlyHolder(s, step.id);
    }
  }

  predicate HandlerMoves(step: Step) {
    !(step.Fire? || step.ClearFlag? || step.Disarm?)
  }

  /** A handler with the token is the only one, and no timer runs beside it. */
  lemma OnlyHolder(s: State, id: nat)
    requires Inv(s) && id in s.handlers && HandlerHolds(s.handlers[id])
    ensures !s.pending && forall k :: k in s.handlers && HandlerHolds(s.handlers[k]) ==> k == id
  {
    assert Holds(s, Handler(id));
    assert s.pending ==> Holds(s, Timer);
    forall k | k in s.handlers && HandlerHolds(s.handlers[k])
      ensures k == id
    {
      assert Holds(s, Handler(k));
    }
  }

  lemma FirstStays(s: State, step: Step)
    requires Enabled(s, step) && Inv(s) && HandlerMoves(step)
    requires s.events == [] && s.callbackArg.Some? && FirstSettling(s)
    ensures FirstSettling(Apply(s, step)) && !step.SetPosition?
  {
    if step.id in s.handlers && HandlerHolds(s.handlers[step.id]) {
      OnlyHolder(s, step.id);
    }
    if !s.pending {
      var id :| id in s.handlers && s.handlers[id].Starting?;
      OnlyHolder(s, id);
      assert id in Apply(s, step).handlers;
      assert step.id != id ==> Apply(s, step).handlers[id].Starting?;
    }
  }

  predicate CreatesOnce(s: State) {
    forall id :: id in s.handlers && s.handlers[id].Creating? ==> s.callbackArg.None?
  }

  lemma {:induction false} CreatedOnce(states: seq<State>, steps: seq<Step>, i: nat)
    requires Run(states, steps) && Calm(steps) && i < |states|
    ensures CreatesOnce(states[i])
  {
    if i > 0 {
      CreatedOnce(states, steps, i - 1);
      RunKeepsInv(states, steps, i - 1);
      var s, step := states[i - 1], steps[i - 1];
      if step.Create? {
        assert Holds(s, Handler(step.id));
        forall id | id in s.handlers && s.handlers[id].Creating?
          ensures id == step.id
        {
          assert Holds(s, Handler(id));
        }
      }
    }
  }

  // ---- Emergency stops -----------------------------------------------------------

  /** What is left of the token law when emergency stops may take a token away: still never
      two, and none while the flag is clear. */
  ghost predicate Safe(s: State) {
    && (forall g, h :: Holds(s, g) && Holds(s, h) ==> g == h)
    && (!s.settling ==> forall h :: !Holds(s, h))
  }

  /** The one step that can break it. */
  ghost predicate ClearsUnderToken(s: State, step: Step) {
    step.EsClear? && exists h :: Holds(s, h)
  }

  lemma CameFrom(s: State, step: Step, h: Holder)
    requires Enabled(s, step) && !TakesToken(s, step)
    requires Holds(Apply(s, step), h)
    ensures Holds(s, Origin(s, step, h)) || (step.Start? && h == Timer && s.pending)
  {
  }

  /** Every step keeps it, except an emergency stop that clears the flag under a token. */
  lemma StepIsSafeExactly(s: State, step: Step)
    requires Enabled(s, step) && Safe(s)
    ensures Safe(Apply(s, step)) <==> !ClearsUnderToken(s, step)
    ensures step.Start? ==> !s.pending
  {
    var s' := Apply(s, step);
    if step.Start? {
      assert Holds(s, Handler(step.id));
      assert s.pending ==> Holds(s, Timer);
    }
    if ClearsUnderToken(s, step) {
      var h :| Holds(s, h);
      assert Holds(s', h);
    } else {
      forall g, h | Holds(s', g) && Holds(s', h)
        ensures g == h
      {
        SafeUnique(s, step, g, h);
      }
      if !s'.settling {
        forall h ensures !Holds(s', h) { SafeFree(s, step, h); }
      }
    }
  }

  lemma SafeUnique(s: State, step: Step, g: Holder, h: Holder)
    requires Enabled(s, step) && Safe(s) && (step.Start? ==> !s.pending)
    requires Holds(Apply(s, step), g) && Holds(Apply(s, step), h)
    ensures g == h
  {
    if TakesToken(s, step) {
      assert forall k :: Holds(Apply(s, step), k) && k != Handler(step.id) ==> Holds(s, k);
    } else {
      CameFrom(s, step, g);
      CameFrom(s, step, h);
    }
  }

  lemma SafeFree(s: State, step: Step, h: Holder)
    requires Enabled(s, step) && Safe(s) && !ClearsUnderToken(s, step) && (step.Start? ==> !s.pending)
    requires !Apply(s, step).settling
    ensures !Holds(Apply(s, step), h)
  {
    if Holds(Apply(s, step), h) {
      CameFrom(s, step, h);
      if step.ClearFlag? {
        assert Holds(s, Callback);
      }
    }
  }

  lemma {:induction false} SafeUntil(states: seq<State>, steps: seq<Step>, i: nat)
    requires Run(states, steps) && i < |states|
    requires forall j :: 0 <= j < i ==> !ClearsUnderToken(states[j], steps[j])
    ensures Safe(states[i]) && !states[i].aborted
  {
    if i > 0 {
      SafeUntil(states, steps, i - 1);
      StepIsSafeExactly(states[i - 1], steps[i - 1]);
    }
  }

  /** Over whole runs, any number of emergency stops included: there is never a second token
      nor one under a clear flag, exactly when no emergency stop clears the flag while a
      token exists. */
  lemma EmergencyKeepsTokenLawExactly(states: seq<State>, steps: seq<Step>)
    requires Run(states, steps)
    ensures (forall i :: 0 <= i < |states| ==> Safe(states[i]))
       <==> (forall i :: 0 <= i < |steps| ==> !ClearsUnderToken(states[i], steps[i]))
  {
    if forall i :: 0 <= i < |states| ==> Safe(states[i]) {
      forall i | 0 <= i < |steps|
        ensures !ClearsUnderToken(states[i], steps[i])
      {
        assert Safe(states[i]) && Safe(states[i + 1]);
        StepIsSafeExactly(states[i], steps[i]);
      }
    }
    if forall i :: 0 <= i < |steps| ==> !ClearsUnderToken(states[i], steps[i]) {
      forall i | 0 <= i < |states|
        ensures Safe(states[i])
      {
        SafeUntil(states, steps, i);
      }
    }
  }

  /** Up to the first such clear no start finds the timer running. */
  lemma NoDoubleStartBefore(states: seq<State>, steps: seq<Step>, i: nat)
    requires Run(states, steps) && i < |steps|
    requires forall j :: 0 <= j < i ==> !ClearsUnderToken(states[j], steps[j])
    ensures steps[i].Start? ==> !states[i].pending
    ensures !states[i + 1].aborted
  {
    SafeUntil(states, steps, i);
    StepIsSafeExactly(states[i], steps[i]);
  }

  /** A set flag has somebody left to clear it: a token, or an emergency stop about to. */
  ghost predicate Cared(s: State) {
    s.settling ==> (exists h :: Holds(s, h)) || exists id :: id in s.handlers && s.handlers[id].EsClearing?
  }

  lemma CareMovesOn(s: State, step: Step)
    requires Enabled(s, step) && Cared(s)
    ensures Cared(Apply(s, step))
  {
    var s' := Apply(s, step);
    if s'.settling {
      if TakesToken(s, step) {
        assert Holds(s', Handler(step.id));
      } else if id :| id in s.handlers && s.handlers[id].EsClearing? {
        assert s'.handlers[id].EsClearing?;
      } else {
        var h :| Holds(s, h);
        match step
        case Start(_) => assert Holds(s', Timer);
        case Fire => assert Holds(s', Callback);
        case Stop(id) => assert Holds(s', Handler(id));
        case EsStop(id) => assert s'.handlers[id].EsClearing?;
        case _ => assert Holds(s', h);
      }
    }
  }

  /** In every run, emergency stops included, the flag is never left set with nobody to
      clear it. */
  lemma {:induction false} FlagIsNeverOrphaned(states: seq<State>, steps: seq<Step>, i: nat)
    requires Run(states, steps) && i < |states|
    ensures Cared(states[i])
  {
    if i > 0 {
      FlagIsNeverOrphaned(states, steps, i - 1);
      CareMovesOn(states[i - 1], steps[i - 1]);
    }
  }

  // ---- Runs that go wrong ----------------------------------------------------------

  lemma Extend(states: seq<State>, steps: seq<Step>, step: Step)
      returns (more: seq<State>, moreSteps: seq<Step>, last: State)
    requires Run(states, steps) && Enabled(states[|states| - 1], step)
    ensures Run(more, moreSteps) && last == more[|more| - 1] == Apply(states[|states| - 1], step)
    ensures Calm(steps) && !(step.Arrive? && step.pc.EsExchanging?) ==> Calm(moreSteps)
  {
    last := Apply(states[|states| - 1], step);
    more, moreSteps := states + [last], steps + [step];
  }

  /** The first handler settles; its timer runs, but is not marked as armed. */
  lemma FirstSettle() returns (states: seq<State>, steps: seq<Step>, s: State)
    ensures Run(states, steps) && s == states[|states| - 1]
    ensures Calm(steps) && s.settling && s.pending && !s.armed && s.handlers.Keys == {0}
    ensures s.callbackArg == Some(Input) && s.callback == Idle && s.position == Input && s.events == []
  {
    s := State(false, false, None, false, Idle, map[], Input, [], false);
    states, steps := [s], [];
    states, steps, s := Extend(states, steps, Arrive(0, Entering(Input)));
    states, steps, s := Extend(states, steps, PassIdle(0));
    states, steps, s := Extend(states, steps, CompareAndSwap(0));
    states, steps, s := Extend(states, steps, SetPosition(0));
    states, steps, s := Extend(states, steps, CheckCreated(0));
    states, steps, s := Extend(states, steps, Create(0));
    states, steps, s := Extend(states, steps, Start(0));
  }

  /** After a settle for Input, a settle for Output is reported as Input. */
  lemma EventCanNameWrongPosition() returns (states: seq<State>, steps: seq<Step>, s: State)
    ensures Run(states, steps) && Calm(steps) && s == states[|states| - 1]
    ensures |s.events| == 2 && s.events[1] == Event(Input, Output)
  {
    states, steps, s := FirstSettle();
    states, steps, s := Extend(states, steps, Fire);
    states, steps, s := Extend(states, steps, ClearFlag);
    states, steps, s := Extend(states, steps, Disarm);
    states, steps, s := SecondSettle(states, steps, s);
    states, steps, s := Extend(states, steps, Fire);
  }

  /** A second handler settles for Output, with the timer already created. */
  lemma SecondSettle(states: seq<State>, steps: seq<Step>, s: State)
      returns (more: seq<State>, moreSteps: seq<Step>, last: State)
    requires Run(states, steps) && s == states[|states| - 1]
    requires !s.settling && !s.armed && s.callbackArg.Some? && 2 !in s.handlers
    ensures Run(more, moreSteps) && last == more[|more| - 1] && (Calm(steps) ==> Calm(moreSteps))
    ensures last.pending && last.callback == s.callback && last.callbackArg == s.callbackArg
    ensures last.position == Output && last.events == s.events && (s.pending ==> last.aborted)
  {
    more, moreSteps, last := Extend(states, steps, Arrive(2, Entering(Output)));
    more, moreSteps, last := Extend(more, moreSteps, PassIdle(2));
    more, moreSteps, last := Extend(more, moreSteps, CompareAndSwap(2));
    more, moreSteps, last := Extend(more, moreSteps, SetPosition(2));
    more, moreSteps, last := Extend(more, moreSteps, CheckCreated(2));
    more, moreSteps, last := Extend(more, moreSteps, Exchange(2));
    more, moreSteps, last := Extend(more, moreSteps, Start(2));
  }

  /** An emergency stop then frees the flag without stopping the timer. */
  lemma FreedWhilePending() returns (states: seq<State>, steps: seq<Step>, s: State)
    ensures Run(states, steps) && s == states[|states| - 1]
    ensures !s.settling && s.pending && !s.armed && s.callbackArg.Some? && s.handlers.Keys == {0, 1}
  {
    states, steps, s := FirstSettle();
    states, steps, s := Extend(states, steps, Arrive(1, EsExchanging));
    states, steps, s := Extend(states, steps, EsExchange(1));
    states, steps, s := Extend(states, steps, EsClear(1));
  }

  /** With emergency stops the law fails: the next handler starts a timer that is running. */
  lemma EmergencyCanDoubleStart() returns (states: seq<State>, steps: seq<Step>, s: State)
    ensures Run(states, steps) && s == states[|states| - 1] && s.aborted
  {
    states, steps, s := FreedWhilePending();
    states, steps, s := SecondSettle(states, steps, s);
  }
}
