/** Connection ownership: any number of sessions claim device ids, each running Upsert,
    SetDriver, the read loop and Disconnect, interleaved with one another and with every
    other critical section of the registry. The newest connection wins (section 3.1.4
    of MQTT 3.1.1). */
module Ownership {
  import opened Wrappers
  import opened Bulbs
  import opened Registries

  /** How far one session has come between its handshake and the end of its goroutine. */
  datatype Phase =
    | Greeted                             // identified, nothing written yet
    | Upserted                            // in the registry, not attached
    | Attached(previous: Option<Driver>)  // SetDriver returned; the loser is still to be closed
    | Serving
    | TornDown

  datatype Session = Session(id: string, phase: Phase)

  /** What the sessions have done to the drivers, in lock order. */
  datatype Event = Attach(id: string, s: Driver) | Detach(id: string, s: Driver)

  datatype State = State(reg: Reg, sessions: map<Driver, Session>, closing: set<Driver>, log: seq<Event>)

  datatype Step =
    | Greet(s: Driver, id: string)
    | Enter(s: Driver, addr: string, caps: Capabilities, now: Time)
    | TakeOver(s: Driver)
    | CloseLoser(s: Driver)
    | CloseAny(s: Driver)      // shutdown closes any session at any time
    | Leave(s: Driver)
    | Other(op: Op)            // the terminal, Home Assistant, reports, configuration

  predicate In(st: State, s: Driver, p: Phase) {
    s in st.sessions && st.sessions[s].phase == p
  }

  ghost predicate Enabled(st: State, step: Step) {
    match step
    case Greet(s, id) => s !in st.sessions
    case Enter(s, addr, caps, now) => In(st, s, Greeted)
    case TakeOver(s) => In(st, s, Upserted)
    case CloseLoser(s) => s in st.sessions && st.sessions[s].phase.Attached?
    case CloseAny(s) => s in st.sessions
    case Leave(s) => In(st, s, Serving)
    case Other(op) => !op.SetDriver? && !op.Disconnect?
  }

  function Moved(st: State, s: Driver, p: Phase): map<Driver, Session>
    requires s in st.sessions
  {
    st.sessions[s := st.sessions[s].(phase := p)]
  }

  ghost function Next(st: State, step: Step): State
    requires Enabled(st, step)
  {
    match step
    case Greet(s, id) => st.(sessions := st.sessions[s := Session(id, Greeted)])
    case Enter(s, addr, caps, now) =>
      st.(reg := Do(st.reg, Upsert(st.sessions[s].id, addr, caps, now)).reg, sessions := Moved(st, s, Upserted))
    case TakeOver(s) =>
      var id := st.sessions[s].id;
      var e := Do(st.reg, SetDriver(id, s));
      st.(reg := e.reg, sessions := Moved(st, s, Attached(e.answer.previous)), log := st.log + [Attach(id, s)])
    case CloseLoser(s) =>
      var p := st.sessions[s].phase.previous;
      st.(sessions := Moved(st, s, Serving),
          closing := if p.Some? && p != Some(s) then st.closing + {p.value} else st.closing)
    case CloseAny(s) => st.(closing := st.closing + {s})
    case Leave(s) =>
      var id := st.sessions[s].id;
      st.(reg := Do(st.reg, Disconnect(id, Some(s))).reg, sessions := Moved(st, s, TornDown),
          log := st.log + [Detach(id, s)])
    case Other(op) => st.(reg := Do(st.reg, op).reg)
  }

  ghost predicate Run(st: State, steps: seq<Step>)
    decreases steps
  {
    steps == [] || (Enabled(st, steps[0]) && Run(Next(st, steps[0]), steps[1..]))
  }

  ghost function End(st: State, steps: seq<Step>): State
    requires Run(st, steps)
    decreases steps
  {
    if steps == [] then st else End(Next(st, steps[0]), steps[1..])
  }

  /** Server start: any registry without drivers, as Load and Declare leave it. */
  function Start(reg: Reg): State {
    State(reg, map[], {}, [])
  }

  predicate NoDrivers(reg: Reg) {
    forall id :: id in reg ==> reg[id].driver.None?
  }

  // ---- the specification: who owns a lamp, read off the history ------------------------

  /** The last session to run SetDriver for the lamp. */
  function LastAttached(log: seq<Event>, id: string): Option<Driver> {
    if log == [] then None
    else
      var e := log[|log| - 1];
      if e.Attach? && e.id == id then Some(e.s) else LastAttached(log[..|log| - 1], id)
  }

  /** That session, if it has not run Disconnect; nobody otherwise. */
  function Owner(log: seq<Event>, id: string): Option<Driver> {
    var last := LastAttached(log, id);
    if last.Some? && Detach(id, last.value) !in log then last else None
  }

  lemma LastAttachedInLog(log: seq<Event>, id: string)
    ensures LastAttached(log, id).Some? ==> Attach(id, LastAttached(log, id).value) in log
  {
  }

  lemma LastAfter(log: seq<Event>, e: Event, id: string)
    ensures LastAttached(log + [e], id) == if e.Attach? && e.id == id then Some(e.s) else LastAttached(log, id)
    ensures forall x :: x in log + [e] <==> x in log || x == e
  {
    assert (log + [e])[..|log|] == log;
  }

  function DriverOf(reg: Reg, id: string): Option<Driver> {
    if id in reg then reg[id].driver else None
  }

  /** Only SetDriver and Disconnect touch a driver. */
  lemma DriverAfter(reg: Reg, op: Op, id: string)
    ensures DriverOf(Do(reg, op).reg, id) ==
            if op.id == id && id in reg && op.SetDriver? then Some(op.d)
            else if op.id == id && op.Disconnect? && (op.owner.None? || DriverOf(reg, id) == op.owner) then None
            else DriverOf(reg, id)
    ensures op.SetDriver? && op.id in reg ==> Do(reg, op).answer == Replaced(DriverOf(reg, op.id))
  {
    assert Lookup(Do(reg, op).reg, id)
        == if id == op.id then On(Lookup(reg, id), op, Taken(reg, op)).entry else Lookup(reg, id);
  }

  // ---- the invariant ---------------------------------------------------------------------

  predicate HasAttached(st: State, s: Driver) {
    s in st.sessions && (st.sessions[s].phase.Attached? || st.sessions[s].phase in {Serving, TornDown})
  }

  ghost predicate LogMatches(st: State) {
    && (forall id, s :: Attach(id, s) in st.log <==> HasAttached(st, s) && st.sessions[s].id == id)
    && (forall id, s :: Detach(id, s) in st.log <==> In(st, s, TornDown) && st.sessions[s].id == id)
    && (forall s :: s in st.sessions && st.sessions[s].phase != Greeted ==> st.sessions[s].id in st.reg)
  }

  ghost predicate DriverIsOwner(st: State) {
    forall id :: DriverOf(st.reg, id) == Owner(st.log, id)
  }

  /** s has attached, is not the driver any more, and has not torn down yet. */
  ghost predicate Superseded(st: State, s: Driver) {
    HasAttached(st, s) && !In(st, s, TornDown) && DriverOf(st.reg, st.sessions[s].id) != Some(s)
  }

  /** The session that took over from s has not started its go prev.Close() yet. */
  ghost predicate AboutToBeClosed(st: State, s: Driver) {
    exists t :: t != s && In(st, t, Attached(Some(s)))
  }

  ghost predicate LosersAreClosed(st: State) {
    forall s :: Superseded(st, s) ==> s in st.closing || AboutToBeClosed(st, s)
  }

  ghost predicate Inv(st: State) {
    LogMatches(st) && DriverIsOwner(st) && LosersAreClosed(st) && DriverImpliesOnline(st.reg)
  }

  lemma LogMatchesAttach(st: State, s: Driver)
    requires LogMatches(st) && Enabled(st, TakeOver(s))
    ensures LogMatches(Next(st, TakeOver(s)))
  {
    LastAfter(st.log, Attach(st.sessions[s].id, s), "");
  }

  lemma LogMatchesDetach(st: State, s: Driver)
    requires LogMatches(st) && Enabled(st, Leave(s))
    ensures LogMatches(Next(st, Leave(s)))
  {
    LastAfter(st.log, Detach(st.sessions[s].id, s), "");
  }

  /** The other steps leave the log alone, and nobody's attachment either. */
  lemma LogMatchesQuiet(st: State, step: Step)
    requires LogMatches(st) && Enabled(st, step) && !step.TakeOver? && !step.Leave?
    ensures LogMatches(Next(st, step))
  {
    var n := Next(st, step);
    assert n.log == st.log && st.reg.Keys <= n.reg.Keys;
    forall s
      ensures HasAttached(n, s) <==> HasAttached(st, s)
      ensures In(n, s, TornDown) <==> In(st, s, TornDown)
      ensures HasAttached(st, s) ==> n.sessions[s].id == st.sessions[s].id
    {
    }
  }

  lemma LogMatchesStep(st: State, step: Step)
    requires LogMatches(st) && Enabled(st, step)
    ensures LogMatches(Next(st, step))
  {
    if step.TakeOver? {
      LogMatchesAttach(st, step.s);
    } else if step.Leave? {
      LogMatchesDetach(st, step.s);
    } else {
      LogMatchesQuiet(st, step);
    }
  }

  lemma OwnerStep(st: State, step: Step)
    requires LogMatches(st) && DriverIsOwner(st) && Enabled(st, step)
    ensures DriverIsOwner(Next(st, step))
  {
    var n := Next(st, step);
    forall id ensures DriverOf(n.reg, id) == Owner(n.log, id) {
      LastAttachedInLog(st.log, id);
      match step
      case Enter(s, addr, caps, now) => DriverAfter(st.reg, Upsert(st.sessions[s].id, addr, caps, now), id);
      case TakeOver(s) =>
        DriverAfter(st.reg, SetDriver(st.sessions[s].id, s), id);
        LastAfter(st.log, Attach(st.sessions[s].id, s), id);
      case Leave(s) =>
        DriverAfter(st.reg, Disconnect(st.sessions[s].id, Some(s)), id);
        LastAfter(st.log, Detach(st.sessions[s].id, s), id);
      case Other(op) => DriverAfter(st.reg, op, id);
      case _ =>
    }
  }

  lemma LosersStep(st: State, step: Step)
    requires LogMatches(st) && DriverIsOwner(st) && LosersAreClosed(st) && Enabled(st, step)
    ensures LosersAreClosed(Next(st, step))
  {
    var n := Next(st, step);
    forall s | Superseded(n, s) ensures s in n.closing || AboutToBeClosed(n, s) {
      var id := n.sessions[s].id;
      match step
      case TakeOver(t) =>
        DriverAfter(st.reg, SetDriver(st.sessions[t].id, t), id);
        if Superseded(st, s) {
          KeepsLoser(st, step, s);
        } else {
          assert In(n, t, Attached(Some(s)));
        }
      case CloseLoser(t) => KeepsLoser(st, step, s);
      case Leave(t) =>
        DriverAfter(st.reg, Disconnect(st.sessions[t].id, Some(t)), id);
        KeepsLoser(st, step, s);
      case Enter(t, addr, caps, now) =>
        DriverAfter(st.reg, Upsert(st.sessions[t].id, addr, caps, now), id);
        KeepsLoser(st, step, s);
      case Other(op) =>
        DriverAfter(st.reg, op, id);
        KeepsLoser(st, step, s);
      case _ => KeepsLoser(st, step, s);
    }
  }

  lemma KeepsLoser(st: State, step: Step, s: Driver)
    requires LosersAreClosed(st) && Enabled(st, step) && Superseded(st, s)
    ensures s in Next(st, step).closing || AboutToBeClosed(Next(st, step), s)
  {
    if s !in st.closing {
      var t :| t != s && In(st, t, Attached(Some(s)));
      assert In(Next(st, step), t, Attached(Some(s))) || step == CloseLoser(t);
    }
  }

  lemma OnlineStep(st: State, step: Step)
    requires DriverImpliesOnline(st.reg) && Enabled(st, step)
    ensures DriverImpliesOnline(Next(st, step).reg)
  {
    match step
    case Enter(s, addr, caps, now) => DriverImpliesOnlineStep(st.reg, Upsert(st.sessions[s].id, addr, caps, now));
    case TakeOver(s) => DriverImpliesOnlineStep(st.reg, SetDriver(st.sessions[s].id, s));
    case Leave(s) => DriverImpliesOnlineStep(st.reg, Disconnect(st.sessions[s].id, Some(s)));
    case Other(op) => DriverImpliesOnlineStep(st.reg, op);
    case _ =>
  }

  lemma InvStep(st: State, step: Step)
    requires Inv(st) && Enabled(st, step)
    ensures Inv(Next(st, step))
  {
    LogMatchesStep(st, step);
    OwnerStep(st, step);
    LosersStep(st, step);
    OnlineStep(st, step);
  }

  lemma {:induction false} InvAlways(st: State, steps: seq<Step>)
    requires Inv(st) && Run(st, steps)
    ensures Inv(End(st, steps))
    decreases steps
  {
    if steps != [] {
      InvStep(st, steps[0]);
      InvAlways(Next(st, steps[0]), steps[1..]);
    }
  }

  // ---- over every interleaving -----------------------------------------------------------

  /** The driver of every lamp is the last session to attach, if that session has not
      torn down, and nobody otherwise; a lamp with a driver is never shown as
      disconnected; and a session that lost its lamp without tearing down has been
      handed to Close, or its successor is just about to do that. */
  lemma NewestConnectionWins(reg: Reg, steps: seq<Step>)
    requires NoDrivers(reg) && Run(Start(reg), steps)
    ensures var st := End(Start(reg), steps);
      && (forall id :: DriverOf(st.reg, id) == Owner(st.log, id))
      && DriverImpliesOnline(st.reg)
      && (forall s :: Superseded(st, s) ==> s in st.closing || AboutToBeClosed(st, s))
  {
    InvAlways(Start(reg), steps);
  }

  predicate NoTakeoverUnderWay(st: State) {
    forall t :: t in st.sessions ==> !st.sessions[t].phase.Attached?
  }

  lemma NobodyIsAboutToBeClosed(st: State)
    requires NoTakeoverUnderWay(st)
    ensures forall s :: !AboutToBeClosed(st, s)
  {
  }

  /** With every goroutine past its takeover, no loser has been forgotten: a session that
      has attached and neither torn down nor been closed owns its lamp. */
  lemma EveryLoserIsClosed(reg: Reg, steps: seq<Step>, s: Driver)
    requires NoDrivers(reg) && Run(Start(reg), steps) && NoTakeoverUnderWay(End(Start(reg), steps))
    requires var st := End(Start(reg), steps); HasAttached(st, s) && !In(st, s, TornDown) && s !in st.closing
    ensures var st := End(Start(reg), steps); Owner(st.log, st.sessions[s].id) == Some(s)
  {
    InvAlways(Start(reg), steps);
    var st := End(Start(reg), steps);
    NobodyIsAboutToBeClosed(st);
    assert DriverOf(st.reg, st.sessions[s].id) == Owner(st.log, st.sessions[s].id);
    assert !Superseded(st, s);
  }

  lemma SupersededStep(st: State, step: Step, s: Driver)
    requires Inv(st) && Enabled(st, step) && HasAttached(st, s) && DriverOf(st.reg, st.sessions[s].id) != Some(s)
    ensures HasAttached(Next(st, step), s) && Next(st, step).sessions[s].id == st.sessions[s].id
    ensures DriverOf(Next(st, step).reg, st.sessions[s].id) != Some(s)
  {
    var id := st.sessions[s].id;
    match step
    case Enter(t, addr, caps, now) => DriverAfter(st.reg, Upsert(st.sessions[t].id, addr, caps, now), id);
    case TakeOver(t) => DriverAfter(st.reg, SetDriver(st.sessions[t].id, t), id);
    case Leave(t) => DriverAfter(st.reg, Disconnect(st.sessions[t].id, Some(t)), id);
    case Other(op) => DriverAfter(st.reg, op, id);
    case _ =>
  }

  /** Once another session has taken its lamp, a session never owns it again, so the
      check in reportDisconnect keeps it from announcing a live lamp as gone. */
  lemma {:induction false} SupersededForGood(st: State, steps: seq<Step>, s: Driver)
    requires Inv(st) && Run(st, steps) && HasAttached(st, s) && DriverOf(st.reg, st.sessions[s].id) != Some(s)
    ensures HasAttached(End(st, steps), s) && End(st, steps).sessions[s].id == st.sessions[s].id
    ensures DriverOf(End(st, steps).reg, st.sessions[s].id) != Some(s)
    decreases steps
  {
    if steps != [] {
      InvStep(st, steps[0]);
      SupersededStep(st, steps[0], s);
      SupersededForGood(Next(st, steps[0]), steps[1..], s);
    }
  }

  ghost predicate AllTornDown(st: State) {
    forall s :: HasAttached(st, s) ==> In(st, s, TornDown)
  }

  lemma NobodyOwns(st: State)
    requires LogMatches(st) && AllTornDown(st)
    ensures forall id :: Owner(st.log, id) == None
  {
    forall id ensures Owner(st.log, id) == None {
      LastAttachedInLog(st.log, id);
      var last := LastAttached(st.log, id);
      if last.Some? {
        assert HasAttached(st, last.value);
        assert In(st, last.value, TornDown);
      }
    }
  }

  /** When every session that attached has torn down, no lamp is left with a driver. */
  lemma AllGoneAllOffline(reg: Reg, steps: seq<Step>)
    requires NoDrivers(reg) && Run(Start(reg), steps) && AllTornDown(End(Start(reg), steps))
    ensures NoDrivers(End(Start(reg), steps).reg)
  {
    InvAlways(Start(reg), steps);
    var st := End(Start(reg), steps);
    NobodyOwns(st);
    forall id | id in st.reg ensures st.reg[id].driver.None? {
      assert DriverOf(st.reg, id) == Owner(st.log, id);
    }
  }
}
