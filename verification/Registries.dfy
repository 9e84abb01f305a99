/** What every critical section of the registry does to the set of known lamps, as
    functions on values, and the laws that relate them. The class in Registry.dfy is
    proved to do exactly this; the concurrent models interleave these functions. */
module Registries {
  import opened Wrappers
  import opened Bulbs
  import Texts

  /** The identity of one live connection (a session). */
  type Driver = nat

  datatype Status = Disconnected | Discovered | Connected

  datatype Bulb = Bulb(
    deviceID: string, name: string, status: Status, state: LightState, desired: Option<LightState>,
    caps: Capabilities, firmware: string, firstSeen: Time, lastSeen: Time, remoteAddr: string,
    driver: Option<Driver>)

  type Reg = map<string, Bulb>

  datatype Op =
    | Upsert(id: string, addr: string, caps: Capabilities, now: Time)
    | Declare(id: string, name: string)
    | Rename(id: string, name: string)
    | SetState(id: string, state: LightState, now: Time)
    | SetDesired(id: string, want: LightState)
    | Touch(id: string, now: Time)
    | SetFirmware(id: string, version: string)
    | SetCapabilities(id: string, caps: Capabilities)
    | SetDriver(id: string, d: Driver)
    | Disconnect(id: string, owner: Option<Driver>)

  datatype Refusal = BlankID | BlankName | UnknownTarget | NameInUse

  datatype Answer =
    | Nothing
    | Entry(bulb: Bulb, isNew: bool)
    | Declared(created: bool, renamed: bool)
    | Adopted(adopted: bool)
    | Refused(why: Refusal)
    | Changes(changes: seq<FieldChange>)
    | Replaced(previous: Option<Driver>)
    | Changed(changed: bool)

  /** What a critical section leaves in the one entry it looks at, whether it called
      the dirty hook, and what it returned. */
  datatype Outcome = Outcome(entry: Option<Bulb>, dirty: bool, answer: Answer)

  datatype Effect = Effect(reg: Reg, dirty: bool, answer: Answer)

  function NewBulb(id: string, name: string, status: Status): Bulb {
    Bulb(id, name, status, ZERO_STATE, None, NO_CAPABILITIES, "", ZERO_TIME, ZERO_TIME, "", None)
  }

  function OnUpsert(e: Option<Bulb>, id: string, addr: string, caps: Capabilities, now: Time): Outcome {
    if e.Some? then
      var b := e.value.(
        lastSeen := now, remoteAddr := addr,
        caps := if caps.known || !e.value.caps.known then caps else e.value.caps,
        status := if e.value.status != Discovered then Connected else Discovered);
      Outcome(Some(b), true, Entry(b, false))
    else
      var b := NewBulb(id, id, Discovered).(caps := caps, firstSeen := now, lastSeen := now, remoteAddr := addr);
      Outcome(Some(b), true, Entry(b, true))
  }

  function Adopt(s: Status): Status {
    if s == Discovered then Connected else s
  }

  function OnDeclare(e: Option<Bulb>, id: string, name: string, taken: bool): Outcome {
    if Texts.Blank(id) then Outcome(e, false, Refused(BlankID))
    else if Texts.Blank(name) then Outcome(e, false, Refused(BlankName))
    else if taken then Outcome(e, false, Refused(NameInUse))
    else if e.None? then Outcome(Some(NewBulb(id, name, Disconnected)), true, Declared(true, false))
    else
      var renamed := e.value.name != name;
      Outcome(Some(e.value.(name := name, status := Adopt(e.value.status))), renamed, Declared(false, renamed))
  }

  function OnRename(e: Option<Bulb>, name: string, taken: bool): Outcome {
    if Texts.Blank(name) then Outcome(e, false, Refused(BlankName))
    else if e.None? then Outcome(e, false, Refused(UnknownTarget))
    else if taken then Outcome(e, false, Refused(NameInUse))
    else
      Outcome(Some(e.value.(name := name, status := Adopt(e.value.status))), true,
              Adopted(e.value.status == Discovered))
  }

  function OnSetState(e: Option<Bulb>, state: LightState, now: Time): Outcome {
    if e.None? then Outcome(e, false, Changes([]))
    else
      var changes := Diff(e.value.state, state);
      Outcome(Some(e.value.(state := state, lastSeen := now, desired := None)), changes != [], Changes(changes))
  }

  function OnSetDesired(e: Option<Bulb>, want: LightState): Outcome {
    Outcome(if e.Some? then Some(e.value.(desired := Some(want))) else e, false, Nothing)
  }

  function OnTouch(e: Option<Bulb>, now: Time): Outcome {
    Outcome(if e.Some? then Some(e.value.(lastSeen := now)) else e, false, Nothing)
  }

  function OnSetFirmware(e: Option<Bulb>, version: string): Outcome {
    if version != "" && e.Some? && e.value.firmware != version then
      Outcome(Some(e.value.(firmware := version)), true, Nothing)
    else Outcome(e, false, Nothing)
  }

  function OnSetCapabilities(e: Option<Bulb>, caps: Capabilities): Outcome {
    if e.None? || (!caps.known && e.value.caps.known) || e.value.caps == caps then
      Outcome(e, false, Changed(false))
    else Outcome(Some(e.value.(caps := caps)), true, Changed(true))
  }

  function OnSetDriver(e: Option<Bulb>, d: Driver): Outcome {
    if e.None? then Outcome(e, false, Replaced(None))
    else
      var online := if e.value.status == Disconnected then Connected else e.value.status;
      Outcome(Some(e.value.(driver := Some(d), status := online)), false, Replaced(e.value.driver))
  }

  function Offline(s: Status): Status {
    if s == Connected then Disconnected else s
  }

  function OnDisconnect(e: Option<Bulb>, owner: Option<Driver>): Outcome {
    if e.None? || (owner.Some? && e.value.driver != owner) then Outcome(e, false, Nothing)
    else
      Outcome(Some(e.value.(driver := None, status := Offline(e.value.status))), true, Nothing)
  }

  function On(e: Option<Bulb>, op: Op, taken: bool): Outcome {
    match op
    case Upsert(id, addr, caps, now) => OnUpsert(e, id, addr, caps, now)
    case Declare(id, name) => OnDeclare(e, id, name, taken)
    case Rename(id, name) => OnRename(e, name, taken)
    case SetState(id, state, now) => OnSetState(e, state, now)
    case SetDesired(id, want) => OnSetDesired(e, want)
    case Touch(id, now) => OnTouch(e, now)
    case SetFirmware(id, version) => OnSetFirmware(e, version)
    case SetCapabilities(id, caps) => OnSetCapabilities(e, caps)
    case SetDriver(id, d) => OnSetDriver(e, d)
    case Disconnect(id, owner) => OnDisconnect(e, owner)
  }

  function Lookup(reg: Reg, id: string): Option<Bulb> {
    if id in reg then Some(reg[id]) else None
  }

  lemma SameLookups(a: Reg, b: Reg)
    requires forall id :: Lookup(a, id) == Lookup(b, id)
    ensures a == b
  {
    assert forall id :: id in a ==> Lookup(a, id) == Some(a[id]);
    assert forall id :: id in b ==> Lookup(b, id) == Some(b[id]);
    assert a.Keys == b.Keys;
  }

  function Put(reg: Reg, id: string, e: Option<Bulb>): Reg {
    if e.Some? then reg[id := e.value] else reg - {id}
  }

  ghost predicate NameTaken(reg: Reg, id: string, name: string) {
    exists other :: other in reg && other != id && reg[other].name == name
  }

  ghost predicate Taken(reg: Reg, op: Op) {
    (op.Declare? || op.Rename?) && NameTaken(reg, op.id, op.name)
  }

  lemma NeverForgets(e: Option<Bulb>, op: Op, taken: bool)
    ensures e.Some? ==> On(e, op, taken).entry.Some?
  {
  }

  /** One critical section of the registry: it looks at one entry and replaces it. */
  ghost function Do(reg: Reg, op: Op): (r: Effect)
    ensures r.reg.Keys >= reg.Keys
    ensures Lookup(r.reg, op.id) == On(Lookup(reg, op.id), op, Taken(reg, op)).entry
    ensures forall other :: other != op.id ==> Lookup(r.reg, other) == Lookup(reg, other)
  {
    var o := On(Lookup(reg, op.id), op, Taken(reg, op));
    NeverForgets(Lookup(reg, op.id), op, Taken(reg, op));
    Effect(Put(reg, op.id, o.entry), o.dirty, o.answer)
  }

  /** A run: critical sections of any number of goroutines, in lock order. */
  ghost function DoAll(reg: Reg, ops: seq<Op>): Reg
    decreases ops
  {
    if ops == [] then reg else DoAll(Do(reg, ops[0]).reg, ops[1..])
  }

  ghost predicate Keyed(reg: Reg) {
    forall id :: id in reg ==> reg[id].deviceID == id
  }

  lemma KeyedStep(reg: Reg, op: Op)
    requires Keyed(reg)
    ensures Keyed(Do(reg, op).reg)
  {
    var r := Do(reg, op).reg;
    forall id | id in r ensures r[id].deviceID == id {
      assert Lookup(r, id) == Some(r[id]);
      if id != op.id {
        assert Lookup(reg, id) == Some(r[id]);
      }
    }
  }

  lemma {:induction false} KeyedAlways(reg: Reg, ops: seq<Op>)
    requires Keyed(reg)
    ensures Keyed(DoAll(reg, ops))
    decreases ops
  {
    if ops != [] {
      KeyedStep(reg, ops[0]);
      KeyedAlways(Do(reg, ops[0]).reg, ops[1..]);
    }
  }

  /** Only an Upsert can bring in an entry without an id: Declare refuses it. */
  lemma EmptyIDExactly(reg: Reg, op: Op)
    ensures "" in Do(reg, op).reg <==> "" in reg || (op.Upsert? && op.id == "")
  {
    assert op.id != "" ==> Lookup(Do(reg, op).reg, "") == Lookup(reg, "");
  }

  predicate NamesItsLamps(ops: seq<Op>) {
    forall i :: 0 <= i < |ops| && ops[i].Upsert? ==> ops[i].id != ""
  }

  lemma {:induction false} NoEmptyIDAlways(reg: Reg, ops: seq<Op>)
    requires "" !in reg && NamesItsLamps(ops)
    ensures "" !in DoAll(reg, ops)
    decreases ops
  {
    if ops != [] {
      EmptyIDExactly(reg, ops[0]);
      NoEmptyIDAlways(Do(reg, ops[0]).reg, ops[1..]);
    }
  }

  // ---- what is written to disk --------------------------------------------------

  /** One entry of the registry file without its two report times. */
  datatype Durable = Durable(name: string, caps: Capabilities, firmware: string, state: LightState, firstSeen: Time)

  function DurableBulb(b: Bulb): Durable {
    Durable(b.name, b.caps, b.firmware, Visible(b.state), b.firstSeen)
  }

  function DurableReg(reg: Reg): map<string, Durable> {
    map id | id in reg :: DurableBulb(reg[id])
  }

  /** A critical section that does not call the dirty hook leaves nothing to save. */
  lemma QuietKeepsDurable(reg: Reg, op: Op)
    requires !Do(reg, op).dirty
    ensures DurableReg(Do(reg, op).reg) == DurableReg(reg)
  {
    var e := Lookup(reg, op.id);
    var o := On(e, op, Taken(reg, op));
    if op.SetState? && e.Some? {
      DiffReplays(e.value.state, op.state, e.value.state);
    }
    assert e.Some? == o.entry.Some?;
    assert e.Some? ==> DurableBulb(o.entry.value) == DurableBulb(e.value);
    var r := Do(reg, op).reg;
    forall id | id in reg ensures id in r && DurableBulb(r[id]) == DurableBulb(reg[id]) {
      assert id != op.id ==> Lookup(r, id) == Lookup(reg, id);
    }
    assert r.Keys == reg.Keys;
  }

  // ---- names ----------------------------------------------------------------------

  ghost predicate NamesDistinct(reg: Reg) {
    forall a, b :: a in reg && b in reg && reg[a].name == reg[b].name ==> a == b
  }

  /** Upsert gives a new lamp its id as name without looking at the other names. */
  ghost predicate ClashingUpsert(reg: Reg, op: Op) {
    op.Upsert? && op.id !in reg && NameTaken(reg, op.id, op.id)
  }

  /** The name an entry ends up with is its old one, or one that was checked or an id. */
  lemma NameAfter(e: Option<Bulb>, op: Op, taken: bool)
    ensures var o := On(e, op, taken).entry;
      o.Some? ==> || (e.Some? && o.value.name == e.value.name)
                  || ((op.Declare? || op.Rename?) && !taken && o.value.name == op.name)
                  || (op.Upsert? && e.None? && o.value.name == op.id)
  {
  }

  /** One step keeps the names distinct exactly when it is not a first connection
      whose id another lamp already bears as its name. */
  lemma NamesStayDistinct(reg: Reg, op: Op)
    requires NamesDistinct(reg)
    ensures NamesDistinct(Do(reg, op).reg) <==> !ClashingUpsert(reg, op)
  {
    var r := Do(reg, op).reg;
    NameAfter(Lookup(reg, op.id), op, Taken(reg, op));
    assert forall id :: id != op.id ==> Lookup(r, id) == Lookup(reg, id);
    if ClashingUpsert(reg, op) {
      var other :| other in reg && other != op.id && reg[other].name == op.id;
      assert Lookup(r, other) == Lookup(reg, other);
      assert r[other].name == r[op.id].name;
    } else {
      forall a, b | a in r && b in r && r[a].name == r[b].name ensures a == b {
        assert a != op.id ==> Lookup(r, a) == Lookup(reg, a);
        assert b != op.id ==> Lookup(r, b) == Lookup(reg, b);
      }
    }
  }

  ghost predicate NoClash(reg: Reg, ops: seq<Op>)
    decreases ops
  {
    ops == [] || (!ClashingUpsert(reg, ops[0]) && NoClash(Do(reg, ops[0]).reg, ops[1..]))
  }

  /** Names are distinct in every state of the run. */
  ghost predicate DistinctThroughout(reg: Reg, ops: seq<Op>)
    decreases ops
  {
    NamesDistinct(reg) && (ops == [] || DistinctThroughout(Do(reg, ops[0]).reg, ops[1..]))
  }

  /** They are exactly when no Upsert of the run clashes. */
  lemma {:induction false} NamesDistinctAlways(reg: Reg, ops: seq<Op>)
    requires NamesDistinct(reg)
    ensures DistinctThroughout(reg, ops) <==> NoClash(reg, ops)
    ensures NoClash(reg, ops) ==> NamesDistinct(DoAll(reg, ops))
    decreases ops
  {
    if ops != [] {
      NamesStayDistinct(reg, ops[0]);
      if !ClashingUpsert(reg, ops[0]) {
        NamesDistinctAlways(Do(reg, ops[0]).reg, ops[1..]);
      }
    }
  }

  /** The clash is reachable from an empty registry: adopt one lamp under the id of
      another, then let that other one connect for the first time. */
  lemma NamesCanClash(a: string, b: string)
    requires a != b && !Texts.Blank(b)
    ensures var r1 := Do(map[], Upsert(a, "", NO_CAPABILITIES, 0)).reg;
      var r2 := Do(r1, Rename(a, b)).reg;
      !NamesDistinct(Do(r2, Upsert(b, "", NO_CAPABILITIES, 1)).reg)
  {
    var u := Upsert(a, "", NO_CAPABILITIES, 0);
    var n := Rename(a, b);
    var v := Upsert(b, "", NO_CAPABILITIES, 1);
    var r1 := Do(map[], u).reg;
    assert r1.Keys == {a};
    assert !Taken(r1, n);
    var r2 := Do(r1, n).reg;
    assert r2.Keys == {a} && Lookup(r2, a).value.name == b;
    assert ClashingUpsert(r2, v);
    NamesStayDistinct(r2, v);
  }

  // ---- who is online ----------------------------------------------------------------

  ghost predicate DriverImpliesOnline(reg: Reg) {
    forall id :: id in reg && reg[id].driver.Some? ==> reg[id].status != Disconnected
  }

  lemma DriverImpliesOnlineStep(reg: Reg, op: Op)
    requires DriverImpliesOnline(reg)
    ensures DriverImpliesOnline(Do(reg, op).reg)
  {
    var r := Do(reg, op).reg;
    forall id | id in r && r[id].driver.Some? ensures r[id].status != Disconnected {
      assert id != op.id ==> Lookup(r, id) == Lookup(reg, id);
    }
  }

  /** Connected on paper, with no connection behind it. */
  predicate Phantom(e: Option<Bulb>) {
    e.Some? && e.value.status == Connected && e.value.driver.None?
  }

  /** The steps that show a lamp as connected although nothing is attached to it: the
      first half of a reconnect, and naming a discovered lamp that has gone offline. */
  predicate MakesPhantom(e: Option<Bulb>, op: Op, taken: bool) {
    && e.Some? && e.value.driver.None?
    && ( || (op.Upsert? && e.value.status == Disconnected)
         || ((op.Rename? || op.Declare?) && e.value.status == Discovered && !On(e, op, taken).answer.Refused?))
  }

  /** Connected without a connection appears through exactly those steps, and goes
      away exactly when a connection attaches or an unconditional Disconnect runs. */
  lemma PhantomExactly(reg: Reg, op: Op, id: string)
    requires DriverImpliesOnline(reg)
    ensures !Phantom(Lookup(reg, id)) ==>
              (Phantom(Lookup(Do(reg, op).reg, id)) <==>
               op.id == id && MakesPhantom(Lookup(reg, id), op, Taken(reg, op)))
    ensures Phantom(Lookup(reg, id)) ==>
              (Phantom(Lookup(Do(reg, op).reg, id)) <==>
               !(op.id == id && (op.SetDriver? || (op.Disconnect? && op.owner.None?))))
  {
    assert id != op.id ==> Lookup(Do(reg, op).reg, id) == Lookup(reg, id);
  }

  /** A late teardown: only the connection that owns the lamp takes it offline; every
      other one changes nothing and does not even schedule a save. */
  lemma DisconnectOnlyByOwner(reg: Reg, id: string, d: Driver)
    ensures Do(reg, Disconnect(id, Some(d))) == Effect(reg, false, Nothing)
            <==> !(id in reg && reg[id].driver == Some(d))
  {
    if id in reg && reg[id].driver != Some(d) {
      assert Do(reg, Disconnect(id, Some(d))).reg == reg;
    }
  }

  // ---- what moves each field ----------------------------------------------------------

  /** The lamp is named by this step: by the terminal, Home Assistant or the configuration,
      and not refused. */
  ghost predicate Names(reg: Reg, op: Op, id: string) {
    op.id == id && (op.Rename? || op.Declare?) && !Do(reg, op).answer.Refused?
  }

  /** When a name is refused, and why: the first of the reasons that hold. */
  lemma RefusedExactly(reg: Reg, op: Op)
    ensures Do(reg, op).answer.Refused? ==> op.Rename? || op.Declare?
    ensures op.Declare? ==>
              var why := Do(reg, op).answer;
              && (why == Refused(BlankID) <==> Texts.Blank(op.id))
              && (why == Refused(BlankName) <==> !Texts.Blank(op.id) && Texts.Blank(op.name))
              && (why == Refused(NameInUse) <==>
                    !Texts.Blank(op.id) && !Texts.Blank(op.name) && NameTaken(reg, op.id, op.name))
              && why != Refused(UnknownTarget)
    ensures op.Rename? ==>
              var why := Do(reg, op).answer;
              && (why == Refused(BlankName) <==> Texts.Blank(op.name))
              && (why == Refused(UnknownTarget) <==> !Texts.Blank(op.name) && op.id !in reg)
              && (why == Refused(NameInUse) <==>
                    !Texts.Blank(op.name) && op.id in reg && NameTaken(reg, op.id, op.name))
              && why != Refused(BlankID)
    ensures Do(reg, op).answer.Refused? ==> Do(reg, op).reg == reg && !Do(reg, op).dirty
  {
    if Do(reg, op).answer.Refused? {
      SameLookups(Do(reg, op).reg, reg);
    }
  }

  /** What the other answers mean to the caller. */
  lemma AnswersMean(reg: Reg, op: Op)
    ensures var answer := Do(reg, op).answer;
      && (op.Upsert? ==> answer == Entry(Do(reg, op).reg[op.id], op.id !in reg))
      && (Names(reg, op, op.id) && op.Declare? ==>
            answer == Declared(op.id !in reg, op.id in reg && reg[op.id].name != op.name))
      && (Names(reg, op, op.id) && op.Rename? ==> answer == Adopted(reg[op.id].status == Discovered))
      && (op.SetState? && op.id !in reg ==> answer == Changes([]))
      && (op.SetState? && op.id in reg ==> answer.Changes? && Tells(answer.changes, reg[op.id].state, op.state))
      && (op.SetCapabilities? ==>
            answer == Changed(op.id in reg && Do(reg, op).reg[op.id].caps != reg[op.id].caps))
  {
    if op.SetState? && op.id in reg {
      DiffTells(reg[op.id].state, op.state);
    }
  }

  /** Every field of a known lamp, and the steps that move it. */
  lemma FieldsMoveOnlySo(reg: Reg, op: Op, id: string)
    requires id in reg
    ensures id in Do(reg, op).reg
    ensures var a, b, mine := reg[id], Do(reg, op).reg[id], op.id == id;
      && b.deviceID == a.deviceID && b.firstSeen == a.firstSeen
      && b.name == (if Names(reg, op, id) then op.name else a.name)
      && b.state == (if mine && op.SetState? then op.state else a.state)
      && b.desired == (if mine && op.SetDesired? then Some(op.want)
                       else if mine && op.SetState? then None else a.desired)
      && b.caps == (if mine && (op.Upsert? || op.SetCapabilities?) && (op.caps.known || !a.caps.known) then op.caps
                    else a.caps)
      && b.firmware == (if mine && op.SetFirmware? && op.version != "" then op.version else a.firmware)
      && b.lastSeen == (if mine && (op.Upsert? || op.SetState? || op.Touch?) then op.now else a.lastSeen)
      && b.remoteAddr == (if mine && op.Upsert? then op.addr else a.remoteAddr)
  {
    assert Lookup(Do(reg, op).reg, id)
        == if id == op.id then On(Some(reg[id]), op, Taken(reg, op)).entry else Lookup(reg, id);
  }

  /** How a lamp that was not known begins: discovered by its connection under its id as
      name, or declared, adopted and offline. Nothing else brings one in. */
  lemma EntriesBeginOnlySo(reg: Reg, op: Op, id: string)
    requires id !in reg
    ensures id in Do(reg, op).reg <==> op.id == id && (op.Upsert? || Names(reg, op, id))
    ensures id in Do(reg, op).reg ==>
              var b := Do(reg, op).reg[id];
              && b.deviceID == id && b.state == LightState(false, 0, 0, White, 0)
              && b.desired == None && b.firmware == ""
              && b.driver == None
              && (op.Upsert? ==>
                    b.name == id && b.status == Discovered && b.caps == op.caps && b.remoteAddr == op.addr
                    && b.firstSeen == b.lastSeen == op.now)
              && (op.Declare? ==>
                    b.name == op.name && b.status == Disconnected
                    && b.caps == Capabilities(false, false, false, 0)
                    && b.remoteAddr == "" && b.firstSeen == b.lastSeen == 0)
  {
    assert Lookup(Do(reg, op).reg, id) == if id == op.id then On(None, op, Taken(reg, op)).entry else None;
  }

  /** The dirty hook is called by every Upsert, every accepted rename and every effective
      Disconnect, and otherwise exactly when there is something new to save. */
  lemma DirtyExactly(reg: Reg, op: Op)
    ensures Do(reg, op).dirty <==>
              || op.Upsert? || (op.Rename? && Names(reg, op, op.id))
              || (op.Disconnect? && op.id in reg && (op.owner.None? || reg[op.id].driver == op.owner))
              || DurableReg(Do(reg, op).reg) != DurableReg(reg)
  {
    if !Do(reg, op).dirty {
      QuietKeepsDurable(reg, op);
    } else if op.id in reg {
      var r := Do(reg, op).reg;
      assert Lookup(r, op.id) == On(Some(reg[op.id]), op, Taken(reg, op)).entry;
      assert DurableReg(r)[op.id] == DurableBulb(r[op.id]) && DurableReg(reg)[op.id] == DurableBulb(reg[op.id]);
      if op.SetState? {
        DiffReplays(reg[op.id].state, op.state, reg[op.id].state);
      }
    } else if !op.Upsert? {
      EntriesBeginOnlySo(reg, op, op.id);
      assert op.id in DurableReg(Do(reg, op).reg) && op.id !in DurableReg(reg);
    }
  }

  // ---- adoption -------------------------------------------------------------------------

  predicate Unadopted(reg: Reg, id: string) {
    id in reg && reg[id].status == Discovered
  }

  /** A lamp becomes discovered by exactly the first connection of an unknown id, and stops
      being so by exactly being named. */
  lemma DiscoveredStep(reg: Reg, op: Op, id: string)
    ensures Unadopted(reg, id) ==> (Unadopted(Do(reg, op).reg, id) <==> !Names(reg, op, id))
    ensures !Unadopted(reg, id) ==>
              (Unadopted(Do(reg, op).reg, id) <==> op.Upsert? && op.id == id && id !in reg)
  {
    assert Lookup(Do(reg, op).reg, id)
        == if id == op.id then On(Lookup(reg, id), op, Taken(reg, op)).entry else Lookup(reg, id);
  }

  /** A lamp that is not waiting to be adopted is online or offline: it comes online by
      connecting, which is what Upsert and SetDriver are, or by being named while it was
      discovered, and goes offline by an effective Disconnect. */
  lemma OnlineStep(reg: Reg, op: Op, id: string)
    requires id in reg && reg[id].status != Discovered
    ensures id in Do(reg, op).reg
    ensures var before, after := reg[id].status, Do(reg, op).reg[id].status;
      && (before == Disconnected ==> (after == Connected <==> op.id == id && (op.Upsert? || op.SetDriver?)))
      && (before == Connected ==>
            (after == Disconnected <==>
               op.id == id && op.Disconnect? && (op.owner.None? || reg[id].driver == op.owner)))
      && after != Discovered
  {
    assert Lookup(Do(reg, op).reg, id)
        == if id == op.id then On(Some(reg[id]), op, Taken(reg, op)).entry else Lookup(reg, id);
  }

  ghost predicate NamedAt(reg: Reg, ops: seq<Op>, i: nat, id: string)
    requires i < |ops|
  {
    Names(DoAll(reg, ops[..i]), ops[i], id)
  }

  ghost predicate AppearedAt(reg: Reg, ops: seq<Op>, i: nat, id: string)
    requires i < |ops|
  {
    ops[i].Upsert? && ops[i].id == id && id !in DoAll(reg, ops[..i])
  }

  ghost predicate NotNamedFrom(reg: Reg, ops: seq<Op>, start: nat, id: string) {
    forall i :: start <= i < |ops| ==> !NamedAt(reg, ops, i, id)
  }

  ghost predicate AppearedUnnamed(reg: Reg, ops: seq<Op>, id: string) {
    exists i :: 0 <= i < |ops| && AppearedAt(reg, ops, i, id) && NotNamedFrom(reg, ops, i + 1, id)
  }

  lemma {:induction false} DoAllLast(reg: Reg, ops: seq<Op>)
    requires ops != []
    ensures var n := |ops| - 1; DoAll(reg, ops) == Do(DoAll(reg, ops[..n]), ops[n]).reg
    decreases ops
  {
    var n := |ops| - 1;
    if n > 0 {
      DoAllLast(Do(reg, ops[0]).reg, ops[1..]);
      assert ops[1..][..n - 1] == ops[..n][1..];
    } else {
      assert ops[1..] == [] && ops[..0] == [];
    }
  }

  lemma SameBeginning(reg: Reg, ops: seq<Op>, n: nat, i: nat, id: string)
    requires i < n <= |ops|
    ensures NamedAt(reg, ops[..n], i, id) <==> NamedAt(reg, ops, i, id)
    ensures AppearedAt(reg, ops[..n], i, id) <==> AppearedAt(reg, ops, i, id)
  {
    assert ops[..n][..i] == ops[..i];
  }

  lemma UnnamedLast(reg: Reg, ops: seq<Op>, start: nat, id: string)
    requires ops != [] && start < |ops|
    ensures var n := |ops| - 1;
      NotNamedFrom(reg, ops, start, id) <==>
      NotNamedFrom(reg, ops[..n], start, id) && !NamedAt(reg, ops, n, id)
  {
    var n := |ops| - 1;
    forall i | 0 <= i < n ensures NamedAt(reg, ops[..n], i, id) <==> NamedAt(reg, ops, i, id) {
      SameBeginning(reg, ops, n, i, id);
    }
  }

  lemma AppearedLast(reg: Reg, ops: seq<Op>, id: string)
    requires ops != []
    ensures var n := |ops| - 1;
      AppearedUnnamed(reg, ops, id) <==>
      (AppearedUnnamed(reg, ops[..n], id) && !NamedAt(reg, ops, n, id)) || AppearedAt(reg, ops, n, id)
  {
    var n := |ops| - 1;
    if AppearedAt(reg, ops, n, id) {
      assert NotNamedFrom(reg, ops, n + 1, id);
    }
    forall i | 0 <= i < n
      ensures AppearedAt(reg, ops, i, id) && NotNamedFrom(reg, ops, i + 1, id) <==>
              AppearedAt(reg, ops[..n], i, id) && NotNamedFrom(reg, ops[..n], i + 1, id)
              && !NamedAt(reg, ops, n, id)
    {
      SameBeginning(reg, ops, n, i, id);
      UnnamedLast(reg, ops, i + 1, id);
    }
  }

  /** Over every run, a lamp waits to be adopted exactly when it did so at the start, or
      appeared by its own first connection, and has not been named since. */
  lemma {:induction false} DiscoveredExactly(reg: Reg, ops: seq<Op>, id: string)
    ensures Unadopted(DoAll(reg, ops), id) <==>
              || (Unadopted(reg, id) && NotNamedFrom(reg, ops, 0, id))
              || AppearedUnnamed(reg, ops, id)
    decreases |ops|
  {
    if ops != [] {
      var n := |ops| - 1;
      DiscoveredExactly(reg, ops[..n], id);
      DoAllLast(reg, ops);
      DiscoveredStep(DoAll(reg, ops[..n]), ops[n], id);
      UnnamedLast(reg, ops, 0, id);
      AppearedLast(reg, ops, id);
    }
  }

  // ---- the change stream --------------------------------------------------------------

  /** The changes one critical section reports about one lamp. */
  ghost function Report(reg: Reg, op: Op, id: string): seq<FieldChange> {
    if op.SetState? && op.id == id && id in reg then Diff(reg[id].state, op.state) else []
  }

  /** What a subscriber has been told about one lamp: the change lists SetState
      returned, in lock order. */
  ghost function Told(reg: Reg, ops: seq<Op>, id: string): seq<FieldChange>
    decreases ops
  {
    if ops == [] then [] else Report(reg, ops[0], id) + Told(Do(reg, ops[0]).reg, ops[1..], id)
  }

  /** SetState answers with the report; nothing else touches a known lamp's state. */
  lemma OnlySetStateTouchesState(reg: Reg, op: Op, id: string)
    requires id in reg
    ensures id in Do(reg, op).reg
    ensures op.SetState? && op.id == id ==>
              Do(reg, op).answer == Changes(Report(reg, op, id)) && Do(reg, op).reg[id].state == op.state
    ensures !(op.SetState? && op.id == id) ==> Do(reg, op).reg[id].state == reg[id].state
  {
    assert id != op.id ==> Lookup(Do(reg, op).reg, id) == Lookup(reg, id);
  }

  /** Replaying the change lists reproduces the registry's state for the lamp up to the
      report time, each change starting from the value held at that point, whatever
      else runs in between and for however many sessions. */
  lemma {:induction false} ReplayReproduces(reg: Reg, ops: seq<Op>, id: string, copy: LightState)
    requires id in reg && Visible(copy) == Visible(reg[id].state)
    ensures id in DoAll(reg, ops)
    ensures Visible(ApplyChanges(copy, Told(reg, ops, id))) == Visible(DoAll(reg, ops)[id].state)
    ensures FromsMatch(copy, Told(reg, ops, id))
    decreases ops
  {
    if ops != [] {
      OnlySetStateTouchesState(reg, ops[0], id);
      var r := Do(reg, ops[0]).reg;
      var first := Report(reg, ops[0], id);
      if ops[0].SetState? && ops[0].id == id {
        DiffReplays(reg[id].state, ops[0].state, copy);
      }
      ReplayReproduces(r, ops[1..], id, ApplyChanges(copy, first));
      ApplyChangesAppend(copy, first, Told(r, ops[1..], id));
    }
  }
}
