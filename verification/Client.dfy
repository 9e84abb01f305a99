/** The MQTT client: registered filters, packet ids, and the small lock protocol by which
    every filter is subscribed on every connection. */
module Client {
  import opened Wrappers
  import Topics

  // ---- packet ids -----------------------------------------------------------------------

  /** The increment of a 16-bit counter, with the wrap to 0 stepped over. */
  function NextID(id: nat): (r: nat)
    requires id < 0x1_0000
    ensures 1 <= r < 0x1_0000
  {
    var bumped := (id + 1) % 0x1_0000;
    if bumped == 0 then 1 else bumped
  }

  /** The id of the n-th packet that carries one, from a fresh client. */
  function IssuedID(n: nat): (r: nat)
    ensures r < 0x1_0000 && (n == 0 <==> r == 0)
  {
    if n == 0 then 0 else NextID(IssuedID(n - 1))
  }

  lemma NextIDClosed(k: nat)
    ensures NextID(k % 65535 + 1) == (k + 1) % 65535 + 1
  {
    var r := k % 65535;
    assert k == 65535 * (k / 65535) + r;
    if r == 65534 {
      assert k + 1 == 65535 * (k / 65535 + 1);
    }
  }

  lemma {:induction false} IssuedIDClosed(n: nat)
    requires n > 0
    ensures IssuedID(n) == (n - 1) % 65535 + 1
  {
    if n > 1 {
      IssuedIDClosed(n - 1);
      NextIDClosed(n - 2);
    }
  }

  /** The closed form repeats exactly after a multiple of 65535. */
  lemma ClosedFormRepeats(m: nat, n: nat, x: nat, y: nat)
    requires 0 < m <= n && x == (m - 1) % 65535 + 1 && y == (n - 1) % 65535 + 1
    ensures x == y <==> (n - m) % 65535 == 0
  {
    var a, b, c := (m - 1) / 65535, (n - 1) / 65535, (n - m) / 65535;
    assert n - m == 65535 * (b - a) + (y - x);
    assert n - m == 65535 * c + (n - m) % 65535;
  }

  /** Packet ids are never 0, and two packets share one exactly when a multiple of 65535
      ids lies between them. */
  lemma IDsRepeatExactly(m: nat, n: nat)
    requires 0 < m <= n
    ensures IssuedID(m) != 0
    ensures IssuedID(m) == IssuedID(n) <==> (n - m) % 65535 == 0
  {
    IssuedIDClosed(m);
    IssuedIDClosed(n);
    ClosedFormRepeats(m, n, IssuedID(m), IssuedID(n));
  }

  // ---- the fields under the lock ----------------------------------------------------------

  /** A connection and a handler are known by number. */
  datatype Shared = Shared(conn: Option<nat>, handlers: map<string, nat>, packetID: nat)

  function Numbered(sh: Shared): Shared
    requires sh.packetID < 0x1_0000
  {
    sh.(packetID := NextID(sh.packetID))
  }

  function WithHandler(sh: Shared, topic: string, h: nat): Shared {
    sh.(handlers := sh.handlers[topic := h])
  }

  class Client {
    var conn: Option<nat>
    var handlers: map<string, nat>
    var packetID: nat

    function Value(): Shared
      reads this
    {
      Shared(conn, handlers, packetID)
    }

    predicate Valid()
      reads this
    {
      packetID < 0x1_0000
    }

    constructor ()
      ensures Valid() && Value() == Shared(None, map[], 0)
    {
      conn, handlers, packetID := None, map[], 0;
    }

    /** The critical section sendSubscribe and PublishQoS1 share. */
    method TakePacketID() returns (id: nat)
      requires Valid()
      modifies this`packetID
      ensures Valid() && Value() == Numbered(old(Value())) && id == packetID
    {
      packetID := (packetID + 1) % 0x1_0000;
      if packetID == 0 {
        packetID := 1;
      }
      id := packetID;
    }

    /** The critical section of Subscribe. */
    method Register(topic: string, handler: nat) returns (connected: bool)
      modifies this`handlers
      ensures Value() == WithHandler(old(Value()), topic, handler) && connected == conn.Some?
      ensures handlers == old(handlers)[topic := handler]
    {
      handlers := handlers[topic := handler];
      connected := conn.Some?;
    }

    /** The first critical section of session: the connection becomes current and the
        filters are copied in one go. */
    method Connect(k: nat) returns (copied: map<string, nat>)
      modifies this`conn
      ensures Value() == old(Value()).(conn := Some(k)) && copied == handlers
    {
      conn := Some(k);
      copied := map[];
      var rest := handlers.Keys;
      while rest != {}
        invariant rest <= handlers.Keys && conn == Some(k)
        invariant copied.Keys == handlers.Keys - rest
        invariant forall t :: t in copied ==> copied[t] == handlers[t]
        decreases rest
      {
        var t :| t in rest;
        copied := copied[t := handlers[t]];
        rest := rest - {t};
      }
      assert copied == handlers;
    }

    /** Its deferred one. */
    method Disconnect()
      modifies this`conn
      ensures Value() == old(Value()).(conn := None)
    {
      conn := None;
    }

    /** dispatch: a message reaches the handler of some matching filter, in whatever order
        the map is walked, and nobody exactly when no filter matches. */
    method Dispatch(topic: string) returns (handler: Option<nat>)
      ensures handler.Some? ==> exists f :: f in handlers && Topics.Matches(f, topic) && handler.value == handlers[f]
      ensures handler.None? ==> forall f :: f in handlers ==> !Topics.Matches(f, topic)
    {
      var rest := handlers.Keys;
      while rest != {}
        invariant rest <= handlers.Keys
        invariant forall f :: f in handlers && f !in rest ==> !Topics.Matches(f, topic)
        decreases rest
      {
        var f :| f in rest;
        var hit := Topics.TopicMatches(f, topic);
        if hit {
          return Some(handlers[f]);
        }
        rest := rest - {f};
      }
      return None;
    }
  }

  // ---- the interleavings ----------------------------------------------------------------------

  /** Who runs sendSubscribe: a Subscribe call, or the session's resubscription loop. */
  datatype Sender = Caller(p: nat) | Resubscriber

  /** Where sendSubscribe is: f is the filter, and before the connection has been read
      again, k is the one the sender started from. */
  datatype Send = Wanted(f: string, k: nat) | HasID(f: string, k: nat) | Writing(f: string, k: nat)

  datatype Session = Session(k: nat, copied: set<string>, worklist: set<string>, failing: bool)

  datatype Attempt = Attempt(k: nat, f: string, who: Sender, ok: bool)

  datatype State = State(
    sh: Shared, nextConn: nat, session: Option<Session>, sends: map<Sender, Send>,
    attempts: set<Attempt>, issued: seq<nat>)

  datatype Step =
    | Subscribe(p: nat, f: string, h: nat)
    | PublishQoS1
    | Connect
    | Resubscribe(f: string)
    | Number(s: Sender)
    | Look(s: Sender)
    | Write(s: Sender, ok: bool)
    | Disconnect

  predicate Enabled(st: State, step: Step) {
    match step
    case Subscribe(p, f, h) => Caller(p) !in st.sends
    case PublishQoS1 => true
    case Connect => st.session.None?
    case Resubscribe(f) =>
      && st.session.Some? && !st.session.value.failing && f in st.session.value.worklist
      && Resubscriber !in st.sends
    case Number(s) => s in st.sends && st.sends[s].Wanted?
    case Look(s) => s in st.sends && st.sends[s].HasID?
    case Write(s, ok) => s in st.sends && st.sends[s].Writing?
    case Disconnect =>
      && st.session.Some? && Resubscriber !in st.sends
      && (st.session.value.failing || st.session.value.worklist == {})
  }

  /** An error returned by sendSubscribe ends the session; a caller just gets it. */
  function AfterError(session: Option<Session>, s: Sender): Option<Session> {
    if s.Resubscriber? && session.Some? then Some(session.value.(failing := true)) else session
  }

  function Next(st: State, step: Step): State
    requires st.sh.packetID < 0x1_0000 && Enabled(st, step)
  {
    match step
    case Subscribe(p, f, h) =>
      var st' := st.(sh := WithHandler(st.sh, f, h));
      if st.sh.conn.None? then st' else st'.(sends := st.sends[Caller(p) := Wanted(f, st.sh.conn.value)])
    case PublishQoS1 =>
      var sh := Numbered(st.sh);
      st.(sh := sh, issued := st.issued + [sh.packetID])
    case Connect =>
      st.(sh := st.sh.(conn := Some(st.nextConn)), nextConn := st.nextConn + 1,
          session := Some(Session(st.nextConn, st.sh.handlers.Keys, st.sh.handlers.Keys, false)))
    case Resubscribe(f) =>
      var session := st.session.value;
      st.(session := Some(session.(worklist := session.worklist - {f})),
          sends := st.sends[Resubscriber := Wanted(f, session.k)])
    case Number(s) =>
      var sh := Numbered(st.sh);
      st.(sh := sh, issued := st.issued + [sh.packetID], sends := st.sends[s := HasID(st.sends[s].f, st.sends[s].k)])
    case Look(s) =>
      if st.sh.conn.None? then st.(sends := st.sends - {s}, session := AfterError(st.session, s))
      else st.(sends := st.sends[s := Writing(st.sends[s].f, st.sh.conn.value)])
    case Write(s, ok) =>
      st.(sends := st.sends - {s}, attempts := st.attempts + {Attempt(st.sends[s].k, st.sends[s].f, s, ok)},
          session := if ok then st.session else AfterError(st.session, s))
    case Disconnect => st.(sh := st.sh.(conn := None), session := None)
  }

  function Start(): State {
    State(Shared(None, map[], 0), 0, None, map[], {}, [])
  }

  ghost predicate Run(st: State, steps: seq<Step>)
    decreases steps
  {
    steps == [] || (st.sh.packetID < 0x1_0000 && Enabled(st, steps[0]) && Run(Next(st, steps[0]), steps[1..]))
  }

  ghost function End(st: State, steps: seq<Step>): State
    requires Run(st, steps)
    decreases steps
  {
    if steps == [] then st else End(Next(st, steps[0]), steps[1..])
  }

  // ---- what every step keeps ------------------------------------------------------------------

  predicate Counted(st: State) {
    && st.sh.packetID == IssuedID(|st.issued|)
    && forall i :: 0 <= i < |st.issued| ==> st.issued[i] == IssuedID(i + 1)
  }

  /** The current connection is the running session's, connections are never reused, and
      only a running session resubscribes, on its own connection. */
  ghost predicate Aligned(st: State) {
    && st.sh.conn == (if st.session.Some? then Some(st.session.value.k) else None)
    && (st.session.Some? ==> st.session.value.k < st.nextConn)
    && (forall s :: s in st.sends ==> st.sends[s].k < st.nextConn)
    && (forall a :: a in st.attempts ==> a.k < st.nextConn)
    && (Resubscriber in st.sends ==>
          st.session.Some? && !st.session.value.failing && st.sends[Resubscriber].k == st.session.value.k)
  }

  ghost predicate Attempted(st: State, k: nat, f: string) {
    exists a :: a in st.attempts && a.k == k && a.f == f
  }

  ghost predicate Held(st: State, k: nat, f: string) {
    exists s :: s in st.sends && st.sends[s].k == k && st.sends[s].f == f
  }

  /** No registered filter is forgotten on the current connection. */
  ghost predicate Covered(st: State) {
    st.session.Some? ==>
      forall f :: f in st.sh.handlers ==>
        var k := st.session.value.k;
        Attempted(st, k, f) || f in st.session.value.worklist || Held(st, k, f)
  }

  /** A session that goes on has restored every copied filter it is done with, and a
      failure of its own ends it. */
  ghost predicate Restoring(st: State) {
    st.session.Some? && !st.session.value.failing ==>
      var session := st.session.value;
      && (forall f :: f in session.copied ==>
            || f in session.worklist
            || (Resubscriber in st.sends && st.sends[Resubscriber].f == f)
            || Attempt(session.k, f, Resubscriber, true) in st.attempts)
      && (forall f :: Attempt(session.k, f, Resubscriber, false) !in st.attempts)
  }

  lemma CountedStep(st: State, step: Step)
    requires Counted(st) && Enabled(st, step)
    ensures Counted(Next(st, step))
  {
  }

  lemma AlignedStep(st: State, step: Step)
    requires Counted(st) && Aligned(st) && Enabled(st, step)
    ensures Aligned(Next(st, step))
  {
  }

  lemma CoveredStep(st: State, step: Step)
    requires Counted(st) && Aligned(st) && Covered(st) && Enabled(st, step)
    ensures Covered(Next(st, step))
  {
    var n := Next(st, step);
    if n.session.Some? && st.session.Some? {
      var k := n.session.value.k;
      forall f | f in n.sh.handlers
        ensures Attempted(n, k, f) || f in n.session.value.worklist || Held(n, k, f)
      {
        if f in st.sh.handlers && Attempted(st, k, f) {
          var a :| a in st.attempts && a.k == k && a.f == f;
          assert a in n.attempts;
        } else if f in st.sh.handlers && Held(st, k, f) {
          var s :| s in st.sends && st.sends[s].k == k && st.sends[s].f == f;
          HeldOn(st, step, s);
        } else if step.Subscribe? && step.f == f {
          assert n.sends[Caller(step.p)] == Wanted(f, k);
        } else if step.Resubscribe? && step.f == f {
          assert n.sends[Resubscriber] == Wanted(f, k);
        }
      }
    }
  }

  /** A send for the current connection stays held until it has been attempted. */
  lemma HeldOn(st: State, step: Step, s: Sender)
    requires Counted(st) && Aligned(st) && Enabled(st, step)
    requires st.session.Some? && s in st.sends && st.sends[s].k == st.session.value.k
    ensures var n := Next(st, step); var k, f := st.sends[s].k, st.sends[s].f;
      n.session.Some? ==> Attempted(n, k, f) || Held(n, k, f)
  {
    var n := Next(st, step);
    if step.Write? && step.s == s {
      assert Attempt(st.sends[s].k, st.sends[s].f, s, step.ok) in n.attempts;
    } else if n.session.Some? {
      assert s in n.sends && n.sends[s].k == st.sends[s].k && n.sends[s].f == st.sends[s].f;
    }
  }

  lemma RestoringStep(st: State, step: Step)
    requires Counted(st) && Aligned(st) && Restoring(st) && Enabled(st, step)
    ensures Restoring(Next(st, step))
  {
  }

  ghost predicate Inv(st: State) {
    Counted(st) && Aligned(st) && Covered(st) && Restoring(st)
  }

  lemma {:induction false} InvAlways(st: State, steps: seq<Step>)
    requires Inv(st) && Run(st, steps)
    ensures Inv(End(st, steps))
    decreases steps
  {
    if steps != [] {
      CountedStep(st, steps[0]);
      AlignedStep(st, steps[0]);
      CoveredStep(st, steps[0]);
      RestoringStep(st, steps[0]);
      InvAlways(Next(st, steps[0]), steps[1..]);
    }
  }

  /** Over every interleaving of Subscribe calls, publications, connects and disconnects:
      while a connection is current, each registered filter has had its SUBSCRIBE attempted
      on it, or is still in the session's copied worklist, or is held by a sender that
      started from this connection; once nobody is under way, each was sent, or its
      Subscribe call returned the error. */
  lemma NoFilterIsForgotten(steps: seq<Step>, f: string)
    requires Run(Start(), steps)
    ensures var st := End(Start(), steps);
      st.sh.conn.Some? && f in st.sh.handlers ==>
        var k := st.sh.conn.value;
        && st.session.Some?
        && (Attempted(st, k, f) || f in st.session.value.worklist || Held(st, k, f))
        && (st.sends == map[] && st.session.value.worklist == {} && !st.session.value.failing ==>
              exists a :: a in st.attempts && a.k == k && a.f == f && (a.ok || a.who.Caller?))
  {
    InvAlways(Start(), steps);
    var st := End(Start(), steps);
    if st.sh.conn.Some? && f in st.sh.handlers && Attempted(st, st.sh.conn.value, f) && !st.session.value.failing {
      var a :| a in st.attempts && a.k == st.sh.conn.value && a.f == f;
      assert a == Attempt(a.k, f, a.who, a.ok);
    }
  }

  lemma {:induction false} RunSplits(st: State, a: seq<Step>, b: seq<Step>)
    requires Run(st, a + b)
    ensures Run(st, a) && Run(End(st, a), b) && End(End(st, a), b) == End(st, a + b)
    decreases a
  {
    if a == [] {
      assert a + b == b;
    } else {
      assert (a + b)[1..] == a[1..] + b;
      RunSplits(Next(st, a[0]), a[1..], b);
    }
  }

  /** A connection's copy of the filters is made once. */
  lemma {:induction false} CopiedOnce(st: State, steps: seq<Step>, k: nat)
    requires Inv(st) && Run(st, steps) && k < st.nextConn
    ensures var n := End(st, steps);
      n.session.Some? && n.session.value.k == k ==>
        st.session.Some? && st.session.value.k == k && n.session.value.copied == st.session.value.copied
    decreases steps
  {
    if steps != [] {
      CountedStep(st, steps[0]);
      AlignedStep(st, steps[0]);
      CoveredStep(st, steps[0]);
      RestoringStep(st, steps[0]);
      CopiedOnce(Next(st, steps[0]), steps[1..], k);
    }
  }

  /** Every filter registered before a connect is sent again on that connection by the
      session itself, unless it is still in the worklist, this very filter is being sent,
      or the session ends in an error. */
  lemma ReconnectRestores(before: seq<Step>, after: seq<Step>, f: string)
    requires Run(Start(), before + [Connect] + after)
    requires Run(Start(), before) && f in End(Start(), before).sh.handlers
    ensures var k := End(Start(), before).nextConn;
      var st := End(Start(), before + [Connect] + after);
      st.sh.conn == Some(k) && st.session.Some? && !st.session.value.failing ==>
        || f in st.session.value.worklist
        || (Resubscriber in st.sends && st.sends[Resubscriber].f == f)
        || Attempt(k, f, Resubscriber, true) in st.attempts
  {
    var st := End(Start(), before);
    assert before + [Connect] + after == before + ([Connect] + after);
    RunSplits(Start(), before, [Connect] + after);
    InvAlways(Start(), before);
    assert ([Connect] + after)[1..] == after;
    var up := Next(st, Connect);
    CountedStep(st, Connect);
    AlignedStep(st, Connect);
    CoveredStep(st, Connect);
    RestoringStep(st, Connect);
    InvAlways(up, after);
    CopiedOnce(up, after, st.nextConn);
  }

  /** The session's own resubscription never finds itself without its connection. */
  lemma ResubscriberHasItsConnection(steps: seq<Step>)
    requires Run(Start(), steps)
    ensures var st := End(Start(), steps);
      Resubscriber in st.sends ==> st.sh.conn == Some(st.sends[Resubscriber].k)
  {
    InvAlways(Start(), steps);
  }

  /** Whoever asks, in whatever order, ids are never 0 and repeat only 65535 issues on. */
  lemma PacketIDsAreDistinct(steps: seq<Step>, i: nat, j: nat)
    requires Run(Start(), steps) && i < j < |End(Start(), steps).issued|
    ensures var ids := End(Start(), steps).issued;
      && 1 <= ids[i] <= 65535
      && (ids[i] == ids[j] <==> (j - i) % 65535 == 0)
  {
    InvAlways(Start(), steps);
    IDsRepeatExactly(i + 1, j + 1);
  }
}
