/** The event bus: every subscriber has a bounded queue that gives up its oldest event
    rather than block a publisher. */
module Bus {
  import opened Wrappers
  import Bulbs

  datatype Kind =
    | StateChanged | Connected | Disconnected | Discovered | CommandResult
    | ProtocolError | DuplicateID | Renamed | Rejected

  datatype Event = Event(
    at: Bulbs.Time, kind: Kind, deviceID: string, name: string, changed: seq<Bulbs.FieldChange>, detail: string)

  // ---- one queue --------------------------------------------------------------------------

  datatype Queue = Queue(depth: nat, items: seq<Event>, dropped: nat)

  predicate Sound(q: Queue) {
    q.depth >= 1 && |q.items| <= q.depth
  }

  predicate Full(q: Queue) {
    |q.items| >= q.depth
  }

  function Push(q: Queue, e: Event): Queue {
    q.(items := q.items + [e])
  }

  /** The second select of offer: the oldest event goes, and is counted. */
  function Evict(q: Queue): Queue {
    if q.items == [] then q else q.(items := q.items[1..], dropped := q.dropped + 1)
  }

  /** The last select: e goes in, or is itself counted as dropped. */
  function LastTry(q: Queue, e: Event): Queue {
    if Full(q) then q.(dropped := q.dropped + 1) else Push(q, e)
  }

  /** How many events do not fit once one more has come. */
  function Excess(q: Queue): nat {
    if |q.items| + 1 > q.depth then |q.items| + 1 - q.depth else 0
  }

  /** What an undisturbed offer leaves: the oldest events give way, as many as do not fit,
      and are counted; the offered one is the newest. */
  ghost predicate TakesIn(before: Queue, e: Event, after: Queue) {
    && after.depth == before.depth
    && after.items == (before.items + [e])[Excess(before)..]
    && after.items != [] && after.items[|after.items| - 1] == e
    && after.dropped == before.dropped + Excess(before)
  }

  class Subscription {
    const depth: nat
    var items: seq<Event>
    var dropped: nat

    predicate Valid()
      reads this
    {
      Sound(Value())
    }

    function Value(): Queue
      reads this
    {
      Queue(depth, items, dropped)
    }

    constructor (wanted: int)
      ensures Valid() && Value() == Queue(if wanted < 1 then 1 else wanted, [], 0)
    {
      depth := if wanted < 1 then 1 else wanted;
      items, dropped := [], 0;
    }

    /** The first select: send if there is room. */
    method TrySend(e: Event) returns (sent: bool)
      requires Valid()
      modifies this
      ensures Valid() && sent == !Full(old(Value()))
      ensures Value() == if sent then Push(old(Value()), e) else old(Value())
    {
      sent := |items| < depth;
      if sent {
        items := items + [e];
      }
    }

    /** The second select: take the oldest event out, if there is one, and count it. */
    method MakeRoom()
      requires Valid()
      modifies this
      ensures Valid() && Value() == Evict(old(Value()))
    {
      if |items| > 0 {
        items := items[1..];
        dropped := dropped + 1;
      }
    }

    /** The third select: send, or count the event itself. */
    method SendOrCount(e: Event)
      requires Valid()
      modifies this
      ensures Valid() && Value() == LastTry(old(Value()), e)
    {
      if |items| < depth {
        items := items + [e];
      } else {
        dropped := dropped + 1;
      }
    }

    /** offer, when nobody else touches the queue in between. */
    method Offer(e: Event)
      requires Valid()
      modifies this
      ensures Valid() && TakesIn(old(Value()), e, Value())
    {
      var sent := TrySend(e);
      if sent {
        return;
      }
      MakeRoom();
      SendOrCount(e);
    }

    method Receive() returns (e: Option<Event>)
      requires Valid()
      modifies this
      ensures Valid() && dropped == old(dropped)
      ensures e.None? <==> old(items) == []
      ensures e.None? ==> items == []
      ensures e.Some? ==> old(items) == [e.value] + items
    {
      if items == [] {
        return None;
      }
      e := Some(items[0]);
      items := items[1..];
    }
  }

  class EventBus {
    var subs: seq<Subscription>
    /** The log, which is the complete record. */
    var logged: seq<Event>

    ghost predicate Valid()
      reads this, subs
    {
      && (forall i, j :: 0 <= i < j < |subs| ==> subs[i] != subs[j])
      && (forall i :: 0 <= i < |subs| ==> subs[i].Valid())
    }

    constructor ()
      ensures Valid() && subs == [] && logged == []
    {
      subs, logged := [], [];
    }

    method Subscribe(depth: int) returns (s: Subscription)
      requires Valid()
      modifies this`subs
      ensures Valid() && fresh(s) && subs == old(subs) + [s]
      ensures s.Value() == Queue(if depth < 1 then 1 else depth, [], 0)
    {
      s := new Subscription(depth);
      subs := subs + [s];
    }

    /** Close of a subscription: it alone leaves the bus, the others keep their order. */
    method Close(s: Subscription)
      requires Valid()
      modifies this`subs
      ensures Valid() && s !in subs
      ensures s !in old(subs) ==> subs == old(subs)
      ensures s in old(subs) ==> exists i :: 0 <= i < |old(subs)| && old(subs)[i] == s
                                             && subs == old(subs)[..i] + old(subs)[i + 1..]
    {
      for i := 0 to |subs|
        invariant subs == old(subs) && s !in subs[..i]
      {
        if subs[i] == s {
          subs := subs[..i] + subs[i + 1..];
          assert old(subs)[i] == s;
          return;
        }
      }
      assert subs == subs[..|subs|];
    }

    /** Every event is logged once and offered to every subscription once, in a pass no
        subscriber can hold up. */
    method Publish(e: Event)
      requires Valid()
      modifies this`logged, subs
      ensures Valid() && subs == old(subs) && logged == old(logged) + [e]
      ensures forall i :: 0 <= i < |subs| ==> TakesIn(old(subs[i].Value()), e, subs[i].Value())
    {
      logged := logged + [e];
      for i := 0 to |subs|
        invariant subs == old(subs) && logged == old(logged) + [e] && Valid()
        invariant forall j :: 0 <= j < i ==> TakesIn(old(subs[j].Value()), e, subs[j].Value())
        invariant forall j :: i <= j < |subs| ==> subs[j].Value() == old(subs[j].Value())
      {
        subs[i].Offer(e);
      }
    }
  }

  // ---- publishers and consumer, interleaved select by select ----------------------------

  /** A publisher inside offer, after a select that did not finish it. */
  datatype Phase = FoundFull(e: Event) | MadeRoom(e: Event)

  /** One subscription with its history: offers finished, events that got into the queue,
      received by the consumer, and dropped, each in the order it happened. */
  datatype State = State(
    q: Queue, pubs: map<nat, Phase>,
    finished: seq<Event>, accepted: seq<Event>, received: seq<Event>, lost: seq<Event>)

  datatype Step = Begin(p: nat, e: Event) | MakeRoom(p: nat) | Finish(p: nat) | Receive

  predicate Enabled(st: State, step: Step) {
    match step
    case Begin(p, e) => p !in st.pubs
    case MakeRoom(p) => p in st.pubs && st.pubs[p].FoundFull?
    case Finish(p) => p in st.pubs && st.pubs[p].MadeRoom?
    case Receive => st.q.items != []
  }

  function Next(st: State, step: Step): State
    requires Enabled(st, step)
  {
    match step
    case Begin(p, e) =>
      if Full(st.q) then st.(pubs := st.pubs[p := FoundFull(e)])
      else st.(q := Push(st.q, e), finished := st.finished + [e], accepted := st.accepted + [e])
    case MakeRoom(p) =>
      st.(q := Evict(st.q), pubs := st.pubs[p := MadeRoom(st.pubs[p].e)],
          lost := if st.q.items == [] then st.lost else st.lost + [st.q.items[0]])
    case Finish(p) =>
      var e := st.pubs[p].e;
      var st' := st.(q := LastTry(st.q, e), pubs := st.pubs - {p}, finished := st.finished + [e]);
      if Full(st.q) then st'.(lost := st.lost + [e]) else st'.(accepted := st.accepted + [e])
    case Receive => st.(q := st.q.(items := st.q.items[1..]), received := st.received + [st.q.items[0]])
  }

  ghost predicate Run(st: State, steps: seq<Step>)
    decreases steps
  {
    steps == [] || (Enabled(st, steps[0]) && Run(Next(st, steps[0]), steps[1..]))
  }

  ghost function End(st: State, steps: seq<Step>): State
    requires Run(st, steps)
    decreases steps
  {
    if steps == [] then st else End(Next(st, steps[0]), steps[1..])
  }

  function Start(depth: nat): State {
    State(Queue(depth, [], 0), map[], [], [], [], [])
  }

  /** Where an offer stands when nobody else takes a step: after Begin if there was room,
      after Begin, MakeRoom and Finish if there was none. */
  ghost function Undisturbed(st: State, p: nat, e: Event): State
    requires p !in st.pubs
  {
    var begun := Next(st, Begin(p, e));
    if p !in begun.pubs then begun else Next(Next(begun, MakeRoom(p)), Finish(p))
  }

  /** The steps of an undisturbed offer do to the queue what Offer is proved to do, and
      nothing else can be what Offer does: so the class and the interleavings are about
      the same offer. */
  lemma OfferIsItsSteps(st: State, p: nat, e: Event, after: Queue)
    requires Sound(st.q) && p !in st.pubs
    ensures TakesIn(st.q, e, after) <==> after == Undisturbed(st, p, e).q
    ensures Undisturbed(st, p, e).pubs == st.pubs
    ensures Undisturbed(st, p, e).accepted == st.accepted + [e]
  {
    var end := Undisturbed(st, p, e);
    assert end.pubs == st.pubs;
    if Full(st.q) {
      assert (st.q.items + [e])[1..] == st.q.items[1..] + [e];
    } else {
      assert (st.q.items + [e])[0..] == st.q.items + [e];
    }
  }

  /** a is b with some elements left out. */
  predicate Subsequence(a: seq<Event>, b: seq<Event>)
    decreases |b|
  {
    a == [] ||
    (b != [] &&
      var n, m := |a| - 1, |b| - 1;
      Subsequence(a, b[..m]) || (a[n] == b[m] && Subsequence(a[..n], b[..m])))
  }

  lemma SubsequenceGrows(a: seq<Event>, b: seq<Event>, e: Event)
    requires Subsequence(a, b)
    ensures Subsequence(a, b + [e]) && Subsequence(a + [e], b + [e])
  {
    assert (b + [e])[..|b|] == b && (a + [e])[..|a|] == a;
  }

  lemma LastOfSum(a: seq<Event>, c: seq<Event>)
    requires c != []
    ensures var n := |c| - 1; a + c == a + c[..n] + [c[n]]
  {
  }

  lemma {:induction false} SubsequenceExtends(a: seq<Event>, b: seq<Event>, c: seq<Event>)
    requires Subsequence(a, b)
    ensures Subsequence(a + c, b + c)
    decreases |c|
  {
    if c == [] {
      assert a + c == a && b + c == b;
    } else {
      var n := |c| - 1;
      SubsequenceExtends(a, b, c[..n]);
      SubsequenceGrows(a + c[..n], b + c[..n], c[n]);
      LastOfSum(a, c);
      LastOfSum(b, c);
    }
  }

  /** How many accepted events have left the queue again. */
  function Gone(st: State): int {
    |st.accepted| - |st.q.items|
  }

  ghost predicate Accounted(st: State) {
    && Sound(st.q) && |st.lost| == st.q.dropped
    && multiset(st.finished) == multiset(st.received) + multiset(st.q.items) + multiset(st.lost)
    && Gone(st) >= 0 && st.q.items == st.accepted[Gone(st)..]
    && Subsequence(st.received, st.accepted[..Gone(st)])
  }

  lemma Pop(items: seq<Event>)
    requires items != []
    ensures multiset(items) == multiset{items[0]} + multiset(items[1..])
  {
    assert items == [items[0]] + items[1..];
  }

  /** The oldest event leaves the queue, for the consumer or for good. */
  lemma OldestLeaves(st: State)
    requires Accounted(st) && st.q.items != []
    ensures var k := Gone(st);
      && multiset(st.q.items) == multiset{st.q.items[0]} + multiset(st.q.items[1..])
      && st.q.items[1..] == st.accepted[k + 1..]
      && Subsequence(st.received, st.accepted[..k + 1])
      && Subsequence(st.received + [st.q.items[0]], st.accepted[..k + 1])
  {
    var k := Gone(st);
    Pop(st.q.items);
    assert st.accepted[..k + 1] == st.accepted[..k] + [st.q.items[0]];
    SubsequenceGrows(st.received, st.accepted[..k], st.q.items[0]);
  }

  /** An event enters the queue. */
  lemma NewestEnters(st: State, e: Event)
    requires Accounted(st)
    ensures var k := Gone(st); var after := st.accepted + [e];
      && st.q.items + [e] == after[k..]
      && Subsequence(st.received, after[..k])
  {
    assert (st.accepted + [e])[..Gone(st)] == st.accepted[..Gone(st)];
  }

  lemma AccountedEnter(st: State, n: State, e: Event)
    requires Accounted(st) && !Full(st.q)
    requires n == st.(q := Push(st.q, e), pubs := n.pubs, finished := st.finished + [e], accepted := st.accepted + [e])
    ensures Accounted(n)
  {
    NewestEnters(st, e);
  }

  lemma AccountedDrop(st: State, n: State, e: Event)
    requires Accounted(st)
    requires n == st.(q := st.q.(dropped := st.q.dropped + 1), pubs := n.pubs,
                      finished := st.finished + [e], lost := st.lost + [e])
    ensures Accounted(n)
  {
  }

  lemma AccountedEvict(st: State, n: State)
    requires Accounted(st) && st.q.items != []
    requires n == st.(q := Evict(st.q), pubs := n.pubs, lost := st.lost + [st.q.items[0]])
    ensures Accounted(n)
  {
    OldestLeaves(st);
  }

  lemma AccountedReceive(st: State, n: State)
    requires Accounted(st) && st.q.items != []
    requires n == st.(q := st.q.(items := st.q.items[1..]), received := st.received + [st.q.items[0]])
    ensures Accounted(n)
  {
    OldestLeaves(st);
  }

  lemma AccountedStep(st: State, step: Step)
    requires Accounted(st) && Enabled(st, step)
    ensures Accounted(Next(st, step))
  {
    var n := Next(st, step);
    match step
    case Begin(p, e) => if !Full(st.q) { AccountedEnter(st, n, e); }
    case MakeRoom(p) => if st.q.items != [] { AccountedEvict(st, n); }
    case Finish(p) =>
      if Full(st.q) { AccountedDrop(st, n, st.pubs[p].e); } else { AccountedEnter(st, n, st.pubs[p].e); }
    case Receive => AccountedReceive(st, n);
  }

  lemma {:induction false} AccountedAlways(st: State, steps: seq<Step>)
    requires Accounted(st) && Run(st, steps)
    ensures Accounted(End(st, steps))
    decreases steps
  {
    if steps != [] {
      AccountedStep(st, steps[0]);
      AccountedAlways(Next(st, steps[0]), steps[1..]);
    }
  }

  /** Conservation, for any interleaving of any number of publishers with the consumer:
      the queue stays within its depth; every finished offer is, event for event, one
      that was received, is queued, or was dropped, and Dropped counts the last kind;
      and what was received followed by what is queued is in the order of acceptance. */
  lemma BusConserves(depth: nat, steps: seq<Step>)
    requires depth >= 1 && Run(Start(depth), steps)
    ensures var st := End(Start(depth), steps);
      && |st.q.items| <= depth == st.q.depth
      && multiset(st.finished) == multiset(st.received) + multiset(st.q.items) + multiset(st.lost)
      && |st.lost| == st.q.dropped
      && |st.finished| == |st.received| + |st.q.items| + st.q.dropped
      && Subsequence(st.received + st.q.items, st.accepted)
  {
    AccountedAlways(Start(depth), steps);
    DepthIsFixed(Start(depth), steps);
    var st := End(Start(depth), steps);
    assert |multiset(st.finished)| == |multiset(st.received)| + |multiset(st.q.items)| + |multiset(st.lost)|;
    SubsequenceExtends(st.received, st.accepted[..Gone(st)], st.q.items);
    assert st.accepted[..Gone(st)] + st.q.items == st.accepted;
  }

  lemma {:induction false} DepthIsFixed(st: State, steps: seq<Step>)
    requires Run(st, steps)
    ensures End(st, steps).q.depth == st.q.depth
    decreases steps
  {
    if steps != [] {
      DepthIsFixed(Next(st, steps[0]), steps[1..]);
    }
  }

  // ---- one publisher -------------------------------------------------------------------------

  ghost predicate OnePublisher(st: State, steps: seq<Step>)
    decreases steps
  {
    steps == [] ||
    (&& Enabled(st, steps[0]) && (steps[0].Begin? ==> st.pubs == map[])
     && OnePublisher(Next(st, steps[0]), steps[1..]))
  }

  ghost predicate EndsInNewest(st: State) {
    st.finished != [] ==>
      var seen := st.received + st.q.items;
      seen != [] && seen[|seen| - 1] == st.finished[|st.finished| - 1]
  }

  ghost predicate Alone(st: State) {
    && Sound(st.q) && st.accepted == st.finished
    && (forall p, r :: p in st.pubs && r in st.pubs ==> p == r)
    && (forall p :: p in st.pubs && st.pubs[p].MadeRoom? ==> !Full(st.q))
    && ((forall p :: p in st.pubs ==> st.pubs[p].FoundFull?) ==> EndsInNewest(st))
  }

  lemma SeenAfterReceive(st: State)
    requires st.q.items != []
    ensures Next(st, Receive).received + Next(st, Receive).q.items == st.received + st.q.items
  {
  }

  lemma AloneEnters(st: State, n: State, e: Event)
    requires n.received == st.received && n.q.items == st.q.items + [e] && n.finished == st.finished + [e]
    ensures EndsInNewest(n)
  {
    assert n.received + n.q.items == st.received + st.q.items + [e];
  }

  lemma AloneStep(st: State, step: Step)
    requires Alone(st) && Enabled(st, step) && (step.Begin? ==> st.pubs == map[])
    ensures Alone(Next(st, step))
  {
    var n := Next(st, step);
    match step
    case Begin(p, e) => if !Full(st.q) { AloneEnters(st, n, e); }
    case MakeRoom(p) => assert n.pubs[p].MadeRoom?;
    case Finish(p) => AloneEnters(st, n, st.pubs[p].e);
    case Receive => SeenAfterReceive(st);
  }

  lemma {:induction false} AloneAlways(st: State, steps: seq<Step>)
    requires Alone(st) && OnePublisher(st, steps)
    ensures Run(st, steps) && Alone(End(st, steps))
    decreases steps
  {
    if steps != [] {
      AloneStep(st, steps[0]);
      AloneAlways(Next(st, steps[0]), steps[1..]);
    }
  }

  /** With one publisher no offered event is itself dropped: everything published was
      accepted, received followed by queued is a subsequence of it, and between offers
      that ends in the newest event, whatever the consumer does. */
  lemma NewestSurvives(depth: nat, steps: seq<Step>)
    requires depth >= 1 && OnePublisher(Start(depth), steps)
    ensures Run(Start(depth), steps)
    ensures var st := End(Start(depth), steps);
      && st.accepted == st.finished
      && Subsequence(st.received + st.q.items, st.finished)
      && (st.pubs == map[] ==> EndsInNewest(st))
  {
    AloneAlways(Start(depth), steps);
    BusConserves(depth, steps);
  }

  // ---- several publishers ----------------------------------------------------------------------

  predicate Enters(st: State, step: Step) {
    (step.Begin? || step.Finish?) && !Full(st.q)
  }

  predicate Leaves(st: State, step: Step) {
    step.Receive? || (step.MakeRoom? && st.q.items != [])
  }

  /** How many events get into the queue during a run. */
  ghost function Entered(st: State, steps: seq<Step>): nat
    requires Run(st, steps)
    decreases steps
  {
    if steps == [] then 0 else (if Enters(st, steps[0]) then 1 else 0) + Entered(Next(st, steps[0]), steps[1..])
  }

  /** How many leave it again, received or evicted. */
  ghost function Left(st: State, steps: seq<Step>): nat
    requires Run(st, steps)
    decreases steps
  {
    if steps == [] then 0 else (if Leaves(st, steps[0]) then 1 else 0) + Left(Next(st, steps[0]), steps[1..])
  }

  lemma {:induction false} QueueBalance(st: State, steps: seq<Step>)
    requires Run(st, steps)
    ensures |End(st, steps).q.items| == |st.q.items| + Entered(st, steps) - Left(st, steps)
    ensures End(st, steps).q.depth == st.q.depth
    decreases steps
  {
    if steps != [] {
      QueueBalance(Next(st, steps[0]), steps[1..]);
    }
  }

  lemma {:induction false} StillToFinish(st: State, steps: seq<Step>, p: nat)
    requires Run(st, steps) && p in st.pubs && st.pubs[p].MadeRoom? && Finish(p) !in steps
    ensures p in End(st, steps).pubs && End(st, steps).pubs[p] == st.pubs[p]
    decreases steps
  {
    if steps != [] {
      StillToFinish(Next(st, steps[0]), steps[1..], p);
    }
  }

  /** Exactly when a publisher loses its own event, for any depth and any number of
      publishers: p found the queue full and makes room, anything at all happens before it
      tries again; its event is then the one dropped if and only if at least as many more
      events entered than left as there was room, which is one place if the queue was
      still full. Otherwise its event is the newest in the queue. */
  lemma LosesOwnEventExactly(st: State, p: nat, between: seq<Step>)
    requires Sound(st.q) && p in st.pubs && st.pubs[p].FoundFull?
    requires Run(Next(st, MakeRoom(p)), between) && Finish(p) !in between
    ensures var made := Next(st, MakeRoom(p));
      var room := st.q.depth - |made.q.items|;
      var before := End(made, between);
      && (Full(st.q) ==> room == 1)
      && Enabled(before, Finish(p))
      && var e, after := st.pubs[p].e, Next(before, Finish(p));
      && after.finished == before.finished + [e]
      && (after == before.(q := before.q.(dropped := before.q.dropped + 1), pubs := after.pubs,
                           finished := after.finished, lost := before.lost + [e])
          <==> Entered(made, between) - Left(made, between) >= room)
      && (after == before.(q := before.q.(items := before.q.items + [e]), pubs := after.pubs,
                           finished := after.finished, accepted := before.accepted + [e])
          <==> Entered(made, between) - Left(made, between) < room)
  {
    var made := Next(st, MakeRoom(p));
    assert made.pubs[p] == MadeRoom(st.pubs[p].e);
    QueueBalance(made, between);
    StillToFinish(made, between, p);
    var before := End(made, between);
    assert (before.lost + [st.pubs[p].e]) != before.lost;
  }

  /** With two publishers that is reached: both find the queue full, and the other one refills
      the place that was made. */
  lemma TwoPublishersCanDropTheNewest(a: Event, b: Event, c: Event)
    ensures var full := Next(Start(1), Begin(0, a));
      var both := Next(Next(full, Begin(1, b)), Begin(2, c));
      var room := Next(Next(both, MakeRoom(1)), MakeRoom(2));
      var end := Next(Next(room, Finish(1)), Finish(2));
      end.finished == [a, b, c] && end.q.items == [b] && end.lost == [a, c]
  {
    var full := Next(Start(1), Begin(0, a));
    var both := Next(Next(full, Begin(1, b)), Begin(2, c));
    var room := Next(Next(both, MakeRoom(1)), MakeRoom(2));
    assert both.q.items == [a] && both.pubs[1] == FoundFull(b) && both.pubs[2] == FoundFull(c);
    assert room.q.items == [] && room.pubs[1] == MadeRoom(b) && room.pubs[2] == MadeRoom(c);
  }
}
