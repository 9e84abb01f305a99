/** Commands in flight on one session: each is registered under its id and its seq, may
    be confirmed through either, and cleans up after itself, while the read loop and any
    number of callers race. */
module Confirm {
  import opened Wrappers

  // ---- ids ------------------------------------------------------------------------------

  function Digit(n: nat): char
    requires n < 10
  {
    '0' + n as char
  }

  /** strconv.FormatInt of a non-negative number. */
  function Decimal(n: nat): (s: string)
    ensures |s| >= 1
  {
    if n < 10 then [Digit(n)] else Decimal(n / 10) + [Digit(n % 10)]
  }

  lemma {:induction false} DecimalInjective(m: nat, n: nat)
    ensures Decimal(m) == Decimal(n) ==> m == n
  {
    if m >= 10 && n >= 10 {
      DecimalInjective(m / 10, n / 10);
      var a, b := Decimal(m), Decimal(n);
      assert a[..|a| - 1] == Decimal(m / 10) && b[..|b| - 1] == Decimal(n / 10);
      assert a[|a| - 1] == Digit(m % 10) && b[|b| - 1] == Digit(n % 10);
    }
  }

  /** The number a decimal text stands for. */
  function DecimalValue(s: string): int {
    if s == [] then 0 else DecimalValue(s[..|s| - 1]) * 10 + (s[|s| - 1] as int - '0' as int)
  }

  /** The text is made of digits, stands for the number, and has no zero to spare in front. */
  lemma {:induction false} DecimalMeans(n: nat)
    ensures var s := Decimal(n);
      && DecimalValue(s) == n && (forall i :: 0 <= i < |s| ==> '0' <= s[i] <= '9')
      && (|s| > 1 ==> s[0] != '0')
  {
    var s := Decimal(n);
    if n >= 10 {
      DecimalMeans(n / 10);
      assert s[..|s| - 1] == Decimal(n / 10);
      assert |Decimal(n / 10)| == 1 ==> n / 10 < 10;
    } else {
      assert s[..0] == [];
    }
  }

  const ID_MODULUS := 1000000000

  /** The id and the seq of a command encoded at a time in milliseconds. */
  function ID(millis: nat): string {
    Decimal(millis % ID_MODULUS)
  }

  function Seq(millis: nat): string {
    "10000@" + Decimal(millis)
  }

  /** The id is the last nine decimal digits of the time, the seq all of it after a mark. */
  lemma IDsMean(millis: nat)
    ensures DecimalValue(ID(millis)) == millis % 1000000000 && |ID(millis)| <= 9
    ensures |Seq(millis)| > 6 && Seq(millis)[..6] == "10000@" && DecimalValue(Seq(millis)[6..]) == millis
  {
    DecimalMeans(millis % 1000000000);
    DecimalMeans(millis);
    DecimalLength(millis % 1000000000, 9);
    assert Seq(millis)[6..] == Decimal(millis);
  }

  function Pow10(k: nat): nat {
    if k == 0 then 1 else 10 * Pow10(k - 1)
  }

  lemma {:induction false} DecimalLength(n: nat, k: nat)
    requires 0 < k && n < Pow10(k)
    ensures |Decimal(n)| <= k
  {
    if n >= 10 {
      assert k > 1 by { assert Pow10(1) == 10; }
      DecimalLength(n / 10, k - 1);
    }
  }

  /** Two commands share an id exactly when they were encoded a multiple of 10^9 ms apart,
      so distinct milliseconds less than that apart never do; they share a seq only when
      encoded in the same millisecond. */
  lemma IDsDiffer(a: nat, b: nat)
    ensures ID(a) == ID(b) <==> a % 1000000000 == b % 1000000000
    ensures a != b && -1000000000 < a - b < 1000000000 ==> ID(a) != ID(b)
    ensures Seq(a) == Seq(b) <==> a == b
  {
    DecimalInjective(a % ID_MODULUS, b % ID_MODULUS);
    DecimalInjective(a, b);
    if Seq(a) == Seq(b) {
      assert Seq(a)[6..] == Decimal(a) && Seq(b)[6..] == Decimal(b);
    }
  }

  // ---- the session's own fields --------------------------------------------------------------

  /** What arrives on a command's channel: nil, or the code the lamp refused with. */
  datatype Outcome = Confirmed | Refused(code: int)

  function AckOutcome(code: int): Outcome {
    if code == 200 then Confirmed else Refused(code)
  }

  /** A buffered channel of one slot: the second value is dropped, nobody waits. */
  function Delivered(slot: Option<Outcome>, o: Outcome): Option<Outcome> {
    if slot.None? then Some(o) else slot
  }

  datatype Maps<C> = Maps(pending: map<string, C>, pendingSeq: map<string, C>)

  function Registered<C>(m: Maps<C>, id: string, seq_: string, c: C): Maps<C> {
    Maps(m.pending[id := c], m.pendingSeq[seq_ := c])
  }

  function Unregistered<C>(m: Maps<C>, id: string, seq_: string): Maps<C> {
    Maps(m.pending - {id}, m.pendingSeq - {seq_})
  }

  class PendingCommand {
    const id: string
    const seq_: string
    var done: Option<Outcome>

    constructor (millis: nat)
      ensures id == ID(millis) && seq_ == Seq(millis) && done == None
    {
      id, seq_, done := ID(millis), Seq(millis), None;
    }

    method Deliver(o: Outcome)
      modifies this
      ensures done == Delivered(old(done), o)
    {
      if done.None? {
        done := Some(o);
      }
    }
  }

  class Session {
    var pending: map<string, PendingCommand>
    var pendingSeq: map<string, PendingCommand>
    var closed: bool
    var reported: bool
    /** The reports of this connection, by how much each changed, and which were published. */
    ghost var heard: seq<nat>
    ghost var published: seq<bool>

    /** The first report of the connection is always published, a later one exactly when
        it changes something. */
    ghost predicate Valid()
      reads this
    {
      && reported == (heard != [])
      && |published| == |heard|
      && forall i :: 0 <= i < |heard| ==> published[i] == (i == 0 || heard[i] > 0)
    }

    function InFlight(): Maps<PendingCommand>
      reads this
    {
      Maps(pending, pendingSeq)
    }

    constructor ()
      ensures InFlight() == Maps(map[], map[]) && !closed
      ensures Valid() && heard == []
    {
      pending, pendingSeq, closed, reported := map[], map[], false, false;
      heard, published := [], [];
    }

    /** The first critical section of applyOne. */
    method Register(wait: PendingCommand) returns (ok: bool)
      modifies this`pending, this`pendingSeq
      ensures ok == !closed
      ensures InFlight() == if ok then Registered(old(InFlight()), wait.id, wait.seq_, wait) else old(InFlight())
    {
      if closed {
        return false;
      }
      pending := pending[wait.id := wait];
      pendingSeq := pendingSeq[wait.seq_ := wait];
      return true;
    }

    /** Its deferred cleanup. */
    method Unregister(wait: PendingCommand)
      modifies this`pending, this`pendingSeq
      ensures InFlight() == Unregistered(old(InFlight()), wait.id, wait.seq_)
    {
      pending := pending - {wait.id};
      pendingSeq := pendingSeq - {wait.seq_};
    }

    /** An acknowledgement reaches the command registered under its id, and no other. */
    method CompleteCommand(id: string, code: int)
      modifies pending.Values
      ensures id in pending ==> pending[id].done == Delivered(old(pending[id].done), AckOutcome(code))
      ensures forall w :: w in pending.Values && (id in pending ==> w != pending[id]) ==> w.done == old(w.done)
    {
      if id in pending {
        pending[id].Deliver(AckOutcome(code));
      }
    }

    method CompleteBySeq(seq_: string)
      modifies pendingSeq.Values
      ensures seq_ != "" && seq_ in pendingSeq ==>
                pendingSeq[seq_].done == Delivered(old(pendingSeq[seq_].done), Confirmed)
      ensures forall w :: w in pendingSeq.Values && (seq_ != "" && seq_ in pendingSeq ==> w != pendingSeq[seq_]) ==>
                w.done == old(w.done)
    {
      if seq_ == "" {
        return;
      }
      if seq_ in pendingSeq {
        pendingSeq[seq_].Deliver(Confirmed);
      }
    }

    /** Close tears the connection down once, however often it is called. */
    method Close() returns (tearDown: bool)
      modifies this`closed
      ensures closed && tearDown == !old(closed)
    {
      if closed {
        return false;
      }
      closed := true;
      return true;
    }

    /** Whether handlePropertyPost publishes a report with so many changes. */
    method ShouldPublish(changes: nat) returns (publish: bool)
      requires Valid()
      modifies this`reported, this`heard, this`published
      ensures Valid() && heard == old(heard) + [changes] && published == old(published) + [publish]
    {
      var first := !reported;
      reported := true;
      publish := changes > 0 || first;
      heard, published := heard + [changes], published + [publish];
    }
  }

  // ---- the interleavings ------------------------------------------------------------------------

  /** How applyOne ended. */
  datatype Ending = Returned(o: Outcome) | Unconfirmed | WriteFailed | NotSent

  /** One call of applyOne; since is how much had been heard when it registered. */
  datatype Cmd = Cmd(millis: nat, since: nat, slot: Option<Outcome>, ending: Option<Ending>)

  /** What the lamp has said. */
  datatype Heard = Ack(id: string, code: int) | Report(seq_: string)

  /** The read loop between its lookup and its send. */
  datatype Reader = Free | Carrying(c: nat, o: Outcome)

  datatype State = State(
    cmds: map<nat, Cmd>, live: set<nat>, maps: Maps<nat>, closed: bool, reader: Reader, log: seq<Heard>)

  datatype Step =
    | Send(c: nat, millis: nat)
    | FailWrite(c: nat)
    | Hear(h: Heard)
    | Deliver
    | Receive(c: nat)
    | Timeout(c: nat)
    | Cleanup(c: nat)
    | Close

  predicate Waiting(st: State, c: nat) {
    c in st.live && c in st.cmds && st.cmds[c].ending.None?
  }

  predicate Enabled(st: State, step: Step) {
    match step
    case Send(c, millis) => c !in st.cmds
    case FailWrite(c) => Waiting(st, c)
    case Hear(h) => st.reader.Free?
    case Deliver => st.reader.Carrying? && st.reader.c in st.cmds
    case Receive(c) => Waiting(st, c) && st.cmds[c].slot.Some?
    case Timeout(c) => Waiting(st, c)
    case Cleanup(c) => c in st.live && c in st.cmds && st.cmds[c].ending.Some?
    case Close => true
  }

  function Lookup(m: Maps<nat>, h: Heard): Reader {
    match h
    case Ack(id, code) => if id in m.pending then Carrying(m.pending[id], AckOutcome(code)) else Free
    case Report(s) => if s != "" && s in m.pendingSeq then Carrying(m.pendingSeq[s], Confirmed) else Free
  }

  function Ended(st: State, c: nat, e: Ending): State
    requires c in st.cmds
  {
    st.(cmds := st.cmds[c := st.cmds[c].(ending := Some(e))])
  }

  function Next(st: State, step: Step): State
    requires Enabled(st, step)
  {
    match step
    case Send(c, millis) =>
      if st.closed then st.(cmds := st.cmds[c := Cmd(millis, |st.log|, None, Some(NotSent))])
      else st.(cmds := st.cmds[c := Cmd(millis, |st.log|, None, None)], live := st.live + {c},
               maps := Registered(st.maps, ID(millis), Seq(millis), c))
    case FailWrite(c) => Ended(st, c, WriteFailed)
    case Hear(h) => st.(log := st.log + [h], reader := Lookup(st.maps, h))
    case Deliver =>
      var c := st.reader.c;
      st.(reader := Free, cmds := st.cmds[c := st.cmds[c].(slot := Delivered(st.cmds[c].slot, st.reader.o))])
    case Receive(c) =>
      st.(cmds := st.cmds[c := st.cmds[c].(slot := None, ending := Some(Returned(st.cmds[c].slot.value)))])
    case Timeout(c) => Ended(st, c, Unconfirmed)
    case Cleanup(c) =>
      st.(live := st.live - {c}, maps := Unregistered(st.maps, ID(st.cmds[c].millis), Seq(st.cmds[c].millis)))
    case Close => st.(closed := true)
  }

  ghost predicate Run(st: State, steps: seq<Step>)
    decreases steps
  {
    steps == [] || (Enabled(st, steps[0]) && Run(Next(st, steps[0]), steps[1..]))
  }

  ghost function End(st: State, steps: seq<Step>): State
    requires Run(st, steps)
    decreases steps
  {
    if steps == [] then st else End(Next(st, steps[0]), steps[1..])
  }

  function Start(): State {
    State(map[], {}, Maps(map[], map[]), false, Free, [])
  }

  // ---- without any assumption -----------------------------------------------------------------

  /** The lamp said so, about this command's own id or seq, after it was registered. */
  ghost predicate Said(log: seq<Heard>, cmd: Cmd, o: Outcome) {
    exists i :: cmd.since <= i < |log| && About(log[i], cmd, o)
  }

  predicate About(h: Heard, cmd: Cmd, o: Outcome) {
    match h
    case Ack(id, code) => id == ID(cmd.millis) && o == AckOutcome(code)
    case Report(s) => s == Seq(cmd.millis) && o == Confirmed
  }

  ghost predicate Justified(st: State) {
    && (forall c :: c in st.cmds && st.cmds[c].slot.Some? ==> Said(st.log, st.cmds[c], st.cmds[c].slot.value))
    && (forall c :: c in st.cmds && st.cmds[c].ending.Some? && st.cmds[c].ending.value.Returned? ==>
          Said(st.log, st.cmds[c], st.cmds[c].ending.value.o))
    && (st.reader.Carrying? ==> st.reader.c in st.cmds && Said(st.log, st.cmds[st.reader.c], st.reader.o))
    && (forall c :: c in st.cmds ==> st.cmds[c].since <= |st.log|)
  }

  /** Every key of the two maps belongs to a command that is still to clean it up. */
  ghost predicate NothingLeaks(st: State) {
    && st.live <= st.cmds.Keys
    && (forall id :: id in st.maps.pending ==>
          st.maps.pending[id] in st.live && ID(st.cmds[st.maps.pending[id]].millis) == id)
    && (forall s :: s in st.maps.pendingSeq ==>
          st.maps.pendingSeq[s] in st.live && Seq(st.cmds[st.maps.pendingSeq[s]].millis) == s)
  }

  lemma NothingLeaksStep(st: State, step: Step)
    requires NothingLeaks(st) && Enabled(st, step)
    ensures NothingLeaks(Next(st, step))
  {
  }

  lemma SaidLater(log: seq<Heard>, h: Heard, cmd: Cmd, o: Outcome)
    requires cmd.since <= |log|
    ensures Said(log, cmd, o) || About(h, cmd, o) ==> Said(log + [h], cmd, o)
  {
    if Said(log, cmd, o) {
      var i :| cmd.since <= i < |log| && About(log[i], cmd, o);
      assert About((log + [h])[i], cmd, o);
    } else if About(h, cmd, o) {
      assert About((log + [h])[|log|], cmd, o);
    }
  }

  lemma SaidOf(log: seq<Heard>, a: Cmd, b: Cmd, o: Outcome)
    requires a.millis == b.millis && a.since == b.since && Said(log, a, o)
    ensures Said(log, b, o)
  {
    var i :| a.since <= i < |log| && About(log[i], a, o);
    assert About(log[i], b, o);
  }

  lemma JustifiedStep(st: State, step: Step)
    requires NothingLeaks(st) && Justified(st) && Enabled(st, step)
    ensures Justified(Next(st, step))
  {
    var n := Next(st, step);
    forall c, o | c in st.cmds && Said(st.log, st.cmds[c], o) ensures Said(n.log, n.cmds[c], o) {
      if step.Hear? {
        SaidLater(st.log, step.h, st.cmds[c], o);
      } else {
        SaidOf(st.log, st.cmds[c], n.cmds[c], o);
      }
    }
    if step.Hear? && n.reader.Carrying? {
      SaidLater(st.log, step.h, st.cmds[n.reader.c], n.reader.o);
    }
  }

  /** A command's end never changes once it is there. */
  lemma EndingsStay(st: State, step: Step)
    requires Enabled(st, step)
    ensures forall c :: c in st.cmds ==> c in Next(st, step).cmds
    ensures forall c :: c in st.cmds && st.cmds[c].ending.Some? ==> Next(st, step).cmds[c].ending == st.cmds[c].ending
  {
  }

  lemma {:induction false} SafeAlways(st: State, steps: seq<Step>)
    requires NothingLeaks(st) && Justified(st) && Run(st, steps)
    ensures NothingLeaks(End(st, steps)) && Justified(End(st, steps))
    decreases steps
  {
    if steps != [] {
      NothingLeaksStep(st, steps[0]);
      JustifiedStep(st, steps[0]);
      SafeAlways(Next(st, steps[0]), steps[1..]);
    }
  }

  /** Over every interleaving, equal ids or not: applyOne returns nil only after an ack with
      code 200 for its own id or a report echoing its own seq, and returns a refusal only
      after an ack with that other code; every key of either map is the id or the seq of a
      command that is still in flight; and the read loop is never left holding a
      confirmation it cannot hand over. */
  lemma ConfirmationIsSafe(steps: seq<Step>, c: nat)
    requires Run(Start(), steps) && c in End(Start(), steps).cmds
    ensures var st := End(Start(), steps);
      && (st.cmds[c].ending == Some(Returned(Confirmed)) ==>
            exists i :: st.cmds[c].since <= i < |st.log| &&
              (st.log[i] == Ack(ID(st.cmds[c].millis), 200) || st.log[i] == Report(Seq(st.cmds[c].millis))))
      && (forall code :: st.cmds[c].ending == Some(Returned(Refused(code))) ==>
            code != 200
            && exists i :: st.cmds[c].since <= i < |st.log| && st.log[i] == Ack(ID(st.cmds[c].millis), code))
      && st.live <= st.cmds.Keys
      && (forall id :: id in st.maps.pending ==> exists d :: d in st.live && ID(st.cmds[d].millis) == id)
      && (forall s :: s in st.maps.pendingSeq ==> exists d :: d in st.live && Seq(st.cmds[d].millis) == s)
      && (st.reader.Carrying? ==> Enabled(st, Deliver))
  {
    SafeAlways(Start(), steps);
    var st := End(Start(), steps);
    var cmd := st.cmds[c];
    if cmd.ending.Some? && cmd.ending.value.Returned? {
      var i :| cmd.since <= i < |st.log| && About(st.log[i], cmd, cmd.ending.value.o);
      assert st.log[i].Ack? ==> st.log[i] == Ack(ID(cmd.millis), st.log[i].code);
    }
  }

  lemma {:induction false} EndingKept(st: State, steps: seq<Step>, c: nat)
    requires Run(st, steps) && c in st.cmds && st.cmds[c].ending.Some?
    ensures c in End(st, steps).cmds && End(st, steps).cmds[c].ending == st.cmds[c].ending
    decreases steps
  {
    if steps != [] {
      EndingsStay(st, steps[0]);
      EndingKept(Next(st, steps[0]), steps[1..], c);
    }
  }

  // ---- with distinct ids -------------------------------------------------------------------------

  /** Every command in flight is found under its own id and its own seq. */
  ghost predicate AllFound(st: State) {
    forall c :: c in st.live ==>
      && c in st.cmds
      && ID(st.cmds[c].millis) in st.maps.pending && st.maps.pending[ID(st.cmds[c].millis)] == c
      && Seq(st.cmds[c].millis) in st.maps.pendingSeq && st.maps.pendingSeq[Seq(st.cmds[c].millis)] == c
  }

  ghost predicate IDInUse(st: State, millis: nat) {
    exists d :: d in st.live && d in st.cmds && ID(st.cmds[d].millis) == ID(millis)
  }

  /** Registration keeps every command findable exactly when the id is not in use by one
      in flight: otherwise the older one can no longer be confirmed by its ack. */
  lemma SendKeepsAllFoundExactly(st: State, c: nat, millis: nat)
    requires AllFound(st) && st.live <= st.cmds.Keys && Enabled(st, Send(c, millis)) && !st.closed
    ensures AllFound(Next(st, Send(c, millis))) <==> !IDInUse(st, millis)
  {
    var n := Next(st, Send(c, millis));
    if IDInUse(st, millis) {
      var d :| d in st.live && d in st.cmds && ID(st.cmds[d].millis) == ID(millis);
      assert n.maps.pending[ID(millis)] == c && d in n.live && n.cmds[d] == st.cmds[d];
    } else {
      forall d | d in st.live
        ensures ID(st.cmds[d].millis) != ID(millis) && Seq(st.cmds[d].millis) != Seq(millis)
      {
        IDsDiffer(st.cmds[d].millis, millis);
      }
    }
  }

  /** Every command is encoded while no other one in flight has its id, as is the case
      when no two share a millisecond and all are less than 10^9 ms apart. */
  ghost predicate DistinctRun(st: State, steps: seq<Step>)
    decreases steps
  {
    steps == [] ||
    (&& Enabled(st, steps[0]) && (steps[0].Send? ==> !IDInUse(st, steps[0].millis))
     && DistinctRun(Next(st, steps[0]), steps[1..]))
  }

  lemma CleanupKeepsAllFound(st: State, c: nat)
    requires AllFound(st) && NothingLeaks(st) && Enabled(st, Cleanup(c))
    ensures AllFound(Next(st, Cleanup(c)))
  {
    var n := Next(st, Cleanup(c));
    forall d | d in n.live
      ensures ID(st.cmds[d].millis) in n.maps.pending && Seq(st.cmds[d].millis) in n.maps.pendingSeq
    {
      assert st.maps.pending[ID(st.cmds[d].millis)] == d && st.maps.pendingSeq[Seq(st.cmds[d].millis)] == d;
    }
  }

  /** The other steps leave the maps and every command's encoding time alone. */
  lemma OtherStepsKeepAllFound(st: State, step: Step)
    requires AllFound(st) && Enabled(st, step) && !step.Send? && !step.Cleanup?
    ensures AllFound(Next(st, step))
  {
    var n := Next(st, step);
    assert n.maps == st.maps && n.live == st.live;
    assert forall c :: c in st.cmds ==> c in n.cmds && n.cmds[c].millis == st.cmds[c].millis;
  }

  lemma AllFoundStep(st: State, step: Step)
    requires AllFound(st) && NothingLeaks(st) && Enabled(st, step) && (step.Send? ==> !IDInUse(st, step.millis))
    ensures AllFound(Next(st, step))
  {
    if step.Send? {
      if !st.closed {
        SendKeepsAllFoundExactly(st, step.c, step.millis);
      }
    } else if step.Cleanup? {
      CleanupKeepsAllFound(st, step.c);
    } else {
      OtherStepsKeepAllFound(st, step);
    }
  }

  lemma {:induction false} AllFoundAlways(st: State, steps: seq<Step>)
    requires AllFound(st) && NothingLeaks(st) && DistinctRun(st, steps)
    ensures Run(st, steps) && AllFound(End(st, steps)) && NothingLeaks(End(st, steps))
    decreases steps
  {
    if steps != [] {
      AllFoundStep(st, steps[0]);
      NothingLeaksStep(st, steps[0]);
      AllFoundAlways(Next(st, steps[0]), steps[1..]);
    }
  }

  lemma {:induction false} StillCarrying(st: State, steps: seq<Step>)
    requires Run(st, steps) && st.reader.Carrying? && Deliver !in steps
    ensures End(st, steps).reader == st.reader && End(st, steps).log == st.log
    decreases steps
  {
    if steps != [] {
      StillCarrying(Next(st, steps[0]), steps[1..]);
    }
  }

  /** Without a delivery a command's slot can only be emptied, by the end of its wait. */
  lemma {:induction false} SlotKept(st: State, steps: seq<Step>, c: nat)
    requires Run(st, steps) && Deliver !in steps && c in st.cmds
    ensures var n := End(st, steps);
      && c in n.cmds && n.cmds[c].millis == st.cmds[c].millis && n.cmds[c].since == st.cmds[c].since
      && (n.cmds[c].slot == st.cmds[c].slot || n.cmds[c].ending.Some?)
    decreases steps
  {
    if steps != [] {
      var n := Next(st, steps[0]);
      SlotKept(n, steps[1..], c);
      if n.cmds[c].ending.Some? {
        EndingKept(n, steps[1..], c);
      }
    }
  }

  /** With distinct ids, what the lamp says about a waiting command reaches that command
      and no other, whatever the callers do between the read loop's lookup and its send:
      the send is always possible, and leaves the command with an outcome, which is this
      one unless another was there first. */
  lemma EveryConfirmationArrives(steps: seq<Step>, c: nat, h: Heard, o: Outcome, between: seq<Step>)
    requires DistinctRun(Start(), steps) && Run(Start(), steps)
    requires var st := End(Start(), steps); Waiting(st, c) && st.reader.Free? && About(h, st.cmds[c], o)
    requires Run(Next(End(Start(), steps), Hear(h)), between) && Deliver !in between
    ensures var st := End(Start(), steps);
      var held := End(Next(st, Hear(h)), between);
      && held.reader == Carrying(c, o) && Enabled(held, Deliver)
      && var after := Next(held, Deliver);
      && after.cmds.Keys == held.cmds.Keys
      && (forall d :: d in held.cmds && d != c ==> after.cmds[d] == held.cmds[d])
      && after.cmds[c] == held.cmds[c].(slot := Delivered(held.cmds[c].slot, o))
      && (Waiting(held, c) ==> held.cmds[c].slot == st.cmds[c].slot && Enabled(after, Receive(c)))
  {
    AllFoundAlways(Start(), steps);
    var heard := Next(End(Start(), steps), Hear(h));
    assert heard.reader == Carrying(c, o);
    StillCarrying(heard, between);
    SlotKept(heard, between, c);
  }

  // ---- which outcome ----------------------------------------------------------------------------

  predicate Mentions(h: Heard, cmd: Cmd) {
    match h
    case Ack(id, code) => id == ID(cmd.millis)
    case Report(s) => s == Seq(cmd.millis)
  }

  /** The first thing said about a command since it was registered. */
  ghost predicate FirstSaid(log: seq<Heard>, cmd: Cmd, o: Outcome) {
    exists i :: cmd.since <= i < |log| && About(log[i], cmd, o) && Unmentioned(log[..i], cmd)
  }

  ghost predicate Unmentioned(log: seq<Heard>, cmd: Cmd) {
    forall j :: cmd.since <= j < |log| ==> !Mentions(log[j], cmd)
  }

  /** The first word about a command is in its hands, on its way, or still to come. */
  ghost predicate FirstWord(st: State, c: nat)
    requires c in st.cmds
  {
    var cmd := st.cmds[c];
    && cmd.since <= |st.log|
    && (cmd.ending.None? ==> c in st.live)
    && (cmd.ending.Some? && cmd.ending.value.Returned? ==> FirstSaid(st.log, cmd, cmd.ending.value.o))
    && (cmd.ending.None? && cmd.slot.Some? ==> FirstSaid(st.log, cmd, cmd.slot.value))
    && (cmd.ending.None? && cmd.slot.None? ==>
          if st.reader.Carrying? && st.reader.c == c then FirstSaid(st.log, cmd, st.reader.o)
          else Unmentioned(st.log, cmd))
  }

  lemma FirstSaidLater(log: seq<Heard>, h: Heard, cmd: Cmd, o: Outcome)
    requires cmd.since <= |log|
    ensures FirstSaid(log, cmd, o) ==> FirstSaid(log + [h], cmd, o)
    ensures Unmentioned(log, cmd) && About(h, cmd, o) ==> FirstSaid(log + [h], cmd, o)
    ensures Unmentioned(log, cmd) && !Mentions(h, cmd) ==> Unmentioned(log + [h], cmd)
  {
    var more := log + [h];
    if FirstSaid(log, cmd, o) {
      var i :| cmd.since <= i < |log| && About(log[i], cmd, o) && Unmentioned(log[..i], cmd);
      assert more[i] == log[i] && more[..i] == log[..i];
    } else if Unmentioned(log, cmd) && About(h, cmd, o) {
      assert more[|log|] == h && more[..|log|] == log;
    }
  }

  lemma FirstSaidOf(log: seq<Heard>, a: Cmd, b: Cmd, o: Outcome)
    requires a.millis == b.millis && a.since == b.since
    ensures FirstSaid(log, a, o) ==> FirstSaid(log, b, o)
    ensures Unmentioned(log, a) ==> Unmentioned(log, b)
  {
    assert forall h :: Mentions(h, a) == Mentions(h, b);
    if FirstSaid(log, a, o) {
      var i :| a.since <= i < |log| && About(log[i], a, o) && Unmentioned(log[..i], a);
      assert About(log[i], b, o) && Unmentioned(log[..i], b);
    }
  }

  /** The read loop looks up exactly the command in flight that is mentioned. */
  lemma LookupFinds(st: State, c: nat, h: Heard)
    requires AllFound(st) && NothingLeaks(st) && c in st.live
    ensures Mentions(h, st.cmds[c]) ==> Lookup(st.maps, h).Carrying? && Lookup(st.maps, h).c == c
                                        && About(h, st.cmds[c], Lookup(st.maps, h).o)
    ensures !Mentions(h, st.cmds[c]) ==> !(Lookup(st.maps, h).Carrying? && Lookup(st.maps, h).c == c)
  {
  }

  lemma FirstWordHear(st: State, c: nat, h: Heard)
    requires AllFound(st) && NothingLeaks(st) && Enabled(st, Hear(h)) && c in st.cmds && FirstWord(st, c)
    ensures FirstWord(Next(st, Hear(h)), c)
  {
    var cmd, n := st.cmds[c], Next(st, Hear(h));
    if cmd.ending.Some? {
      if cmd.ending.value.Returned? {
        FirstSaidLater(st.log, h, cmd, cmd.ending.value.o);
      }
    } else if cmd.slot.Some? {
      FirstSaidLater(st.log, h, cmd, cmd.slot.value);
    } else {
      LookupFinds(st, c, h);
      FirstSaidLater(st.log, h, cmd, if n.reader.Carrying? then n.reader.o else Confirmed);
    }
  }

  lemma FirstWordOther(st: State, c: nat, step: Step)
    requires Enabled(st, step) && !step.Hear? && c in st.cmds && FirstWord(st, c)
    ensures FirstWord(Next(st, step), c)
  {
    var a, b := st.cmds[c], Next(st, step).cmds[c];
    assert Next(st, step).log == st.log && a.millis == b.millis && a.since == b.since;
    forall o ensures FirstSaid(st.log, a, o) ==> FirstSaid(st.log, b, o) {
      FirstSaidOf(st.log, a, b, o);
    }
    FirstSaidOf(st.log, a, b, Confirmed);
  }

  ghost predicate FirstWords(st: State) {
    forall c :: c in st.cmds ==> FirstWord(st, c)
  }

  lemma FirstWordsStep(st: State, step: Step)
    requires AllFound(st) && NothingLeaks(st) && FirstWords(st) && Enabled(st, step)
    requires st.reader.Carrying? ==> st.reader.c in st.cmds
    ensures FirstWords(Next(st, step))
  {
    var n := Next(st, step);
    forall c | c in n.cmds ensures FirstWord(n, c) {
      if c in st.cmds {
        if step.Hear? {
          FirstWordHear(st, c, step.h);
        } else {
          FirstWordOther(st, c, step);
        }
      }
    }
  }

  lemma {:induction false} FirstWordsAlways(st: State, steps: seq<Step>)
    requires AllFound(st) && NothingLeaks(st) && Justified(st) && FirstWords(st) && DistinctRun(st, steps)
    ensures Run(st, steps) && FirstWords(End(st, steps))
    decreases steps
  {
    if steps != [] {
      AllFoundStep(st, steps[0]);
      NothingLeaksStep(st, steps[0]);
      JustifiedStep(st, steps[0]);
      FirstWordsStep(st, steps[0]);
      FirstWordsAlways(Next(st, steps[0]), steps[1..]);
    }
  }

  /** Which outcome a waiter gets, with distinct ids: the first thing the lamp said about
      its command since it was registered - an ack with whatever code, or a report - and
      nothing that is said or done later changes it. */
  lemma OneOutcome(before: seq<Step>, after: seq<Step>, c: nat, o: Outcome)
    requires DistinctRun(Start(), before) && Run(Start(), before) && Run(End(Start(), before), after)
    requires var st := End(Start(), before); c in st.cmds && st.cmds[c].ending == Some(Returned(o))
    ensures var st := End(Start(), before);
      && FirstSaid(st.log, st.cmds[c], o)
      && c in End(st, after).cmds && End(st, after).cmds[c].ending == Some(Returned(o))
  {
    FirstWordsAlways(Start(), before);
    assert FirstWord(End(Start(), before), c);
    EndingKept(End(Start(), before), after, c);
  }

  // ---- a whole change ---------------------------------------------------------------------------

  predicate Hard(e: Ending) {
    e != Returned(Confirmed) && e != Unconfirmed
  }

  function Outstanding(names: seq<string>, ends: seq<Ending>): seq<string>
    requires |names| == |ends|
    decreases |names|
  {
    if names == [] then []
    else
      var n := |names| - 1;
      Outstanding(names[..n], ends[..n]) + (if ends[n] == Unconfirmed then [names[n]] else [])
  }

  lemma OutstandingNext(names: seq<string>, ends: seq<Ending>, n: nat)
    requires |names| == |ends| && n < |names|
    ensures Outstanding(names[..n + 1], ends[..n + 1])
         == Outstanding(names[..n], ends[..n]) + (if ends[n] == Unconfirmed then [names[n]] else [])
  {
    assert names[..n + 1][..n] == names[..n] && ends[..n + 1][..n] == ends[..n];
  }

  function Unconfirmeds(ends: seq<Ending>, n: nat): nat
    requires n <= |ends|
  {
    if n == 0 then 0 else Unconfirmeds(ends, n - 1) + if ends[n - 1] == Unconfirmed then 1 else 0
  }

  /** The names reported are those of the properties without confirmation, all of them and
      nothing else, in the order they were sent. */
  lemma {:induction false} OutstandingMeans(names: seq<string>, ends: seq<Ending>, n: nat)
    requires |names| == |ends| && n <= |names|
    ensures |Outstanding(names[..n], ends[..n])| == Unconfirmeds(ends, n)
    ensures forall i :: 0 <= i < n && ends[i] == Unconfirmed ==>
              Unconfirmeds(ends, i) < Unconfirmeds(ends, n)
              && Outstanding(names[..n], ends[..n])[Unconfirmeds(ends, i)] == names[i]
  {
    if n > 0 {
      OutstandingMeans(names, ends, n - 1);
      OutstandingNext(names, ends, n - 1);
    }
  }

  datatype Applied = AllConfirmed | SomeOutstanding(names: seq<string>) | Stopped(at: nat)

  /** The loop of session.Apply over the properties to change, each of which ends as ends
      says: a property without confirmation does not stop the ones after it, any other
      error does, and the names still outstanding are reported in order. */
  method ApplyAll(names: seq<string>, ends: seq<Ending>) returns (r: Applied, sent: nat)
    requires |names| == |ends|
    ensures r.Stopped? <==> exists i :: 0 <= i < |ends| && Hard(ends[i])
    ensures r.Stopped? ==> r.at < |ends| && Hard(ends[r.at]) && (forall i :: 0 <= i < r.at ==> !Hard(ends[i]))
                           && sent == r.at + 1
    ensures !r.Stopped? ==> sent == |names|
    ensures r.AllConfirmed? <==> forall i :: 0 <= i < |ends| ==> ends[i] == Returned(Confirmed)
    ensures r.SomeOutstanding? ==> r.names == Outstanding(names, ends) != []
  {
    var unconfirmed := [];
    sent := 0;
    while sent < |names|
      invariant sent <= |names|
      invariant unconfirmed == Outstanding(names[..sent], ends[..sent])
      invariant forall i :: 0 <= i < sent ==> !Hard(ends[i])
      invariant unconfirmed == [] <==> forall i :: 0 <= i < sent ==> ends[i] == Returned(Confirmed)
    {
      OutstandingNext(names, ends, sent);
      if ends[sent] == Unconfirmed {
        unconfirmed := unconfirmed + [names[sent]];
      } else if ends[sent] != Returned(Confirmed) {
        return Stopped(sent), sent + 1;
      }
      sent := sent + 1;
    }
    assert names[..sent] == names && ends[..sent] == ends;
    if |unconfirmed| > 0 {
      return SomeOutstanding(unconfirmed), sent;
    }
    return AllConfirmed, sent;
  }
}
