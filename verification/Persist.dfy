/** Debounced persistence: mutators, timer callbacks, explicit flushes and Close, each a
    goroutine, interleaved at the granularity of the store and registry locks. Memory
    and file are compared as Registries.DurableReg sees them. */
module Persist {
  import opened Wrappers
  import R = Registries

  type Contents = map<string, R.Durable>

  // ---- the store's own fields ---------------------------------------------------------

  datatype Fields = Fields(pending: bool, timer: Option<nat>)

  /** schedule: the timer it arms, if any, is the fresh one offered to it. */
  function Scheduled(f: Fields, id: nat): Fields {
    Fields(true, if f.timer.Some? then f.timer else Some(id))
  }

  function Cleared(f: Fields): Fields {
    f.(timer := None)
  }

  function Taken(f: Fields): Fields {
    f.(pending := false)
  }

  /** Store, one method per critical section of its mutex. */
  class Store {
    var pending: bool
    var timer: Option<nat>

    function Value(): Fields
      reads this
    {
      Fields(pending, timer)
    }

    constructor ()
      ensures Value() == Fields(false, None)
    {
      pending, timer := false, None;
    }

    method Schedule(id: nat) returns (armed: bool)
      modifies this
      ensures Value() == Scheduled(old(Value()), id)
      ensures armed <==> old(timer).None?
    {
      pending := true;
      if timer.Some? {
        return false;
      }
      timer := Some(id);
      return true;
    }

    /** The first lines of the timer's callback. */
    method TimerFired()
      modifies this
      ensures Value() == Cleared(old(Value()))
    {
      timer := None;
    }

    /** The locked part of Flush; the save runs when it answers true. */
    method TakePending() returns (save: bool)
      modifies this
      ensures Value() == Taken(old(Value())) && save == old(pending)
    {
      save := pending;
      pending := false;
    }

    /** The locked part of Close; it stops the timer it answers with, if that has not fired. */
    method StopTimer() returns (stopped: Option<nat>)
      modifies this
      ensures Value() == Cleared(old(Value())) && stopped == old(timer)
    {
      stopped := timer;
      if timer.Some? {
        timer := None;
      }
    }
  }

  // ---- the interleavings ----------------------------------------------------------------

  /** How far one goroutine inside or about to enter Flush has come. */
  datatype Phase =
    | Fired                        // a timer's callback that has not cleared the field yet
    | Begun                        // about to take the pending flag
    | Saving                       // took it; the snapshot is still to be made
    | Holding(snapshot: Contents)  // about to replace the file

  datatype State = State(
    mem: Contents, mutating: bool, fields: Fields, armed: set<nat>, calls: map<nat, Phase>, file: Contents)

  datatype Step =
    | Mutate(after: Contents)  // under the registry lock, which is kept until Schedule
    | Schedule(id: nat)
    | Fire(t: nat)
    | Clear(t: nat)
    | Flush(c: nat)            // somebody calls Flush
    | Close(c: nat)            // Close has stopped the timer and goes on to Flush
    | Take(c: nat)
    | Snap(c: nat)             // needs the registry lock
    | Write(c: nat)
    | Fail(c: nat)             // the save returns an error

  predicate At(st: State, c: nat, p: Phase) {
    c in st.calls && st.calls[c] == p
  }

  predicate Enabled(st: State, step: Step) {
    match step
    case Mutate(after) => !st.mutating
    case Schedule(id) => st.mutating && id !in st.armed && id !in st.calls
    case Fire(t) => t in st.armed && t !in st.calls
    case Clear(t) => At(st, t, Fired)
    case Flush(c) => c !in st.calls && c !in st.armed
    case Close(c) => c !in st.calls && c !in st.armed
    case Take(c) => At(st, c, Begun)
    case Snap(c) => At(st, c, Saving) && !st.mutating
    case Write(c) => c in st.calls && st.calls[c].Holding?
    case Fail(c) => c in st.calls && (st.calls[c].Saving? || st.calls[c].Holding?)
  }

  function Next(st: State, step: Step): State
    requires Enabled(st, step)
  {
    match step
    case Mutate(after) => st.(mem := after, mutating := true)
    case Schedule(id) =>
      st.(mutating := false, fields := Scheduled(st.fields, id),
          armed := if st.fields.timer.None? then st.armed + {id} else st.armed)
    case Fire(t) => st.(armed := st.armed - {t}, calls := st.calls[t := Fired])
    case Clear(t) => st.(fields := Cleared(st.fields), calls := st.calls[t := Begun])
    case Flush(c) => st.(calls := st.calls[c := Begun])
    case Close(c) =>
      st.(fields := Cleared(st.fields), calls := st.calls[c := Begun],
          armed := if st.fields.timer.Some? then st.armed - {st.fields.timer.value} else st.armed)
    case Take(c) =>
      st.(fields := Taken(st.fields), calls := if st.fields.pending then st.calls[c := Saving] else st.calls - {c})
    case Snap(c) => st.(calls := st.calls[c := Holding(st.mem)])
    case Write(c) => st.(calls := st.calls - {c}, file := st.calls[c].snapshot)
    case Fail(c) => st.(calls := st.calls - {c})
  }

  ghost predicate Run(st: State, steps: seq<Step>)
    decreases steps
  {
    steps == [] || (Enabled(st, steps[0]) && Run(Next(st, steps[0]), steps[1..]))
  }

  ghost function End(st: State, steps: seq<Step>): State
    requires Run(st, steps)
    decreases steps
  {
    if steps == [] then st else End(Next(st, steps[0]), steps[1..])
  }

  /** Right after Load. */
  function Start(loaded: Contents): State {
    State(loaded, false, Fields(false, None), {}, map[], loaded)
  }

  predicate InFlight(st: State, c: nat) {
    c in st.calls && (st.calls[c].Saving? || st.calls[c].Holding?)
  }

  ghost predicate Idle(st: State) {
    forall c :: !InFlight(st, c)
  }

  /** What a critical section of the registry is to this machine: a Mutate step when it
      calls the dirty hook, no step at all when it does not. */
  lemma CriticalSectionIsAStep(st: State, reg: R.Reg, op: R.Op)
    requires st.mem == R.DurableReg(reg) && !st.mutating
    ensures var after := R.DurableReg(R.Do(reg, op).reg);
      if R.Do(reg, op).dirty then Enabled(st, Mutate(after)) && Next(st, Mutate(after)).mem == after
      else st.mem == after
  {
    if !R.Do(reg, op).dirty {
      R.QuietKeepsDurable(reg, op);
    }
  }

  // ---- a pending change is always about to be flushed ------------------------------------

  ghost predicate TimerLives(st: State) {
    st.fields.timer.Some? ==> st.fields.timer.value in st.armed || At(st, st.fields.timer.value, Fired)
  }

  ghost predicate FlushIsComing(st: State) {
    st.armed != {} || exists c :: At(st, c, Fired) || At(st, c, Begun)
  }

  ghost predicate Scheduling(st: State) {
    && TimerLives(st) && st.armed !! st.calls.Keys
    && (st.fields.pending ==> FlushIsComing(st))
  }

  lemma SchedulingStep(st: State, step: Step)
    requires Scheduling(st) && Enabled(st, step)
    ensures Scheduling(Next(st, step))
  {
    var n := Next(st, step);
    if n.fields.pending {
      match step
      case Schedule(id) =>
        if st.fields.timer.Some? && st.fields.timer.value !in st.armed {
          assert At(n, st.fields.timer.value, Fired);
        }
      case Fire(t) => assert At(n, t, Fired);
      case Clear(t) => assert At(n, t, Begun);
      case Flush(c) => assert At(n, c, Begun);
      case Close(c) => assert At(n, c, Begun);
      case Take(c) =>
      case _ =>
        if st.armed == {} {
          var c :| At(st, c, Fired) || At(st, c, Begun);
          assert At(n, c, Fired) || At(n, c, Begun);
        }
    }
  }

  /** Over every run, with failing and overlapping saves too: a pending change has an
      armed timer or a flush about to take it. */
  lemma {:induction false} PendingIsScheduled(st: State, steps: seq<Step>)
    requires Scheduling(st) && Run(st, steps)
    ensures Scheduling(End(st, steps))
    decreases steps
  {
    if steps != [] {
      SchedulingStep(st, steps[0]);
      PendingIsScheduled(Next(st, steps[0]), steps[1..]);
    }
  }

  /** A burst of changes is one write: every timer that is armed, or has fired and not yet
      said so, is the one the store knows of. */
  ghost predicate OneTimer(st: State) {
    forall t :: t in st.armed || At(st, t, Fired) ==> st.fields.timer == Some(t)
  }

  /** A Close while a callback has fired and still waits for the lock. */
  ghost predicate LateClose(st: State, step: Step) {
    step.Close? && exists t :: At(st, t, Fired)
  }

  /** One step keeps to one timer exactly when it is not a Close that comes too late to stop
      the timer: only then could a later change arm a second one. */
  lemma OneTimerExactly(st: State, step: Step)
    requires Scheduling(st) && OneTimer(st) && Enabled(st, step)
    ensures OneTimer(Next(st, step)) <==> !LateClose(st, step)
  {
    var n := Next(st, step);
    if LateClose(st, step) {
      var t :| At(st, t, Fired);
      assert At(n, t, Fired);
    }
  }

  ghost predicate NoLateClose(st: State, steps: seq<Step>)
    requires Run(st, steps)
    decreases steps
  {
    steps == [] || (!LateClose(st, steps[0]) && NoLateClose(Next(st, steps[0]), steps[1..]))
  }

  /** So over every run without one at most one timer is armed at a time. */
  lemma {:induction false} OneTimerAlways(st: State, steps: seq<Step>)
    requires Scheduling(st) && OneTimer(st) && Run(st, steps) && NoLateClose(st, steps)
    ensures OneTimer(End(st, steps))
    ensures forall s, t :: s in End(st, steps).armed && t in End(st, steps).armed ==> s == t
    decreases steps
  {
    if steps != [] {
      SchedulingStep(st, steps[0]);
      OneTimerExactly(st, steps[0]);
      OneTimerAlways(Next(st, steps[0]), steps[1..]);
    }
  }

  // ---- no lost update ------------------------------------------------------------------

  /** The two assumptions: a save starts only when none is in flight, and none fails. A
      flush that finds nothing pending starts none. */
  ghost predicate Orderly(st: State, step: Step) {
    !step.Fail? && (step.Take? && st.fields.pending ==> Idle(st))
  }

  ghost predicate OrderlyRun(st: State, steps: seq<Step>)
    decreases steps
  {
    steps == [] || (Enabled(st, steps[0]) && Orderly(st, steps[0]) && OrderlyRun(Next(st, steps[0]), steps[1..]))
  }

  predicate Unsaved(st: State) {
    st.fields.pending || st.mutating
  }

  ghost predicate NothingLost(st: State) {
    && (forall c, d :: InFlight(st, c) && InFlight(st, d) ==> c == d)
    && (forall c :: c in st.calls && st.calls[c].Holding? && st.calls[c].snapshot != st.mem ==> Unsaved(st))
    && (Idle(st) && st.file != st.mem ==> Unsaved(st))
  }

  lemma NothingLostStep(st: State, step: Step)
    requires NothingLost(st) && Enabled(st, step) && Orderly(st, step)
    ensures NothingLost(Next(st, step))
  {
    var n := Next(st, step);
    forall c | InFlight(n, c) ensures InFlight(st, c) || (step.Take? && c == step.c) {
    }
    forall c | c in n.calls && n.calls[c].Holding? && n.calls[c].snapshot != n.mem ensures Unsaved(n) {
      assert InFlight(n, c);
      assert step.Take? ==> InFlight(st, c);
    }
    if Idle(n) && n.file != n.mem {
      if step.Take? {
        assert st.fields.pending ==> InFlight(n, step.c);
        assert !st.fields.pending ==> forall c :: InFlight(st, c) ==> InFlight(n, c);
      } else if !step.Write? {
        assert forall c :: InFlight(st, c) ==> InFlight(n, c);
      }
    }
  }

  lemma {:induction false} OrderlyRunEnds(st: State, steps: seq<Step>)
    requires NothingLost(st) && OrderlyRun(st, steps)
    ensures Run(st, steps) && NothingLost(End(st, steps))
    decreases steps
  {
    if steps != [] {
      NothingLostStep(st, steps[0]);
      OrderlyRunEnds(Next(st, steps[0]), steps[1..]);
    }
  }

  /** In every state of every orderly run, memory is in the file, or a change is pending
      (with a flush coming), or its hook is about to run, or a save is in flight that has
      yet to take its snapshot or holds a current one. */
  lemma NoLostUpdate(loaded: Contents, steps: seq<Step>)
    requires OrderlyRun(Start(loaded), steps)
    ensures Run(Start(loaded), steps)
    ensures var st := End(Start(loaded), steps);
      || st.file == st.mem
      || (st.fields.pending && FlushIsComing(st))
      || st.mutating
      || exists c :: At(st, c, Saving) || At(st, c, Holding(st.mem))
  {
    OrderlyRunEnds(Start(loaded), steps);
    PendingIsScheduled(Start(loaded), steps);
    var st := End(Start(loaded), steps);
    if !Idle(st) && !Unsaved(st) {
      var c :| InFlight(st, c);
      assert At(st, c, Saving) || At(st, c, Holding(st.mem));
    }
  }

  ghost predicate NoMutation(steps: seq<Step>) {
    forall i :: 0 <= i < |steps| ==> !steps[i].Mutate?
  }

  lemma {:induction false} StaysClean(st: State, steps: seq<Step>)
    requires Run(st, steps) && NoMutation(steps) && !Unsaved(st)
    ensures !Unsaved(End(st, steps)) && End(st, steps).mem == st.mem
    decreases steps
  {
    if steps != [] {
      StaysClean(Next(st, steps[0]), steps[1..]);
    }
  }

  /** c is flushing with a save of its own, if any, and nobody else has one. */
  ghost predicate OnlySave(st: State, c: nat) {
    forall d :: InFlight(st, d) ==> d == c
  }

  lemma {:induction false} OnlySaveStays(st: State, c: nat, steps: seq<Step>)
    requires Run(st, steps) && NoMutation(steps) && !Unsaved(st) && OnlySave(st, c)
    ensures OnlySave(End(st, steps), c)
    decreases steps
  {
    if steps != [] {
      assert forall d :: InFlight(Next(st, steps[0]), d) ==> InFlight(st, d);
      OnlySaveStays(Next(st, steps[0]), c, steps[1..]);
    }
  }

  /** What a save in flight is going to leave in the file. */
  function ToWrite(st: State, p: Phase): Contents {
    if p.Holding? then p.snapshot else st.mem
  }

  /** A save in flight still has to bring the file up to date. */
  ghost predicate SaveBehind(st: State) {
    exists c :: InFlight(st, c) && st.file != ToWrite(st, st.calls[c])
  }

  lemma UpToDateExactly(st: State)
    requires NothingLost(st) && !Unsaved(st)
    ensures st.file == st.mem <==> !SaveBehind(st)
  {
    if st.file != st.mem {
      var c :| InFlight(st, c);
      assert ToWrite(st, st.calls[c]) == st.mem;
    }
  }

  /** Close, or any flush, that takes the flag while no mutator is at work, with no
      mutation since. Whether its call has returned or not, the file is memory exactly
      when no save in flight still has to bring it up to date. If the flush found the
      flag set, that is sure once its own save is done; if it did not, it returns at
      once, and the question is whether such a save was in flight when it was called. */
  lemma CloseIsDurable(loaded: Contents, before: seq<Step>, c: nat, after: seq<Step>)
    requires OrderlyRun(Start(loaded), before) && Run(Start(loaded), before)
    requires var st := End(Start(loaded), before);
      && !st.mutating && OrderlyRun(st, [Take(c)] + after) && NoMutation(after)
      && Run(st, [Take(c)] + after)
    ensures var st := End(Start(loaded), before);
      var end := End(st, [Take(c)] + after);
      && end.mem == st.mem && !Unsaved(end)
      && (end.file == end.mem <==> !SaveBehind(end))
      && (st.fields.pending && c !in end.calls ==> end.file == end.mem)
      && (!st.fields.pending ==> c !in Next(st, Take(c)).calls && (st.file == st.mem <==> !SaveBehind(st)))
      && (Idle(end) ==> end.file == end.mem)
  {
    OrderlyRunEnds(Start(loaded), before);
    var st := End(Start(loaded), before);
    OrderlyRunEnds(st, [Take(c)] + after);
    assert ([Take(c)] + after)[1..] == after;
    var n := Next(st, Take(c));
    StaysClean(n, after);
    if st.fields.pending {
      assert forall d :: InFlight(n, d) ==> InFlight(st, d) || d == c;
      OnlySaveStays(n, c, after);
    } else {
      UpToDateExactly(st);
    }
    UpToDateExactly(End(st, [Take(c)] + after));
  }

  lemma {:induction false} OrderlyAppend(st: State, a: seq<Step>, b: seq<Step>)
    requires OrderlyRun(st, a) && Run(st, a) && OrderlyRun(End(st, a), b)
    ensures OrderlyRun(st, a + b)
    decreases a
  {
    if a == [] {
      assert a + b == b;
    } else {
      OrderlyAppend(Next(st, a[0]), a[1..], b);
      assert (a + b)[1..] == a[1..] + b;
    }
  }

  /** The sure case fails: a timer's save is in flight, Close finds the flag taken and
      returns at once, and the file is not memory, although no two saves overlap, none
      fails and nothing is mutated. */
  lemma CloseReturnsEarly(loaded: Contents, first: Contents) returns (before: seq<Step>)
    ensures var steps := before + [Close(1), Take(1)];
      && OrderlyRun(Start(loaded), steps) && Run(Start(loaded), steps)
      && var st := End(Start(loaded), steps);
      && 1 !in st.calls && !Unsaved(st) && st.armed == {} && st.file == loaded && st.mem == first
  {
    before := SaveStarts(loaded, first);
    var st := End(Start(loaded), before);
    var closing := Next(st, Close(1));
    OneStep(closing, Take(1), []);
    OneStep(st, Close(1), [Take(1)] + []);
    assert [Close(1)] + ([Take(1)] + []) == [Close(1), Take(1)];
    RunAppend(Start(loaded), before, [Close(1), Take(1)]);
    OrderlyAppend(Start(loaded), before, [Close(1), Take(1)]);
  }

  // ---- what a failing save does -----------------------------------------------------------

  lemma {:induction false} StaysOnDisk(st: State, steps: seq<Step>)
    requires Run(st, steps) && NoMutation(steps) && !Unsaved(st) && Idle(st)
    ensures End(st, steps).file == st.file && Idle(End(st, steps))
    decreases steps
  {
    if steps != [] {
      assert forall c :: InFlight(Next(st, steps[0]), c) ==> InFlight(st, c);
      assert forall c :: c in st.calls && st.calls[c].Holding? ==> InFlight(st, c);
      StaysOnDisk(Next(st, steps[0]), steps[1..]);
    }
  }

  /** A mutation is enough to write everything again. */
  lemma MutationRecovers(mem: Contents, file: Contents, after: Contents) returns (steps: seq<Step>)
    ensures NoMutation(steps)
    ensures var st := State(mem, false, Fields(false, None), {}, map[], file);
      && Run(st, [Mutate(after)] + steps)
      && End(st, [Mutate(after)] + steps) == st.(mem := after, file := after)
  {
    var st := State(mem, false, Fields(false, None), {}, map[], file);
    var save := MutationSaves(mem, file, after);
    var held := End(st, [Mutate(after)] + save);
    OneStep(held, Write(0), []);
    RunAppend(st, [Mutate(after)] + save, [Write(0)] + []);
    steps := save + ([Write(0)] + []);
    assert [Mutate(after)] + steps == [Mutate(after)] + save + ([Write(0)] + []);
  }

  /** A save that fails after everything was taken: whatever runs afterwards, other flushes
      and Close included, the file stays as it is until the next dirty mutation, so the
      update is lost for as long as nothing else changes, exactly when there was one. */
  lemma FailureForgets(st: State, c: nat, after: seq<Step>)
    requires InFlight(st, c) && OnlySave(st, c) && !Unsaved(st)
    requires Run(Next(st, Fail(c)), after) && NoMutation(after)
    ensures var end := End(Next(st, Fail(c)), after);
      && end.file == st.file && end.mem == st.mem
      && (end.file == end.mem <==> st.file == st.mem)
  {
    assert forall d :: InFlight(Next(st, Fail(c)), d) ==> InFlight(st, d) && d != c;
    StaysOnDisk(Next(st, Fail(c)), after);
    StaysClean(Next(st, Fail(c)), after);
  }

  /** That state is reached from the start by one mutation and one failing save. */
  lemma FailureIsReached(loaded: Contents, first: Contents) returns (before: seq<Step>)
    ensures Run(Start(loaded), before) && Run(Start(loaded), before + [Fail(0)])
    ensures var st := End(Start(loaded), before);
      InFlight(st, 0) && OnlySave(st, 0) && !Unsaved(st)
    ensures End(Start(loaded), before + [Fail(0)]) == State(first, false, Fields(false, None), {}, map[], loaded)
  {
    before := SaveStarts(loaded, first);
    var st := End(Start(loaded), before);
    RunOne(st, Fail(0), []);
    assert [Fail(0)] + [] == [Fail(0)];
    RunAppend(Start(loaded), before, [Fail(0)]);
    assert Next(st, Fail(0)).calls == map[];
  }

  // ---- what overlapping saves do ----------------------------------------------------------

  ghost predicate Finishing(steps: seq<Step>) {
    forall i :: 0 <= i < |steps| ==> steps[i].Snap? || steps[i].Write?
  }

  /** Letting the saves in flight finish, in some order, ends with nothing in flight. */
  ghost predicate Drains(st: State, steps: seq<Step>) {
    Run(st, steps) && Finishing(steps) && Idle(End(st, steps))
  }

  ghost predicate Safe(st: State) {
    && (forall c :: c in st.calls && st.calls[c].Holding? ==> st.calls[c].snapshot == st.mem)
    && (Idle(st) ==> st.file == st.mem)
  }

  lemma {:induction false} SafeDrains(st: State, steps: seq<Step>)
    requires Safe(st) && Drains(st, steps)
    ensures End(st, steps).file == End(st, steps).mem
    decreases steps
  {
    if steps != [] {
      var n := Next(st, steps[0]);
      if Idle(n) && steps[0].Snap? {
        assert InFlight(n, steps[0].c);
      }
      SafeDrains(n, steps[1..]);
    }
  }

  ghost function Saves(st: State): set<nat> {
    set c | c in st.calls && InFlight(st, c)
  }

  lemma RunAppend(st: State, a: seq<Step>, b: seq<Step>)
    requires Run(st, a) && Run(End(st, a), b)
    ensures Run(st, a + b) && End(st, a + b) == End(End(st, a), b)
    decreases a
  {
    if a == [] {
      assert a + b == b;
    } else {
      RunAppend(Next(st, a[0]), a[1..], b);
      assert (a + b)[1..] == a[1..] + b;
    }
  }

  /** One save can always be finished while the others wait. */
  lemma FinishOne(st: State, c: nat) returns (steps: seq<Step>)
    requires InFlight(st, c) && !st.mutating
    ensures Run(st, steps) && Finishing(steps)
    ensures End(st, steps) == st.(calls := st.calls - {c}, file := End(st, steps).file)
    ensures st.calls[c].Holding? ==> End(st, steps).file == st.calls[c].snapshot
  {
    if st.calls[c].Holding? {
      steps := [Write(c)];
      assert steps[1..] == [];
    } else {
      steps := [Snap(c)] + [Write(c)];
      var n := Next(st, Snap(c));
      assert [Write(c)] == [Write(c)] + [];
      RunOne(n, Write(c), []);
      RunOne(st, Snap(c), [Write(c)]);
      assert n.calls - {c} == st.calls - {c};
    }
  }

  /** Everything but c can be finished first, so c's snapshot is what stays. */
  lemma FinishLast(st: State, c: nat) returns (steps: seq<Step>)
    requires c in st.calls && st.calls[c].Holding? && !st.mutating
    ensures Drains(st, steps)
    ensures End(st, steps).file == st.calls[c].snapshot && End(st, steps).mem == st.mem
    decreases |Saves(st)|
  {
    if d :| d in Saves(st) && d != c {
      var first := FinishOne(st, d);
      var n := End(st, first);
      assert Saves(n) == Saves(st) - {d};
      var rest := FinishLast(n, c);
      RunAppend(st, first, rest);
      steps := first + rest;
    } else {
      steps := FinishOne(st, c);
      assert forall d :: InFlight(End(st, steps), d) ==> d in Saves(st) && d != c;
    }
  }

  /** Without the assumption: when nothing is pending and no mutator is at work, every
      order of finishing the saves in flight ends with memory in the file, exactly when
      no save holds a stale snapshot (and, with none in flight, the file is current). */
  lemma DrainsSafelyExactly(st: State)
    requires !Unsaved(st)
    ensures Safe(st) <==> forall steps :: Drains(st, steps) ==> End(st, steps).file == End(st, steps).mem
  {
    if Safe(st) {
      forall steps | Drains(st, steps) ensures End(st, steps).file == End(st, steps).mem {
        SafeDrains(st, steps);
      }
    } else if Idle(st) && st.file != st.mem {
      assert Drains(st, []);
      assert End(st, []).file != End(st, []).mem;
    } else {
      var c :| c in st.calls && st.calls[c].Holding? && st.calls[c].snapshot != st.mem;
      var steps := FinishLast(st, c);
      assert End(st, steps).file != End(st, steps).mem;
    }
  }

  /** A flush that has begun, up to its snapshot. */
  lemma FlushSaves(mem: Contents, file: Contents) returns (steps: seq<Step>)
    ensures NoMutation(steps)
    ensures var st := State(mem, false, Fields(true, None), {}, map[0 := Begun], file);
      && OrderlyRun(st, steps) && Run(st, steps)
      && End(st, steps) == State(mem, false, Fields(false, None), {}, map[0 := Holding(mem)], file)
  {
    var st := State(mem, false, Fields(true, None), {}, map[0 := Begun], file);
    var took := State(mem, false, Fields(false, None), {}, map[0 := Saving], file);
    assert Next(st, Take(0)) == took;
    OneStep(took, Snap(0), []);
    steps := [Snap(0)] + [];
    OneStep(st, Take(0), steps);
    steps := [Take(0)] + steps;
  }

  /** The timer's callback, from its firing to the snapshot of its save. */
  lemma TimerSaves(mem: Contents, file: Contents) returns (steps: seq<Step>)
    ensures NoMutation(steps)
    ensures var st := State(mem, false, Fields(true, Some(0)), {0}, map[], file);
      && OrderlyRun(st, steps) && Run(st, steps)
      && End(st, steps) == State(mem, false, Fields(false, None), {}, map[0 := Holding(mem)], file)
  {
    var st := State(mem, false, Fields(true, Some(0)), {0}, map[], file);
    var fired := State(mem, false, Fields(true, Some(0)), {}, map[0 := Fired], file);
    assert Next(st, Fire(0)) == fired;
    assert Next(fired, Clear(0)) == State(mem, false, Fields(true, None), {}, map[0 := Begun], file);
    steps := FlushSaves(mem, file);
    OneStep(fired, Clear(0), steps);
    steps := [Clear(0)] + steps;
    OneStep(st, Fire(0), steps);
    steps := [Fire(0)] + steps;
  }

  /** From rest, a mutation's save gets as far as its snapshot. */
  lemma MutationSaves(mem: Contents, file: Contents, after: Contents) returns (steps: seq<Step>)
    ensures NoMutation(steps)
    ensures var st := State(mem, false, Fields(false, None), {}, map[], file);
      && OrderlyRun(st, [Mutate(after)] + steps) && Run(st, [Mutate(after)] + steps)
      && End(st, [Mutate(after)] + steps)
         == State(after, false, Fields(false, None), {}, map[0 := Holding(after)], file)
  {
    var s0 := State(mem, false, Fields(false, None), {}, map[], file);
    var s1 := State(after, true, Fields(false, None), {}, map[], file);
    assert Next(s1, Schedule(0)) == State(after, false, Fields(true, Some(0)), {0}, map[], file);
    var rest := TimerSaves(after, file);
    OneStep(s1, Schedule(0), rest);
    steps := [Schedule(0)] + rest;
    OneStep(s0, Mutate(after), steps);
  }

  lemma SaveStarts(loaded: Contents, first: Contents) returns (steps: seq<Step>)
    ensures Run(Start(loaded), steps) && OrderlyRun(Start(loaded), steps)
    ensures End(Start(loaded), steps)
         == State(first, false, Fields(false, None), {}, map[0 := Holding(first)], loaded)
  {
    var rest := MutationSaves(loaded, loaded, first);
    steps := [Mutate(first)] + rest;
  }

  lemma OneStep(st: State, step: Step, rest: seq<Step>)
    requires Enabled(st, step) && Orderly(st, step)
    requires OrderlyRun(Next(st, step), rest) && Run(Next(st, step), rest)
    ensures OrderlyRun(st, [step] + rest) && Run(st, [step] + rest)
    ensures End(st, [step] + rest) == End(Next(st, step), rest)
    ensures NoMutation(rest) && !step.Mutate? ==> NoMutation([step] + rest)
  {
    assert ([step] + rest)[1..] == rest;
  }

  /** A mutation and the flush of a shutdown overtake it. */
  lemma SecondSaveStarts(loaded: Contents, first: Contents, second: Contents) returns (steps: seq<Step>)
    ensures var st := State(first, false, Fields(false, None), {}, map[0 := Holding(first)], loaded);
      Run(st, steps) && End(st, steps)
        == State(second, false, Fields(false, Some(1)), {1}, map[0 := Holding(first), 2 := Saving], loaded)
  {
    var s0 := State(first, false, Fields(false, None), {}, map[0 := Holding(first)], loaded);
    var s1 := State(second, true, Fields(false, None), {}, map[0 := Holding(first)], loaded);
    var s2 := State(second, false, Fields(true, Some(1)), {1}, map[0 := Holding(first)], loaded);
    var s3 := State(second, false, Fields(true, Some(1)), {1}, map[0 := Holding(first), 2 := Begun], loaded);
    assert Next(s1, Schedule(1)) == s2;
    RunOne(s3, Take(2), []);
    RunOne(s2, Flush(2), [Take(2)] + []);
    RunOne(s1, Schedule(1), [Flush(2)] + ([Take(2)] + []));
    steps := [Schedule(1)] + ([Flush(2)] + ([Take(2)] + []));
    RunOne(s0, Mutate(second), steps);
    steps := [Mutate(second)] + steps;
  }

  /** So a stale snapshot beside a second save is reachable, and the older contents can
      win: the last change is in neither the file nor a pending flag. */
  lemma OverlapLosesAnUpdate(loaded: Contents, first: Contents, second: Contents) returns (steps: seq<Step>)
    ensures Run(Start(loaded), steps)
    ensures var st := End(Start(loaded), steps);
      Idle(st) && !Unsaved(st) && st.mem == second && st.file == first
  {
    var a := SaveStarts(loaded, first);
    var b := SecondSaveStarts(loaded, first, second);
    RunAppend(Start(loaded), a, b);
    var st := End(Start(loaded), a + b);
    var rest := FinishLast(st, 0);
    RunAppend(Start(loaded), a + b, rest);
    assert NoMutation(rest) by { assert Finishing(rest); }
    StaysClean(st, rest);
    steps := a + b + rest;
  }

  lemma RunOne(st: State, step: Step, rest: seq<Step>)
    requires Enabled(st, step) && Run(Next(st, step), rest)
    ensures Run(st, [step] + rest) && End(st, [step] + rest) == End(Next(st, step), rest)
  {
    assert ([step] + rest)[1..] == rest;
  }
}
