/** Whom a takeover closes: nobody but sessions that have lost their lamp. */
module Losers {
  import opened Wrappers
  import opened Registries
  import opened Ownership

  /** s attached once and is not the driver of its lamp. */
  predicate Lost(st: State, s: Driver) {
    HasAttached(st, s) && DriverOf(st.reg, st.sessions[s].id) != Some(s)
  }

  /** Whoever is or is about to be handed to Close by a takeover has lost its lamp. */
  ghost predicate OnlyLosers(st: State, others: set<Driver>) {
    && (forall s :: s in st.closing ==> s in others || Lost(st, s))
    && (forall t, p :: In(st, t, Attached(Some(p))) && p != t ==> Lost(st, p))
  }

  lemma LostStep(st: State, step: Step, s: Driver)
    requires Inv(st) && Enabled(st, step) && Lost(st, s)
    ensures Lost(Next(st, step), s)
  {
    SupersededStep(st, step, s);
  }

  lemma TakenFromLoser(st: State, t: Driver, p: Driver)
    requires Inv(st) && Enabled(st, TakeOver(t)) && p != t
    requires DriverOf(st.reg, st.sessions[t].id) == Some(p)
    ensures Lost(Next(st, TakeOver(t)), p)
  {
    var id := st.sessions[t].id;
    DriverAfter(st.reg, SetDriver(id, t), id);
    LastAttachedInLog(st.log, id);
    assert DriverOf(st.reg, id) == Owner(st.log, id);
    assert HasAttached(st, p) && st.sessions[p].id == id;
  }

  function ClosedByStep(step: Step): set<Driver> {
    if step.CloseAny? then {step.s} else {}
  }

  lemma OnlyLosersStep(st: State, step: Step, others: set<Driver>)
    requires Inv(st) && OnlyLosers(st, others) && Enabled(st, step)
    ensures OnlyLosers(Next(st, step), others + ClosedByStep(step))
  {
    var n := Next(st, step);
    forall s | s in n.closing ensures s in others + ClosedByStep(step) || Lost(n, s) {
      if step.CloseLoser? && s !in st.closing {
        assert In(st, step.s, Attached(Some(s))) && s != step.s;
        LostStep(st, step, s);
      } else if s in st.closing && s !in others {
        LostStep(st, step, s);
      }
    }
    forall t, p | In(n, t, Attached(Some(p))) && p != t ensures Lost(n, p) {
      if In(st, t, Attached(Some(p))) {
        LostStep(st, step, p);
      } else {
        var id := st.sessions[t].id;
        DriverAfter(st.reg, SetDriver(id, t), id);
        TakenFromLoser(st, t, p);
      }
    }
  }

  lemma {:induction false} OnlyLosersAlways(st: State, steps: seq<Step>, others: set<Driver>)
    requires Inv(st) && OnlyLosers(st, others) && Run(st, steps)
    requires forall i :: 0 <= i < |steps| && steps[i].CloseAny? ==> steps[i].s in others
    ensures OnlyLosers(End(st, steps), others)
    decreases steps
  {
    if steps != [] {
      InvStep(st, steps[0]);
      OnlyLosersStep(st, steps[0], others);
      assert others + ClosedByStep(steps[0]) == others;
      OnlyLosersAlways(Next(st, steps[0]), steps[1..], others);
    }
  }

  /** A takeover closes nobody who owns a lamp: a session handed to Close, and not by the
      shutdown, has attached and lost its lamp to another. */
  lemma OnlyLosersAreClosed(reg: Reg, steps: seq<Step>, s: Driver)
    requires NoDrivers(reg) && Run(Start(reg), steps)
    requires s in End(Start(reg), steps).closing && CloseAny(s) !in steps
    ensures Lost(End(Start(reg), steps), s)
  {
    var others := set i | 0 <= i < |steps| && steps[i].CloseAny? :: steps[i].s;
    OnlyLosersAlways(Start(reg), steps, others);
    assert forall i :: 0 <= i < |steps| && steps[i].CloseAny? ==> steps[i] == CloseAny(steps[i].s);
  }
}
