/** Startup with a configured lamp set: every lamp is declared before the listener opens,
    and the first one that cannot be stops the program. */
module Startup {
  import opened Wrappers
  import opened Lamps
  import R = Registries
  import Listings
  import Ownership
  import RegistryState
  import Restarts

  datatype Outcome = Declared(reg: R.Reg) | Stopped(lamp: Lamp, why: R.Refusal)

  ghost function DeclareOne(reg: R.Reg, lamp: Lamp): R.Effect {
    R.Do(reg, R.Declare(lamp.id, lamp.name))
  }

  ghost function DeclareAll(reg: R.Reg, lamps: seq<Lamp>): Outcome
    decreases |lamps|
  {
    if lamps == [] then Declared(reg)
    else
      var e := DeclareOne(reg, lamps[0]);
      if e.answer.Refused? then Stopped(lamps[0], e.answer.why) else DeclareAll(e.reg, lamps[1..])
  }

  function IDs(lamps: seq<Lamp>): set<string> {
    set i | 0 <= i < |lamps| :: lamps[i].id
  }

  function Strangers(all: seq<R.Bulb>, configured: set<string>): seq<R.Bulb> {
    if all == [] then []
    else
      var n := |all| - 1;
      Strangers(all[..n], configured) + (if all[n].deviceID !in configured then [all[n]] else [])
  }

  /** What to warn about: the lamps of the registry the configuration does not name, in
      name order. */
  ghost predicate Warned(reg: R.Reg, lamps: seq<Lamp>, warn: seq<R.Bulb>) {
    if lamps == [] then warn == []
    else exists all :: Listings.IsListing(reg, all) && warn == Strangers(all, IDs(lamps))
  }

  lemma {:induction false} StrangersAre(all: seq<R.Bulb>, configured: set<string>)
    ensures forall b :: b in Strangers(all, configured) <==> b in all && b.deviceID !in configured
    decreases |all|
  {
    if all != [] {
      var n := |all| - 1;
      StrangersAre(all[..n], configured);
      assert all == all[..n] + [all[n]];
    }
  }

  /** Nothing the registry knows beyond the configuration goes unmentioned. */
  lemma EveryStrangerIsWarnedAbout(reg: R.Reg, lamps: seq<Lamp>, warn: seq<R.Bulb>)
    requires Warned(reg, lamps, warn) && lamps != []
    ensures forall b :: b in warn <==> b.deviceID in reg && reg[b.deviceID] == b && b.deviceID !in IDs(lamps)
  {
    var all :| Listings.IsListing(reg, all) && warn == Strangers(all, IDs(lamps));
    StrangersAre(all, IDs(lamps));
  }

  lemma {:induction false} DeclareNext(reg: R.Reg, lamps: seq<Lamp>, n: nat)
    requires n < |lamps|
    ensures var e := DeclareOne(reg, lamps[n]);
      DeclareAll(reg, lamps[n..])
      == if e.answer.Refused? then Stopped(lamps[n], e.answer.why) else DeclareAll(e.reg, lamps[n + 1..])
  {
    assert lamps[n..][1..] == lamps[n + 1..];
  }

  /** declareLamps: the answer is what to warn about. */
  method DeclareLamps(reg: RegistryState.Registry, lamps: seq<Lamp>)
    returns (r: Result<seq<R.Bulb>, (Lamp, R.Refusal)>)
    requires reg.Valid()
    modifies reg, reg.bulbs.Values
    ensures reg.Valid()
    ensures r.Ok? ==> DeclareAll(old(reg.Contents()), lamps) == Declared(reg.Contents())
    ensures r.Ok? ==> Warned(reg.Contents(), lamps, r.value)
    ensures r.Err? ==> DeclareAll(old(reg.Contents()), lamps) == Stopped(r.error.0, r.error.1)
  {
    var configured, refused := DeclareEach(reg, lamps);
    if refused.Some? {
      return Err(refused.value);
    }
    if |lamps| == 0 {
      return Ok([]);
    }
    var all := reg.List();
    var warn := FindStrangers(all, configured);
    return Ok(warn);
  }

  /** Its first loop. */
  method DeclareEach(reg: RegistryState.Registry, lamps: seq<Lamp>)
    returns (configured: set<string>, refused: Option<(Lamp, R.Refusal)>)
    requires reg.Valid()
    modifies reg, reg.bulbs.Values
    ensures reg.Valid()
    ensures refused.None? ==>
              DeclareAll(old(reg.Contents()), lamps) == Declared(reg.Contents()) && configured == IDs(lamps)
    ensures refused.Some? ==>
              DeclareAll(old(reg.Contents()), lamps) == Stopped(refused.value.0, refused.value.1)
  {
    configured := {};
    for i := 0 to |lamps|
      invariant reg.Valid() && fresh(reg.bulbs.Values - old(reg.bulbs.Values))
      invariant configured == IDs(lamps[..i])
      invariant DeclareAll(old(reg.Contents()), lamps) == DeclareAll(reg.Contents(), lamps[i..])
    {
      DeclareNext(reg.Contents(), lamps, i);
      IDsNext(lamps, i);
      var refusal := DeclareLamp(reg, lamps[i]);
      if refusal.Some? {
        return configured, Some((lamps[i], refusal.value));
      }
      configured := configured + {lamps[i].id};
    }
    assert lamps[..|lamps|] == lamps;
    return configured, None;
  }

  method DeclareLamp(reg: RegistryState.Registry, lamp: Lamp) returns (refusal: Option<R.Refusal>)
    requires reg.Valid()
    modifies reg, reg.bulbs.Values
    ensures reg.Valid() && fresh(reg.bulbs.Values - old(reg.bulbs.Values))
    ensures var e := DeclareOne(old(reg.Contents()), lamp);
      reg.Contents() == e.reg && refusal == if e.answer.Refused? then Some(e.answer.why) else None
  {
    var answer, _ := reg.Declare(lamp.id, lamp.name);
    refusal := if answer.Err? then Some(answer.error) else None;
  }

  lemma IDsNext(lamps: seq<Lamp>, n: nat)
    requires n < |lamps|
    ensures IDs(lamps[..n + 1]) == IDs(lamps[..n]) + {lamps[n].id}
  {
    assert forall i :: 0 <= i < n ==> lamps[..n][i] == lamps[..n + 1][i];
    assert lamps[..n + 1][n] == lamps[n];
  }

  method FindStrangers(all: seq<R.Bulb>, configured: set<string>) returns (warn: seq<R.Bulb>)
    ensures warn == Strangers(all, configured)
  {
    warn := [];
    for i := 0 to |all|
      invariant warn == Strangers(all[..i], configured)
    {
      assert all[..i + 1][..i] == all[..i];
      if all[i].deviceID !in configured {
        warn := warn + [all[i]];
      }
    }
    assert all[..|all|] == all;
  }

  // ---- when the program starts -------------------------------------------------------------

  predicate Accepted(lamps: seq<Lamp>) {
    Addressable(lamps) && forall i :: 0 <= i < |lamps| ==> Printable(lamps[i])
  }

  /** Another lamp of the registry bears the i-th configured name, and is not one that has
      been given its own configured name by then. */
  ghost predicate InTheWay(reg: R.Reg, lamps: seq<Lamp>, i: nat)
    requires i < |lamps|
  {
    exists id :: id in reg && reg[id].name == lamps[i].name && forall j :: 0 <= j <= i ==> lamps[j].id != id
  }

  /** What a configured lamp is after startup: only its name is set, and it is adopted. */
  function Configured(e: Option<R.Bulb>, lamp: Lamp): R.Bulb {
    match e
    case None => R.NewBulb(lamp.id, lamp.name, R.Disconnected)
    case Some(b) => b.(name := lamp.name, status := R.Adopt(b.status))
  }

  ghost predicate HoldsConfigured(before: R.Reg, after: R.Reg, lamps: seq<Lamp>) {
    && (forall i :: 0 <= i < |lamps| ==>
          R.Lookup(after, lamps[i].id) == Some(Configured(R.Lookup(before, lamps[i].id), lamps[i])))
    && (forall id :: (forall i :: 0 <= i < |lamps| ==> lamps[i].id != id) ==>
          R.Lookup(after, id) == R.Lookup(before, id))
  }

  lemma OneDeclared(reg: R.Reg, lamp: Lamp)
    requires Printable(lamp)
    ensures var e := DeclareOne(reg, lamp);
      && (e.answer.Refused? <==> R.NameTaken(reg, lamp.id, lamp.name))
      && (e.answer.Refused? ==> e.answer.why == R.NameInUse)
      && (!e.answer.Refused? ==>
            && R.Lookup(e.reg, lamp.id) == Some(Configured(R.Lookup(reg, lamp.id), lamp))
            && forall id :: id != lamp.id ==> R.Lookup(e.reg, id) == R.Lookup(reg, id))
  {
  }

  lemma FirstInTheWay(reg: R.Reg, lamps: seq<Lamp>)
    requires lamps != []
    ensures InTheWay(reg, lamps, 0) <==> R.NameTaken(reg, lamps[0].id, lamps[0].name)
  {
  }

  lemma AcceptedRest(lamps: seq<Lamp>)
    requires Accepted(lamps) && lamps != []
    ensures Accepted(lamps[1..])
    ensures forall i :: 1 <= i < |lamps| ==>
              lamps[i].id != lamps[0].id && lamps[i].name != lamps[0].name && lamps[1..][i - 1] == lamps[i]
  {
  }

  /** Declaring the first lamp clears the way or not for the later ones alike. */
  lemma InTheWayLater(reg: R.Reg, lamps: seq<Lamp>, i: nat)
    requires Accepted(lamps) && 1 <= i < |lamps| && !DeclareOne(reg, lamps[0]).answer.Refused?
    ensures InTheWay(DeclareOne(reg, lamps[0]).reg, lamps[1..], i - 1) <==> InTheWay(reg, lamps, i)
  {
    var next, rest := DeclareOne(reg, lamps[0]).reg, lamps[1..];
    OneDeclared(reg, lamps[0]);
    AcceptedRest(lamps);
    if InTheWay(reg, lamps, i) {
      var id :| id in reg && reg[id].name == lamps[i].name && forall j :: 0 <= j <= i ==> lamps[j].id != id;
      assert lamps[0].id != id;
      assert R.Lookup(next, id) == R.Lookup(reg, id);
      assert forall j :: 0 <= j <= i - 1 ==> rest[j] == lamps[j + 1];
    }
    if InTheWay(next, rest, i - 1) {
      var id :| id in next && next[id].name == rest[i - 1].name && forall j :: 0 <= j <= i - 1 ==> rest[j].id != id;
      assert R.Lookup(next, id) == Some(next[id]);
      assert R.Lookup(next, lamps[0].id).value.name == lamps[0].name;
      assert id != lamps[0].id;
      assert R.Lookup(next, id) == R.Lookup(reg, id);
      assert forall j :: 1 <= j <= i ==> lamps[j] == rest[j - 1];
    }
  }

  ghost predicate WayIsClear(reg: R.Reg, lamps: seq<Lamp>) {
    forall i :: 0 <= i < |lamps| ==> !InTheWay(reg, lamps, i)
  }

  lemma WayIsClearNext(reg: R.Reg, lamps: seq<Lamp>)
    requires Accepted(lamps) && lamps != [] && !DeclareOne(reg, lamps[0]).answer.Refused?
    ensures WayIsClear(DeclareOne(reg, lamps[0]).reg, lamps[1..]) <==> WayIsClear(reg, lamps)
  {
    var next := DeclareOne(reg, lamps[0]).reg;
    OneDeclared(reg, lamps[0]);
    FirstInTheWay(reg, lamps);
    forall i | 1 <= i < |lamps| ensures InTheWay(next, lamps[1..], i - 1) <==> InTheWay(reg, lamps, i) {
      InTheWayLater(reg, lamps, i);
    }
    if WayIsClear(next, lamps[1..]) {
      forall i | 0 <= i < |lamps| ensures !InTheWay(reg, lamps, i) {
        assert i > 0 ==> !InTheWay(next, lamps[1..], i - 1);
      }
    }
    if WayIsClear(reg, lamps) {
      forall i | 0 <= i < |lamps| - 1 ensures !InTheWay(next, lamps[1..], i) {
        assert !InTheWay(reg, lamps, i + 1);
      }
    }
  }

  lemma HoldsConfiguredNext(reg: R.Reg, after: R.Reg, lamps: seq<Lamp>)
    requires Accepted(lamps) && lamps != [] && !DeclareOne(reg, lamps[0]).answer.Refused?
    requires HoldsConfigured(DeclareOne(reg, lamps[0]).reg, after, lamps[1..])
    ensures HoldsConfigured(reg, after, lamps)
  {
    var next, rest := DeclareOne(reg, lamps[0]).reg, lamps[1..];
    OneDeclared(reg, lamps[0]);
    AcceptedRest(lamps);
    assert forall i :: 0 <= i < |rest| ==> rest[i] == lamps[i + 1];
    forall i | 0 <= i < |lamps|
      ensures R.Lookup(after, lamps[i].id) == Some(Configured(R.Lookup(reg, lamps[i].id), lamps[i]))
    {
      if i > 0 {
        assert rest[i - 1] == lamps[i];
      }
    }
    forall id | forall i :: 0 <= i < |lamps| ==> lamps[i].id != id ensures R.Lookup(after, id) == R.Lookup(reg, id) {
      assert lamps[0].id != id;
    }
  }

  /** With lamps the parser accepts, startup succeeds exactly when no other lamp of the
      registry is in the way of a configured name; then the configured lamps are present
      and named, with everything else about them kept, and no other entry is touched;
      otherwise the only reason is a name in use. */
  lemma {:induction false} StartsExactly(reg: R.Reg, lamps: seq<Lamp>)
    requires Accepted(lamps)
    ensures DeclareAll(reg, lamps).Declared? <==> WayIsClear(reg, lamps)
    ensures DeclareAll(reg, lamps).Declared? ==> HoldsConfigured(reg, DeclareAll(reg, lamps).reg, lamps)
    ensures DeclareAll(reg, lamps).Stopped? ==> DeclareAll(reg, lamps).why == R.NameInUse
    decreases |lamps|
  {
    if lamps != [] {
      OneDeclared(reg, lamps[0]);
      FirstInTheWay(reg, lamps);
      if !DeclareOne(reg, lamps[0]).answer.Refused? {
        AcceptedRest(lamps);
        WayIsClearNext(reg, lamps);
        StartsExactly(DeclareOne(reg, lamps[0]).reg, lamps[1..]);
        if DeclareAll(reg, lamps).Declared? {
          HoldsConfiguredNext(reg, DeclareAll(reg, lamps).reg, lamps);
        }
      }
    }
  }

  lemma {:induction false} DeclaringIsSound(reg: R.Reg, lamps: seq<Lamp>)
    requires Restarts.Sound(reg) && Ownership.NoDrivers(reg)
    ensures var o := DeclareAll(reg, lamps);
      o.Declared? ==> Restarts.Sound(o.reg) && Ownership.NoDrivers(o.reg)
    decreases |lamps|
  {
    if lamps != [] && !DeclareOne(reg, lamps[0]).answer.Refused? {
      var op := R.Declare(lamps[0].id, lamps[0].name);
      var next := DeclareOne(reg, lamps[0]).reg;
      R.KeyedStep(reg, op);
      R.NamesStayDistinct(reg, op);
      R.EmptyIDExactly(reg, op);
      forall id | id in next ensures next[id].driver.None? {
        Ownership.DriverAfter(reg, op, id);
      }
      DeclaringIsSound(next, lamps[1..]);
    }
  }

  /** From any file and any setting, a program that starts does so with what the ownership
      and restart results ask of it. */
  lemma StartIsSound(disk: Listings.Disk, reg: R.Reg, lamps: seq<Lamp>)
    requires Listings.LoadDisk(disk) == Ok(reg) && DeclareAll(reg, lamps).Declared?
    ensures var started := DeclareAll(reg, lamps).reg;
      Restarts.Sound(started) && Ownership.NoDrivers(started)
  {
    Restarts.LoadIsSound(disk, reg);
    DeclaringIsSound(reg, lamps);
  }

  /** Only configured lamps are let in to connect. */
  predicate AdmitsOnly(ops: seq<R.Op>, ids: set<string>) {
    forall i :: 0 <= i < |ops| && ops[i].Upsert? ==> ops[i].id in ids
  }

  lemma {:induction false} KnownNeverClash(reg: R.Reg, ops: seq<R.Op>, ids: set<string>)
    requires ids <= reg.Keys && AdmitsOnly(ops, ids)
    ensures R.NoClash(reg, ops) && ids <= R.DoAll(reg, ops).Keys
    decreases ops
  {
    if ops != [] {
      KnownNeverClash(R.Do(reg, ops[0]).reg, ops[1..], ids);
    }
  }

  lemma {:induction false} KnownNeverClashEver(reg: R.Reg, lives: seq<seq<R.Op>>, ids: set<string>)
    requires ids <= reg.Keys && forall i :: 0 <= i < |lives| ==> AdmitsOnly(lives[i], ids)
    ensures Restarts.NoClashEver(reg, lives)
    decreases |lives|
  {
    if lives != [] {
      KnownNeverClash(reg, lives[0], ids);
      KnownNeverClashEver(Listings.Restarted(R.DoAll(reg, lives[0])), lives[1..], ids);
    }
  }

  /** A program that lets in configured lamps only: from any file, once an accepted setting
      has been declared, over any run and any number of restarts, names are distinct in
      every state and every file that is saved loads back - without any assumption. */
  lemma AdmittedRunsAreSafe(disk: Listings.Disk, reg: R.Reg, lamps: seq<Lamp>, lives: seq<seq<R.Op>>)
    requires Listings.LoadDisk(disk) == Ok(reg)
    requires Accepted(lamps) && DeclareAll(reg, lamps).Declared?
    requires forall i :: 0 <= i < |lives| ==> AdmitsOnly(lives[i], IDs(lamps))
    ensures Restarts.EveryRestartSucceeds(DeclareAll(reg, lamps).reg, lives)
  {
    var started := DeclareAll(reg, lamps).reg;
    StartIsSound(disk, reg, lamps);
    StartsExactly(reg, lamps);
    forall id | id in IDs(lamps) ensures id in started && id != "" {
      var i :| 0 <= i < |lamps| && lamps[i].id == id;
      assert R.Lookup(started, lamps[i].id).Some? && Printable(lamps[i]);
    }
    KnownNeverClashEver(started, lives, IDs(lamps));
    Restarts.RestartsAlwaysLoad(started, lives);
  }

  /** On a lost registry file any accepted setting starts. */
  lemma LostFileCostsNothing(s: string, lamps: seq<Lamp>)
    requires Parse(s) == Ok(lamps)
    ensures DeclareAll(map[], lamps).Declared?
    ensures forall i :: 0 <= i < |lamps| ==>
              R.Lookup(DeclareAll(map[], lamps).reg, lamps[i].id)
              == Some(R.NewBulb(lamps[i].id, lamps[i].name, R.Disconnected))
  {
    AcceptedArePrintable(s, lamps);
    StartsExactly(map[], lamps);
  }

  lemma {:induction false} NothingToDeclare(reg: R.Reg, lamps: seq<Lamp>)
    requires Accepted(lamps) && WayIsClear(reg, lamps)
    requires forall i :: 0 <= i < |lamps| ==>
               lamps[i].id in reg && Configured(Some(reg[lamps[i].id]), lamps[i]) == reg[lamps[i].id]
    ensures DeclareAll(reg, lamps) == Declared(reg)
    decreases |lamps|
  {
    if lamps != [] {
      OneDeclared(reg, lamps[0]);
      FirstInTheWay(reg, lamps);
      var next := DeclareOne(reg, lamps[0]).reg;
      assert next == reg by {
        assert forall id :: R.Lookup(next, id) == R.Lookup(reg, id);
        R.SameLookups(next, reg);
      }
      AcceptedRest(lamps);
      WayIsClearNext(reg, lamps);
      NothingToDeclare(reg, lamps[1..]);
    }
  }

  /** A restart with the same setting starts again and changes nothing. */
  lemma RestartStartsAgain(reg: R.Reg, lamps: seq<Lamp>)
    requires Accepted(lamps) && DeclareAll(reg, lamps).Declared?
    ensures var again := Listings.Restarted(DeclareAll(reg, lamps).reg);
      DeclareAll(again, lamps) == Declared(again)
  {
    StartsExactly(reg, lamps);
    var after := DeclareAll(reg, lamps).reg;
    var again := Listings.Restarted(after);
    forall i | 0 <= i < |lamps|
      ensures lamps[i].id in again && Configured(Some(again[lamps[i].id]), lamps[i]) == again[lamps[i].id]
    {
      assert R.Lookup(after, lamps[i].id).Some?;
    }
    forall i | 0 <= i < |lamps| ensures !InTheWay(again, lamps, i) {
      if id :| id in again && again[id].name == lamps[i].name && forall j :: 0 <= j <= i ==> lamps[j].id != id {
        StaysClear(reg, after, lamps, i, id);
      }
    }
    NothingToDeclare(again, lamps);
  }

  lemma StaysClear(reg: R.Reg, after: R.Reg, lamps: seq<Lamp>, i: nat, id: string)
    requires Accepted(lamps) && HoldsConfigured(reg, after, lamps) && i < |lamps|
    requires id in after && after[id].name == lamps[i].name && forall j :: 0 <= j <= i ==> lamps[j].id != id
    ensures InTheWay(reg, lamps, i)
  {
    forall j | 0 <= j < |lamps| ensures lamps[j].id != id {
      assert R.Lookup(after, lamps[j].id).value.name == lamps[j].name;
      assert j > i ==> lamps[i].name != lamps[j].name;
    }
    assert R.Lookup(after, id) == R.Lookup(reg, id);
  }

  /** But not every change of the setting can be made: two lamps cannot swap names. */
  lemma SwapStops(reg: R.Reg, a: string, b: string)
    requires a != b && a in reg && b in reg
    requires Accepted([Lamp(a, reg[b].name), Lamp(b, reg[a].name)])
    ensures DeclareAll(reg, [Lamp(a, reg[b].name), Lamp(b, reg[a].name)]) == Stopped(Lamp(a, reg[b].name), R.NameInUse)
  {
    var lamps := [Lamp(a, reg[b].name), Lamp(b, reg[a].name)];
    OneDeclared(reg, lamps[0]);
    assert R.NameTaken(reg, a, reg[b].name);
  }
}
