/** The registry as the source keeps it: a map of entries whose fields are updated in
    place. Each method is one critical section under the registry lock and does to the
    abstract value exactly what Registries.Do says. */
module RegistryState {
  import opened Wrappers
  import opened Bulbs
  import R = Registries
  import Texts
  import L = Listings
  import opened Sorting

  class Entry {
    const deviceID: string
    var name: string
    var status: R.Status
    var state: LightState
    var desired: Option<LightState>
    var caps: Capabilities
    var firmware: string
    var firstSeen: Time
    var lastSeen: Time
    var remoteAddr: string
    var driver: Option<R.Driver>

    constructor (b: R.Bulb)
      ensures Value() == b
    {
      deviceID, name, status, state, desired := b.deviceID, b.name, b.status, b.state, b.desired;
      caps, firmware, firstSeen, lastSeen := b.caps, b.firmware, b.firstSeen, b.lastSeen;
      remoteAddr, driver := b.remoteAddr, b.driver;
    }

    function Value(): R.Bulb
      reads this
    {
      R.Bulb(deviceID, name, status, state, desired, caps, firmware, firstSeen, lastSeen, remoteAddr, driver)
    }

    /** The field updates of a returning lamp. */
    method Rejoin(addr: string, newCaps: Capabilities, now: Time)
      modifies this
      ensures Some(Value()) == R.OnUpsert(Some(old(Value())), deviceID, addr, newCaps, now).entry
    {
      lastSeen := now;
      remoteAddr := addr;
      if newCaps.known || !caps.known {
        caps := newCaps;
      }
      if status != R.Discovered {
        status := R.Connected;
      }
    }

    /** The field updates of naming a lamp, which adopts it. */
    method Name(newName: string)
      modifies this
      ensures Value() == old(Value()).(name := newName, status := R.Adopt(old(status)))
    {
      name := newName;
      if status == R.Discovered {
        status := R.Connected;
      }
    }

    /** The field updates of a report. */
    method Store(newState: LightState, now: Time)
      modifies this
      ensures Value() == old(Value()).(state := newState, lastSeen := now, desired := None)
    {
      state := newState;
      lastSeen := now;
      desired := None;
    }

    /** Known capabilities are not given up for unknown ones. */
    method Refine(newCaps: Capabilities) returns (changed: bool)
      modifies this
      ensures R.Outcome(Some(Value()), changed, R.Changed(changed)) == R.OnSetCapabilities(Some(old(Value())), newCaps)
    {
      if (!newCaps.known && caps.known) || caps == newCaps {
        return false;
      }
      caps := newCaps;
      return true;
    }

    /** The field updates of a lost connection. */
    method Release()
      modifies this
      ensures Value() == old(Value()).(driver := None, status := R.Offline(old(status)))
    {
      driver := None;
      if status == R.Connected {
        status := R.Disconnected;
      }
    }
  }

  class Registry {
    var bulbs: map<string, Entry>
    /** How many times the dirty hook has been called. */
    var dirtied: nat

    ghost predicate Valid()
      reads this`bulbs, bulbs.Values
    {
      forall id :: id in bulbs ==> bulbs[id].deviceID == id
    }

    ghost function Contents(): R.Reg
      reads this`bulbs, bulbs.Values
    {
      map id | id in bulbs :: bulbs[id].Value()
    }

    ghost function Look(id: string): (e: Option<R.Bulb>)
      reads this`bulbs, bulbs.Values
    {
      R.Lookup(Contents(), id)
    }

    /** The entry of id was replaced by what o says, every other entry is as it was, and
        the dirty hook was called exactly when o says so. */
    ghost predicate Did(before: R.Reg, count: nat, id: string, o: R.Outcome)
      reads this, bulbs.Values
    {
      && Contents() == R.Put(before, id, o.entry)
      && dirtied == count + (if o.dirty then 1 else 0)
    }

    constructor ()
      ensures Valid() && bulbs == map[] && Contents() == map[] && dirtied == 0
    {
      bulbs, dirtied := map[], 0;
    }

    /** Stores the first entry for a device id. */
    method Add(b: R.Bulb)
      requires Valid() && b.deviceID !in bulbs
      modifies this`bulbs
      ensures Valid() && fresh(bulbs.Values - old(bulbs.Values))
      ensures Contents() == old(Contents())[b.deviceID := b] && bulbs.Keys == old(bulbs.Keys) + {b.deviceID}
    {
      var entry := new Entry(b);
      bulbs := bulbs[b.deviceID := entry];
    }

    /** The same as a change to be saved. */
    method AddDirty(b: R.Bulb)
      requires Valid() && b.deviceID !in bulbs
      modifies this
      ensures Valid() && fresh(bulbs.Values - old(bulbs.Values))
      ensures Contents() == old(Contents())[b.deviceID := b] && dirtied == old(dirtied) + 1
    {
      var entry := new Entry(b);
      bulbs := bulbs[b.deviceID := entry];
      dirtied := dirtied + 1;
    }

    method Upsert(id: string, addr: string, caps: Capabilities, now: Time) returns (b: R.Bulb, isNew: bool)
      requires Valid()
      modifies this, bulbs.Values
      ensures Valid() && fresh(bulbs.Values - old(bulbs.Values))
      ensures var o := R.OnUpsert(old(Look(id)), id, addr, caps, now);
        && Did(old(Contents()), old(dirtied), id, o)
        && o.answer == R.Entry(b, isNew)
    {
      if id in bulbs {
        var existing := bulbs[id];
        existing.Rejoin(addr, caps, now);
        dirtied := dirtied + 1;
        b, isNew := existing.Value(), false;
      } else {
        b := R.NewBulb(id, id, R.Discovered).(caps := caps, firstSeen := now, lastSeen := now, remoteAddr := addr);
        isNew := true;
        AddDirty(b);
      }
    }

    /** The loop of Declare and Rename over the other entries. */
    method FindOwner(id: string, name: string) returns (owner: Option<string>)
      requires Valid()
      ensures Valid() && Contents() == old(Contents()) && bulbs == old(bulbs) && dirtied == old(dirtied)
      ensures owner.Some? <==> R.NameTaken(old(Contents()), id, name)
      ensures owner.Some? ==> owner.value in bulbs && owner.value != id && Contents()[owner.value].name == name
    {
      var todo := bulbs.Keys;
      while todo != {}
        invariant todo <= bulbs.Keys
        invariant forall other :: other in bulbs && other !in todo && other != id ==> bulbs[other].name != name
      {
        var other :| other in todo;
        if other != id && bulbs[other].name == name {
          assert Contents()[other].name == name;
          return Some(other);
        }
        todo := todo - {other};
      }
      return None;
    }

    method Declare(id: string, name: string) returns (r: Result<(bool, bool), R.Refusal>, owner: string)
      requires Valid()
      modifies this, bulbs.Values
      ensures Valid() && fresh(bulbs.Values - old(bulbs.Values))
      ensures var o := R.OnDeclare(old(Look(id)), id, name, old(R.NameTaken(Contents(), id, name)));
        && Did(old(Contents()), old(dirtied), id, o)
        && o.answer == match r case Ok((c, n)) => R.Declared(c, n) case Err(e) => R.Refused(e)
      ensures r == Err(R.NameInUse) ==> owner in old(Contents()) && owner != id && old(Contents())[owner].name == name
    {
      owner := "";
      PutBack(id);
      if Texts.Blank(id) {
        return Err(R.BlankID), owner;
      }
      if Texts.Blank(name) {
        return Err(R.BlankName), owner;
      }
      var taken := FindOwner(id, name);
      if taken.Some? {
        return Err(R.NameInUse), taken.value;
      }
      if id !in bulbs {
        DeclareNew(id, name);
        return Ok((true, false)), owner;
      }
      var renamed := DeclareKnown(id, name);
      return Ok((false, renamed)), owner;
    }

    /** What a refusal leaves. */
    lemma PutBack(id: string)
      ensures Contents() == R.Put(Contents(), id, Look(id))
    {
    }

    method DeclareNew(id: string, name: string)
      requires Valid() && id !in bulbs && !Texts.Blank(id) && !Texts.Blank(name)
      modifies this
      ensures Valid() && fresh(bulbs.Values - old(bulbs.Values))
      ensures Did(old(Contents()), old(dirtied), id, R.OnDeclare(None, id, name, false))
    {
      AddDirty(R.NewBulb(id, name, R.Disconnected));
    }

    method DeclareKnown(id: string, name: string) returns (renamed: bool)
      requires Valid() && id in bulbs && !Texts.Blank(id) && !Texts.Blank(name)
      modifies this, bulbs.Values
      ensures Valid() && bulbs == old(bulbs)
      ensures var o := R.OnDeclare(old(Look(id)), id, name, false);
        Did(old(Contents()), old(dirtied), id, o) && o.answer == R.Declared(false, renamed)
    {
      renamed := bulbs[id].name != name;
      bulbs[id].Name(name);
      if renamed {
        dirtied := dirtied + 1;
      }
    }

    method Rename(id: string, name: string) returns (r: Result<bool, R.Refusal>, owner: string)
      requires Valid()
      modifies this, bulbs.Values
      ensures Valid() && bulbs == old(bulbs)
      ensures var o := R.OnRename(old(Look(id)), name, old(R.NameTaken(Contents(), id, name)));
        && Did(old(Contents()), old(dirtied), id, o)
        && o.answer == match r case Ok(a) => R.Adopted(a) case Err(e) => R.Refused(e)
      ensures r == Err(R.NameInUse) ==> owner in old(Contents()) && owner != id && old(Contents())[owner].name == name
    {
      owner := "";
      PutBack(id);
      if Texts.Blank(name) {
        return Err(R.BlankName), owner;
      }
      if id !in bulbs {
        return Err(R.UnknownTarget), owner;
      }
      var taken := FindOwner(id, name);
      if taken.Some? {
        return Err(R.NameInUse), taken.value;
      }
      var adopted := RenameKnown(id, name);
      return Ok(adopted), owner;
    }

    method RenameKnown(id: string, name: string) returns (adopted: bool)
      requires Valid() && id in bulbs && !Texts.Blank(name)
      modifies this, bulbs.Values
      ensures Valid() && bulbs == old(bulbs)
      ensures var o := R.OnRename(old(Look(id)), name, false);
        Did(old(Contents()), old(dirtied), id, o) && o.answer == R.Adopted(adopted)
    {
      adopted := bulbs[id].status == R.Discovered;
      bulbs[id].Name(name);
      dirtied := dirtied + 1;
    }

    method SetState(id: string, state: LightState, now: Time) returns (changes: seq<FieldChange>)
      requires Valid()
      modifies this, bulbs.Values
      ensures Valid() && bulbs == old(bulbs)
      ensures var o := R.OnSetState(old(Look(id)), state, now);
        && Did(old(Contents()), old(dirtied), id, o)
        && o.answer == R.Changes(changes)
      ensures if id in old(bulbs) then Tells(changes, old(Contents()[id].state), state) else changes == []
    {
      if id !in bulbs {
        return [];
      }
      var b := bulbs[id];
      changes := Diff(b.state, state);
      DiffTells(b.state, state);
      b.Store(state, now);
      assert Contents() == old(Contents())[id := b.Value()];
      if |changes| > 0 {
        dirtied := dirtied + 1;
      }
    }

    method SetDesired(id: string, want: LightState)
      requires Valid()
      modifies this, bulbs.Values
      ensures Valid() && bulbs == old(bulbs)
      ensures Did(old(Contents()), old(dirtied), id, R.OnSetDesired(old(Look(id)), want))
    {
      if id in bulbs {
        bulbs[id].desired := Some(want);
      }
    }

    method Touch(id: string, now: Time)
      requires Valid()
      modifies this, bulbs.Values
      ensures Valid() && bulbs == old(bulbs)
      ensures Did(old(Contents()), old(dirtied), id, R.OnTouch(old(Look(id)), now))
    {
      if id in bulbs {
        bulbs[id].lastSeen := now;
      }
    }

    method SetFirmware(id: string, version: string)
      requires Valid()
      modifies this, bulbs.Values
      ensures Valid() && bulbs == old(bulbs)
      ensures Did(old(Contents()), old(dirtied), id, R.OnSetFirmware(old(Look(id)), version))
    {
      if version == "" {
        return;
      }
      if id in bulbs && bulbs[id].firmware != version {
        bulbs[id].firmware := version;
        dirtied := dirtied + 1;
      }
    }

    method SetCapabilities(id: string, caps: Capabilities) returns (changed: bool)
      requires Valid()
      modifies this, bulbs.Values
      ensures Valid() && bulbs == old(bulbs)
      ensures var o := R.OnSetCapabilities(old(Look(id)), caps);
        && Did(old(Contents()), old(dirtied), id, o)
        && o.answer == R.Changed(changed)
    {
      if id !in bulbs {
        return false;
      }
      changed := bulbs[id].Refine(caps);
      if changed {
        dirtied := dirtied + 1;
      }
    }

    method SetDriver(id: string, d: R.Driver) returns (previous: Option<R.Driver>)
      requires Valid()
      modifies this, bulbs.Values
      ensures Valid() && bulbs == old(bulbs)
      ensures var o := R.OnSetDriver(old(Look(id)), d);
        && Did(old(Contents()), old(dirtied), id, o)
        && o.answer == R.Replaced(previous)
    {
      if id !in bulbs {
        return None;
      }
      var b := bulbs[id];
      previous := b.driver;
      b.driver := Some(d);
      if b.status == R.Disconnected {
        b.status := R.Connected;
      }
    }

    method Disconnect(id: string, driver: Option<R.Driver>)
      requires Valid()
      modifies this, bulbs.Values
      ensures Valid() && bulbs == old(bulbs)
      ensures Did(old(Contents()), old(dirtied), id, R.OnDisconnect(old(Look(id)), driver))
    {
      if id !in bulbs || (driver.Some? && bulbs[id].driver != driver) {
        assert Contents() == old(Contents());
        return;
      }
      bulbs[id].Release();
      dirtied := dirtied + 1;
    }

    method View(id: string) returns (b: Option<R.Bulb>)
      requires Valid()
      ensures b == R.Lookup(Contents(), id)
    {
      b := if id in bulbs then Some(bulbs[id].Value()) else None;
    }

    /** A copy of every entry, in name order. */
    method List() returns (out: seq<R.Bulb>)
      requires Valid()
      ensures L.IsListing(Contents(), out)
    {
      var todo := bulbs.Keys;
      out := [];
      while todo != {}
        invariant todo <= bulbs.Keys
        invariant NoDuplicates(out)
        invariant forall b :: b in out <==> b.deviceID in bulbs && b.deviceID !in todo && bulbs[b.deviceID].Value() == b
      {
        var id :| id in todo;
        out := out + [bulbs[id].Value()];
        todo := todo - {id};
      }
      L.SortingLists(Contents(), out);
      out := SortBy(L.ByName, out);
    }

    /** The entries whose name or id begins with the target, letters folded by lower. */
    method Matching(target: string, lower: string -> string) returns (found: seq<R.Bulb>)
      requires Valid()
      ensures L.Collected(L.Restrict(Contents(), L.Matches(Contents(), target, lower)), found)
    {
      var todo := bulbs.Keys;
      found := [];
      while todo != {}
        invariant todo <= bulbs.Keys
        invariant NoDuplicates(found)
        invariant forall b :: b in found <==> b.deviceID in bulbs && b.deviceID !in todo
                                              && bulbs[b.deviceID].Value() == b && L.PrefixOf(b, target, lower)
      {
        var id :| id in todo;
        var b := bulbs[id].Value();
        if lower(target) <= lower(b.name) || lower(target) <= lower(b.deviceID) {
          found := found + [b];
        }
        todo := todo - {id};
      }
    }

    method Resolve(target: string, lower: string -> string) returns (r: Result<R.Bulb, L.ResolveError>)
      requires Valid()
      ensures L.Answers(Contents(), target, lower, r)
    {
      if target == "" {
        return Err(L.Unknown);
      }
      var owner := FindNamed(target);
      if owner.Some? {
        assert Contents()[owner.value].name == target;
        return Ok(bulbs[owner.value].Value());
      }
      if target in bulbs {
        return Ok(bulbs[target].Value());
      }
      var found := Matching(target, lower);
      L.CollectedSize(L.Restrict(Contents(), L.Matches(Contents(), target, lower)), found);
      assert L.Restrict(Contents(), L.Matches(Contents(), target, lower)).Keys == L.Matches(Contents(), target, lower);
      if |found| == 0 {
        return Err(L.Unknown);
      } else if |found| == 1 {
        assert found[0] in found;
        return Ok(found[0]);
      }
      L.SortingLists(L.Restrict(Contents(), L.Matches(Contents(), target, lower)), found);
      return Err(L.Ambiguous(L.Names(SortBy(L.ByName, found))));
    }

    method FindNamed(name: string) returns (id: Option<string>)
      requires Valid()
      ensures id.Some? ==> id.value in bulbs && bulbs[id.value].name == name
      ensures id.None? ==> forall other :: other in bulbs ==> bulbs[other].name != name
    {
      var todo := bulbs.Keys;
      while todo != {}
        invariant todo <= bulbs.Keys
        invariant forall other :: other in bulbs && other !in todo ==> bulbs[other].name != name
      {
        var other :| other in todo;
        if bulbs[other].name == name {
          return Some(other);
        }
        todo := todo - {other};
      }
      return None;
    }
  }

  /** Load: one pass over the records, stopping at the first bad one. */
  method Load(disk: L.Disk) returns (r: Result<Registry, L.LoadError>)
    ensures r.Err? ==> L.LoadDisk(disk) == Err(r.error)
    ensures r.Ok? ==> fresh(r.value) && r.value.Valid() && r.value.dirtied == 0
                      && L.LoadDisk(disk) == Ok(r.value.Contents())
  {
    var reg := new Registry();
    match disk {
      case Missing => return Ok(reg);
      case Unreadable => return Err(L.ReadFailed);
      case Corrupt => return Err(L.NotJSON);
      case Present(file) =>
        if file.version != L.FILE_VERSION {
          return Err(L.WrongVersion(file.version));
        }
        var recs := file.bulbs;
        var seen: set<string>, names: set<string>, i := {}, {}, 0;
        while i < |recs|
          invariant 0 <= i <= |recs|
          invariant reg.Valid() && reg.dirtied == 0 && fresh(reg.bulbs.Values)
          invariant seen == reg.bulbs.Keys
          invariant forall name :: name in names <==> L.NameUsed(reg.Contents(), name)
          invariant L.LoadFrom(map[], recs) == L.LoadFrom(reg.Contents(), recs[i..])
        {
          var sb := recs[i];
          assert recs[i..][0] == sb && recs[i..][1..] == recs[i + 1..];
          if sb.deviceID == "" {
            return Err(L.NoDeviceID);
          }
          if sb.deviceID in seen {
            return Err(L.DuplicateID(sb.deviceID));
          }
          if sb.name in names {
            return Err(L.ReusedName(sb.name));
          }
          seen := seen + {sb.deviceID};
          names := names + {sb.name};
          ghost var before := reg.Contents();
          reg.Add(L.Loaded(sb));
          forall name ensures name in names <==> L.NameUsed(reg.Contents(), name) {
            L.NameUsedAfter(before, sb, name);
          }
          i := i + 1;
        }
        return Ok(reg);
    }
  }
}
