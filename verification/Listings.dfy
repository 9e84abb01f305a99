/** Reading the whole registry: the listing, target resolution, and the registry file.
    The source walks a Go map, whose order is arbitrary, so each result is stated as a
    relation over every walk and shown to be one value when the names are distinct. */
module Listings {
  import opened Wrappers
  import opened Bulbs
  import opened Registries
  import Texts
  import opened Sorting

  function ByName(b: Bulb): string { b.name }

  // ---- the listing ------------------------------------------------------------------

  /** bs holds every entry of reg once, in whatever order a walk over the map met them. */
  ghost predicate Collected(reg: Reg, bs: seq<Bulb>) {
    && NoDuplicates(bs)
    && (forall b :: b in bs <==> b.deviceID in reg && reg[b.deviceID] == b)
  }

  ghost predicate IsListing(reg: Reg, out: seq<Bulb>) {
    Collected(reg, out) && Sorted(ByName, out)
  }

  /** Whatever order the walk took, sorting what it collected gives a listing. */
  lemma SortingLists(reg: Reg, bs: seq<Bulb>)
    requires Collected(reg, bs)
    ensures IsListing(reg, SortBy(ByName, bs))
  {
    SortBySorts(ByName, bs);
  }

  /** With distinct names the listing is a function of the registry: the order in
      which the map was walked does not show. */
  lemma ListingIsUnique(reg: Reg, out: seq<Bulb>, out': seq<Bulb>)
    requires NamesDistinct(reg) && IsListing(reg, out) && IsListing(reg, out')
    ensures out == out'
  {
    SortedUnique(ByName, out, out');
  }

  lemma CollectedRest(reg: Reg, bs: seq<Bulb>)
    requires Keyed(reg) && Collected(reg, bs) && bs != []
    ensures bs[0].deviceID in reg && Collected(reg - {bs[0].deviceID}, bs[1..])
  {
    assert bs[0] in bs;
    var rest := reg - {bs[0].deviceID};
    forall b ensures b in bs[1..] <==> b.deviceID in rest && rest[b.deviceID] == b {
      assert b in bs <==> b == bs[0] || b in bs[1..];
      assert bs[0] !in bs[1..];
    }
  }

  lemma {:induction false} CollectedSize(reg: Reg, bs: seq<Bulb>)
    requires Keyed(reg) && Collected(reg, bs)
    ensures |bs| == |reg|
    decreases |bs|
  {
    assert forall id :: id in reg ==> reg[id] in bs;
    if bs == [] {
      assert reg.Keys == {};
    } else {
      CollectedRest(reg, bs);
      var id := bs[0].deviceID;
      CollectedSize(reg - {id}, bs[1..]);
      assert reg.Keys == (reg - {id}).Keys + {id};
    }
  }

  // ---- target resolution --------------------------------------------------------------

  datatype ResolveError = Unknown | Ambiguous(candidates: seq<string>)

  /** strings.ToLower is a parameter: nothing here depends on how letters fold. */
  ghost predicate PrefixOf(b: Bulb, target: string, lower: string -> string) {
    lower(target) <= lower(b.name) || lower(target) <= lower(b.deviceID)
  }

  ghost function Matches(reg: Reg, target: string, lower: string -> string): set<string> {
    set id | id in reg && PrefixOf(reg[id], target, lower)
  }

  function Names(bs: seq<Bulb>): (r: seq<string>)
    ensures |r| == |bs| && forall i :: 0 <= i < |bs| ==> r[i] == bs[i].name
  {
    seq(|bs|, i requires 0 <= i < |bs| => bs[i].name)
  }

  ghost function Restrict(reg: Reg, keys: set<string>): Reg {
    map id | id in reg && id in keys :: reg[id]
  }

  /** The sorted names of the entries in keys. */
  ghost predicate Candidates(reg: Reg, keys: set<string>, names: seq<string>) {
    exists bs :: IsListing(Restrict(reg, keys), bs) && names == Names(bs)
  }

  /** Exact name, then exact id, then a unique prefix of either; an ambiguous prefix
      lists its candidates. Every walk over the map yields an r that satisfies this. */
  ghost predicate Answers(reg: Reg, target: string, lower: string -> string, r: Result<Bulb, ResolveError>) {
    if target == "" then r == Err(Unknown)
    else if exists id :: id in reg && reg[id].name == target then
      exists id :: id in reg && reg[id].name == target && r == Ok(reg[id])
    else if target in reg then r == Ok(reg[target])
    else
      var m := Matches(reg, target, lower);
      if |m| == 0 then r == Err(Unknown)
      else if |m| == 1 then exists id :: id in m && r == Ok(reg[id])
      else r.Err? && r.error.Ambiguous? && Candidates(reg, m, r.error.candidates)
  }

  /** The candidates are the same whatever the walk, even with names given twice. */
  lemma CandidatesAreUnique(reg: Reg, keys: set<string>, a: seq<string>, b: seq<string>)
    requires Candidates(reg, keys, a) && Candidates(reg, keys, b)
    ensures a == b
  {
    var bs: seq<Bulb> :| IsListing(Restrict(reg, keys), bs) && a == Names(bs);
    var bs': seq<Bulb> :| IsListing(Restrict(reg, keys), bs') && b == Names(bs');
    SortedKeysAgree(ByName, bs, bs');
    forall i | 0 <= i < |bs| ensures a[i] == b[i] {
      assert ByName(bs[i]) == ByName(bs'[i]);
    }
  }

  /** Two lamps bear this name. */
  ghost predicate GivenTwice(reg: Reg, name: string) {
    exists a, b :: a in reg && b in reg && a != b && reg[a].name == name && reg[b].name == name
  }

  lemma AnswersAgree(reg: Reg, target: string, lower: string -> string,
                     r: Result<Bulb, ResolveError>, r': Result<Bulb, ResolveError>)
    requires target == "" || !GivenTwice(reg, target)
    requires Answers(reg, target, lower, r) && Answers(reg, target, lower, r')
    ensures r == r'
  {
    var m := Matches(reg, target, lower);
    if target == "" || target in reg || exists id :: id in reg && reg[id].name == target {
    } else if |m| == 1 {
      var a :| a in m && r == Ok(reg[a]);
      var b :| b in m && r' == Ok(reg[b]);
      assert |m - {a}| == 0;
      assert m - {a} == {};
    } else if |m| > 1 {
      CandidatesAreUnique(reg, m, r.error.candidates, r'.error.candidates);
    }
  }

  /** Resolution of a target is the same for every walk over the map exactly when the
      target is empty or no two lamps bear it as their name. */
  lemma ResolvesAlikeExactly(reg: Reg, target: string, lower: string -> string)
    requires Keyed(reg)
    ensures target == "" || !GivenTwice(reg, target) <==>
            forall r, r' :: Answers(reg, target, lower, r) && Answers(reg, target, lower, r') ==> r == r'
  {
    if target == "" || !GivenTwice(reg, target) {
      forall r, r' | Answers(reg, target, lower, r) && Answers(reg, target, lower, r') ensures r == r' {
        AnswersAgree(reg, target, lower, r, r');
      }
    } else {
      var a, b :| a in reg && b in reg && a != b && reg[a].name == target && reg[b].name == target;
      assert Answers(reg, target, lower, Ok(reg[a])) && Answers(reg, target, lower, Ok(reg[b]));
      assert reg[a].deviceID != reg[b].deviceID;
    }
  }

  /** It is the same for every target exactly when no two lamps share a name that is not
      empty. */
  lemma ResolveIsDeterministic(reg: Reg, lower: string -> string)
    requires Keyed(reg)
    ensures (forall name :: GivenTwice(reg, name) ==> name == "") <==>
            forall target, r, r' :: Answers(reg, target, lower, r) && Answers(reg, target, lower, r') ==> r == r'
  {
    if forall name :: GivenTwice(reg, name) ==> name == "" {
      forall target, r, r' | Answers(reg, target, lower, r) && Answers(reg, target, lower, r') ensures r == r' {
        AnswersAgree(reg, target, lower, r, r');
      }
    } else {
      var name :| GivenTwice(reg, name) && name != "";
      ResolvesAlikeExactly(reg, name, lower);
    }
  }

  // ---- the registry file --------------------------------------------------------------

  const FILE_VERSION := 1

  datatype StoredBulb = StoredBulb(
    deviceID: string, name: string, firstSeen: Time, lastSeen: Time, caps: Capabilities, firmware: string,
    state: LightState)

  datatype File = File(version: int, bulbs: seq<StoredBulb>)

  /** What os.ReadFile and json.Unmarshal find at the registry path. */
  datatype Disk = Missing | Unreadable | Corrupt | Present(file: File)

  datatype LoadError =
    | ReadFailed | NotJSON | WrongVersion(found: int)
    | NoDeviceID | DuplicateID(id: string) | ReusedName(name: string)

  function Stored(b: Bulb): StoredBulb {
    StoredBulb(b.deviceID, b.name, b.firstSeen, b.lastSeen, b.caps, b.firmware, b.state)
  }

  function StoreAll(bs: seq<Bulb>): (r: seq<StoredBulb>)
    ensures |r| == |bs| && forall i :: 0 <= i < |bs| ==> r[i] == Stored(bs[i])
  {
    seq(|bs|, i requires 0 <= i < |bs| => Stored(bs[i]))
  }

  function Loaded(s: StoredBulb): Bulb {
    NewBulb(s.deviceID, s.name, Disconnected).(
      state := s.state, caps := s.caps, firmware := s.firmware, firstSeen := s.firstSeen, lastSeen := s.lastSeen)
  }

  ghost predicate NameUsed(reg: Reg, name: string) {
    exists id :: id in reg && reg[id].name == name
  }

  /** The loop of Load: the entries before have been accepted into acc. */
  ghost function LoadFrom(acc: Reg, recs: seq<StoredBulb>): Result<Reg, LoadError>
    decreases recs
  {
    if recs == [] then Ok(acc)
    else if recs[0].deviceID == "" then Err(NoDeviceID)
    else if recs[0].deviceID in acc then Err(DuplicateID(recs[0].deviceID))
    else if NameUsed(acc, recs[0].name) then Err(ReusedName(recs[0].name))
    else LoadFrom(acc[recs[0].deviceID := Loaded(recs[0])], recs[1..])
  }

  ghost function LoadDisk(disk: Disk): Result<Reg, LoadError> {
    match disk
    case Missing => Ok(map[])
    case Unreadable => Err(ReadFailed)
    case Corrupt => Err(NotJSON)
    case Present(f) => if f.version != FILE_VERSION then Err(WrongVersion(f.version)) else LoadFrom(map[], f.bulbs)
  }

  /** What a file must satisfy to be accepted, said of all its records at once. */
  ghost predicate Loadable(recs: seq<StoredBulb>) {
    && (forall i :: 0 <= i < |recs| ==> recs[i].deviceID != "")
    && (forall i, j :: 0 <= i < j < |recs| ==> recs[i].deviceID != recs[j].deviceID && recs[i].name != recs[j].name)
  }

  ghost predicate Separate(acc: Reg, recs: seq<StoredBulb>) {
    forall i :: 0 <= i < |recs| ==> recs[i].deviceID !in acc && !NameUsed(acc, recs[i].name)
  }

  lemma NameUsedAfter(acc: Reg, s: StoredBulb, name: string)
    requires s.deviceID !in acc
    ensures NameUsed(acc[s.deviceID := Loaded(s)], name) <==> NameUsed(acc, name) || name == s.name
  {
    var acc' := acc[s.deviceID := Loaded(s)];
    assert acc'[s.deviceID].name == s.name;
    if NameUsed(acc, name) {
      var id :| id in acc && acc[id].name == name;
      assert acc'[id].name == name;
    }
  }

  lemma SeparateAfter(acc: Reg, recs: seq<StoredBulb>)
    requires recs != [] && recs[0].deviceID !in acc && !NameUsed(acc, recs[0].name) && recs[0].deviceID != ""
    ensures Loadable(recs) && Separate(acc, recs)
       <==> Loadable(recs[1..]) && Separate(acc[recs[0].deviceID := Loaded(recs[0])], recs[1..])
  {
    var s, rest := recs[0], recs[1..];
    var acc' := acc[s.deviceID := Loaded(s)];
    forall i | 0 <= i < |rest|
      ensures NameUsed(acc', rest[i].name) <==> NameUsed(acc, rest[i].name) || rest[i].name == s.name
    {
      NameUsedAfter(acc, s, rest[i].name);
    }
    assert forall i :: 1 <= i < |recs| ==> recs[i] == rest[i - 1];
    assert forall i :: 0 <= i < |rest| ==> rest[i] == recs[i + 1];
  }

  /** Nothing is skipped: the file is accepted exactly when every record is well formed
      and distinct from every other. */
  lemma {:induction false} LoadAcceptsExactly(acc: Reg, recs: seq<StoredBulb>)
    ensures LoadFrom(acc, recs).Ok? <==> Loadable(recs) && Separate(acc, recs)
    decreases recs
  {
    if recs != [] && recs[0].deviceID != "" && recs[0].deviceID !in acc && !NameUsed(acc, recs[0].name) {
      LoadAcceptsExactly(acc[recs[0].deviceID := Loaded(recs[0])], recs[1..]);
      SeparateAfter(acc, recs);
    }
  }

  ghost predicate HasID(recs: seq<StoredBulb>, id: string) {
    exists i :: 0 <= i < |recs| && recs[i].deviceID == id
  }

  lemma HasIDFirst(recs: seq<StoredBulb>, id: string)
    requires recs != []
    ensures HasID(recs, id) <==> id == recs[0].deviceID || HasID(recs[1..], id)
  {
    if HasID(recs[1..], id) {
      var i :| 0 <= i < |recs[1..]| && recs[1..][i].deviceID == id;
      assert recs[i + 1].deviceID == id;
    }
    if HasID(recs, id) && id != recs[0].deviceID {
      var i :| 0 <= i < |recs| && recs[i].deviceID == id;
      assert recs[1..][i - 1].deviceID == id;
    }
  }

  lemma {:induction false} LoadKeepsKeys(acc: Reg, recs: seq<StoredBulb>)
    requires LoadFrom(acc, recs).Ok?
    ensures forall id :: id in LoadFrom(acc, recs).value <==> id in acc || HasID(recs, id)
    decreases recs
  {
    if recs != [] {
      LoadKeepsKeys(acc[recs[0].deviceID := Loaded(recs[0])], recs[1..]);
      forall id ensures HasID(recs, id) <==> id == recs[0].deviceID || HasID(recs[1..], id) {
        HasIDFirst(recs, id);
      }
    }
  }

  lemma {:induction false} LoadKeepsEarlier(acc: Reg, recs: seq<StoredBulb>, id: string)
    requires LoadFrom(acc, recs).Ok? && id in acc
    ensures id in LoadFrom(acc, recs).value && LoadFrom(acc, recs).value[id] == acc[id]
    decreases recs
  {
    if recs != [] {
      LoadKeepsEarlier(acc[recs[0].deviceID := Loaded(recs[0])], recs[1..], id);
    }
  }

  lemma {:induction false} LoadKeepsRecord(acc: Reg, recs: seq<StoredBulb>, i: nat)
    requires LoadFrom(acc, recs).Ok? && i < |recs|
    ensures var r := LoadFrom(acc, recs).value;
      recs[i].deviceID in r && r[recs[i].deviceID] == Loaded(recs[i])
    decreases recs
  {
    var acc' := acc[recs[0].deviceID := Loaded(recs[0])];
    if i == 0 {
      LoadKeepsEarlier(acc', recs[1..], recs[0].deviceID);
    } else {
      LoadKeepsRecord(acc', recs[1..], i - 1);
    }
  }

  /** An accepted file yields one offline entry for each of its records. */
  lemma LoadKeepsEveryRecord(acc: Reg, recs: seq<StoredBulb>)
    requires LoadFrom(acc, recs).Ok?
    ensures var r := LoadFrom(acc, recs).value;
      && (forall id :: id in r <==> id in acc || HasID(recs, id))
      && (forall id :: id in acc ==> r[id] == acc[id])
      && (forall i :: 0 <= i < |recs| ==> recs[i].deviceID in r && r[recs[i].deviceID] == Loaded(recs[i]))
  {
    LoadKeepsKeys(acc, recs);
    var r := LoadFrom(acc, recs).value;
    forall id | id in acc ensures r[id] == acc[id] {
      LoadKeepsEarlier(acc, recs, id);
    }
    forall i | 0 <= i < |recs| ensures recs[i].deviceID in r && r[recs[i].deviceID] == Loaded(recs[i]) {
      LoadKeepsRecord(acc, recs, i);
    }
  }

  /** When the registry file is accepted, and what is said when it is not: no file is a
      first run, anything but version 1 is refused, and so is a bad record. */
  lemma LoadDiskExactly(disk: Disk)
    ensures LoadDisk(disk).Ok? <==>
              disk.Missing? || (disk.Present? && disk.file.version == 1 && Loadable(disk.file.bulbs))
    ensures disk.Missing? ==> LoadDisk(disk) == Ok(map[])
    ensures LoadDisk(disk) == Err(ReadFailed) <==> disk.Unreadable?
    ensures LoadDisk(disk) == Err(NotJSON) <==> disk.Corrupt?
    ensures forall v :: LoadDisk(disk) == Err(WrongVersion(v)) <==>
                        disk.Present? && disk.file.version == v && v != 1
  {
    if disk.Present? {
      LoadAcceptsExactly(map[], disk.file.bulbs);
      assert Separate(map[], disk.file.bulbs);
      if LoadFrom(map[], disk.file.bulbs).Err? {
        var n := FirstBad(map[], disk.file.bulbs);
      }
    }
  }

  lemma {:induction false} FirstBad(acc: Reg, recs: seq<StoredBulb>) returns (n: nat)
    requires LoadFrom(acc, recs).Err?
    ensures n < |recs| && LoadFrom(acc, recs[..n]).Ok?
    ensures var seen, bad := LoadFrom(acc, recs[..n]).value, recs[n];
      LoadFrom(acc, recs).error
      == if bad.deviceID == "" then NoDeviceID
         else if bad.deviceID in seen then DuplicateID(bad.deviceID)
         else ReusedName(bad.name)
    ensures var seen, bad := LoadFrom(acc, recs[..n]).value, recs[n];
      bad.deviceID == "" || bad.deviceID in seen || NameUsed(seen, bad.name)
    decreases recs
  {
    var s := recs[0];
    if s.deviceID == "" || s.deviceID in acc || NameUsed(acc, s.name) {
      n := 0;
    } else {
      n := FirstBad(acc[s.deviceID := Loaded(s)], recs[1..]);
      assert recs[..n + 1][1..] == recs[1..][..n];
      n := n + 1;
    }
  }

  lemma NameUsedByRecord(recs: seq<StoredBulb>, name: string)
    requires LoadFrom(map[], recs).Ok? && NameUsed(LoadFrom(map[], recs).value, name)
    ensures exists i :: 0 <= i < |recs| && recs[i].name == name
  {
    LoadKeepsEveryRecord(map[], recs);
    var r := LoadFrom(map[], recs).value;
    var id :| id in r && r[id].name == name;
    var i :| 0 <= i < |recs| && recs[i].deviceID == id;
    assert r[id] == Loaded(recs[i]);
  }

  /** A refused record is the first that is bad, and the refusal says what is wrong with it
      and, for a clash, there really is an earlier record it clashes with. */
  lemma BadRecordMeans(recs: seq<StoredBulb>, e: LoadError) returns (n: nat)
    requires LoadFrom(map[], recs) == Err(e)
    ensures n < |recs| && Loadable(recs[..n])
    ensures match e
      case NoDeviceID => recs[n].deviceID == ""
      case DuplicateID(id) => recs[n].deviceID == id && exists i :: 0 <= i < n && recs[i].deviceID == id
      case ReusedName(name) => recs[n].name == name && exists i :: 0 <= i < n && recs[i].name == name
      case _ => false
  {
    n := FirstBad(map[], recs);
    LoadAcceptsExactly(map[], recs[..n]);
    LoadKeepsKeys(map[], recs[..n]);
    if e.DuplicateID? {
      assert HasID(recs[..n], e.id);
      var i :| 0 <= i < n && recs[..n][i].deviceID == e.id;
      assert recs[i].deviceID == e.id;
    } else if e.ReusedName? {
      NameUsedByRecord(recs[..n], e.name);
      var i :| 0 <= i < n && recs[..n][i].name == e.name;
      assert recs[i].name == e.name;
    }
  }

  /** A registry as a restart sees it: the same lamps, none of them online. */
  function Restarted(reg: Reg): Reg {
    map id | id in reg ::
      reg[id].(status := Disconnected, driver := None, desired := None, remoteAddr := "")
  }

  /** save, as far as the file's contents go. */
  ghost predicate SavedAs(reg: Reg, f: File) {
    exists out :: IsListing(reg, out) && f == File(FILE_VERSION, StoreAll(out))
  }

  /** Every entry stands somewhere in what was collected. */
  lemma PositionOf(reg: Reg, bs: seq<Bulb>, id: string) returns (i: nat)
    requires Collected(reg, bs) && Keyed(reg) && id in reg
    ensures i < |bs| && bs[i] == reg[id]
  {
    assert reg[id] in bs;
    i :| i < |bs| && bs[i] == reg[id];
  }

  lemma LoadableMeansDistinct(reg: Reg, out: seq<Bulb>, a: string, b: string)
    requires Keyed(reg) && Collected(reg, out) && Loadable(StoreAll(out))
    requires a in reg && b in reg && reg[a].name == reg[b].name
    ensures a == b && a != ""
  {
    var i := PositionOf(reg, out, a);
    var j := PositionOf(reg, out, b);
    assert StoreAll(out)[i].name == StoreAll(out)[j].name;
  }

  lemma LoadableIffDistinct(reg: Reg, out: seq<Bulb>)
    requires Keyed(reg) && Collected(reg, out)
    ensures Loadable(StoreAll(out)) <==> NamesDistinct(reg) && "" !in reg
  {
    if Loadable(StoreAll(out)) {
      forall a, b | a in reg && b in reg && reg[a].name == reg[b].name ensures a == b && a != "" {
        LoadableMeansDistinct(reg, out, a, b);
      }
    }
    if NamesDistinct(reg) && "" !in reg {
      forall i | 0 <= i < |out| ensures out[i].deviceID in reg && reg[out[i].deviceID] == out[i] {
        assert out[i] in out;
      }
    }
  }

  lemma LoadedEntry(reg: Reg, out: seq<Bulb>, id: string)
    requires Keyed(reg) && Collected(reg, out) && LoadFrom(map[], StoreAll(out)).Ok?
    ensures Lookup(LoadFrom(map[], StoreAll(out)).value, id) == Lookup(Restarted(reg), id)
  {
    var recs := StoreAll(out);
    LoadKeepsEveryRecord(map[], recs);
    assert forall i :: 0 <= i < |out| ==> out[i] in out;
    if id in reg {
      var i := PositionOf(reg, out, id);
      assert recs[i].deviceID == id;
    }
  }

  lemma LoadReturnsRestarted(reg: Reg, out: seq<Bulb>)
    requires Keyed(reg) && Collected(reg, out) && LoadFrom(map[], StoreAll(out)).Ok?
    ensures LoadFrom(map[], StoreAll(out)).value == Restarted(reg)
  {
    forall id ensures Lookup(LoadFrom(map[], StoreAll(out)).value, id) == Lookup(Restarted(reg), id) {
      LoadedEntry(reg, out, id);
    }
    SameLookups(LoadFrom(map[], StoreAll(out)).value, Restarted(reg));
  }

  lemma StoredThenLoaded(reg: Reg, out: seq<Bulb>)
    requires Keyed(reg) && Collected(reg, out)
    ensures var r := LoadDisk(Present(File(FILE_VERSION, StoreAll(out))));
      && (r.Ok? <==> NamesDistinct(reg) && "" !in reg)
      && (r.Ok? ==> r.value == Restarted(reg))
  {
    LoadAcceptsExactly(map[], StoreAll(out));
    assert Separate(map[], StoreAll(out));
    LoadableIffDistinct(reg, out);
    if LoadFrom(map[], StoreAll(out)).Ok? {
      LoadReturnsRestarted(reg, out);
    }
  }

  lemma ListingSaved(reg: Reg, f: File) returns (out: seq<Bulb>)
    requires SavedAs(reg, f)
    ensures Collected(reg, out) && f == File(FILE_VERSION, StoreAll(out))
  {
    out :| IsListing(reg, out) && f == File(FILE_VERSION, StoreAll(out));
  }

  /** Saving and loading again returns the same lamps, all offline with no driver,
      exactly when their names are distinct (and no id is empty); a registry with a
      name clash writes a file the next start refuses. */
  lemma SaveThenLoad(reg: Reg, f: File)
    requires Keyed(reg) && SavedAs(reg, f)
    ensures LoadDisk(Present(f)).Ok? <==> NamesDistinct(reg) && "" !in reg
    ensures LoadDisk(Present(f)).Ok? ==> LoadDisk(Present(f)) == Ok(Restarted(reg))
  {
    var out := ListingSaved(reg, f);
    StoredThenLoaded(reg, out);
  }

  /** What a restart keeps of every lamp, and what it forgets. */
  lemma RestartKeeps(reg: Reg, f: File, loaded: Reg)
    requires Keyed(reg) && SavedAs(reg, f) && LoadDisk(Present(f)) == Ok(loaded)
    ensures loaded.Keys == reg.Keys && DurableReg(loaded) == DurableReg(reg)
    ensures forall id :: id in reg ==>
              && loaded[id].state == reg[id].state && loaded[id].lastSeen == reg[id].lastSeen
              && loaded[id].deviceID == id && loaded[id].status == Disconnected
              && loaded[id].driver == None && loaded[id].desired == None && loaded[id].remoteAddr == ""
  {
    SaveThenLoad(reg, f);
  }
}
