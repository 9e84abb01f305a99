/** The registry over the whole life of an installation: loaded, changed, saved, and loaded
    again, any number of times. */
module Restarts {
  import opened Wrappers
  import opened Registries
  import opened Listings
  import Sorting
  import Ownership

  /** What the rest of the program relies on. */
  ghost predicate Sound(reg: Reg) {
    Keyed(reg) && NamesDistinct(reg) && "" !in reg
  }

  ghost predicate AllOffline(reg: Reg) {
    forall id :: id in reg ==> reg[id].status == Disconnected && reg[id].driver == None
  }

  lemma LoadedRecord(recs: seq<StoredBulb>, id: string) returns (i: nat)
    requires LoadFrom(map[], recs).Ok? && id in LoadFrom(map[], recs).value
    ensures i < |recs| && recs[i].deviceID == id && LoadFrom(map[], recs).value[id] == Loaded(recs[i])
  {
    LoadKeepsEveryRecord(map[], recs);
    i :| i < |recs| && recs[i].deviceID == id;
  }

  /** Whatever is on disk, a registry that Load returns is sound, with every lamp offline. */
  lemma LoadIsSound(disk: Disk, reg: Reg)
    requires LoadDisk(disk) == Ok(reg)
    ensures Sound(reg) && AllOffline(reg) && Ownership.NoDrivers(reg) && DriverImpliesOnline(reg)
  {
    if disk.Present? {
      var recs := disk.file.bulbs;
      LoadAcceptsExactly(map[], recs);
      forall a | a in reg
        ensures a != "" && reg[a].deviceID == a && reg[a].status == Disconnected && reg[a].driver == None
      {
        var i := LoadedRecord(recs, a);
      }
      forall a, b | a in reg && b in reg && reg[a].name == reg[b].name ensures a == b {
        var i := LoadedRecord(recs, a);
        var j := LoadedRecord(recs, b);
      }
    }
  }

  lemma RunIsSound(reg: Reg, ops: seq<Op>)
    requires Sound(reg) && NoClash(reg, ops) && NamesItsLamps(ops)
    ensures Sound(DoAll(reg, ops))
  {
    KeyedAlways(reg, ops);
    NamesDistinctAlways(reg, ops);
    NoEmptyIDAlways(reg, ops);
  }

  lemma {:induction false} CanBeCollected(reg: Reg) returns (bs: seq<Bulb>)
    requires Keyed(reg)
    ensures Collected(reg, bs)
    decreases |reg|
  {
    if reg == map[] {
      bs := [];
    } else {
      var id :| id in reg;
      var rest := reg - {id};
      assert rest.Keys == reg.Keys - {id};
      assert |rest.Keys| == |reg.Keys| - 1;
      var more := CanBeCollected(rest);
      bs := more + [reg[id]];
    }
  }

  /** Every registry can be saved. */
  lemma CanBeSaved(reg: Reg) returns (f: File)
    requires Keyed(reg)
    ensures SavedAs(reg, f)
  {
    var bs := CanBeCollected(reg);
    SortingLists(reg, bs);
    f := File(FILE_VERSION, StoreAll(Sorting.SortBy(ByName, bs)));
  }

  /** From whatever was on disk, through any run whose sessions have an id, to the file that
      is saved: that file loads exactly when the names are distinct at the time, which they
      are if no Upsert clashed, and then gives the same lamps, all offline. */
  lemma LoadRunSaveLoad(disk: Disk, reg: Reg, ops: seq<Op>, f: File)
    requires LoadDisk(disk) == Ok(reg) && NamesItsLamps(ops) && SavedAs(DoAll(reg, ops), f)
    ensures LoadDisk(Present(f)).Ok? <==> NamesDistinct(DoAll(reg, ops))
    ensures NoClash(reg, ops) ==> LoadDisk(Present(f)).Ok?
    ensures LoadDisk(Present(f)).Ok? ==>
              LoadDisk(Present(f)) == Ok(Restarted(DoAll(reg, ops))) && AllOffline(LoadDisk(Present(f)).value)
  {
    LoadIsSound(disk, reg);
    KeyedAlways(reg, ops);
    NoEmptyIDAlways(reg, ops);
    NamesDistinctAlways(reg, ops);
    SaveThenLoad(DoAll(reg, ops), f);
  }

  ghost predicate NoClashEver(reg: Reg, lives: seq<seq<Op>>)
    decreases |lives|
  {
    lives == [] || (NoClash(reg, lives[0]) && NoClashEver(Restarted(DoAll(reg, lives[0])), lives[1..]))
  }

  /** In every life the registry is sound to begin with and names are distinct in every
      state, and every restart finds a file it accepts and the lamps as they were. */
  ghost predicate EveryRestartSucceeds(reg: Reg, lives: seq<seq<Op>>)
    decreases |lives|
  {
    && Sound(reg)
    && (lives == [] ||
        (&& DistinctThroughout(reg, lives[0])
         && (forall f :: SavedAs(DoAll(reg, lives[0]), f) ==>
               LoadDisk(Present(f)) == Ok(Restarted(DoAll(reg, lives[0]))))
         && EveryRestartSucceeds(Restarted(DoAll(reg, lives[0])), lives[1..])))
  }

  /** Over any number of lives that is so exactly when no Upsert of any of them clashes. */
  lemma {:induction false} RestartsAlwaysLoad(reg: Reg, lives: seq<seq<Op>>)
    requires Sound(reg) && forall i :: 0 <= i < |lives| ==> NamesItsLamps(lives[i])
    ensures EveryRestartSucceeds(reg, lives) <==> NoClashEver(reg, lives)
    decreases |lives|
  {
    if lives != [] {
      NamesDistinctAlways(reg, lives[0]);
      if NoClash(reg, lives[0]) {
        var end := DoAll(reg, lives[0]);
        RunIsSound(reg, lives[0]);
        forall f | SavedAs(end, f) ensures LoadDisk(Present(f)) == Ok(Restarted(end)) {
          SaveThenLoad(end, f);
        }
        RestartsAlwaysLoad(Restarted(end), lives[1..]);
      }
    }
  }
}
