/** The configured lamp set: comma-separated deviceID=name pairs, and how it is printed
    back into the startup record. */
module Lamps {
  import opened Wrappers
  import opened Texts

  datatype Lamp = Lamp(id: string, name: string)

  /** Why startup stops; positions count from 1. */
  datatype Refusal =
    | EmptyEntry(pos: nat)
    | NotAPair(pos: nat, entry: string)
    | EmptyID(pos: nat)
    | EmptyName(pos: nat, id: string)
    | RepeatedID(id: string, first: nat, pos: nat)
    | ReusedName(name: string, owner: string, id: string)
    | NamedAfterVerb(name: string)

  // ---- terminal verbs -----------------------------------------------------------------

  const VERBS := ["list", "on", "off", "bri", "color", "temp", "name", "info", "help", "quit"]

  /** The lower-case ASCII letter a code point folds to, if any: besides the capitals, the
      long s and the Kelvin sign. */
  function Fold(c: char): char {
    if 'A' <= c <= 'Z' then c - 'A' + 'a'
    else if c == '\U{17F}' then 's'
    else if c == '\U{212A}' then 'k'
    else c
  }

  /** strings.EqualFold against a verb, which is in lower-case ASCII. */
  predicate FoldsTo(s: string, verb: string) {
    if s == [] || verb == [] then s == verb
    else Fold(s[0]) == verb[0] && FoldsTo(s[1..], verb[1..])
  }

  predicate FoldsToAny(s: string, verbs: seq<string>) {
    verbs != [] && (FoldsTo(s, verbs[0]) || FoldsToAny(s, verbs[1..]))
  }

  predicate NamesVerb(s: string) {
    FoldsToAny(s, VERBS)
  }

  method IsVerb(s: string) returns (r: bool)
    ensures r <==> exists i :: 0 <= i < |VERBS| && FoldsTo(s, VERBS[i])
    ensures r == NamesVerb(s)
  {
    for k := 0 to |VERBS|
      invariant forall i :: 0 <= i < k ==> !FoldsTo(s, VERBS[i])
      invariant NamesVerb(s) == FoldsToAny(s, VERBS[k..])
    {
      assert VERBS[k..][1..] == VERBS[k + 1..];
      if FoldsTo(s, VERBS[k]) {
        return true;
      }
    }
    return false;
  }

  // ---- parsing -------------------------------------------------------------------------------

  function IDOf(lamp: Lamp): string { lamp.id }

  function NameOf(lamp: Lamp): string { lamp.name }

  /** Where a key has been used already. */
  function Find(key: Lamp -> string, lamps: seq<Lamp>, k: string): (r: Option<nat>)
    ensures r.Some? ==> r.value < |lamps| && key(lamps[r.value]) == k
  {
    if lamps == [] then None
    else if key(lamps[|lamps| - 1]) == k then Some(|lamps| - 1)
    else Find(key, lamps[..|lamps| - 1], k)
  }

  lemma {:induction false} NotFound(key: Lamp -> string, lamps: seq<Lamp>, k: string)
    ensures Find(key, lamps, k).None? <==> forall i :: 0 <= i < |lamps| ==> key(lamps[i]) != k
  {
    if lamps != [] {
      NotFound(key, lamps[..|lamps| - 1], k);
    }
  }

  /** The two sides of one entry, both trimmed and neither empty. */
  function ParsePair(text: string, pos: nat): Result<Lamp, Refusal> {
    var entry := TrimSpace(text);
    if entry == "" then Err(EmptyEntry(pos))
    else
      match Cut(entry, '=')
      case None => Err(NotAPair(pos, entry))
      case Some((a, b)) =>
        var id, name := TrimSpace(a), TrimSpace(b);
        if id == "" then Err(EmptyID(pos))
        else if name == "" then Err(EmptyName(pos, id))
        else Ok(Lamp(id, name))
  }

  function CheckAgainst(lamp: Lamp, earlier: seq<Lamp>): Result<Lamp, Refusal> {
    var Lamp(id, name) := lamp;
    if Find(IDOf, earlier, id).Some? then Err(RepeatedID(id, Find(IDOf, earlier, id).value + 1, |earlier| + 1))
    else if Find(NameOf, earlier, name).Some? then
      Err(ReusedName(name, earlier[Find(NameOf, earlier, name).value].id, id))
    else if NamesVerb(name) then Err(NamedAfterVerb(name))
    else Ok(lamp)
  }

  /** One entry after those already read, and the check it fails first. */
  function ParseEntry(text: string, earlier: seq<Lamp>): Result<Lamp, Refusal> {
    match ParsePair(text, |earlier| + 1)
    case Err(e) => Err(e)
    case Ok(lamp) => CheckAgainst(lamp, earlier)
  }

  /** The loop over the entries: one lamp each, until the first that is refused. */
  function Collect<T, V, E>(xs: seq<T>, earlier: seq<V>, p: (T, seq<V>) -> Result<V, E>): Result<seq<V>, E>
    decreases |xs|
  {
    if xs == [] then Ok(earlier)
    else
      match p(xs[0], earlier)
      case Err(e) => Err(e)
      case Ok(v) => Collect(xs[1..], earlier + [v], p)
  }

  function Parse(s: string): Result<seq<Lamp>, Refusal> {
    if TrimSpace(s) == "" then Ok([]) else Collect(Split(s, ','), [], ParseEntry)
  }

  lemma CollectNext<T, V, E>(xs: seq<T>, i: nat, earlier: seq<V>, p: (T, seq<V>) -> Result<V, E>)
    requires i < |xs|
    ensures var r := p(xs[i], earlier);
      Collect(xs[i..], earlier, p)
      == if r.Ok? then Collect(xs[i + 1..], earlier + [r.value], p) else Err(r.error)
  {
    assert xs[i..][1..] == xs[i + 1..];
  }

  ghost predicate IDsIndexed(byID: map<string, nat>, lamps: seq<Lamp>) {
    && (forall id :: id in byID <==> Find(IDOf, lamps, id).Some?)
    && (forall id :: id in byID ==> byID[id] == Find(IDOf, lamps, id).value + 1)
  }

  ghost predicate NamesIndexed(byName: map<string, string>, lamps: seq<Lamp>) {
    && (forall name :: name in byName <==> Find(NameOf, lamps, name).Some?)
    && (forall name :: name in byName ==> byName[name] == lamps[Find(NameOf, lamps, name).value].id)
  }

  lemma FindGrows(key: Lamp -> string, lamps: seq<Lamp>, lamp: Lamp)
    ensures forall k ::
              Find(key, lamps + [lamp], k) == if key(lamp) == k then Some(|lamps|) else Find(key, lamps, k)
  {
    assert (lamps + [lamp])[..|lamps|] == lamps;
  }

  lemma Indexed(byID: map<string, nat>, byName: map<string, string>, lamps: seq<Lamp>, lamp: Lamp)
    requires IDsIndexed(byID, lamps) && NamesIndexed(byName, lamps)
    ensures IDsIndexed(byID[lamp.id := |lamps| + 1], lamps + [lamp])
    ensures NamesIndexed(byName[lamp.name := lamp.id], lamps + [lamp])
  {
    FindGrows(IDOf, lamps, lamp);
    FindGrows(NameOf, lamps, lamp);
  }

  lemma CheckByIndex(byID: map<string, nat>, byName: map<string, string>, lamps: seq<Lamp>, lamp: Lamp)
    requires IDsIndexed(byID, lamps) && NamesIndexed(byName, lamps)
    ensures CheckAgainst(lamp, lamps) ==
      if lamp.id in byID then Err(RepeatedID(lamp.id, byID[lamp.id], |lamps| + 1))
      else if lamp.name in byName then Err(ReusedName(lamp.name, byName[lamp.name], lamp.id))
      else if NamesVerb(lamp.name) then Err(NamedAfterVerb(lamp.name))
      else Ok(lamp)
  {
  }

  method ParseLamps(s: string) returns (r: Result<seq<Lamp>, Refusal>)
    ensures r == Parse(s)
  {
    if TrimSpace(s) == "" {
      return Ok([]);
    }
    var entries := Split(s, ',');
    var lamps: seq<Lamp> := [];
    var byID: map<string, nat> := map[];
    var byName: map<string, string> := map[];
    for i := 0 to |entries|
      invariant |lamps| == i
      invariant IDsIndexed(byID, lamps) && NamesIndexed(byName, lamps)
      invariant Parse(s) == Collect(entries[i..], lamps, ParseEntry)
    {
      CollectNext(entries, i, lamps, ParseEntry);
      var pos := i + 1;
      var entry := TrimSpace(entries[i]);
      if entry == "" {
        return Err(EmptyEntry(pos));
      }
      var cut := Cut(entry, '=');
      if cut.None? {
        return Err(NotAPair(pos, entry));
      }
      var id, name := TrimSpace(cut.value.0), TrimSpace(cut.value.1);
      if id == "" {
        return Err(EmptyID(pos));
      }
      if name == "" {
        return Err(EmptyName(pos, id));
      }
      CheckByIndex(byID, byName, lamps, Lamp(id, name));
      if id in byID {
        return Err(RepeatedID(id, byID[id], pos));
      }
      if name in byName {
        return Err(ReusedName(name, byName[name], id));
      }
      var verb := IsVerb(name);
      if verb {
        return Err(NamedAfterVerb(name));
      }
      Indexed(byID, byName, lamps, Lamp(id, name));
      byID := byID[id := pos];
      byName := byName[name := id];
      lamps := lamps + [Lamp(id, name)];
    }
    return Ok(lamps);
  }

  // ---- what is accepted ------------------------------------------------------------------------

  predicate WellFormed(text: string) {
    var cut := Cut(TrimSpace(text), '=');
    cut.Some? && !Blank(cut.value.0) && !Blank(cut.value.1)
  }

  function LampOf(text: string): Lamp
    requires WellFormed(text)
  {
    var cut := Cut(TrimSpace(text), '=').value;
    Lamp(TrimSpace(cut.0), TrimSpace(cut.1))
  }

  predicate Addressable(lamps: seq<Lamp>) {
    && (forall i, j :: 0 <= i < j < |lamps| ==> lamps[i].id != lamps[j].id && lamps[i].name != lamps[j].name)
    && (forall i :: 0 <= i < |lamps| ==> !NamesVerb(lamps[i].name))
  }

  predicate Reads(text: string, lamp: Lamp) {
    WellFormed(text) && LampOf(text) == lamp
  }

  ghost predicate Pairwise<T(!new), V(!new)>(xs: seq<T>, vs: seq<V>, p: (T, V) -> bool) {
    |xs| == |vs| && forall i :: 0 <= i < |xs| ==> p(xs[i], vs[i])
  }

  /** These lamps are what the entries say, one each. */
  ghost predicate Says(entries: seq<string>, lamps: seq<Lamp>) {
    Pairwise(entries, lamps, Reads)
  }

  /** Every element was read after exactly the ones before it. */
  ghost predicate Collected<T(!new), V(!new), E(!new)>(
    xs: seq<T>, earlier: seq<V>, p: (T, seq<V>) -> Result<V, E>, all: seq<V>)
  {
    && |all| == |earlier| + |xs| && all[..|earlier|] == earlier
    && forall i :: 0 <= i < |xs| ==> p(xs[i], all[..|earlier| + i]) == Ok(all[|earlier| + i])
  }

  lemma {:induction false} CollectedExactly<T(!new), V(!new), E(!new)>(
    xs: seq<T>, earlier: seq<V>, p: (T, seq<V>) -> Result<V, E>, all: seq<V>)
    ensures Collect(xs, earlier, p) == Ok(all) <==> Collected(xs, earlier, p, all)
    decreases |xs|
  {
    if xs != [] && p(xs[0], earlier).Ok? {
      var next := earlier + [p(xs[0], earlier).value];
      CollectedExactly(xs[1..], next, p, all);
      if Collected(xs, earlier, p, all) {
        assert all[..|next|] == next;
      }
      if Collected(xs[1..], next, p, all) {
        assert all[..|earlier|] == next[..|earlier|] && all[|earlier|] == next[|earlier|];
      }
    } else if xs == [] && Collected(xs, earlier, p, all) {
      assert all == all[..|earlier|];
    }
  }

  lemma {:induction false} StoppedAt<T(!new), V(!new), E(!new)>(
    xs: seq<T>, earlier: seq<V>, p: (T, seq<V>) -> Result<V, E>, e: E) returns (n: nat, before: seq<V>)
    requires Collect(xs, earlier, p) == Err(e)
    ensures n < |xs| && Collected(xs[..n], earlier, p, before) && p(xs[n], before) == Err(e)
    decreases |xs|
  {
    if p(xs[0], earlier).Err? {
      n, before := 0, earlier;
    } else {
      var next := earlier + [p(xs[0], earlier).value];
      n, before := StoppedAt(xs[1..], next, p, e);
      n := n + 1;
      assert before[..|earlier|] == next[..|earlier|] && before[|earlier|] == next[|earlier|];
      assert forall i :: 0 < i < n ==> xs[..n][i] == xs[1..][..n - 1][i - 1];
    }
  }

  lemma AddressableGrows(earlier: seq<Lamp>, lamp: Lamp)
    requires Addressable(earlier)
    ensures Addressable(earlier + [lamp]) <==> CheckAgainst(lamp, earlier) == Ok(lamp)
  {
    NotFound(IDOf, earlier, lamp.id);
    NotFound(NameOf, earlier, lamp.name);
    var all := earlier + [lamp];
    assert all[|earlier|] == lamp;
    assert forall i :: 0 <= i < |earlier| ==> all[i] == earlier[i];
  }

  lemma PairReadExactly(text: string, pos: nat, lamp: Lamp)
    ensures ParsePair(text, pos) == Ok(lamp) <==> Reads(text, lamp)
  {
    var cut := Cut(TrimSpace(text), '=');
    if cut.Some? {
      BlankTrims(cut.value.0);
      BlankTrims(cut.value.1);
    }
  }

  lemma EntryAcceptedExactly(text: string, earlier: seq<Lamp>, lamp: Lamp)
    requires Addressable(earlier)
    ensures ParseEntry(text, earlier) == Ok(lamp) <==> Reads(text, lamp) && Addressable(earlier + [lamp])
  {
    PairReadExactly(text, |earlier| + 1, lamp);
    AddressableGrows(earlier, lamp);
  }

  lemma {:induction false} EntriesAcceptedExactly(entries: seq<string>, lamps: seq<Lamp>)
    ensures Collected(entries, [], ParseEntry, lamps) <==> Says(entries, lamps) && Addressable(lamps)
    decreases |entries|
  {
    var n := |entries| - 1;
    if n >= 0 && |lamps| == |entries| {
      EntriesAcceptedExactly(entries[..n], lamps[..n]);
      CollectedLast(entries, lamps, ParseEntry);
      PairwiseLast(entries, lamps, Reads);
      AddressableLast(lamps);
      if Addressable(lamps[..n]) {
        EntryAcceptedExactly(entries[n], lamps[..n], lamps[n]);
      }
    }
  }

  lemma CollectedLast<T(!new), V(!new), E(!new)>(xs: seq<T>, all: seq<V>, p: (T, seq<V>) -> Result<V, E>)
    requires |xs| == |all| > 0
    ensures var n := |xs| - 1;
      Collected(xs, [], p, all) <==> Collected(xs[..n], [], p, all[..n]) && p(xs[n], all[..n]) == Ok(all[n])
  {
    var n := |xs| - 1;
    assert forall i :: 0 <= i <= n ==> all[..n][..i] == all[..i];
  }

  lemma PairwiseLast<T(!new), V(!new)>(xs: seq<T>, vs: seq<V>, p: (T, V) -> bool)
    requires |xs| == |vs| > 0
    ensures var n := |xs| - 1;
      Pairwise(xs, vs, p) <==> Pairwise(xs[..n], vs[..n], p) && p(xs[n], vs[n])
  {
  }

  /** An addressable list is one that grew lamp by lamp. */
  lemma AddressableLast(lamps: seq<Lamp>)
    requires lamps != []
    ensures var n := |lamps| - 1;
      Addressable(lamps) <==> Addressable(lamps[..n]) && Addressable(lamps[..n] + [lamps[n]])
  {
    assert lamps == lamps[..|lamps| - 1] + [lamps[|lamps| - 1]];
  }

  /** A setting is accepted with these lamps exactly when it is blank and there are none,
      or every entry is well formed and says one lamp of the list, in order and none
      skipped, ids and names are each pairwise distinct, and no name is a verb. */
  lemma AcceptedExactly(s: string, lamps: seq<Lamp>)
    ensures Parse(s) == Ok(lamps)
       <==> if Blank(s) then lamps == [] else Says(Split(s, ','), lamps) && Addressable(lamps)
  {
    BlankTrims(s);
    CollectedExactly(Split(s, ','), [], ParseEntry, lamps);
    EntriesAcceptedExactly(Split(s, ','), lamps);
  }

  /** What a refusal says about the entry after these lamps. */
  predicate Explains(e: Refusal, text: string, before: seq<Lamp>) {
    var pos, entry := |before| + 1, TrimSpace(text);
    match e
    case EmptyEntry(p) => p == pos && Blank(text)
    case NotAPair(p, shown) => p == pos && entry != "" && '=' !in entry && shown == entry
    case EmptyID(p) => p == pos && entry != "" && entry[0] == '='
    case EmptyName(p, id) =>
      && p == pos && id != "" && entry != ""
      && Cut(entry, '=') == Some((entry[..|entry| - 1], "")) && TrimSpace(entry[..|entry| - 1]) == id
    case RepeatedID(id, first, p) =>
      p == pos && WellFormed(text) && LampOf(text).id == id && 1 <= first < pos && before[first - 1].id == id
    case ReusedName(name, owner, id) => Reads(text, Lamp(id, name)) && Lamp(owner, name) in before
    case NamedAfterVerb(name) => WellFormed(text) && LampOf(text).name == name && NamesVerb(name)
  }

  lemma BlankSideIsEmpty(entry: string, a: string, b: string)
    requires Trimmed(entry) && entry == a + "=" + b
    ensures Blank(a) ==> a == "" && entry[0] == '='
    ensures Blank(b) ==> b == "" && entry[..|entry| - 1] == a
  {
    if a != "" {
      assert entry[0] == a[0];
    }
    if b != "" {
      assert entry[|entry| - 1] == b[|b| - 1];
    }
  }

  lemma PairRefusalExplains(text: string, before: seq<Lamp>, e: Refusal)
    requires ParsePair(text, |before| + 1) == Err(e)
    ensures Explains(e, text, before)
  {
    BlankTrims(text);
    TrimSpaceTrims(text);
    var entry := TrimSpace(text);
    var cut := Cut(entry, '=');
    CutMeans(entry, '=');
    if cut.Some? {
      BlankTrims(cut.value.0);
      BlankTrims(cut.value.1);
      BlankSideIsEmpty(entry, cut.value.0, cut.value.1);
    }
  }

  lemma CheckRefusalExplains(text: string, before: seq<Lamp>, lamp: Lamp, e: Refusal)
    requires Reads(text, lamp) && CheckAgainst(lamp, before) == Err(e)
    ensures Explains(e, text, before)
  {
    if e.ReusedName? {
      var k := Find(NameOf, before, lamp.name).value;
      assert before[k] == Lamp(e.owner, e.name);
    }
  }

  lemma RefusalExplains(text: string, before: seq<Lamp>, e: Refusal)
    requires ParseEntry(text, before) == Err(e)
    ensures Explains(e, text, before)
  {
    var pair := ParsePair(text, |before| + 1);
    if pair.Err? {
      PairRefusalExplains(text, before, e);
    } else {
      PairReadExactly(text, |before| + 1, pair.value);
      CheckRefusalExplains(text, before, pair.value, e);
    }
  }

  /** A refusal points at the entry it is about: the ones before it are fine, and where it
      names an earlier one, that one really has the same id or the same name. */
  lemma RefusalPointsAtTheEntry(s: string, e: Refusal) returns (n: nat, before: seq<Lamp>)
    requires Parse(s) == Err(e)
    ensures n < |Split(s, ',')| && Says(Split(s, ',')[..n], before) && Addressable(before)
    ensures Explains(e, Split(s, ',')[n], before)
  {
    n, before := StoppedAt(Split(s, ','), [], ParseEntry, e);
    EntriesAcceptedExactly(Split(s, ',')[..n], before);
    RefusalExplains(Split(s, ',')[n], before, e);
  }

  // ---- printing --------------------------------------------------------------------------------

  function Pair(lamp: Lamp): string {
    lamp.id + "=" + lamp.name
  }

  function Pairs(lamps: seq<Lamp>): (r: seq<string>)
    ensures |r| == |lamps| && forall i :: 0 <= i < |r| ==> r[i] == Pair(lamps[i])
  {
    if lamps == [] then [] else [Pair(lamps[0])] + Pairs(lamps[1..])
  }

  function Print(lamps: seq<Lamp>): string {
    Join(Pairs(lamps), ',')
  }

  predicate Printable(lamp: Lamp) {
    && lamp.id != "" && Trimmed(lamp.id) && ',' !in lamp.id && '=' !in lamp.id
    && lamp.name != "" && Trimmed(lamp.name) && ',' !in lamp.name
  }

  lemma PairSaysLamp(lamp: Lamp)
    requires Printable(lamp)
    ensures WellFormed(Pair(lamp)) && LampOf(Pair(lamp)) == lamp && ',' !in Pair(lamp)
  {
    var s := Pair(lamp);
    assert s[0] == lamp.id[0] && s[|s| - 1] == lamp.name[|lamp.name| - 1];
    TrimSpaceTrims(s);
    TrimSpaceTrims(lamp.id);
    TrimSpaceTrims(lamp.name);
    CutFirst(lamp.id, '=', lamp.name);
  }

  lemma SaidIsPrintable(text: string)
    requires WellFormed(text) && ',' !in text
    ensures Printable(LampOf(text))
  {
    var entry := TrimSpace(text);
    TrimSpaceTrims(text);
    var cut := Cut(entry, '=').value;
    CutMeans(entry, '=');
    assert forall c :: c in cut.0 || c in cut.1 ==> c in entry;
    TrimSpaceTrims(cut.0);
    TrimSpaceTrims(cut.1);
    BlankTrims(cut.0);
    BlankTrims(cut.1);
  }

  lemma {:induction false} JoinKeeps(parts: seq<string>, n: nat, c: char)
    requires n < |parts| && c in parts[n]
    ensures c in Join(parts, ',')
    decreases n
  {
    if n > 0 {
      JoinKeeps(parts[1..], n - 1, c);
    }
  }

  /** Printing a list and parsing it again gives that list exactly when every lamp's id and
      name are not empty, have no white space at the ends and no comma, no id has an '=',
      ids and names are pairwise distinct and no name is a verb. */
  lemma PrintParsesExactly(lamps: seq<Lamp>)
    ensures Parse(Print(lamps)) == Ok(lamps)
       <==> Addressable(lamps) && forall i :: 0 <= i < |lamps| ==> Printable(lamps[i])
  {
    if Parse(Print(lamps)) == Ok(lamps) {
      AcceptedArePrintable(Print(lamps), lamps);
    }
    if Addressable(lamps) && forall i :: 0 <= i < |lamps| ==> Printable(lamps[i]) {
      PrintedParses(lamps);
    }
  }

  lemma PairsSay(lamps: seq<Lamp>)
    requires forall i :: 0 <= i < |lamps| ==> Printable(lamps[i])
    ensures Says(Pairs(lamps), lamps) && forall i :: 0 <= i < |lamps| ==> ',' !in Pairs(lamps)[i]
  {
    forall i | 0 <= i < |lamps| ensures Reads(Pairs(lamps)[i], lamps[i]) && ',' !in Pairs(lamps)[i] {
      PairSaysLamp(lamps[i]);
    }
  }

  lemma PrintedParses(lamps: seq<Lamp>)
    requires Addressable(lamps) && forall i :: 0 <= i < |lamps| ==> Printable(lamps[i])
    ensures Parse(Print(lamps)) == Ok(lamps)
  {
    AcceptedExactly(Print(lamps), lamps);
    if lamps != [] {
      PairsSay(lamps);
      SplitJoin(Pairs(lamps), ',');
      JoinKeeps(Pairs(lamps), 0, '=');
    }
  }

  lemma AcceptedArePrintable(s: string, lamps: seq<Lamp>)
    requires Parse(s) == Ok(lamps)
    ensures Addressable(lamps) && forall i :: 0 <= i < |lamps| ==> Printable(lamps[i])
  {
    AcceptedExactly(s, lamps);
    if !Blank(s) {
      JoinSplit(s, ',');
      forall i | 0 <= i < |lamps| ensures Printable(lamps[i]) {
        SaidIsPrintable(Split(s, ',')[i]);
      }
    }
  }

  /** What was accepted survives being printed and parsed again. */
  lemma ParsePrintParse(s: string, lamps: seq<Lamp>)
    requires Parse(s) == Ok(lamps)
    ensures Parse(Print(lamps)) == Ok(lamps)
  {
    AcceptedArePrintable(s, lamps);
    PrintParsesExactly(lamps);
  }
}
