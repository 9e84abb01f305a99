/** The server's two rate limits, each against a plain specification over the whole
    history of one device: takeovers counted in a sliding window, compacted in place,
    and refusals reported at most once per window. Times are in seconds. */
module RateLimits {
  import opened Wrappers

  type Time = int

  const TAKEOVER_WINDOW := 60
  const TAKEOVER_THRESHOLD := 3
  const REJECTION_WINDOW := 300

  // ---- takeovers -------------------------------------------------------------------------

  /** One call: what is outside the window goes, the new time is added. */
  function Prune(kept: seq<Time>, now: Time): seq<Time> {
    if kept == [] then []
    else (if now - kept[0] < TAKEOVER_WINDOW then [kept[0]] else []) + Prune(kept[1..], now)
  }

  function Note(kept: seq<Time>, now: Time): seq<Time> {
    Prune(kept, now) + [now]
  }

  lemma Associate(a: seq<Time>, b: seq<Time>, c: seq<Time>)
    ensures a + (b + c) == a + b + c
  {
  }

  lemma {:induction false} PruneAppend(a: seq<Time>, b: seq<Time>, now: Time)
    ensures Prune(a + b, now) == Prune(a, now) + Prune(b, now)
  {
    if a == [] {
      assert a + b == b;
    } else {
      PruneAppend(a[1..], b, now);
      assert (a + b)[1..] == a[1..] + b;
      Associate(if now - a[0] < TAKEOVER_WINDOW then [a[0]] else [], Prune(a[1..], now), Prune(b, now));
    }
  }

  lemma PruneOne(t: Time, now: Time)
    ensures Prune([t], now) == if now - t < TAKEOVER_WINDOW then [t] else []
  {
    assert [t][1..] == [];
  }

  lemma PruneLast(a: seq<Time>, t: Time, now: Time)
    ensures Prune(a + [t], now) == Prune(a, now) + (if now - t < TAKEOVER_WINDOW then [t] else [])
  {
    PruneAppend(a, [t], now);
    PruneOne(t, now);
  }

  /** A Go slice: a backing array, of which the first len elements are the slice. */
  class Slice {
    var buf: array<Time>
    var len: nat

    ghost predicate Valid()
      reads this
    {
      len <= buf.Length
    }

    ghost function Contents(): seq<Time>
      requires Valid()
      reads this, buf
    {
      buf[..len]
    }

    constructor ()
      ensures Valid() && Contents() == [] && fresh(buf)
    {
      buf, len := new Time[0], 0;
    }

    /** append: into the spare capacity if there is some, into a new array otherwise. */
    method Append(t: Time)
      requires Valid()
      modifies this, buf
      ensures Valid() && Contents() == old(Contents()) + [t]
      ensures buf == old(buf) || fresh(buf)
    {
      if len == buf.Length {
        Grow();
      }
      buf[len] := t;
      len := len + 1;
      assert buf[..len] == buf[..len - 1] + [t];
    }

    method Grow()
      requires Valid()
      modifies this`buf
      ensures Valid() && Contents() == old(Contents()) && len < buf.Length && fresh(buf)
    {
      var bigger := new Time[2 * len + 1];
      for i := 0 to len
        invariant buf == old(buf) && bigger[..i] == buf[..i]
      {
        bigger[i] := buf[i];
      }
      buf := bigger;
    }

    /** The loop of noteTakeover: kept shares the slice's own array, and its length never
        overtakes the element being read. */
    method Compact(now: Time)
      requires Valid()
      modifies this`len, buf
      ensures Valid() && Contents() == Prune(old(Contents()), now)
    {
      var kept := 0;
      ghost var was := buf[..len];
      for i := 0 to len
        invariant len == |was| && kept <= i
        invariant buf[i..len] == was[i..]
        invariant buf[..kept] == Prune(was[..i], now)
      {
        var at := buf[i];
        PruneNext(was, i, now);
        assert at == buf[i..len][0] == was[i];
        ghost var front := buf[..kept];
        ghost var back := buf[i + 1..len];
        assert back == buf[i..len][1..] == was[i + 1..];
        if now - at < TAKEOVER_WINDOW {
          buf[kept] := at;
          assert buf[..kept + 1] == front + [at];
          kept := kept + 1;
        }
        assert buf[i + 1..len] == back;
      }
      assert was[..|was|] == was;
      len := kept;
    }
  }

  lemma PruneNext(was: seq<Time>, i: nat, now: Time)
    requires i < |was|
    ensures Prune(was[..i + 1], now)
         == Prune(was[..i], now) + (if now - was[i] < TAKEOVER_WINDOW then [was[i]] else [])
  {
    assert was[..i + 1] == was[..i] + [was[i]];
    PruneLast(was[..i], was[i], now);
  }

  class Takeovers {
    var byDevice: map<string, Slice>

    ghost predicate Valid()
      reads this, byDevice.Values, set s | s in byDevice.Values :: s.buf
    {
      && (forall id :: id in byDevice ==> byDevice[id].Valid())
      && (forall a, b :: a in byDevice && b in byDevice && a != b ==>
            byDevice[a] != byDevice[b] && byDevice[a].buf != byDevice[b].buf)
    }

    /** The times kept for one device. */
    ghost function Kept(id: string): seq<Time>
      requires Valid()
      reads this, byDevice.Values, set s | s in byDevice.Values :: s.buf
    {
      if id in byDevice then byDevice[id].Contents() else []
    }

    constructor ()
      ensures Valid() && forall id :: Kept(id) == []
    {
      byDevice := map[];
    }

    method NoteTakeover(id: string, now: Time) returns (warn: bool)
      requires Valid()
      modifies this, byDevice.Values, set s | s in byDevice.Values :: s.buf
      ensures Valid()
      ensures Kept(id) == Note(old(Kept(id)), now)
      ensures forall other :: other != id ==> Kept(other) == old(Kept(other))
      ensures warn == (|Note(old(Kept(id)), now)| >= TAKEOVER_THRESHOLD)
    {
      if id !in byDevice {
        var empty := new Slice();
        byDevice := byDevice[id := empty];
      }
      var s := byDevice[id];
      s.Compact(now);
      s.Append(now);
      return s.len >= TAKEOVER_THRESHOLD;
    }
  }

  /** The state after a run of calls for one device, oldest first. */
  function NoteAll(times: seq<Time>): seq<Time>
    decreases |times|
  {
    if times == [] then []
    else var n := |times| - 1; Note(NoteAll(times[..n]), times[n])
  }

  /** No later call was a window or more after it. */
  ghost predicate NeverExpired(times: seq<Time>, i: nat)
    requires i < |times|
  {
    forall j :: i <= j < |times| ==> times[j] - times[i] < 60
  }

  /** The full history, filtered by p on positions. */
  ghost function Survivors(times: seq<Time>, n: nat): seq<Time>
    requires n <= |times|
  {
    if n == 0 then []
    else Survivors(times, n - 1) + (if NeverExpired(times, n - 1) then [times[n - 1]] else [])
  }

  lemma ExpiresLater(times: seq<Time>, now: Time, i: nat)
    requires i < |times|
    ensures NeverExpired(times + [now], i) <==> NeverExpired(times, i) && now - times[i] < TAKEOVER_WINDOW
  {
    var more := times + [now];
    assert more[|times|] == now;
    assert forall j :: 0 <= j < |times| ==> more[j] == times[j];
  }

  lemma {:induction false} PruneSurvivors(times: seq<Time>, now: Time, n: nat)
    requires n <= |times|
    ensures Prune(Survivors(times, n), now) == Survivors(times + [now], n)
  {
    if n > 0 {
      var t := times[n - 1];
      PruneSurvivors(times, now, n - 1);
      ExpiresLater(times, now, n - 1);
      var before := Survivors(times, n - 1);
      if NeverExpired(times, n - 1) {
        PruneLast(before, t, now);
      } else {
        assert before + [] == before;
      }
      assert Prune(before, now) + [] == Prune(before, now);
    }
  }

  /** What is kept, for any run of times whatever: the calls that no later call has
      expired, in order. */
  lemma {:induction false} KeepsTheUnexpired(times: seq<Time>)
    ensures NoteAll(times) == Survivors(times, |times|)
    decreases |times|
  {
    if times != [] {
      var n := |times| - 1;
      KeepsTheUnexpired(times[..n]);
      PruneSurvivors(times[..n], times[n], n);
      assert times[..n] + [times[n]] == times;
      assert NeverExpired(times, n);
    }
  }

  ghost predicate NonDecreasing(times: seq<Time>) {
    forall i, j :: 0 <= i <= j < |times| ==> times[i] <= times[j]
  }

  /** The takeovers among the first n of the history that lie within the window ending at now. */
  ghost function InWindow(times: seq<Time>, n: nat, now: Time): nat
    requires n <= |times|
  {
    if n == 0 then 0
    else InWindow(times, n - 1, now) + (if now - times[n - 1] < 60 then 1 else 0)
  }

  /** Nothing within the window ending at now had been expired by an earlier call. */
  ghost predicate NothingLost(times: seq<Time>, n: nat, now: Time)
    requires n <= |times|
  {
    forall i :: 0 <= i < n && now - times[i] < TAKEOVER_WINDOW ==> NeverExpired(times, i)
  }

  lemma {:induction false} CountSurvivors(times: seq<Time>, n: nat)
    requires times != [] && n <= |times|
    ensures var now := times[|times| - 1];
      && |Survivors(times, n)| <= InWindow(times, n, now)
      && (|Survivors(times, n)| == InWindow(times, n, now) <==> NothingLost(times, n, now))
  {
    if n > 0 {
      CountSurvivors(times, n - 1);
      var now := times[|times| - 1];
      assert NeverExpired(times, n - 1) ==> now - times[n - 1] < TAKEOVER_WINDOW;
      assert NothingLost(times, n, now)
        <==> NothingLost(times, n - 1, now) && (now - times[n - 1] < TAKEOVER_WINDOW ==> NeverExpired(times, n - 1));
    }
  }

  /** The pruned slice against the whole history, for any times: it counts exactly the
      takeovers within the last window, unless the clock went back over the window of one
      that an earlier call had already expired. */
  lemma CountsExactly(times: seq<Time>)
    requires times != []
    ensures var now := times[|times| - 1];
      |NoteAll(times)| == InWindow(times, |times|, now) <==> NothingLost(times, |times|, now)
  {
    KeepsTheUnexpired(times);
    CountSurvivors(times, |times|);
  }

  /** For times that do not go back, the call warns exactly when at least three takeovers
      of the full history, this one included, lie within the last window. */
  lemma WarnsExactly(times: seq<Time>)
    requires times != [] && NonDecreasing(times)
    ensures var now := times[|times| - 1];
      |NoteAll(times)| >= TAKEOVER_THRESHOLD <==> InWindow(times, |times|, now) >= 3
  {
    CountsExactly(times);
    var last := |times| - 1;
    forall i | 0 <= i <= last && times[last] - times[i] < TAKEOVER_WINDOW ensures NeverExpired(times, i) {
      assert forall j :: i <= j <= last ==> times[j] <= times[last];
    }
  }

  /** How many of the first n takeovers no later one has expired. */
  ghost function Unexpired(times: seq<Time>, n: nat): nat
    requires n <= |times|
  {
    if n == 0 then 0 else Unexpired(times, n - 1) + (if NeverExpired(times, n - 1) then 1 else 0)
  }

  lemma {:induction false} UnexpiredSurvive(times: seq<Time>, n: nat)
    requires n <= |times|
    ensures |Survivors(times, n)| == Unexpired(times, n)
  {
    if n > 0 {
      UnexpiredSurvive(times, n - 1);
    }
  }

  /** For any times, a warning is never false, and one that is due is given exactly when
      three of the takeovers in the window were never expired by a later one. */
  lemma WarningIsRightExactly(times: seq<Time>)
    requires times != []
    ensures var now, n := times[|times| - 1], |times|;
      && (|NoteAll(times)| >= TAKEOVER_THRESHOLD ==> InWindow(times, n, now) >= 3)
      && ((|NoteAll(times)| >= TAKEOVER_THRESHOLD <==> InWindow(times, n, now) >= 3)
          <==> (InWindow(times, n, now) >= 3 ==> Unexpired(times, n) >= 3))
  {
    KeepsTheUnexpired(times);
    CountSurvivors(times, |times|);
    UnexpiredSurvive(times, |times|);
  }

  /** The clock is read before the lock is taken, so it can go back; then a warning can
      be missed. */
  lemma ClockGoingBackMisses()
    ensures |NoteAll([0, 60, 1])| == 2 && InWindow([0, 60, 1], 3, 1) == 3
  {
    var t := [0, 60, 1];
    assert t[..2] == [0, 60] && [0, 60][..1] == [0] && [0][..0] == [];
    PruneOne(0, 60);
    PruneOne(60, 1);
    assert NoteAll([0]) == [0];
    assert NoteAll([0, 60]) == [60];
    assert NoteAll(t) == [60, 1];
  }

  // ---- rejections --------------------------------------------------------------------------

  datatype Rejection = Rejection(reportedAt: Time, firstAt: Time, suppressed: nat)

  /** What one refusal is told. */
  datatype Verdict = Report(suppressed: nat, since: Time) | Suppress

  const ZERO_TIME: Time := 0

  function Refuse(r: Option<Rejection>, now: Time): (Rejection, Verdict) {
    match r
    case None => (Rejection(now, ZERO_TIME, 0), Report(0, ZERO_TIME))
    case Some(r) =>
      if now - r.reportedAt < REJECTION_WINDOW then
        (Rejection(r.reportedAt, if r.suppressed == 0 then now else r.firstAt, r.suppressed + 1), Suppress)
      else (Rejection(now, ZERO_TIME, 0), Report(r.suppressed, r.firstAt))
  }

  class RejectionEntry {
    var reportedAt: Time
    var firstAt: Time
    var suppressed: nat

    constructor (now: Time)
      ensures Value() == Rejection(now, ZERO_TIME, 0)
    {
      reportedAt, firstAt, suppressed := now, ZERO_TIME, 0;
    }

    function Value(): Rejection
      reads this
    {
      Rejection(reportedAt, firstAt, suppressed)
    }
  }

  class Rejections {
    var rejects: map<string, RejectionEntry>

    ghost predicate Valid()
      reads this
    {
      forall a, b :: a in rejects && b in rejects && a != b ==> rejects[a] != rejects[b]
    }

    ghost function Known(id: string): Option<Rejection>
      reads this, rejects.Values
    {
      if id in rejects then Some(rejects[id].Value()) else None
    }

    constructor ()
      ensures Valid() && forall id :: Known(id) == None
    {
      rejects := map[];
    }

    method NoteRejection(id: string, now: Time) returns (report: bool, suppressed: nat, since: Time)
      requires Valid()
      modifies this, rejects.Values
      ensures Valid()
      ensures var (r, v) := Refuse(old(Known(id)), now);
        && Known(id) == Some(r)
        && report == v.Report?
        && (report ==> suppressed == v.suppressed && since == v.since)
        && (!report ==> suppressed == 0 && since == ZERO_TIME)
      ensures forall other :: other != id ==> Known(other) == old(Known(other))
    {
      if id !in rejects {
        var entry := new RejectionEntry(now);
        rejects := rejects[id := entry];
        return true, 0, ZERO_TIME;
      }
      var r := rejects[id];
      if now - r.reportedAt < REJECTION_WINDOW {
        if r.suppressed == 0 {
          r.firstAt := now;
        }
        r.suppressed := r.suppressed + 1;
        return false, 0, ZERO_TIME;
      }
      suppressed, since := r.suppressed, r.firstAt;
      r.reportedAt, r.suppressed, r.firstAt := now, 0, ZERO_TIME;
      return true, suppressed, since;
    }
  }

  /** The record after a run of refusals of one device, and each one's verdict. */
  function Record(times: seq<Time>): Option<Rejection>
    decreases |times|
  {
    if times == [] then None
    else var n := |times| - 1; Some(Refuse(Record(times[..n]), times[n]).0)
  }

  function VerdictAt(times: seq<Time>, i: nat): Verdict
    requires i < |times|
  {
    Refuse(Record(times[..i]), times[i]).1
  }

  predicate Reported(times: seq<Time>, i: nat) {
    i < |times| && VerdictAt(times, i).Report?
  }

  /** The last attempt before n that was reported. */
  function LastReport(times: seq<Time>, n: nat): (i: nat)
    requires 0 < n <= |times|
    ensures i < n && Reported(times, i)
    ensures forall j :: i < j < n ==> !Reported(times, j)
  {
    if Reported(times, n - 1) then n - 1
    else assert n > 1 by { assert times[..0] == []; } LastReport(times, n - 1)
  }

  /** The record says when the last report was, how many attempts have been swallowed
      since, and when the first of those was. */
  lemma {:induction false} RecordMeans(times: seq<Time>, n: nat)
    requires 0 < n <= |times|
    ensures var i := LastReport(times, n);
      && Record(times[..n]).Some?
      && var r := Record(times[..n]).value;
      && r.reportedAt == times[i] && r.suppressed == n - 1 - i
      && (r.suppressed > 0 ==> r.firstAt == times[i + 1])
  {
    assert times[..n][..n - 1] == times[..n - 1];
    if n > 1 {
      RecordMeans(times, n - 1);
    } else {
      assert times[..0] == [];
    }
  }

  function Carried(times: seq<Time>, n: nat): nat
    requires n <= |times|
  {
    if n == 0 then 0
    else Carried(times, n - 1) + match VerdictAt(times, n - 1) case Report(s, _) => s case Suppress => 0
  }

  function Reports(times: seq<Time>, n: nat): nat
    requires n <= |times|
  {
    if n == 0 then 0 else Reports(times, n - 1) + if Reported(times, n - 1) then 1 else 0
  }

  function Suppressed(r: Option<Rejection>): nat {
    if r.Some? then r.value.suppressed else 0
  }

  /** Accounting: every attempt was reported, or is in a count that a report carried, or
      is in the count still to be carried. */
  lemma {:induction false} AttemptsAddUp(times: seq<Time>, n: nat)
    requires n <= |times|
    ensures n == Reports(times, n) + Carried(times, n) + Suppressed(Record(times[..n]))
  {
    if n == 0 {
      assert times[..0] == [];
    } else {
      AttemptsAddUp(times, n - 1);
      assert times[..n][..n - 1] == times[..n - 1];
    }
  }

  /** A report carries the number of attempts since the one before and the time of the
      first of them, and comes at least a window after it. */
  lemma ReportMeans(times: seq<Time>, n: nat)
    requires 0 < n < |times| && Reported(times, n)
    ensures var i := LastReport(times, n);
      && times[n] - times[i] >= 300
      && VerdictAt(times, n).suppressed == n - 1 - i
      && (n - 1 > i ==> VerdictAt(times, n).since == times[i + 1])
  {
    RecordMeans(times, n);
  }

  /** A refusal is reported exactly when it is the first, or five minutes or more have
      passed since the last one that was. */
  lemma ReportedExactly(times: seq<Time>, n: nat)
    requires n < |times|
    ensures Reported(times, n) <==> n == 0 || times[n] - times[LastReport(times, n)] >= 300
  {
    if n > 0 {
      RecordMeans(times, n);
    } else {
      assert times[..0] == [];
    }
  }

  lemma {:induction false} ReportsGrow(times: seq<Time>, m: nat, n: nat)
    requires m <= n <= |times|
    ensures Reports(times, m) <= Reports(times, n)
    decreases n
  {
    if m < n {
      ReportsGrow(times, m, n - 1);
    }
  }

  lemma OneMoreReport(times: seq<Time>, m: nat, r: nat, n: nat)
    requires m <= r < n <= |times| && Reported(times, r)
    ensures Reports(times, m) < Reports(times, n)
  {
    ReportsGrow(times, m, r);
    ReportsGrow(times, r + 1, n);
  }

  /** Of the refusals after one and up to another at least five minutes later, at least one
      is reported, when the clock does not go back. */
  lemma EveryWindowIsReported(times: seq<Time>, i: nat, j: nat) returns (r: nat)
    requires NonDecreasing(times) && i < j < |times| && times[j] - times[i] >= 300
    ensures i < r <= j && Reported(times, r)
  {
    r := LastReport(times, j);
    if r <= i {
      assert times[r] <= times[i];
      ReportedExactly(times, j);
      r := j;
    }
  }

  /** Refusals of which any two are at least five minutes apart. */
  ghost predicate Spread(times: seq<Time>, at: seq<nat>) {
    && (forall k :: 0 <= k < |at| ==> at[k] < |times|)
    && forall k, l :: 0 <= k < l < |at| ==> at[k] < at[l] && times[at[l]] - times[at[k]] >= 300
  }

  ghost predicate ReportsAt(times: seq<Time>, rs: seq<nat>) {
    && (forall k :: 0 <= k < |rs| ==> Reported(times, rs[k]))
    && forall k, l :: 0 <= k < l < |rs| ==> rs[k] < rs[l]
  }

  /** As many reports as there are such positions have been given by the last of them. */
  lemma {:induction false} CountReports(times: seq<Time>, rs: seq<nat>, n: nat)
    requires rs != [] && ReportsAt(times, rs) && rs[|rs| - 1] < n <= |times|
    ensures Reports(times, n) >= |rs|
    decreases |rs|
  {
    var k := |rs| - 1;
    OneMoreReport(times, rs[k], rs[k], n);
    if k > 0 {
      CountReports(times, rs[..k], rs[k]);
    }
  }

  lemma AnotherReport(times: seq<Time>, rs: seq<nat>, r: nat)
    requires ReportsAt(times, rs) && Reported(times, r) && (rs == [] || rs[|rs| - 1] < r)
    ensures ReportsAt(times, rs + [r])
  {
  }

  /** The lower bound that matches the rate: as many refusals so spread, as many reports by
      the last of them at least. */
  lemma {:induction false} SpreadIsReported(times: seq<Time>, at: seq<nat>) returns (rs: seq<nat>)
    requires NonDecreasing(times) && Spread(times, at)
    ensures |rs| == |at| && ReportsAt(times, rs)
    ensures at != [] ==> rs[|rs| - 1] <= at[|at| - 1]
    decreases |at|
  {
    var n := |at| - 1;
    if n <= 0 {
      rs := [];
      if n == 0 {
        ReportedExactly(times, 0);
        rs := [0];
      }
    } else {
      rs := SpreadIsReported(times, at[..n]);
      var r := EveryWindowIsReported(times, at[n - 1], at[n]);
      AnotherReport(times, rs, r);
      rs := rs + [r];
    }
  }

  lemma {:induction false} ReportsSpread(times: seq<Time>, m: nat, n: nat)
    requires m <= n < |times| && Reported(times, m) && Reported(times, n)
    ensures times[n] - times[m] >= (Reports(times, n) - Reports(times, m)) * 300
    decreases n
  {
    if m < n {
      ReportMeans(times, n);
      var i := LastReport(times, n);
      NoReportsBetween(times, i, n);
      ReportsSpread(times, m, i);
    }
  }

  lemma {:induction false} NoReportsBetween(times: seq<Time>, i: nat, n: nat)
    requires i < n <= |times| && Reported(times, i)
    requires forall j :: i < j < n ==> !Reported(times, j)
    ensures Reports(times, n) == Reports(times, i) + 1
    decreases n
  {
    if i + 1 < n {
      NoReportsBetween(times, i, n - 1);
    }
  }

  /** The rate: the reports from one at position m up to and including one at position n,
      at most t seconds apart, number at most t / window + 1. */
  lemma RateIsBounded(times: seq<Time>, m: nat, n: nat, t: nat)
    requires m <= n < |times| && Reported(times, m) && Reported(times, n) && times[n] - times[m] <= t
    ensures Reports(times, n + 1) - Reports(times, m) <= t / 300 + 1
  {
    ReportsSpread(times, m, n);
  }
}
