/** The string calls of the Go standard library that the core relies on, over
    sequences of code points, and the byte-wise string order that sorting uses. */
module Texts {
  import opened Wrappers

  /** unicode.IsSpace, the notion of white space strings.TrimSpace uses. */
  predicate IsSpace(c: char) {
    || '\t' <= c <= '\r' || c == ' '
    || c == '\U{85}' || c == '\U{A0}' || c == '\U{1680}' || '\U{2000}' <= c <= '\U{200A}'
    || c == '\U{2028}' || c == '\U{2029}' || c == '\U{202F}' || c == '\U{205F}' || c == '\U{3000}'
  }

  function TrimLeft(s: string): string {
    if s != [] && IsSpace(s[0]) then TrimLeft(s[1..]) else s
  }

  function TrimRight(s: string): string {
    if s != [] && IsSpace(s[|s| - 1]) then TrimRight(s[..|s| - 1]) else s
  }

  function TrimSpace(s: string): string {
    TrimRight(TrimLeft(s))
  }

  /** What TrimSpace leaves alone. */
  predicate Trimmed(s: string) {
    s == [] || (!IsSpace(s[0]) && !IsSpace(s[|s| - 1]))
  }

  /** Blank is the test strings.TrimSpace(s) == "", said without the trimming. */
  predicate Blank(s: string) {
    forall i :: 0 <= i < |s| ==> IsSpace(s[i])
  }

  lemma {:induction false} LeftTaken(s: string) returns (front: string)
    ensures s == front + TrimLeft(s) && Blank(front)
    ensures TrimLeft(s) == [] || !IsSpace(TrimLeft(s)[0])
  {
    front := [];
    if s != [] && IsSpace(s[0]) {
      front := LeftTaken(s[1..]);
      front := [s[0]] + front;
    }
  }

  lemma {:induction false} RightTaken(s: string) returns (back: string)
    ensures s == TrimRight(s) + back && Blank(back)
    ensures TrimRight(s) == [] || !IsSpace(TrimRight(s)[|TrimRight(s)| - 1])
  {
    back := [];
    if s != [] && IsSpace(s[|s| - 1]) {
      var n := |s| - 1;
      back := RightTaken(s[..n]);
      back := back + [s[n]];
    }
  }

  /** TrimSpace takes away white space at the two ends, all of it and nothing else. */
  lemma TrimSpaceMeans(s: string) returns (front: string, back: string)
    ensures s == front + TrimSpace(s) + back
    ensures Blank(front) && Blank(back) && Trimmed(TrimSpace(s))
  {
    front := LeftTaken(s);
    back := RightTaken(TrimLeft(s));
    var t := TrimSpace(s);
    assert t != [] ==> t[0] == TrimLeft(s)[0];
  }

  lemma TrimSpaceTrims(s: string)
    ensures Trimmed(TrimSpace(s))
    ensures Trimmed(s) ==> TrimSpace(s) == s
    ensures forall c :: c in TrimSpace(s) ==> c in s
  {
    var front, back := TrimSpaceMeans(s);
  }

  lemma BlankTrims(s: string)
    ensures Blank(s) <==> TrimSpace(s) == []
  {
    var front, back := TrimSpaceMeans(s);
    var t := TrimSpace(s);
    if t != [] {
      assert s[|front|] == t[0];
    }
  }

  /** strings.Split with a one-character separator. */
  function Split(s: string, sep: char): (parts: seq<string>)
    ensures |parts| >= 1
  {
    if s == [] then [[]]
    else if s[0] == sep then [[]] + Split(s[1..], sep)
    else var rest := Split(s[1..], sep); [[s[0]] + rest[0]] + rest[1..]
  }

  /** strings.Join with a one-character separator. */
  function Join(parts: seq<string>, sep: char): string {
    if parts == [] then []
    else if |parts| == 1 then parts[0]
    else parts[0] + [sep] + Join(parts[1..], sep)
  }

  lemma {:induction false} SplitIsFree(s: string, sep: char)
    ensures forall p :: p in Split(s, sep) ==> sep !in p
  {
    if s != [] {
      SplitIsFree(s[1..], sep);
      var rest := Split(s[1..], sep);
      assert rest[0] in rest;
    }
  }

  lemma JoinNext(c: char, rest: seq<string>, sep: char)
    requires rest != []
    ensures Join([[]] + rest, sep) == [sep] + Join(rest, sep)
    ensures Join([[c] + rest[0]] + rest[1..], sep) == [c] + Join(rest, sep)
  {
    assert ([[]] + rest)[1..] == rest;
    assert ([[c] + rest[0]] + rest[1..])[1..] == rest[1..];
  }

  lemma {:induction false} JoinSplit(s: string, sep: char)
    ensures Join(Split(s, sep), sep) == s
    ensures forall p :: p in Split(s, sep) ==> sep !in p
  {
    SplitIsFree(s, sep);
    if s != [] {
      JoinSplit(s[1..], sep);
      JoinNext(s[0], Split(s[1..], sep), sep);
      assert s == [s[0]] + s[1..];
    }
  }

  /** Splitting a text whose first level is p: the level, then the levels of the rest. */
  lemma {:induction false} SplitAfter(p: string, rest: string, sep: char)
    requires sep !in p
    ensures Split(p + [sep] + rest, sep) == [p] + Split(rest, sep)
    decreases |p|
  {
    var s := p + [sep] + rest;
    if p == [] {
      assert s[1..] == rest;
    } else {
      SplitAfter(p[1..], rest, sep);
      assert s[1..] == p[1..] + [sep] + rest;
      assert p == [p[0]] + p[1..];
      assert ([p[1..]] + Split(rest, sep))[1..] == Split(rest, sep);
    }
  }

  lemma {:induction false} SplitWhole(p: string, sep: char)
    requires sep !in p
    ensures Split(p, sep) == [p]
  {
    if p != [] {
      SplitWhole(p[1..], sep);
      assert p == [p[0]] + p[1..];
    }
  }

  lemma {:induction false} SplitJoin(parts: seq<string>, sep: char)
    requires parts != []
    requires forall p :: p in parts ==> sep !in p
    ensures Split(Join(parts, sep), sep) == parts
  {
    if |parts| == 1 {
      SplitWhole(parts[0], sep);
    } else {
      SplitJoin(parts[1..], sep);
      SplitAfter(parts[0], Join(parts[1..], sep), sep);
    }
  }

  /** strings.Cut at the first occurrence of one character; None when it is absent. */
  function Cut(s: string, sep: char): Option<(string, string)> {
    if s == [] then None
    else if s[0] == sep then Some(([], s[1..]))
    else match Cut(s[1..], sep)
      case None => None
      case Some((a, b)) => Some(([s[0]] + a, b))
  }

  lemma {:induction false} CutMeans(s: string, sep: char)
    ensures var r := Cut(s, sep);
      && (r.Some? <==> sep in s)
      && (r.Some? ==> s == r.value.0 + [sep] + r.value.1 && sep !in r.value.0)
  {
    if s != [] && s[0] != sep {
      CutMeans(s[1..], sep);
      assert s == [s[0]] + s[1..];
    }
  }

  lemma {:induction false} CutFirst(a: string, sep: char, b: string)
    requires sep !in a
    ensures Cut(a + [sep] + b, sep) == Some((a, b))
  {
    var s := a + [sep] + b;
    if a == "" {
      assert s[1..] == b;
    } else {
      CutFirst(a[1..], sep, b);
      assert s[1..] == a[1..] + [sep] + b;
      assert a == [a[0]] + a[1..];
    }
  }

  /** Go's string order, which on UTF-8 is the order of code points. */
  predicate Less(a: string, b: string) {
    b != [] && (a == [] || a[0] < b[0] || (a[0] == b[0] && Less(a[1..], b[1..])))
  }

  /** a comes before b: where they first differ its character is the smaller one, or it
      ends there and b goes on. */
  ghost predicate DiffersSmaller(a: string, b: string, n: nat) {
    n <= |a| && n < |b| && a[..n] == b[..n] && (n == |a| || a[n] < b[n])
  }

  lemma HeadsAgree(a: string, b: string, n: nat)
    requires DiffersSmaller(a, b, n)
    ensures n > 0 ==> a != [] && a[0] == b[0]
  {
    if n > 0 {
      assert a[..n][0] == a[0] && b[..n][0] == b[0];
    }
  }

  lemma {:induction false} LessMeans(a: string, b: string)
    ensures Less(a, b) <==> exists n: nat :: DiffersSmaller(a, b, n)
  {
    if b == [] {
    } else if a == [] || a[0] != b[0] {
      if Less(a, b) {
        assert DiffersSmaller(a, b, 0);
      }
      if n: nat :| DiffersSmaller(a, b, n) {
        HeadsAgree(a, b, n);
      }
    } else {
      LessMeans(a[1..], b[1..]);
      if n: nat :| DiffersSmaller(a[1..], b[1..], n) {
        assert a[..n + 1] == [a[0]] + a[1..][..n] && b[..n + 1] == [b[0]] + b[1..][..n];
        assert DiffersSmaller(a, b, n + 1);
      }
      if n: nat :| DiffersSmaller(a, b, n) {
        assert n > 0;
        assert a[1..][..n - 1] == a[..n][1..] && b[1..][..n - 1] == b[..n][1..];
        assert DiffersSmaller(a[1..], b[1..], n - 1);
      }
    }
  }

  lemma {:induction false} LessIsStrict(a: string, b: string)
    ensures !(Less(a, b) && Less(b, a))
    ensures a == b || Less(a, b) || Less(b, a)
    ensures a == b ==> !Less(a, b)
  {
    if a != [] && b != [] && a[0] == b[0] {
      LessIsStrict(a[1..], b[1..]);
      assert a == [a[0]] + a[1..] && b == [b[0]] + b[1..];
    }
  }

  lemma {:induction false} LessTransitive(a: string, b: string, c: string)
    requires Less(a, b) && Less(b, c)
    ensures Less(a, c)
  {
    if a != [] && b[0] == c[0] && a[0] == b[0] {
      LessTransitive(a[1..], b[1..], c[1..]);
    }
  }
}
