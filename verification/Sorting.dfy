/** sort.Slice by a string key. Only what sorting promises is used: the same elements
    in key order, which distinct keys make unique. */
module Sorting {
  import opened Texts

  ghost predicate NoDuplicates<T>(xs: seq<T>) {
    forall i, j :: 0 <= i < j < |xs| ==> xs[i] != xs[j]
  }

  ghost predicate Sorted<T>(key: T -> string, xs: seq<T>) {
    forall i, j :: 0 <= i < j < |xs| ==> !Less(key(xs[j]), key(xs[i]))
  }

  ghost predicate SameElements<T(!new)>(xs: seq<T>, ys: seq<T>) {
    forall x :: x in xs <==> x in ys
  }

  function Insert<T(!new)>(key: T -> string, x: T, xs: seq<T>): (r: seq<T>)
    ensures |r| == |xs| + 1
    ensures forall y :: y in r <==> y == x || y in xs
  {
    if xs == [] || !Less(key(xs[0]), key(x)) then [x] + xs else [xs[0]] + Insert(key, x, xs[1..])
  }

  function SortBy<T(!new)>(key: T -> string, xs: seq<T>): (r: seq<T>)
    ensures |r| == |xs| && SameElements(r, xs)
  {
    if xs == [] then [] else Insert(key, xs[0], SortBy(key, xs[1..]))
  }

  lemma NotLessTransitive(a: string, b: string, c: string)
    requires !Less(b, a) && !Less(c, b)
    ensures !Less(c, a)
  {
    LessIsStrict(a, b);
    LessIsStrict(b, c);
    LessIsStrict(c, a);
    if Less(c, a) && a != b && b != c {
      LessTransitive(a, b, c);
    }
  }

  lemma {:induction false} InsertSorted<T(!new)>(key: T -> string, x: T, xs: seq<T>)
    requires Sorted(key, xs)
    ensures Sorted(key, Insert(key, x, xs))
    ensures NoDuplicates(xs) && x !in xs ==> NoDuplicates(Insert(key, x, xs))
  {
    if xs == [] {
    } else if !Less(key(xs[0]), key(x)) {
      var r := [x] + xs;
      forall j | 1 <= j < |r| ensures !Less(key(r[j]), key(x)) {
        if j > 1 {
          LessIsStrict(key(xs[0]), key(x));
          NotLessTransitive(key(x), key(xs[0]), key(xs[j - 1]));
        }
      }
    } else {
      var t := Insert(key, x, xs[1..]);
      InsertSorted(key, x, xs[1..]);
      LessIsStrict(key(xs[0]), key(x));
      forall j | 0 <= j < |t| ensures !Less(key(t[j]), key(xs[0])) {
        assert t[j] == x || t[j] in xs[1..];
      }
      if NoDuplicates(xs) && x !in xs {
        assert xs[0] !in xs[1..] && xs[0] !in t;
      }
    }
  }

  lemma {:induction false} SortBySorts<T(!new)>(key: T -> string, xs: seq<T>)
    ensures Sorted(key, SortBy(key, xs))
    ensures NoDuplicates(xs) ==> NoDuplicates(SortBy(key, xs))
  {
    if xs != [] {
      SortBySorts(key, xs[1..]);
      InsertSorted(key, xs[0], SortBy(key, xs[1..]));
    }
  }

  lemma HeadKeys<T(!new)>(key: T -> string, xs: seq<T>, ys: seq<T>, j: nat)
    requires Sorted(key, xs) && Sorted(key, ys) && SameElements(xs, ys)
    requires xs != [] && j < |ys| && ys[j] == xs[0]
    ensures forall k :: 0 <= k <= j ==> key(ys[k]) == key(xs[0])
  {
    forall k | 0 <= k <= j ensures key(ys[k]) == key(xs[0]) {
      assert ys[k] in xs;
      LessIsStrict(key(ys[k]), key(xs[0]));
    }
  }

  lemma WithoutOne<T(!new)>(key: T -> string, xs: seq<T>, ys: seq<T>, j: nat)
    requires NoDuplicates(xs) && NoDuplicates(ys) && SameElements(xs, ys) && Sorted(key, ys)
    requires xs != [] && j < |ys| && ys[j] == xs[0]
    ensures var rest := ys[..j] + ys[j + 1..];
      NoDuplicates(rest) && SameElements(xs[1..], rest) && Sorted(key, rest)
  {
    var rest := ys[..j] + ys[j + 1..];
    assert forall i :: 0 <= i < |rest| ==> rest[i] == ys[if i < j then i else i + 1];
    forall x ensures x in xs[1..] <==> x in rest {
      assert x in xs <==> x == xs[0] || x in xs[1..];
      assert ys == ys[..j] + [ys[j]] + ys[j + 1..];
      assert x in ys <==> x == ys[j] || x in rest;
    }
  }

  /** However the same elements are arranged, sorted they show the same keys. */
  lemma {:induction false} SortedKeysAgree<T(!new)>(key: T -> string, xs: seq<T>, ys: seq<T>)
    requires Sorted(key, xs) && Sorted(key, ys)
    requires NoDuplicates(xs) && NoDuplicates(ys) && SameElements(xs, ys)
    ensures |xs| == |ys| && forall i :: 0 <= i < |xs| ==> key(xs[i]) == key(ys[i])
  {
    assert |ys| > 0 ==> ys[0] in xs;
    if xs != [] {
      assert xs[0] in ys;
      var j :| 0 <= j < |ys| && ys[j] == xs[0];
      var rest := ys[..j] + ys[j + 1..];
      HeadKeys(key, xs, ys, j);
      WithoutOne(key, xs, ys, j);
      SortedKeysAgree(key, xs[1..], rest);
      forall i | 0 <= i < |xs| ensures key(xs[i]) == key(ys[i]) {
        if i > 0 {
          assert key(xs[1..][i - 1]) == key(rest[i - 1]);
        }
      }
    }
  }

  /** With distinct keys there is one sorted arrangement, so the order in which the
      elements were collected cannot show. */
  lemma SortedUnique<T(!new)>(key: T -> string, xs: seq<T>, ys: seq<T>)
    requires Sorted(key, xs) && Sorted(key, ys)
    requires NoDuplicates(xs) && NoDuplicates(ys) && SameElements(xs, ys)
    requires forall x, y :: x in xs && y in xs && key(x) == key(y) ==> x == y
    ensures xs == ys
  {
    SortedKeysAgree(key, xs, ys);
    forall i | 0 <= i < |xs| ensures xs[i] == ys[i] {
      assert xs[i] in xs && ys[i] in ys && ys[i] in xs;
    }
  }
}
