/** `Array.prototype.sort` with a comparator: a stable sort, written as insertion. */
module Sorting {

  ghost predicate TotalPreorder<T(!new)>(compare: (T, T) -> int) {
    && (forall a, b :: compare(a, b) <= 0 || compare(b, a) <= 0)
    && (forall a, b, c :: compare(a, b) <= 0 && compare(b, c) <= 0 ==> compare(a, c) <= 0)
  }

  ghost predicate Sorted<T>(compare: (T, T) -> int, s: seq<T>) {
    forall i, j :: 0 <= i < j < |s| ==> compare(s[i], s[j]) <= 0
  }

  /** Places `x` before the elements of `s` that are not strictly smaller: with `Sort`, the earlier of equals stays first. */
  function Insert<T>(compare: (T, T) -> int, x: T, s: seq<T>): (r: seq<T>)
    ensures |r| == |s| + 1
    ensures multiset(r) == multiset{x} + multiset(s)
  {
    if s == [] || compare(x, s[0]) <= 0 then [x] + s
    else
      assert s == [s[0]] + s[1..];
      [s[0]] + Insert(compare, x, s[1..])
  }

  function Sort<T>(compare: (T, T) -> int, s: seq<T>): (r: seq<T>)
    ensures |r| == |s|
    ensures multiset(r) == multiset(s)
  {
    if s == [] then []
    else
      assert s == [s[0]] + s[1..];
      Insert(compare, s[0], Sort(compare, s[1..]))
  }

  lemma MultisetMembers<T>(a: seq<T>, b: seq<T>)
    requires multiset(a) == multiset(b)
    ensures forall x :: x in a <==> x in b
  {
    forall x ensures x in a <==> x in b {
      assert x in a <==> x in multiset(a);
      assert x in b <==> x in multiset(b);
    }
  }

  /** Sorting changes neither the elements nor how often each occurs. */
  lemma SortMembers<T>(compare: (T, T) -> int, s: seq<T>)
    ensures |Sort(compare, s)| == |s|
    ensures forall x :: x in Sort(compare, s) <==> x in s
  {
    MultisetMembers(Sort(compare, s), s);
  }

  lemma {:induction false} InsertSorted<T(!new)>(compare: (T, T) -> int, x: T, s: seq<T>)
    requires TotalPreorder(compare) && Sorted(compare, s)
    ensures Sorted(compare, Insert(compare, x, s))
  {
    if s == [] || compare(x, s[0]) <= 0 {
      var r := [x] + s;
      forall i, j | 0 <= i < j < |r| ensures compare(r[i], r[j]) <= 0 {
        if i == 0 && j > 1 {
          assert compare(s[0], s[j - 1]) <= 0;
        }
      }
    } else {
      InsertSorted(compare, x, s[1..]);
      var t := Insert(compare, x, s[1..]);
      MultisetMembers(t, [x] + s[1..]);
      forall j | 0 <= j < |t| ensures compare(s[0], t[j]) <= 0 {
        assert t[j] in t;
      }
    }
  }

  lemma {:induction false} SortSorted<T(!new)>(compare: (T, T) -> int, s: seq<T>)
    requires TotalPreorder(compare)
    ensures Sorted(compare, Sort(compare, s))
  {
    if s != [] {
      SortSorted(compare, s[1..]);
      InsertSorted(compare, s[0], Sort(compare, s[1..]));
    }
  }

  lemma InsertFirst<T>(compare: (T, T) -> int, x: T, s: seq<T>)
    requires s == [] || compare(x, s[0]) <= 0
    ensures Insert(compare, x, s) == [x] + s
  {
  }

  lemma {:induction false} SortOfSorted<T>(compare: (T, T) -> int, s: seq<T>)
    requires Sorted(compare, s)
    ensures Sort(compare, s) == s
  {
    if s != [] {
      var x, rest := s[0], s[1..];
      SortOfSorted(compare, rest);
      assert s == [x] + rest;
      assert rest != [] ==> rest[0] == s[1] && compare(s[0], s[1]) <= 0;
      InsertFirst(compare, x, rest);
    }
  }

  lemma {:induction false} CountOfDistinct<T>(s: seq<T>, x: T)
    requires forall i, j :: 0 <= i < j < |s| ==> s[i] != s[j]
    ensures multiset(s)[x] <= 1
  {
    if s != [] {
      assert s == [s[0]] + s[1..];
      CountOfDistinct(s[1..], x);
      if s[0] == x {
        assert x !in s[1..];
      }
    }
  }

  lemma DistinctByCount<T>(s: seq<T>, i: nat, j: nat)
    requires i < j < |s| && multiset(s)[s[i]] <= 1
    ensures s[i] != s[j]
  {
    var a, b := s[..j], s[j..];
    assert s == a + b && a[i] == s[i] && b[0] == s[j];
    assert multiset(s) == multiset(a) + multiset(b);
    assert s[i] in multiset(a) && s[j] in multiset(b);
  }

  /** Sorting a sequence without repetition repeats nothing. */
  lemma SortDistinct<T>(compare: (T, T) -> int, s: seq<T>)
    requires forall i, j :: 0 <= i < j < |s| ==> s[i] != s[j]
    ensures forall i, j :: 0 <= i < j < |Sort(compare, s)| ==> Sort(compare, s)[i] != Sort(compare, s)[j]
  {
    var sorted := Sort(compare, s);
    forall i, j | 0 <= i < j < |sorted| ensures sorted[i] != sorted[j] {
      CountOfDistinct(s, sorted[i]);
      DistinctByCount(sorted, i, j);
    }
  }
}
