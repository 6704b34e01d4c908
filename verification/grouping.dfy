/** Insertion-ordered Sets and Maps, as the source's loops fill them, and counting. */
module Grouping {
  import Sorting

  /** The elements in order of first occurrence: the contents of a Set filled from `s`. */
  function Distinct<T(==, !new)>(s: seq<T>): (r: seq<T>)
    ensures forall x :: x in r <==> x in s
    ensures forall i, j :: 0 <= i < j < |r| ==> r[i] != r[j]
  {
    if s == [] then []
    else
      var rest := Distinct(s[..|s| - 1]);
      var last := s[|s| - 1];
      assert s == s[..|s| - 1] + [last];
      if last in rest then rest else rest + [last]
  }

  function Map<T, U>(f: T -> U, s: seq<T>): (r: seq<U>)
    ensures |r| == |s|
    ensures forall i :: 0 <= i < |s| ==> r[i] == f(s[i])
  {
    seq(|s|, i requires 0 <= i < |s| => f(s[i]))
  }

  function Filter<T(!new)>(p: T -> bool, s: seq<T>): (r: seq<T>)
    ensures forall x :: x in r <==> x in s && p(x)
  {
    if s == [] then []
    else
      assert s == s[..|s| - 1] + [s[|s| - 1]];
      Filter(p, s[..|s| - 1]) + if p(s[|s| - 1]) then [s[|s| - 1]] else []
  }

  function Flatten<T(!new)>(ss: seq<seq<T>>): (r: seq<T>)
    ensures forall x :: x in r <==> exists i :: 0 <= i < |ss| && x in ss[i]
  {
    if ss == [] then []
    else
      var rest := Flatten(ss[..|ss| - 1]);
      assert forall i :: 0 <= i < |ss| - 1 ==> ss[..|ss| - 1][i] == ss[i];
      rest + ss[|ss| - 1]
  }

  function CountIf<T>(p: T -> bool, s: seq<T>): nat {
    if s == [] then 0 else (if p(s[0]) then 1 else 0) + CountIf(p, s[1..])
  }

  lemma {:induction false} CountAppend<T>(p: T -> bool, a: seq<T>, b: seq<T>)
    ensures CountIf(p, a + b) == CountIf(p, a) + CountIf(p, b)
  {
    if a == [] {
      assert a + b == b;
    } else {
      assert (a + b)[1..] == a[1..] + b;
      CountAppend(p, a[1..], b);
    }
  }

  lemma CountSplit<T>(p: T -> bool, s: seq<T>, n: nat)
    requires n <= |s|
    ensures CountIf(p, s[..n]) + CountIf(p, s[n..]) == CountIf(p, s)
  {
    assert s == s[..n] + s[n..];
    CountAppend(p, s[..n], s[n..]);
  }

  lemma {:induction false} CountBounds<T(!new)>(p: T -> bool, s: seq<T>)
    ensures CountIf(p, s) <= |s|
    ensures (forall x :: x in s ==> p(x)) ==> CountIf(p, s) == |s|
    ensures (forall x :: x in s ==> !p(x)) ==> CountIf(p, s) == 0
  {
    if s != [] {
      assert s[0] in s && forall x :: x in s[1..] ==> x in s;
      CountBounds(p, s[1..]);
    }
  }

  lemma {:induction false} CountInsert<T>(compare: (T, T) -> int, p: T -> bool, x: T, s: seq<T>)
    ensures CountIf(p, Sorting.Insert(compare, x, s)) == (if p(x) then 1 else 0) + CountIf(p, s)
  {
    if s == [] || compare(x, s[0]) <= 0 {
      assert ([x] + s)[1..] == s;
    } else {
      CountInsert(compare, p, x, s[1..]);
      assert Sorting.Insert(compare, x, s)[1..] == Sorting.Insert(compare, x, s[1..]);
    }
  }

  /** Sorting does not change how many elements satisfy a predicate. */
  lemma {:induction false} CountSort<T>(compare: (T, T) -> int, p: T -> bool, s: seq<T>)
    ensures CountIf(p, Sorting.Sort(compare, s)) == CountIf(p, s)
  {
    if s != [] {
      CountSort(compare, p, s[1..]);
      CountInsert(compare, p, s[0], Sorting.Sort(compare, s[1..]));
    }
  }

  lemma DistinctSnoc<T(!new)>(s: seq<T>, x: T)
    ensures Distinct(s + [x]) == if x in s then Distinct(s) else Distinct(s) + [x]
  {
    assert (s + [x])[..|s|] == s;
  }

  lemma FilterSnoc<T(!new)>(p: T -> bool, s: seq<T>, x: T)
    ensures Filter(p, s + [x]) == Filter(p, s) + if p(x) then [x] else []
  {
    assert (s + [x])[..|s|] == s;
  }

  lemma MapSnoc<T, U>(f: T -> U, s: seq<T>, x: T)
    ensures Map(f, s + [x]) == Map(f, s) + [f(x)]
  {
  }

  lemma FlattenSnoc<T(!new)>(ss: seq<seq<T>>, s: seq<T>)
    ensures Flatten(ss + [s]) == Flatten(ss) + s
  {
    assert (ss + [s])[..|ss|] == ss;
  }

  lemma {:induction false} FilterDistinct<T(!new)>(p: T -> bool, s: seq<T>)
    requires forall i, j :: 0 <= i < j < |s| ==> s[i] != s[j]
    ensures forall i, j :: 0 <= i < j < |Filter(p, s)| ==> Filter(p, s)[i] != Filter(p, s)[j]
  {
    if s != [] {
      var init, last := s[..|s| - 1], s[|s| - 1];
      FilterDistinct(p, init);
      assert last !in init;
      forall i | 0 <= i < |Filter(p, init)| ensures Filter(p, init)[i] != last {
        assert Filter(p, init)[i] in Filter(p, init);
      }
    }
  }

  lemma {:induction false} DistinctOfDistinct<T(!new)>(s: seq<T>)
    requires forall i, j :: 0 <= i < j < |s| ==> s[i] != s[j]
    ensures Distinct(s) == s
  {
    if s != [] {
      var init, last := s[..|s| - 1], s[|s| - 1];
      DistinctOfDistinct(init);
      assert s == init + [last] && last !in init;
      DistinctSnoc(init, last);
    }
  }

  lemma {:induction false} FilterAll<T(!new)>(p: T -> bool, s: seq<T>)
    requires forall i :: 0 <= i < |s| ==> p(s[i])
    ensures Filter(p, s) == s
  {
    if s != [] {
      var init, last := s[..|s| - 1], s[|s| - 1];
      FilterAll(p, init);
      Cut(s, |s| - 1);
      assert s[|s| - 1..] == [last];
      FilterSnoc(p, init, last);
    }
  }

  lemma {:induction false} DistinctOfConstant<T(!new)>(s: seq<T>, c: T)
    requires s != [] && forall x :: x in s ==> x == c
    ensures Distinct(s) == [c]
  {
    var init := s[..|s| - 1];
    assert s == init + [s[|s| - 1]];
    assert s[|s| - 1] in s && forall x :: x in init ==> x in s;
    if init != [] {
      DistinctOfConstant(init, c);
    }
  }

  lemma {:induction false} FilterFront<T(!new)>(p: T -> bool, x: T, s: seq<T>)
    ensures Filter(p, [x] + s) == (if p(x) then [x] else []) + Filter(p, s)
  {
    if s == [] {
      assert [x] + s == [] + [x];
      FilterSnoc(p, [], x);
    } else {
      var init, last := s[..|s| - 1], s[|s| - 1];
      FilterFront(p, x, init);
      assert [x] + s == ([x] + init) + [last] && s == init + [last];
      FilterSnoc(p, [x] + init, last);
      FilterSnoc(p, init, last);
      Associates(if p(x) then [x] else [], Filter(p, init), if p(last) then [last] else []);
    }
  }

  lemma Associates<T>(a: seq<T>, b: seq<T>, c: seq<T>)
    ensures (a + b) + c == a + (b + c)
  {
  }

  lemma FilterSwap<T(!new)>(p: T -> bool, x: T, y: T, s: seq<T>)
    requires !(p(x) && p(y))
    ensures Filter(p, [x] + ([y] + s)) == Filter(p, [y] + ([x] + s))
  {
    FilterFront(p, x, [y] + s);
    FilterFront(p, y, s);
    FilterFront(p, y, [x] + s);
    FilterFront(p, x, s);
  }

  // ---------------------------------------------------------------- sorting is stable

  /** What compares neither before nor after `z`. */
  function TiedWith<T>(compare: (T, T) -> int, z: T): T -> bool {
    (y: T) => compare(y, z) <= 0 && compare(z, y) <= 0
  }

  lemma {:induction false} InsertStable<T(!new)>(compare: (T, T) -> int, z: T, x: T, s: seq<T>)
    requires Sorting.TotalPreorder(compare)
    ensures Filter(TiedWith(compare, z), Sorting.Insert(compare, x, s)) == Filter(TiedWith(compare, z), [x] + s)
  {
    if s != [] && compare(x, s[0]) > 0 {
      var p, first, rest := TiedWith(compare, z), s[0], s[1..];
      InsertStable(compare, z, x, rest);
      FilterFront(p, first, Sorting.Insert(compare, x, rest));
      FilterFront(p, first, [x] + rest);
      NotBothTied(compare, z, x, first);
      FilterSwap(p, x, first, rest);
      assert s == [first] + rest;
    }
  }

  lemma NotBothTied<T(!new)>(compare: (T, T) -> int, z: T, x: T, y: T)
    requires Sorting.TotalPreorder(compare) && compare(x, y) > 0
    ensures !(TiedWith(compare, z)(x) && TiedWith(compare, z)(y))
  {
  }

  lemma Split<T>(s: seq<T>)
    requires s != []
    ensures s == [s[0]] + s[1..]
  {
  }

  /** Elements that tie keep their order. */
  lemma {:induction false} SortStable<T(!new)>(compare: (T, T) -> int, z: T, s: seq<T>)
    requires Sorting.TotalPreorder(compare)
    ensures Filter(TiedWith(compare, z), Sorting.Sort(compare, s)) == Filter(TiedWith(compare, z), s)
  {
    if s != [] {
      var p, rest := TiedWith(compare, z), Sorting.Sort(compare, s[1..]);
      SortStable(compare, z, s[1..]);
      InsertStable(compare, z, s[0], rest);
      FilterFront(p, s[0], rest);
      FilterFront(p, s[0], s[1..]);
      Split(s);
    }
  }

  lemma {:induction false} FilterAppend<T(!new)>(p: T -> bool, a: seq<T>, b: seq<T>)
    ensures Filter(p, a + b) == Filter(p, a) + Filter(p, b)
  {
    if a == [] {
      assert a + b == b;
    } else {
      var x, rest := a[0], a[1..];
      FilterAppend(p, rest, b);
      Split(a);
      assert a + b == [x] + (rest + b);
      FilterFront(p, x, rest + b);
      FilterFront(p, x, rest);
      Associates(if p(x) then [x] else [], Filter(p, rest), Filter(p, b));
    }
  }

  /** `first` and `second` together hold the elements of `s`, and those that tie in the order of `s`. */
  ghost predicate TiesInOrder<T(!new)>(compare: (T, T) -> int, s: seq<T>, first: seq<T>, second: seq<T>) {
    forall z: T :: Filter(TiedWith(compare, z), first) + Filter(TiedWith(compare, z), second) == Filter(TiedWith(compare, z), s)
  }

  /** Where a sorted list is cut, ties are cut as they came. */
  lemma CutKeepsTies<T(!new)>(compare: (T, T) -> int, s: seq<T>, n: nat)
    requires Sorting.TotalPreorder(compare) && n <= |s|
    ensures TiesInOrder(compare, s, Sorting.Sort(compare, s)[..n], Sorting.Sort(compare, s)[n..])
  {
    var sorted := Sorting.Sort(compare, s);
    forall z: T
      ensures Filter(TiedWith(compare, z), sorted[..n]) + Filter(TiedWith(compare, z), sorted[n..]) == Filter(TiedWith(compare, z), s)
    {
      SortStable(compare, z, s);
      FilterCut(TiedWith(compare, z), sorted, n);
    }
  }

  lemma FilterCut<T(!new)>(p: T -> bool, s: seq<T>, n: nat)
    requires n <= |s|
    ensures Filter(p, s[..n]) + Filter(p, s[n..]) == Filter(p, s)
  {
    Cut(s, n);
    FilterAppend(p, s[..n], s[n..]);
  }

  lemma Cut<T>(s: seq<T>, n: nat)
    requires n <= |s|
    ensures s[..n] + s[n..] == s
  {
  }
}
