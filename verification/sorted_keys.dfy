/** The elements of a set of strings in code-unit order: what `.sort()` makes of any listing of them. */
module SortedKeys {
  import opened Text
  import Sorting

  lemma {:induction false} SubsetSize<T>(a: set<T>, b: set<T>)
    requires a <= b
    ensures |a| <= |b|
  {
    if a != {} {
      var x :| x in a;
      SubsetSize(a - {x}, b - {x});
    }
  }

  predicate IsLeast(k: Str, keys: set<Str>) { k in keys && forall o :: o in keys ==> !Less(o, k) }

  lemma {:induction false} LeastKey(keys: set<Str>) returns (k: Str)
    requires keys != {}
    ensures IsLeast(k, keys)
    decreases |keys|
  {
    var any :| any in keys;
    if keys == {any} {
      LessAsymmetric(any, any);
      return any;
    }
    var least := LeastKey(keys - {any});
    LessAsymmetric(least, any);
    LessAsymmetric(any, any);
    if !Less(any, least) {
      return least;
    }
    forall o | o in keys ensures !Less(o, any) {
      if o != any && Less(o, any) {
        LessTransitive(o, any, least);
      }
    }
    return any;
  }

  lemma LeastExists(keys: set<Str>)
    requires keys != {}
    ensures exists k :: IsLeast(k, keys)
    ensures forall a, b :: IsLeast(a, keys) && IsLeast(b, keys) ==> a == b
  {
    var k := LeastKey(keys);
    forall a, b | IsLeast(a, keys) && IsLeast(b, keys) ensures a == b {
      LessTotal(a, b);
    }
  }

  function Ordered(keys: set<Str>): (r: seq<Str>)
    ensures forall k :: k in r <==> k in keys
    ensures Ascending(r)
    decreases |keys|
  {
    if keys == {} then []
    else
      LeastExists(keys);
      var k :| IsLeast(k, keys);
      var rest := Ordered(keys - {k});
      AllAbove(k, keys, rest);
      [k] + rest
  }

  predicate Ascending(s: seq<Str>) { forall i, j :: 0 <= i < j < |s| ==> Less(s[i], s[j]) }

  lemma AllAbove(k: Str, keys: set<Str>, rest: seq<Str>)
    requires IsLeast(k, keys) && Ascending(rest) && forall o :: o in rest <==> o in keys - {k}
    ensures Ascending([k] + rest)
  {
    forall i | 0 <= i < |rest| ensures Less(k, rest[i]) {
      assert rest[i] in rest;
      LessTotal(k, rest[i]);
    }
  }

  /** `keys` holds each element of `domain` once. */
  predicate Lists(keys: seq<Str>, domain: set<Str>) {
    if keys == [] then domain == {} else keys[0] in domain && Lists(keys[1..], domain - {keys[0]})
  }

  lemma {:induction false} OrderedLists(keys: set<Str>)
    ensures Lists(Ordered(keys), keys)
    decreases |keys|
  {
    var sorted := Ordered(keys);
    if keys != {} {
      var k :| IsLeast(k, keys) && sorted == [k] + Ordered(keys - {k});
      assert sorted[1..] == Ordered(keys - {k});
      OrderedLists(keys - {k});
    }
  }

  lemma ListsOne(keys: seq<Str>, domain: set<Str>)
    requires keys != [] && Lists(keys, domain)
    ensures |keys| == 1 <==> domain == {keys[0]}
  {
    if domain == {keys[0]} {
      assert domain - {keys[0]} == {};
    }
  }

  // ---------------------------------------------------------------- sorting a listing

  lemma HeadOfAscending(s: seq<Str>, t: seq<Str>)
    requires Ascending(s) && Ascending(t) && s != [] && t != [] && forall k :: k in s <==> k in t
    ensures s[0] == t[0]
  {
    assert s[0] in t && t[0] in s;
    LessAsymmetric(s[0], t[0]);
  }

  lemma TailMembers(s: seq<Str>, k: Str)
    requires Ascending(s) && s != []
    ensures Ascending(s[1..]) && (k in s[1..] <==> k in s && k != s[0])
  {
    LessAsymmetric(s[0], s[0]);
    if k in s && k != s[0] {
      var n :| 0 <= n < |s| && s[n] == k;
      assert s[1..][n - 1] == k;
    }
    if k in s[1..] {
      var n :| 0 <= n < |s[1..]| && s[1..][n] == k;
      assert Less(s[0], s[n + 1]);
    }
  }

  lemma FirstMember(s: seq<Str>)
    ensures s != [] ==> s[0] in s
  {
  }

  /** An ascending sequence is determined by its elements. */
  lemma {:induction false} AscendingUnique(s: seq<Str>, t: seq<Str>)
    requires Ascending(s) && Ascending(t) && forall k :: k in s <==> k in t
    ensures s == t
  {
    FirstMember(s);
    FirstMember(t);
    if s != [] {
      HeadOfAscending(s, t);
      forall k ensures k in s[1..] <==> k in t[1..] {
        TailMembers(s, k);
        TailMembers(t, k);
      }
      TailMembers(s, s[0]);
      TailMembers(t, t[0]);
      AscendingUnique(s[1..], t[1..]);
      assert s == [s[0]] + s[1..] && t == [t[0]] + t[1..];
    }
  }

  lemma CmpPreorder()
    ensures Sorting.TotalPreorder(Cmp)
  {
    forall a, b ensures Cmp(a, b) <= 0 || Cmp(b, a) <= 0 {
      CmpOrder(a, b);
    }
    forall a, b, c | Cmp(a, b) <= 0 && Cmp(b, c) <= 0 ensures Cmp(a, c) <= 0 {
      CmpTransitive(a, b, c);
    }
  }

  predicate Distinct(s: seq<Str>) { forall i, j :: 0 <= i < j < |s| ==> s[i] != s[j] }

  /** Whatever the order of a listing without repetition, sorting it gives the same sequence. */
  lemma SortIgnoresOrder(listing: seq<Str>, keys: set<Str>)
    requires Distinct(listing) && forall k :: k in listing <==> k in keys
    ensures Sorting.Sort(Cmp, listing) == Ordered(keys)
  {
    var s := Sorting.Sort(Cmp, listing);
    CmpPreorder();
    Sorting.SortSorted(Cmp, listing);
    Sorting.SortMembers(Cmp, listing);
    Sorting.SortDistinct(Cmp, listing);
    forall i, j | 0 <= i < j < |s| ensures Less(s[i], s[j]) {
      assert Cmp(s[i], s[j]) <= 0;
      LessTotal(s[i], s[j]);
    }
    AscendingUnique(s, Ordered(keys));
  }
}
