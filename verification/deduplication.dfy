/** Pass 1: findings with one identity collapse into one, whose paths are the union of theirs. */
module Deduplication {
  import opened Text
  import opened Findings
  import opened Coverage
  import Grouping
  import SortedKeys

  datatype DedupKey = DedupKey(id: Str, category: Str, file: Str, line: int, detail: Detail)

  function Key(f: Finding): DedupKey {
    DedupKey(f.id, f.category, FileOf(f), LineOf(f), DetailOf(f))
  }

  function HasKey(k: DedupKey): Finding -> bool {
    (f: Finding) => Key(f) == k
  }

  function Class(fs: seq<Finding>, k: DedupKey): seq<Finding> {
    Grouping.Filter(HasKey(k), fs)
  }

  function Keys(fs: seq<Finding>): (r: seq<DedupKey>)
    ensures forall k :: k in r <==> exists f :: f in fs && Key(f) == k
    ensures forall i, j :: 0 <= i < j < |r| ==> r[i] != r[j]
  {
    var all := Grouping.Map(Key, fs);
    assert forall i :: 0 <= i < |fs| ==> all[i] == Key(fs[i]) && all[i] in all;
    Grouping.Distinct(all)
  }

  /** The first member of the highest level. */
  function Winner(cls: seq<Finding>): Finding
    requires |cls| > 0
  {
    var last := cls[|cls| - 1];
    if |cls| == 1 then last
    else
      var best := Winner(cls[..|cls| - 1]);
      if CompareLevel(last.level, best.level) > 0 then last else best
  }

  function Merged(cls: seq<Finding>): Finding
    requires |cls| > 0
  {
    if |cls| == 1 then cls[0] else Winner(cls).(paths := UnionPaths(MemberPaths(cls)))
  }

  /** One finding per key, in order of first occurrence, merged from the whole class. */
  function Dedup(fs: seq<Finding>): seq<Finding> {
    var keys := Keys(fs);
    seq(|keys|, i requires 0 <= i < |keys| => assert |Class(fs, keys[i])| > 0 by { KeyHasClass(fs, keys[i]); } Merged(Class(fs, keys[i])))
  }

  lemma KeyHasClass(fs: seq<Finding>, k: DedupKey)
    requires k in Keys(fs)
    ensures |Class(fs, k)| > 0
  {
    var f :| f in fs && Key(f) == k;
    assert f in Class(fs, k);
  }

  lemma {:induction false} WinnerIsFirstHighest(cls: seq<Finding>) returns (i: nat)
    requires |cls| > 0
    ensures i < |cls| && cls[i] == Winner(cls)
    ensures forall j :: 0 <= j < |cls| ==> cls[j].level.Rank() <= cls[i].level.Rank()
    ensures forall j :: 0 <= j < i ==> cls[j].level.Rank() < cls[i].level.Rank()
  {
    if |cls| == 1 {
      i := 0;
    } else {
      i := WinnerIsFirstHighest(cls[..|cls| - 1]);
      if CompareLevel(cls[|cls| - 1].level, cls[i].level) > 0 {
        i := |cls| - 1;
      }
    }
  }

  lemma MergedMeaning(fs: seq<Finding>, cls: seq<Finding>, k: DedupKey)
    requires |cls| > 0 && forall f :: f in cls ==> Key(f) == k
    ensures Key(Merged(cls)) == k
    ensures forall p :: p in Merged(cls).paths <==> exists f :: f in cls && p in f.paths
    ensures exists f :: f in cls && f.level == Merged(cls).level
    ensures forall f :: f in cls ==> Covers(Merged(cls), f, true)
  {
    var i := WinnerIsFirstHighest(cls);
    assert cls[i] in cls;
    if |cls| > 1 {
      SummaryPaths([], cls);
      assert Merged(cls).paths == Summary([], cls).paths;
    }
    forall f | f in cls ensures Covers(Merged(cls), f, true) {
      var j :| 0 <= j < |cls| && cls[j] == f;
    }
  }

  lemma DedupAt(fs: seq<Finding>, i: nat)
    requires i < |Dedup(fs)|
    ensures |Keys(fs)| == |Dedup(fs)| && |Class(fs, Keys(fs)[i])| > 0
    ensures Dedup(fs)[i] == Merged(Class(fs, Keys(fs)[i]))
    ensures Key(Dedup(fs)[i]) == Keys(fs)[i]
  {
    KeyHasClass(fs, Keys(fs)[i]);
    MergedMeaning(fs, Class(fs, Keys(fs)[i]), Keys(fs)[i]);
  }

  /** Exactly one finding per key; it has the highest level of its class and exactly the union of the class's paths. */
  lemma DedupMeaning(fs: seq<Finding>)
    ensures forall i, j :: 0 <= i < j < |Dedup(fs)| ==> Key(Dedup(fs)[i]) != Key(Dedup(fs)[j])
    ensures forall f :: f in fs ==> exists g :: g in Dedup(fs) && Key(g) == Key(f) && Covers(g, f, true)
    ensures forall g, p :: g in Dedup(fs) && p in g.paths ==> exists f :: f in fs && Key(f) == Key(g) && p in f.paths
    ensures forall g :: g in Dedup(fs) ==> exists f :: f in fs && Key(f) == Key(g) && f.level == g.level
  {
    var d, keys := Dedup(fs), Keys(fs);
    forall i, j | 0 <= i < j < |d| ensures Key(d[i]) != Key(d[j]) {
      DedupAt(fs, i);
      DedupAt(fs, j);
    }
    forall f | f in fs ensures exists g :: g in d && Key(g) == Key(f) && Covers(g, f, true) {
      assert Key(f) in keys;
      var i :| 0 <= i < |keys| && keys[i] == Key(f);
      DedupAt(fs, i);
      MergedMeaning(fs, Class(fs, keys[i]), keys[i]);
      assert f in Class(fs, keys[i]);
      assert d[i] in d;
    }
    forall g | g in d
      ensures forall p :: p in g.paths ==> exists f :: f in fs && Key(f) == Key(g) && p in f.paths
      ensures exists f :: f in fs && Key(f) == Key(g) && f.level == g.level
    {
      var i :| 0 <= i < |d| && d[i] == g;
      DedupAt(fs, i);
      MergedMeaning(fs, Class(fs, keys[i]), keys[i]);
    }
  }

  /** Place `i` holds the first finding of the highest level among those with key `k`. */
  ghost predicate FirstHighest(fs: seq<Finding>, k: DedupKey, i: nat) {
    && i < |fs| && Key(fs[i]) == k
    && (forall j :: 0 <= j < |fs| && Key(fs[j]) == k ==> fs[j].level.Rank() <= fs[i].level.Rank())
    && (forall j :: 0 <= j < i && Key(fs[j]) == k ==> fs[j].level.Rank() < fs[i].level.Rank())
  }

  lemma WinnerOfLonger(cls: seq<Finding>, last: Finding)
    requires cls != []
    ensures Winner(cls + [last]) == if CompareLevel(last.level, Winner(cls).level) > 0 then last else Winner(cls)
  {
    assert (cls + [last])[..|cls|] == cls;
  }

  lemma EmptyClass(fs: seq<Finding>, k: DedupKey)
    requires Class(fs, k) == []
    ensures forall j :: 0 <= j < |fs| ==> Key(fs[j]) != k
  {
    forall j | 0 <= j < |fs| ensures Key(fs[j]) != k {
      assert fs[j] in fs && fs[j] !in Class(fs, k);
    }
  }

  lemma {:induction false} WinnerPlace(fs: seq<Finding>, k: DedupKey) returns (i: nat)
    requires Class(fs, k) != []
    ensures FirstHighest(fs, k, i) && fs[i] == Winner(Class(fs, k))
  {
    var init, last := fs[..|fs| - 1], fs[|fs| - 1];
    assert fs == init + [last];
    ClassOfLonger(init, last, k);
    if Class(init, k) == [] {
      EmptyClass(init, k);
      i := |init|;
      assert Class(fs, k) == [last];
    } else {
      i := WinnerPlace(init, k);
      i := NextPlace(init, last, k, i);
    }
  }

  lemma ClassOfLonger(init: seq<Finding>, last: Finding, k: DedupKey)
    ensures Class(init + [last], k) == Class(init, k) + if Key(last) == k then [last] else []
  {
    Grouping.FilterSnoc(HasKey(k), init, last);
  }

  lemma NextPlace(init: seq<Finding>, last: Finding, k: DedupKey, i: nat) returns (i': nat)
    requires FirstHighest(init, k, i) && Class(init, k) != [] && init[i] == Winner(Class(init, k))
    ensures FirstHighest(init + [last], k, i') && (init + [last])[i'] == Winner(Class(init + [last], k))
  {
    ClassOfLonger(init, last, k);
    assert Class(init, k) + [] == Class(init, k);
    i' := i;
    if Key(last) == k {
      WinnerOfLonger(Class(init, k), last);
      i' := if CompareLevel(last.level, init[i].level) > 0 then |init| else i;
    }
    PlaceInLonger(init, last, k, i);
  }

  lemma PlaceInLonger(init: seq<Finding>, last: Finding, k: DedupKey, i: nat)
    requires FirstHighest(init, k, i)
    ensures FirstHighest(init + [last], k, if Key(last) == k && CompareLevel(last.level, init[i].level) > 0 then |init| else i)
  {
    var fs := init + [last];
    assert forall j :: 0 <= j < |init| ==> fs[j] == init[j];
  }

  /** Each finding kept is, but for its paths, the first finding of the highest level among those with its key. */
  lemma KeptIsFirstHighest(fs: seq<Finding>, g: Finding) returns (i: nat)
    requires g in Dedup(fs)
    ensures FirstHighest(fs, Key(g), i) && g == fs[i].(paths := g.paths)
  {
    var n :| 0 <= n < |Dedup(fs)| && Dedup(fs)[n] == g;
    DedupAt(fs, n);
    i := WinnerPlace(fs, Key(g));
  }

  lemma CoveredByKey(fs: seq<Finding>, d: seq<Finding>, levels: bool)
    requires forall f :: f in fs ==> exists g :: g in d && Key(g) == Key(f) && Covers(g, f, true)
    ensures Covered(fs, d, levels)
  {
    forall f | f in fs ensures Represented(f, d, levels) {
      var g :| g in d && Key(g) == Key(f) && Covers(g, f, true);
      assert Covers(g, f, levels);
    }
  }

  lemma DedupCovers(fs: seq<Finding>, levels: bool)
    ensures Covered(fs, Dedup(fs), levels)
  {
    DedupMeaning(fs);
    CoveredByKey(fs, Dedup(fs), levels);
  }

  lemma DedupInventsAt(fs: seq<Finding>, i: nat)
    requires i < |Dedup(fs)|
    ensures Accounted(fs, Dedup(fs)[i])
  {
    DedupAt(fs, i);
    MergedMeaning(fs, Class(fs, Keys(fs)[i]), Keys(fs)[i]);
  }

  lemma DedupInvents(fs: seq<Finding>)
    ensures NothingInvented(fs, Dedup(fs))
  {
    var d := Dedup(fs);
    forall g | g in d ensures Accounted(fs, g) {
      var i :| 0 <= i < |d| && d[i] == g;
      DedupInventsAt(fs, i);
    }
  }

  lemma {:induction false} SingleInFilter(k: DedupKey, fs: seq<Finding>, i: nat)
    requires i < |fs| && Key(fs[i]) == k
    requires forall a, b :: 0 <= a < b < |fs| ==> Key(fs[a]) != Key(fs[b])
    ensures Class(fs, k) == [fs[i]]
  {
    var n := |fs| - 1;
    if i == n {
      NoneInFilter(k, fs[..n]);
    } else {
      SingleInFilter(k, fs[..n], i);
    }
  }

  lemma {:induction false} NoneInFilter(k: DedupKey, fs: seq<Finding>)
    requires forall a :: 0 <= a < |fs| ==> Key(fs[a]) != k
    ensures Class(fs, k) == []
  {
    if fs != [] {
      NoneInFilter(k, fs[..|fs| - 1]);
    }
  }

  predicate KeysApart(fs: seq<Finding>) {
    forall i, j :: 0 <= i < j < |fs| ==> Key(fs[i]) != Key(fs[j])
  }

  lemma KeysOfApart(fs: seq<Finding>)
    requires KeysApart(fs)
    ensures Keys(fs) == Grouping.Map(Key, fs)
  {
    Grouping.DistinctOfDistinct(Grouping.Map(Key, fs));
  }

  lemma ApartStays(fs: seq<Finding>, i: nat)
    requires KeysApart(fs) && Keys(fs) == Grouping.Map(Key, fs) && i < |fs|
    ensures |Dedup(fs)| == |fs| && Dedup(fs)[i] == fs[i]
  {
    DedupAt(fs, i);
    SingleInFilter(Key(fs[i]), fs, i);
  }

  /** Findings with different keys pass unchanged. */
  lemma DedupOfApart(fs: seq<Finding>)
    requires KeysApart(fs)
    ensures Dedup(fs) == fs
  {
    KeysOfApart(fs);
    forall i | 0 <= i < |fs| ensures Dedup(fs)[i] == fs[i] {
      ApartStays(fs, i);
    }
  }

  /** Applying the first pass twice equals applying it once. */
  lemma DedupIdempotent(fs: seq<Finding>)
    ensures Dedup(Dedup(fs)) == Dedup(fs)
  {
    DistinctKeys(fs);
    DedupOfApart(Dedup(fs));
  }

  lemma DistinctKeys(fs: seq<Finding>)
    ensures KeysApart(Dedup(fs))
  {
    DedupMeaning(fs);
  }

  /** What the loop does with a finding whose key it has seen. */
  function MergeTwo(prev: Finding, f: Finding): Finding {
    (if CompareLevel(f.level, prev.level) > 0 then f else prev).(paths := UnionPaths([prev.paths, f.paths]))
  }

  lemma PrevPaths(cls: seq<Finding>)
    requires |cls| > 0
    ensures forall p :: p in Merged(cls).paths <==> exists i :: 0 <= i < |cls| && p in cls[i].paths
  {
    var sets := MemberPaths(cls);
    UnionPathsMeaning(sets);
    forall p ensures p in Merged(cls).paths <==> exists i :: 0 <= i < |cls| && p in cls[i].paths {
      if i :| 0 <= i < |cls| && p in cls[i].paths {
        assert p in sets[i];
      }
      if |cls| > 1 && p in UnionPaths(sets) {
        var i :| 0 <= i < |sets| && p in sets[i];
        assert p in cls[i].paths;
      }
    }
  }

  lemma MergedPathsStep(cls: seq<Finding>, f: Finding)
    requires |cls| > 0
    ensures UnionPaths([Merged(cls).paths, f.paths]) == UnionPaths(MemberPaths(cls + [f]))
  {
    var two, longer := [Merged(cls).paths, f.paths], cls + [f];
    PrevPaths(cls);
    PrevPaths(longer);
    UnionPathsMeaning(two);
    UnionPathsMeaning(MemberPaths(longer));
    forall p ensures p in UnionPaths(two) <==> p in Merged(longer).paths {
      if p in UnionPaths(two) {
        var k :| 0 <= k < |two| && p in two[k];
        if k == 0 {
          var i :| 0 <= i < |cls| && p in cls[i].paths;
          assert longer[i] == cls[i];
        } else {
          assert p in longer[|cls|].paths;
        }
      }
      if p in Merged(longer).paths {
        var i :| 0 <= i < |longer| && p in longer[i].paths;
        assert if i < |cls| then p in two[0] else p in two[1];
      }
    }
    SortedKeys.AscendingUnique(UnionPaths(two), Merged(longer).paths);
  }

  lemma MergedStep(cls: seq<Finding>, f: Finding)
    requires |cls| > 0
    ensures Merged(cls + [f]) == MergeTwo(Merged(cls), f)
  {
    var longer := cls + [f];
    assert longer[..|longer| - 1] == cls && longer[|longer| - 1] == f;
    assert Merged(cls).level == Winner(cls).level;
    assert Winner(longer) == if CompareLevel(f.level, Merged(cls).level) > 0 then f else Winner(cls);
    assert Merged(cls).(paths := []) == Winner(cls).(paths := []);
    MergedPathsStep(cls, f);
  }

  ghost predicate SeenRight(fs: seq<Finding>, seen: map<DedupKey, Finding>, k: DedupKey) {
    if k in Keys(fs) then k in seen && |Class(fs, k)| > 0 && seen[k] == Merged(Class(fs, k)) else k !in seen
  }

  /** The Map of the loop after the findings `fs`. */
  ghost predicate SeenUpTo(fs: seq<Finding>, seen: map<DedupKey, Finding>) {
    forall k :: SeenRight(fs, seen, k)
  }

  function Remember(seen: map<DedupKey, Finding>, f: Finding): map<DedupKey, Finding> {
    seen[Key(f) := if Key(f) in seen then MergeTwo(seen[Key(f)], f) else f]
  }

  lemma RememberOther(fs: seq<Finding>, f: Finding, seen: map<DedupKey, Finding>, k: DedupKey)
    requires SeenRight(fs, seen, k) && k != Key(f)
    ensures SeenRight(fs + [f], Remember(seen, f), k)
  {
    KeysStep(fs, f);
    ClassStep(fs, f, k);
    assert Class(fs + [f], k) == Class(fs, k);
  }

  lemma RememberSame(fs: seq<Finding>, f: Finding, seen: map<DedupKey, Finding>)
    requires SeenRight(fs, seen, Key(f))
    ensures SeenRight(fs + [f], Remember(seen, f), Key(f))
  {
    KeysStep(fs, f);
    ClassStep(fs, f, Key(f));
    if Key(f) in seen {
      MergedStep(Class(fs, Key(f)), f);
    } else {
      NoneInFilter(Key(f), fs);
    }
  }

  lemma RememberAll(fs: seq<Finding>, f: Finding, seen: map<DedupKey, Finding>)
    requires SeenUpTo(fs, seen)
    ensures SeenUpTo(fs + [f], Remember(seen, f))
  {
    var longer, more := fs + [f], Remember(seen, f);
    forall k ensures SeenRight(longer, more, k) {
      assert SeenRight(fs, seen, k);
      if k == Key(f) {
        RememberSame(fs, f, seen);
      } else {
        RememberOther(fs, f, seen, k);
      }
    }
  }

  /** The pass as written: a Map from key to survivor, filled in input order. */
  method DedupByIdentity(fs: seq<Finding>) returns (r: seq<Finding>)
    ensures r == Dedup(fs)
  {
    var seen: map<DedupKey, Finding> := map[];
    var order: seq<DedupKey> := [];
    for i := 0 to |fs|
      invariant order == Keys(fs[..i]) && SeenUpTo(fs[..i], seen)
    {
      assert fs[..i + 1] == fs[..i] + [fs[i]];
      RememberAll(fs[..i], fs[i], seen);
      KeysStep(fs[..i], fs[i]);
      assert SeenRight(fs[..i], seen, Key(fs[i]));
      if Key(fs[i]) !in seen {
        order := order + [Key(fs[i])];
      }
      seen := Remember(seen, fs[i]);
    }
    assert fs[..|fs|] == fs;
    r := seq(|order|, i requires 0 <= i < |order| => assert SeenRight(fs, seen, order[i]); seen[order[i]]);
    forall i | 0 <= i < |r| ensures r[i] == Dedup(fs)[i] {
      assert SeenRight(fs, seen, order[i]);
    }
  }

  lemma KeysStep(fs: seq<Finding>, f: Finding)
    ensures Keys(fs + [f]) == if Key(f) in Keys(fs) then Keys(fs) else Keys(fs) + [Key(f)]
  {
    Grouping.MapSnoc(Key, fs, f);
    Grouping.DistinctSnoc(Grouping.Map(Key, fs), Key(f));
  }

  lemma ClassStep(fs: seq<Finding>, f: Finding, k: DedupKey)
    ensures Class(fs + [f], k) == Class(fs, k) + if k == Key(f) then [f] else []
  {
    Grouping.FilterSnoc(HasKey(k), fs, f);
  }
}
