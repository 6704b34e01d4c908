/** The four passes together: what the whole pipeline keeps and what it bounds. */
module Pipeline {
  import opened Text
  import opened Findings
  import opened Coverage
  import opened Deduplication
  import opened Clustering
  import Sorting
  import Grouping

  function Cluster(fs: seq<Finding>): seq<Finding> {
    TotalCap(LowCap(PerCategoryCap(Dedup(fs))))
  }

  method ClusterFindings(fs: seq<Finding>) returns (r: seq<Finding>)
    ensures r == Cluster(fs)
  {
    var afterDedup := DedupByIdentity(fs);
    var afterCategoryCap := ApplyPerCategoryCap(afterDedup);
    var afterLowCap := ApplyLowCap(afterCategoryCap);
    r := ApplyTotalCap(afterLowCap);
  }

  lemma ClusterCovers(fs: seq<Finding>, levels: bool)
    requires levels ==> LowCategoryHarmless(Dedup(fs))
    ensures Covered(fs, Cluster(fs), levels)
  {
    var a := Dedup(fs);
    var b := PerCategoryCap(a);
    var c := LowCap(b);
    DedupCovers(fs, levels);
    PerCategoryCapCovers(a, levels);
    LowCapCovers(b, levels);
    TotalCapCovers(c, levels);
    CoveredTransitive(fs, a, b, levels);
    CoveredTransitive(fs, b, c, levels);
    CoveredTransitive(fs, c, TotalCap(c), levels);
  }

  lemma ClusterInvents(fs: seq<Finding>)
    ensures NothingInvented(fs, Cluster(fs))
  {
    var a := Dedup(fs);
    var b := PerCategoryCap(a);
    var c := LowCap(b);
    DedupInvents(fs);
    PerCategoryCapInvents(a);
    LowCapInvents(b);
    TotalCapCovers(c, false);
    NothingInventedTransitive(fs, a, b);
    NothingInventedTransitive(fs, b, c);
    NothingInventedTransitive(fs, c, TotalCap(c));
  }

  lemma CoveredKeepsPaths(ins: seq<Finding>, outs: seq<Finding>)
    requires Covered(ins, outs, false)
    ensures forall p :: Carried(ins, p) ==> Carried(outs, p)
  {
    forall p | Carried(ins, p) ensures Carried(outs, p) {
      var f :| f in ins && p in f.paths;
      assert Represented(f, outs, false);
      var g :| g in outs && Covers(g, f, false);
    }
  }

  lemma InventsNoPaths(ins: seq<Finding>, outs: seq<Finding>)
    requires NothingInvented(ins, outs)
    ensures forall p :: Carried(outs, p) ==> Carried(ins, p)
  {
    forall p | Carried(outs, p) ensures Carried(ins, p) {
      var g :| g in outs && p in g.paths;
      assert Accounted(ins, g);
    }
  }

  /** The union of all path sets is the same before and after, whatever the input. */
  lemma PathsConserved(fs: seq<Finding>)
    ensures forall p :: Carried(fs, p) <==> Carried(Cluster(fs), p)
  {
    ClusterCovers(fs, false);
    ClusterInvents(fs);
    CoveredKeepsPaths(fs, Cluster(fs));
    InventsNoPaths(fs, Cluster(fs));
  }

  /** Path `p` of some finding of `outs` is reported at `level` or above. */
  ghost predicate ReportedAt(outs: seq<Finding>, p: Str, level: Level) {
    exists g :: g in outs && p in g.paths && level.Rank() <= g.level.Rank()
  }

  lemma CoveredReports(ins: seq<Finding>, outs: seq<Finding>)
    requires Covered(ins, outs, true)
    ensures forall f, p :: f in ins && p in f.paths ==> ReportedAt(outs, p, f.level)
  {
    forall f, p | f in ins && p in f.paths ensures ReportedAt(outs, p, f.level) {
      assert Represented(f, outs, true);
      var g :| g in outs && Covers(g, f, true);
    }
  }

  /** Each path of each finding survives at a level at least as high, unless the category called "low" overflows. */
  lemma NothingUnderReported(fs: seq<Finding>)
    requires LowCategoryHarmless(Dedup(fs))
    ensures forall f, p :: f in fs && p in f.paths ==> ReportedAt(Cluster(fs), p, f.level)
  {
    ClusterCovers(fs, true);
    CoveredReports(fs, Cluster(fs));
  }

  /** All caps hold at once at the end. */
  lemma AllCapsHold(fs: seq<Finding>, category: Str)
    requires category != SUMMARY
    ensures |Cluster(fs)| <= CAP_TOTAL
    ensures Grouping.CountIf(IsLow, Cluster(fs)) <= CAP_LOW
    ensures Grouping.CountIf(InCategory(category), Cluster(fs)) <= CAP_PER_CATEGORY
  {
    var b := PerCategoryCap(Dedup(fs));
    PerCategoryCapCount(Dedup(fs), category);
    LowCapCounts(b, category);
    TotalCapCounts(LowCap(b), category);
  }

  // ---------------------------------------------------------------- the highest level

  /** Some finding of `outs` is at least as high as any of `ins`. */
  ghost predicate LevelsKept(ins: seq<Finding>, outs: seq<Finding>) {
    forall f :: f in ins ==> Reached(outs, f.level)
  }

  lemma CoveredKeepsLevels(ins: seq<Finding>, outs: seq<Finding>)
    requires Covered(ins, outs, true)
    ensures LevelsKept(ins, outs)
  {
    forall f | f in ins ensures Reached(outs, f.level) {
      assert Represented(f, outs, true);
      var g :| g in outs && Covers(g, f, true);
    }
  }

  lemma LevelsKeptTransitive(a: seq<Finding>, b: seq<Finding>, c: seq<Finding>)
    requires LevelsKept(a, b) && LevelsKept(b, c)
    ensures LevelsKept(a, c)
  {
    forall f | f in a ensures Reached(c, f.level) {
      assert Reached(b, f.level);
      var g :| g in b && f.level.Rank() <= g.level.Rank();
      assert Reached(c, g.level);
    }
  }

  lemma FirstIsHighest(sorted: seq<Finding>, f: Finding)
    requires Sorting.Sorted(CompareFindings, sorted) && f in sorted
    ensures f.level.Rank() <= sorted[0].level.Rank()
  {
    var i :| 0 <= i < |sorted| && sorted[i] == f;
    assert i > 0 ==> CompareFindings(sorted[0], sorted[i]) <= 0;
  }

  lemma FirstStays(sorted: seq<Finding>, n: nat, s: Finding)
    requires 0 < n <= |sorted|
    ensures sorted[0] in sorted[..n] + [s]
  {
    assert (sorted[..n] + [s])[0] == sorted[0];
  }

  lemma HighestIsKept(fs: seq<Finding>, n: nat, clusterId: Str, f: Finding)
    requires 0 < n < |fs| && f in fs
    ensures SortFindings(fs)[0] in KeepAndSummarize(fs, n, clusterId) && f.level.Rank() <= SortFindings(fs)[0].level.Rank()
  {
    var sorted := SortFindings(fs);
    CompareFindingsPreorder();
    Sorting.SortSorted(CompareFindings, fs);
    Sorting.SortMembers(CompareFindings, fs);
    FirstIsHighest(sorted, f);
    FirstStays(sorted, n, Summary(clusterId, sorted[n..]));
  }

  lemma PerCategoryCapKeepsLevelAt(fs: seq<Finding>, f: Finding)
    requires f in fs
    ensures Reached(PerCategoryCap(fs), f.level)
  {
    InPerCategoryCap(fs);
    assert f.category in Categories(fs) && f in Group(fs, f.category);
    var g := HighestInGroup(f.category, Group(fs, f.category), f);
  }

  lemma HighestInGroup(c: Str, group: seq<Finding>, f: Finding) returns (g: Finding)
    requires f in group
    ensures g in CapGroup(c, group) && f.level.Rank() <= g.level.Rank()
  {
    g := f;
    if |group| > CAP_PER_CATEGORY {
      HighestIsKept(group, CAP_PER_CATEGORY - 1, CategoryTail(c), f);
      g := SortFindings(group)[0];
    }
  }

  lemma ClusterKeepsLevels(fs: seq<Finding>)
    ensures LevelsKept(fs, Cluster(fs))
  {
    var a := Dedup(fs);
    var b := PerCategoryCap(a);
    var c := LowCap(b);
    DedupCovers(fs, true);
    CoveredKeepsLevels(fs, a);
    forall f | f in a ensures Reached(b, f.level) {
      PerCategoryCapKeepsLevelAt(a, f);
    }
    LowCapCovers(b, true);
    CoveredKeepsLevels(b, c);
    TotalCapCovers(c, true);
    CoveredKeepsLevels(c, TotalCap(c));
    LevelsKeptTransitive(fs, a, b);
    LevelsKeptTransitive(fs, b, c);
    LevelsKeptTransitive(fs, c, TotalCap(c));
  }

  lemma ReachedBelowMax(outs: seq<Finding>, level: Level)
    requires Reached(outs, level)
    ensures level.Rank() <= MaxLevel(outs).Rank()
  {
    var g :| g in outs && level.Rank() <= g.level.Rank();
  }

  lemma HighestNotLower(ins: seq<Finding>, outs: seq<Finding>)
    requires LevelsKept(ins, outs)
    ensures MaxLevel(ins).Rank() <= MaxLevel(outs).Rank()
  {
    if MaxLevel(ins) != Low {
      var f :| f in ins && f.level == MaxLevel(ins);
      ReachedBelowMax(outs, f.level);
    }
  }

  lemma InventsNoLevels(ins: seq<Finding>, outs: seq<Finding>)
    requires NothingInvented(ins, outs)
    ensures LevelsKept(outs, ins)
  {
    forall g | g in outs ensures Reached(ins, g.level) {
      assert Accounted(ins, g);
    }
  }

  lemma SameHighest(ins: seq<Finding>, outs: seq<Finding>)
    requires LevelsKept(ins, outs) && LevelsKept(outs, ins)
    ensures MaxLevel(ins) == MaxLevel(outs)
  {
    HighestNotLower(ins, outs);
    HighestNotLower(outs, ins);
    SameRank(MaxLevel(ins), MaxLevel(outs));
  }

  lemma SameRank(a: Level, b: Level)
    requires a.Rank() == b.Rank()
    ensures a == b
  {
  }

  /** The highest level over all findings never changes, not even when "low" overflows. */
  lemma HighestLevelConserved(fs: seq<Finding>)
    ensures MaxLevel(Cluster(fs)) == MaxLevel(fs)
  {
    ClusterKeepsLevels(fs);
    ClusterInvents(fs);
    InventsNoLevels(fs, Cluster(fs));
    SameHighest(fs, Cluster(fs));
  }

  // ---------------------------------------------------------------- the category called "low"

  /** The `i`th of many ids and paths. */
  function Nth(i: nat): Str
    requires i < 0x10000
  {
    [0x61, i]
  }

  /** High findings that differ from `like`, and from each other, in their ids and paths only. */
  predicate Highs(fs: seq<Finding>, like: Finding) {
    |fs| < 0x10000 && forall i :: 0 <= i < |fs| ==> fs[i] == like.(id := Nth(i), level := High, paths := [Nth(i)])
  }

  function Overflowing(n: nat, like: Finding): (r: seq<Finding>)
    requires n < 0x10000
    ensures |r| == n && Highs(r, like)
  {
    seq(n, i requires 0 <= i < n => like.(id := Nth(i), level := High, paths := [Nth(i)]))
  }

  lemma HighsDedup(fs: seq<Finding>, like: Finding)
    requires Highs(fs, like)
    ensures Dedup(fs) == fs
  {
    forall i, j | 0 <= i < j < |fs| ensures Key(fs[i]) != Key(fs[j]) {
      assert fs[i].id[1] == i && fs[j].id[1] == j;
    }
    DedupOfApart(fs);
  }

  lemma HighsOrdered(fs: seq<Finding>, like: Finding, i: nat, j: nat)
    requires Highs(fs, like) && i < j < |fs|
    ensures CompareFindings(fs[i], fs[j]) <= 0
  {
    CmpOrder(like.category, like.category);
    CmpOrder(FileOf(like), FileOf(like));
    assert fs[i].id[1] == i && fs[j].id[1] == j;
    assert Less(fs[i].id, fs[j].id);
  }

  lemma HighsSorted(fs: seq<Finding>, like: Finding)
    requires Highs(fs, like)
    ensures SortFindings(fs) == fs
  {
    forall i, j | 0 <= i < j < |fs| ensures CompareFindings(fs[i], fs[j]) <= 0 {
      HighsOrdered(fs, like, i, j);
    }
    Sorting.SortOfSorted(CompareFindings, fs);
  }

  lemma HighsGroup(fs: seq<Finding>, like: Finding)
    requires Highs(fs, like)
    ensures Group(fs, like.category) == fs
  {
    Grouping.FilterAll(InCategory(like.category), fs);
  }

  lemma HighsCategories(fs: seq<Finding>, like: Finding)
    requires Highs(fs, like) && fs != []
    ensures Categories(fs) == [like.category]
  {
    var cats := Grouping.Map(CategoryOf, fs);
    assert cats[0] in cats;
    Grouping.DistinctOfConstant(cats, like.category);
  }

  lemma OnlyCategoryCapped(fs: seq<Finding>, c: Str)
    requires Categories(fs) == [c]
    ensures PerCategoryCap(fs) == CapGroup(c, Group(fs, c))
  {
    Grouping.MapSnoc(CappedGroup(fs), [], c);
    assert [] + [c] == [c];
    Grouping.FlattenSnoc(Grouping.Map(CappedGroup(fs), []), CappedGroup(fs)(c));
  }

  lemma HighsCapped(fs: seq<Finding>, like: Finding) returns (last: Finding)
    requires Highs(fs, like) && CAP_PER_CATEGORY < |fs| && CategoryTail(like.category) == LOW_TAIL
    ensures PerCategoryCap(fs) == fs[..CAP_PER_CATEGORY - 1] + [last] && last.level == Low
  {
    last := Summary(CategoryTail(like.category), fs[CAP_PER_CATEGORY - 1..]);
    HighsCategories(fs, like);
    OnlyCategoryCapped(fs, like.category);
    HighsGroup(fs, like);
    HighsSorted(fs, like);
  }

  lemma AtMostOneLow(init: seq<Finding>, last: Finding)
    requires forall f :: f in init ==> !IsLow(f)
    ensures Grouping.CountIf(IsLow, init + [last]) <= 1
  {
    Grouping.CountAppend(IsLow, init, [last]);
    Grouping.CountBounds(IsLow, init);
    Grouping.CountBounds(IsLow, [last]);
  }

  lemma FewLows(fs: seq<Finding>)
    requires Grouping.CountIf(IsLow, fs) <= CAP_LOW
    ensures LowCap(fs) == fs
  {
    UntagTag(fs);
    CountLows(Tag(fs));
  }

  lemma FewHighStay(init: seq<Finding>, last: Finding)
    requires |init| < CAP_TOTAL && forall i :: 0 <= i < |init| ==> init[i].level == High
    ensures TotalCap(LowCap(init + [last])) == init + [last]
  {
    AtMostOneLow(init, last);
    FewLows(init + [last]);
  }

  lemma ClusterSteps(fs: seq<Finding>, init: seq<Finding>, last: Finding)
    requires Dedup(fs) == fs && PerCategoryCap(fs) == init + [last]
    requires |init| < CAP_TOTAL && forall i :: 0 <= i < |init| ==> init[i].level == High
    ensures Cluster(fs) == init + [last]
  {
    FewHighStay(init, last);
  }

  lemma HighsResult(fs: seq<Finding>, like: Finding) returns (last: Finding)
    requires Highs(fs, like) && CAP_PER_CATEGORY < |fs| && CategoryTail(like.category) == LOW_TAIL
    ensures Cluster(fs) == fs[..CAP_PER_CATEGORY - 1] + [last] && last.level == Low
  {
    HighsDedup(fs, like);
    last := HighsCapped(fs, like);
    ClusterSteps(fs, fs[..CAP_PER_CATEGORY - 1], last);
  }

  lemma TailPath(fs: seq<Finding>, s: Finding, k: nat)
    requires |fs| <= k < 0x10000 && s.level == Low && forall i :: 0 <= i < |fs| ==> fs[i].paths == [Nth(i)]
    ensures !ReportedAt(fs + [s], Nth(k), High)
  {
    forall i | 0 <= i < |fs| ensures Nth(k) !in fs[i].paths {
      assert Nth(i)[1] != Nth(k)[1];
    }
  }

  /**
   * Of more than thirty high findings in a category called "low", each with its own id and path and otherwise like any
   * finding at all, every one past the first 29 has its path reported at level low only.
   */
  lemma LowCategoryUnderReports(like: Finding, n: nat, k: nat)
    requires like.category == Lit("low") && CAP_PER_CATEGORY < n < 0x10000 && CAP_PER_CATEGORY - 1 <= k < n
    ensures var fs := Overflowing(n, like); fs[k].level == High && fs[k].paths == [Nth(k)] && !ReportedAt(Cluster(fs), Nth(k), High)
  {
    CategoryTailIsLowTail(like.category);
    HighsUnderReported(Overflowing(n, like), like, k);
  }

  lemma HighsUnderReported(fs: seq<Finding>, like: Finding, k: nat)
    requires Highs(fs, like) && CAP_PER_CATEGORY <= k + 1 <= |fs| && CAP_PER_CATEGORY < |fs| && CategoryTail(like.category) == LOW_TAIL
    ensures !ReportedAt(Cluster(fs), Nth(k), High)
  {
    var last := HighsResult(fs, like);
    TailPath(fs[..CAP_PER_CATEGORY - 1], last, k);
  }

  lemma HarmfulTail(fs: seq<Finding>, sorted: seq<Finding>)
    requires Group(fs, Lit("low")) == fs && SortFindings(fs) == sorted
    requires |fs| > CAP_PER_CATEGORY && |sorted| == |fs| && sorted[CAP_PER_CATEGORY].level != Low
    ensures !LowCategoryHarmless(fs)
  {
    var tail := sorted[CAP_PER_CATEGORY - 1..];
    assert tail[1] == sorted[CAP_PER_CATEGORY] && tail[1] in tail;
  }

  /** These inputs are ones the guard of the positive result shuts out. */
  lemma OverflowIsHarmful(fs: seq<Finding>, like: Finding)
    requires like.category == Lit("low") && Highs(fs, like) && CAP_PER_CATEGORY < |fs|
    ensures !LowCategoryHarmless(Dedup(fs))
  {
    HighsDedup(fs, like);
    HighsGroup(fs, like);
    HighsSorted(fs, like);
    HarmfulTail(fs, fs);
  }
}
