/** Exactly when the category called "low" makes the pipeline under-report. */
module LowCategory {
  import opened Text
  import opened Findings
  import opened Coverage
  import opened Deduplication
  import opened Clustering
  import opened Pipeline
  import Sorting
  import Grouping

  /** What the per-category pass absorbs of a category. */
  function Absorbed(fs: seq<Finding>, c: Str): seq<Finding> {
    var group := Group(fs, c);
    if |group| <= CAP_PER_CATEGORY then [] else SortFindings(group)[CAP_PER_CATEGORY - 1..]
  }

  ghost predicate AllLow(fs: seq<Finding>) { forall f :: f in fs ==> f.level == Low }

  lemma HarmlessMeans(fs: seq<Finding>)
    ensures LowCategoryHarmless(fs) <==> AllLow(Absorbed(fs, Lit("low")))
  {
  }

  lemma AbsorbedInGroup(fs: seq<Finding>, c: Str, f: Finding)
    requires f in Absorbed(fs, c)
    ensures f in Group(fs, c) && f in fs && f.category == c && c in Categories(fs)
  {
    var sorted := SortFindings(Group(fs, c));
    Sorting.SortMembers(CompareFindings, Group(fs, c));
    assert f in sorted;
  }

  /** Every summary of the pass stands for its members at their levels. */
  ghost predicate SummariesCover(fs: seq<Finding>) {
    forall c :: c in Categories(fs) ==> SummaryCovers(fs, c)
  }

  ghost predicate SummaryCovers(fs: seq<Finding>, c: Str) {
    forall f :: f in Absorbed(fs, c) ==> Covers(Summary(CategoryTail(c), Absorbed(fs, c)), f, true)
  }

  /** In the per-category pass every summary stands for its members at their levels, exactly when the category is harmless. */
  lemma PerCategoryPassExactly(fs: seq<Finding>)
    ensures SummariesCover(fs) <==> LowCategoryHarmless(fs)
  {
    HarmlessMeans(fs);
    forall c | c in Categories(fs) ensures SummaryCovers(fs, c) <==> CategoryTail(c) != LOW_TAIL || AllLow(Absorbed(fs, c)) {
      SummaryCoversExactly(CategoryTail(c), Absorbed(fs, c));
      CategoryTailIsLowTail(c);
    }
    CategoryTailIsLowTail(Lit("low"));
    if f :| f in Absorbed(fs, Lit("low")) && f.level != Low {
      AbsorbedInGroup(fs, Lit("low"), f);
    }
    forall c | c in Categories(fs) && CategoryTail(c) == LOW_TAIL ensures c == Lit("low") {
      CategoryTailIsLowTail(c);
    }
  }

  // ---------------------------------------------------------------- a path that only an absorbed finding carries

  ghost predicate NoRepetition(fs: seq<Finding>) { forall i, j :: 0 <= i < j < |fs| ==> fs[i] != fs[j] }

  /** Of these findings, only `f` carries the path. */
  ghost predicate OnlyCarrier(fs: seq<Finding>, f: Finding, p: Str) {
    f in fs && p in f.paths && forall g :: g in fs && p in g.paths ==> g == f
  }

  lemma {:induction false} GroupNoRepetition(fs: seq<Finding>, c: Str)
    requires NoRepetition(fs)
    ensures NoRepetition(Group(fs, c))
  {
    if fs != [] {
      var init, last := fs[..|fs| - 1], fs[|fs| - 1];
      GroupNoRepetition(init, c);
      assert fs == init + [last];
      Grouping.FilterSnoc(InCategory(c), init, last);
    }
  }

  lemma AbsorbedNotKept(fs: seq<Finding>, c: Str, f: Finding)
    requires NoRepetition(fs) && f in Absorbed(fs, c)
    ensures |Group(fs, c)| > CAP_PER_CATEGORY && f !in SortFindings(Group(fs, c))[..CAP_PER_CATEGORY - 1]
  {
    var sorted, n := SortFindings(Group(fs, c)), CAP_PER_CATEGORY - 1;
    GroupNoRepetition(fs, c);
    Sorting.SortDistinct(CompareFindings, Group(fs, c));
    var i :| 0 <= i < |sorted[n..]| && sorted[n..][i] == f;
    assert sorted[n + i] == f;
    forall j | 0 <= j < n ensures sorted[j] != f {
    }
  }

  /** After the per-category pass the path is on the low tail only. */
  lemma OnlyTailCarries(fs: seq<Finding>, f: Finding, p: Str, g: Finding)
    requires NoRepetition(fs) && OnlyCarrier(fs, f, p) && f in Absorbed(fs, f.category) && CategoryTail(f.category) == LOW_TAIL
    requires g in PerCategoryCap(fs) && p in g.paths
    ensures g.level == Low
  {
    InPerCategoryCap(fs);
    var c :| c in Categories(fs) && g in CapGroup(c, Group(fs, c));
    CarrierInGroup(fs, f, p, c, g);
    TailInGroup(fs, f, p, g);
  }

  lemma TailInGroup(fs: seq<Finding>, f: Finding, p: Str, g: Finding)
    requires NoRepetition(fs) && OnlyCarrier(fs, f, p) && f in Absorbed(fs, f.category) && CategoryTail(f.category) == LOW_TAIL
    requires g in CapGroup(f.category, Group(fs, f.category)) && p in g.paths
    ensures g.level == Low
  {
    AbsorbedNotKept(fs, f.category, f);
    KeptAreIn(fs, f.category);
  }

  lemma KeptAreIn(fs: seq<Finding>, c: Str)
    requires |Group(fs, c)| > CAP_PER_CATEGORY
    ensures forall x :: x in SortFindings(Group(fs, c))[..CAP_PER_CATEGORY - 1] ==> x in fs
  {
    var sorted := SortFindings(Group(fs, c));
    Sorting.SortMembers(CompareFindings, Group(fs, c));
    forall x | x in sorted[..CAP_PER_CATEGORY - 1] ensures x in fs {
      assert x in sorted;
    }
  }

  lemma CarrierInGroup(fs: seq<Finding>, f: Finding, p: Str, c: Str, g: Finding)
    requires OnlyCarrier(fs, f, p) && g in CapGroup(c, Group(fs, c)) && p in g.paths
    ensures c == f.category
  {
    var group := Group(fs, c);
    KeptInvents(group, group);
    if |group| > CAP_PER_CATEGORY {
      KeepAndSummarizeInvents(group, CAP_PER_CATEGORY - 1, CategoryTail(c));
    }
    assert Accounted(group, g);
    var h :| h in group && p in h.paths;
    assert h in fs;
  }

  lemma LowStaysLow(b: seq<Finding>, p: Str, g: Finding)
    requires (forall h :: h in b && p in h.paths ==> h.level == Low) && g in LowCap(b) && p in g.paths
    ensures g.level == Low
  {
    if |Lows(b)| > CAP_LOW {
      LowOutputMembers(Tag(b), KeptLows(b), Summary(LOW_TAIL, DroppedLows(b)));
      if g != Summary(LOW_TAIL, DroppedLows(b)) {
        var t :| t in Tag(b) && g == t.1;
        assert g in b;
      }
    }
  }

  /** Every finding that carries the path is low. */
  ghost predicate CarriedLow(fs: seq<Finding>, p: Str) { forall g :: g in fs && p in g.paths ==> g.level == Low }

  lemma NotReportedAbove(outs: seq<Finding>, p: Str, level: Level)
    requires CarriedLow(outs, p) && level != Low
    ensures !ReportedAt(outs, p, level)
  {
  }

  lemma TailThenLow(d: seq<Finding>, f: Finding, p: Str)
    requires NoRepetition(d) && OnlyCarrier(d, f, p) && f in Absorbed(d, f.category) && CategoryTail(f.category) == LOW_TAIL
    ensures CarriedLow(LowCap(PerCategoryCap(d)), p)
  {
    var b := PerCategoryCap(d);
    forall h | h in b && p in h.paths ensures h.level == Low {
      OnlyTailCarries(d, f, p, h);
    }
    forall g | g in LowCap(b) && p in g.paths ensures g.level == Low {
      LowStaysLow(b, p, g);
    }
  }

  /** Such a path is reported as low, as long as the total cap has nothing to absorb. */
  lemma AbsorbedPathIsLow(fs: seq<Finding>, f: Finding, p: Str)
    requires NoRepetition(Dedup(fs)) && OnlyCarrier(Dedup(fs), f, p) && f in Absorbed(Dedup(fs), f.category)
    requires CategoryTail(f.category) == LOW_TAIL && f.level != Low && |LowCap(PerCategoryCap(Dedup(fs)))| <= CAP_TOTAL
    ensures !ReportedAt(Cluster(fs), p, f.level)
  {
    var out := LowCap(PerCategoryCap(Dedup(fs)));
    TailThenLow(Dedup(fs), f, p);
    assert Cluster(fs) == out;
    NotReportedAbove(out, p, f.level);
  }

  // ---------------------------------------------------------------- exactly when

  /** Each finding carries a path, and after deduplication no two share one. */
  ghost predicate OwnPaths(fs: seq<Finding>) {
    && (forall f :: f in fs ==> f.paths != [])
    && forall f, g, p :: f in Dedup(fs) && g in Dedup(fs) && p in f.paths && p in g.paths ==> f == g
  }

  ghost predicate AllReported(fs: seq<Finding>) {
    forall f, p :: f in fs && p in f.paths ==> ReportedAt(Cluster(fs), p, f.level)
  }

  lemma DedupNoRepetition(fs: seq<Finding>)
    ensures NoRepetition(Dedup(fs))
  {
    DedupMeaning(fs);
  }

  lemma SomeWinner(fs: seq<Finding>, f: Finding) returns (w: Finding)
    requires f in Dedup(fs)
    ensures w in fs && Key(w) == Key(f) && w.level == f.level
  {
    DedupMeaning(fs);
    w :| w in fs && Key(w) == Key(f) && w.level == f.level;
  }

  lemma SomeMerged(fs: seq<Finding>, w: Finding) returns (g: Finding)
    requires w in fs
    ensures g in Dedup(fs) && Key(g) == Key(w) && CarriesAll(g, w)
  {
    DedupMeaning(fs);
    g :| g in Dedup(fs) && Key(g) == Key(w) && Covers(g, w, true);
  }

  /** Of the findings a deduplicated one stands for, one has its level, and its paths are among the merged ones. */
  lemma WinnerOf(fs: seq<Finding>, f: Finding) returns (w: Finding)
    requires f in Dedup(fs)
    ensures w in fs && w.level == f.level && CarriesAll(f, w)
  {
    w := SomeWinner(fs, f);
    var g := SomeMerged(fs, w);
    DistinctKeys(fs);
    SameKeySame(Dedup(fs), f, g);
  }

  lemma SameKeySame(d: seq<Finding>, f: Finding, g: Finding)
    requires KeysApart(d) && f in d && g in d && Key(f) == Key(g)
    ensures f == g
  {
    var i :| 0 <= i < |d| && d[i] == f;
    var j :| 0 <= j < |d| && d[j] == g;
    assert !(i < j) && !(j < i);
  }

  /** A harmful category absorbs a finding above low into the low tail. */
  lemma HarmfulFinding(d: seq<Finding>) returns (f: Finding)
    requires !LowCategoryHarmless(d)
    ensures f in d && f in Absorbed(d, f.category) && CategoryTail(f.category) == LOW_TAIL && f.level != Low
  {
    HarmlessMeans(d);
    f :| f in Absorbed(d, Lit("low")) && f.level != Low;
    AbsorbedInGroup(d, Lit("low"), f);
    CategoryTailIsLowTail(f.category);
  }

  /**
   * Where findings have paths of their own and the total cap has nothing to absorb, every path is reported at its level
   * exactly when the category "low" is harmless.
   */
  lemma UnderReportsExactly(fs: seq<Finding>)
    requires OwnPaths(fs) && |LowCap(PerCategoryCap(Dedup(fs)))| <= CAP_TOTAL
    ensures AllReported(fs) <==> LowCategoryHarmless(Dedup(fs))
  {
    if LowCategoryHarmless(Dedup(fs)) {
      NothingUnderReported(fs);
    } else {
      var f := HarmfulFinding(Dedup(fs));
      HarmfulLoses(fs, f);
    }
  }

  lemma HarmfulLoses(fs: seq<Finding>, f: Finding)
    requires OwnPaths(fs) && |LowCap(PerCategoryCap(Dedup(fs)))| <= CAP_TOTAL
    requires f in Dedup(fs) && f in Absorbed(Dedup(fs), f.category) && CategoryTail(f.category) == LOW_TAIL && f.level != Low
    ensures !AllReported(fs)
  {
    var w := WinnerOf(fs, f);
    var p := w.paths[0];
    assert p in w.paths && p in f.paths;
    DedupNoRepetition(fs);
    AbsorbedPathIsLow(fs, f, p);
  }
}
