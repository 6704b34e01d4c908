/** Passes 2 to 4, which cap a list of findings. */
module Clustering {
  import opened Text
  import opened Findings
  import opened Coverage
  import Sorting
  import Grouping

  const CAP_PER_CATEGORY := 30
  const CAP_LOW := 20
  const CAP_TOTAL := 90

  predicate IsLow(f: Finding) { f.level == Low }

  function InCategory(c: Str): Finding -> bool {
    (f: Finding) => f.category == c
  }

  // ---------------------------------------------------------------- keep the first, summarize the rest

  /** The first `n` in finding order, then one summary of the others. */
  function KeepAndSummarize(fs: seq<Finding>, n: nat, clusterId: Str): seq<Finding>
    requires n < |fs|
  {
    var sorted := SortFindings(fs);
    sorted[..n] + [Summary(clusterId, sorted[n..])]
  }

  lemma AbsorbedComeLast(fs: seq<Finding>, n: nat)
    requires n < |fs|
    ensures forall f, g :: f in SortFindings(fs)[..n] && g in SortFindings(fs)[n..] ==> CompareFindings(f, g) <= 0
  {
    CompareFindingsPreorder();
    Sorting.SortSorted(CompareFindings, fs);
  }

  /** `kept` and `absorbed` are all of `fs`; what is absorbed compares no earlier than what is kept and, where they tie, came later. */
  ghost predicate Splits(fs: seq<Finding>, kept: seq<Finding>, absorbed: seq<Finding>) {
    && multiset(kept) + multiset(absorbed) == multiset(fs)
    && (forall f, g :: f in kept && g in absorbed ==> CompareFindings(f, g) <= 0)
    && Grouping.TiesInOrder(CompareFindings, fs, kept, absorbed)
  }

  lemma KeepAndSummarizeSplits(fs: seq<Finding>, n: nat, clusterId: Str) returns (kept: seq<Finding>, absorbed: seq<Finding>)
    requires n < |fs|
    ensures |kept| == n && Splits(fs, kept, absorbed) && KeepAndSummarize(fs, n, clusterId) == kept + [Summary(clusterId, absorbed)]
  {
    var sorted := SortFindings(fs);
    kept, absorbed := sorted[..n], sorted[n..];
    AbsorbedComeLast(fs, n);
    assert sorted == kept + absorbed;
    CompareFindingsPreorder();
    Grouping.CutKeepsTies(CompareFindings, fs, n);
  }

  lemma KeepAndSummarizeCovers(fs: seq<Finding>, n: nat, clusterId: Str, levels: bool)
    requires n < |fs|
    requires levels ==> clusterId != LOW_TAIL || forall f :: f in SortFindings(fs)[n..] ==> f.level == Low
    ensures Covered(fs, KeepAndSummarize(fs, n, clusterId), levels)
  {
    var sorted := SortFindings(fs);
    Sorting.SortMembers(CompareFindings, fs);
    SummaryCoversExactly(clusterId, sorted[n..]);
    assert sorted == sorted[..n] + sorted[n..];
    SplitCovers(fs, sorted[..n], sorted[n..], Summary(clusterId, sorted[n..]), levels);
  }

  lemma SummaryInvents(fs: seq<Finding>, dropped: seq<Finding>, clusterId: Str)
    requires dropped != [] && forall f :: f in dropped ==> f in fs
    ensures NothingInvented(fs, [Summary(clusterId, dropped)])
  {
    var s := Summary(clusterId, dropped);
    SummaryPaths(clusterId, dropped);
    assert dropped[0] in dropped;
    assert Reached(fs, s.level) by {
      if s.level == Low {
        assert dropped[0] in fs && s.level.Rank() <= dropped[0].level.Rank();
      } else {
        var f :| f in dropped && f.level == s.level;
      }
    }
    forall p | p in s.paths ensures Carried(fs, p) {
      var f :| f in dropped && p in f.paths;
    }
  }

  lemma KeptInvents(fs: seq<Finding>, kept: seq<Finding>)
    requires forall f :: f in kept ==> f in fs
    ensures NothingInvented(fs, kept)
  {
    forall g | g in kept ensures Accounted(fs, g) {
    }
  }

  lemma KeepAndSummarizeInvents(fs: seq<Finding>, n: nat, clusterId: Str)
    requires n < |fs|
    ensures NothingInvented(fs, KeepAndSummarize(fs, n, clusterId))
  {
    var sorted := SortFindings(fs);
    Sorting.SortMembers(CompareFindings, fs);
    KeptInvents(fs, sorted[..n]);
    SummaryInvents(fs, sorted[n..], clusterId);
  }

  // ---------------------------------------------------------------- pass 2: per category

  function CapGroup(category: Str, group: seq<Finding>): seq<Finding> {
    if |group| <= CAP_PER_CATEGORY then group else KeepAndSummarize(group, CAP_PER_CATEGORY - 1, CategoryTail(category))
  }

  /** A category over its cap keeps its first 29 findings and puts one summary in the place of the others. */
  lemma CapGroupSplits(category: Str, group: seq<Finding>) returns (kept: seq<Finding>, absorbed: seq<Finding>)
    requires |group| > CAP_PER_CATEGORY
    ensures |kept| == CAP_PER_CATEGORY - 1 && Splits(group, kept, absorbed)
    ensures CapGroup(category, group) == kept + [Summary(CategoryTail(category), absorbed)]
  {
    kept, absorbed := KeepAndSummarizeSplits(group, CAP_PER_CATEGORY - 1, CategoryTail(category));
  }

  function CategoryOf(f: Finding): Str { f.category }

  function Categories(fs: seq<Finding>): (r: seq<Str>)
    ensures forall c :: c in r <==> exists f :: f in fs && f.category == c
    ensures forall i, j :: 0 <= i < j < |r| ==> r[i] != r[j]
  {
    var all := Grouping.Map(CategoryOf, fs);
    assert forall i :: 0 <= i < |fs| ==> all[i] == fs[i].category && all[i] in all;
    Grouping.Distinct(all)
  }

  function Group(fs: seq<Finding>, c: Str): seq<Finding> {
    Grouping.Filter(InCategory(c), fs)
  }

  function CappedGroup(fs: seq<Finding>): Str -> seq<Finding> {
    (c: Str) => CapGroup(c, Group(fs, c))
  }

  function PerCategoryCap(fs: seq<Finding>): seq<Finding> {
    Grouping.Flatten(Grouping.Map(CappedGroup(fs), Categories(fs)))
  }

  /** The findings of the category called "low" that the per-category cap would absorb are all low. */
  predicate LowCategoryHarmless(fs: seq<Finding>) {
    var group := Group(fs, Lit("low"));
    |group| <= CAP_PER_CATEGORY || forall f :: f in SortFindings(group)[CAP_PER_CATEGORY - 1..] ==> f.level == Low
  }

  lemma TailHarmless(fs: seq<Finding>, c: Str)
    requires LowCategoryHarmless(fs) && |Group(fs, c)| > CAP_PER_CATEGORY
    ensures CategoryTail(c) != LOW_TAIL || forall f :: f in SortFindings(Group(fs, c))[CAP_PER_CATEGORY - 1..] ==> f.level == Low
  {
    CategoryTailIsLowTail(c);
  }

  lemma CapGroupCovers(fs: seq<Finding>, c: Str, levels: bool)
    requires levels ==> LowCategoryHarmless(fs)
    ensures Covered(Group(fs, c), CapGroup(c, Group(fs, c)), levels)
  {
    var group := Group(fs, c);
    if |group| <= CAP_PER_CATEGORY {
      CoveredRefl(group, levels);
    } else {
      if levels {
        TailHarmless(fs, c);
      }
      KeepAndSummarizeCovers(group, CAP_PER_CATEGORY - 1, CategoryTail(c), levels);
    }
  }

  lemma CapGroupInvents(fs: seq<Finding>, c: Str)
    ensures NothingInvented(fs, CapGroup(c, Group(fs, c)))
  {
    var group := Group(fs, c);
    KeptInvents(fs, group);
    if |group| > CAP_PER_CATEGORY {
      KeepAndSummarizeInvents(group, CAP_PER_CATEGORY - 1, CategoryTail(c));
      NothingInventedTransitive(fs, group, CapGroup(c, group));
    }
  }

  lemma InPerCategoryCap(fs: seq<Finding>)
    ensures forall g :: g in PerCategoryCap(fs) <==> exists c :: c in Categories(fs) && g in CapGroup(c, Group(fs, c))
  {
    var cats := Categories(fs);
    var groups := Grouping.Map(CappedGroup(fs), cats);
    forall g ensures g in PerCategoryCap(fs) <==> exists c :: c in cats && g in CapGroup(c, Group(fs, c)) {
      if g in PerCategoryCap(fs) {
        var i :| 0 <= i < |groups| && g in groups[i];
        assert cats[i] in cats && groups[i] == CapGroup(cats[i], Group(fs, cats[i]));
      }
      if c :| c in cats && g in CapGroup(c, Group(fs, c)) {
        var i :| 0 <= i < |cats| && cats[i] == c;
        assert g in groups[i];
      }
    }
  }

  lemma PerCategoryCapCoversAt(fs: seq<Finding>, f: Finding, levels: bool)
    requires levels ==> LowCategoryHarmless(fs)
    requires f in fs
    ensures Represented(f, PerCategoryCap(fs), levels)
  {
    var c := f.category;
    CapGroupCovers(fs, c, levels);
    InPerCategoryCap(fs);
    assert c in Categories(fs) && f in Group(fs, c);
    assert Represented(f, CapGroup(c, Group(fs, c)), levels);
    RepresentedInMore(f, CapGroup(c, Group(fs, c)), PerCategoryCap(fs), levels);
  }

  lemma PerCategoryCapCovers(fs: seq<Finding>, levels: bool)
    requires levels ==> LowCategoryHarmless(fs)
    ensures Covered(fs, PerCategoryCap(fs), levels)
  {
    forall f | f in fs ensures Represented(f, PerCategoryCap(fs), levels) {
      PerCategoryCapCoversAt(fs, f, levels);
    }
  }

  lemma PerCategoryCapInvents(fs: seq<Finding>)
    ensures NothingInvented(fs, PerCategoryCap(fs))
  {
    InPerCategoryCap(fs);
    forall g | g in PerCategoryCap(fs) ensures Accounted(fs, g) {
      var c :| c in Categories(fs) && g in CapGroup(c, Group(fs, c));
      CapGroupInvents(fs, c);
    }
  }

  lemma KeepAndSummarizeCategories(fs: seq<Finding>, n: nat, clusterId: Str)
    requires n < |fs|
    ensures forall g :: g in KeepAndSummarize(fs, n, clusterId) ==> g in fs || g.category == SUMMARY
  {
    Sorting.SortMembers(CompareFindings, fs);
    var sorted := SortFindings(fs);
    forall g | g in KeepAndSummarize(fs, n, clusterId) ensures g in fs || g.category == SUMMARY {
      assert g in sorted[..n] ==> g in sorted;
    }
  }

  lemma CapGroupCount(c: Str, d: Str, fs: seq<Finding>)
    requires d != SUMMARY
    ensures Grouping.CountIf(InCategory(d), CapGroup(c, Group(fs, c))) <= if c == d then CAP_PER_CATEGORY else 0
  {
    var group := Group(fs, c);
    Grouping.CountBounds(InCategory(d), CapGroup(c, group));
    if c != d && |group| > CAP_PER_CATEGORY {
      KeepAndSummarizeCategories(group, CAP_PER_CATEGORY - 1, CategoryTail(c));
    }
  }

  lemma {:induction false} FlattenCount(cats: seq<Str>, d: Str, fs: seq<Finding>)
    requires d != SUMMARY
    requires forall i, j :: 0 <= i < j < |cats| ==> cats[i] != cats[j]
    ensures Grouping.CountIf(InCategory(d), Grouping.Flatten(Grouping.Map(CappedGroup(fs), cats)))
         <= if d in cats then CAP_PER_CATEGORY else 0
  {
    if cats != [] {
      var n := |cats| - 1;
      FlattenCount(cats[..n], d, fs);
      assert cats == cats[..n] + [cats[n]];
      Grouping.MapSnoc(CappedGroup(fs), cats[..n], cats[n]);
      Grouping.FlattenSnoc(Grouping.Map(CappedGroup(fs), cats[..n]), CappedGroup(fs)(cats[n]));
      Grouping.CountAppend(InCategory(d), Grouping.Flatten(Grouping.Map(CappedGroup(fs), cats[..n])), CappedGroup(fs)(cats[n]));
      CapGroupCount(cats[n], d, fs);
    }
  }

  lemma PerCategoryCapCount(fs: seq<Finding>, d: Str)
    requires d != SUMMARY
    ensures Grouping.CountIf(InCategory(d), PerCategoryCap(fs)) <= CAP_PER_CATEGORY
  {
    FlattenCount(Categories(fs), d, fs);
  }

  ghost predicate GroupsRight(fs: seq<Finding>, groups: map<Str, seq<Finding>>) {
    forall c :: GroupRight(fs, groups, c)
  }

  ghost predicate GroupRight(fs: seq<Finding>, groups: map<Str, seq<Finding>>, c: Str) {
    if c in Categories(fs) then c in groups && groups[c] == Group(fs, c) else c !in groups
  }

  lemma CategoriesStep(fs: seq<Finding>, f: Finding)
    ensures Categories(fs + [f]) == if f.category in Categories(fs) then Categories(fs) else Categories(fs) + [f.category]
  {
    Grouping.MapSnoc(CategoryOf, fs, f);
    Grouping.DistinctSnoc(Grouping.Map(CategoryOf, fs), f.category);
  }

  lemma GroupsMore(fs: seq<Finding>, f: Finding, groups: map<Str, seq<Finding>>)
    requires GroupsRight(fs, groups)
    ensures GroupsRight(fs + [f], groups[f.category := if f.category in groups then groups[f.category] + [f] else [f]])
  {
    var longer := fs + [f];
    var more := groups[f.category := if f.category in groups then groups[f.category] + [f] else [f]];
    forall c ensures GroupRight(longer, more, c) {
      assert GroupRight(fs, groups, c);
      CategoriesStep(fs, f);
      GroupStep(fs, f, c);
      if c == f.category && c !in groups {
        EmptyGroup(fs, c);
      }
    }
  }

  method GroupByCategory(fs: seq<Finding>) returns (order: seq<Str>, groups: map<Str, seq<Finding>>)
    ensures order == Categories(fs) && GroupsRight(fs, groups)
  {
    groups, order := map[], [];
    for i := 0 to |fs|
      invariant order == Categories(fs[..i]) && GroupsRight(fs[..i], groups)
    {
      var f := fs[i];
      assert fs[..i + 1] == fs[..i] + [f];
      GroupsMore(fs[..i], f, groups);
      CategoriesStep(fs[..i], f);
      assert GroupRight(fs[..i], groups, f.category);
      if f.category !in groups {
        groups, order := groups[f.category := [f]], order + [f.category];
      } else {
        groups := groups[f.category := groups[f.category] + [f]];
      }
    }
    assert fs[..|fs|] == fs;
  }

  lemma CappedStep(fs: seq<Finding>, cats: seq<Str>, i: nat)
    requires i < |cats|
    ensures Grouping.Flatten(Grouping.Map(CappedGroup(fs), cats[..i + 1]))
         == Grouping.Flatten(Grouping.Map(CappedGroup(fs), cats[..i])) + CapGroup(cats[i], Group(fs, cats[i]))
  {
    assert cats[..i + 1] == cats[..i] + [cats[i]];
    Grouping.MapSnoc(CappedGroup(fs), cats[..i], cats[i]);
    Grouping.FlattenSnoc(Grouping.Map(CappedGroup(fs), cats[..i]), CappedGroup(fs)(cats[i]));
  }

  /** The pass as written: groups collected in a Map, then each copied or capped. */
  method ApplyPerCategoryCap(fs: seq<Finding>) returns (output: seq<Finding>)
    ensures output == PerCategoryCap(fs)
  {
    var order, groups := GroupByCategory(fs);
    output := [];
    for i := 0 to |order|
      invariant output == Grouping.Flatten(Grouping.Map(CappedGroup(fs), order[..i]))
    {
      var category := order[i];
      assert category in order && GroupRight(fs, groups, category);
      var group := groups[category];
      CappedStep(fs, order, i);
      if |group| <= CAP_PER_CATEGORY {
        output := output + group;
      } else {
        var sorted := SortFindings(group);
        var summary := BuildClusterSummary(CategoryTail(category), sorted[CAP_PER_CATEGORY - 1..]);
        output := output + (sorted[..CAP_PER_CATEGORY - 1] + [summary]);
      }
    }
    assert order[..|order|] == order;
  }

  lemma GroupStep(fs: seq<Finding>, f: Finding, c: Str)
    ensures Group(fs + [f], c) == Group(fs, c) + if c == f.category then [f] else []
  {
    Grouping.FilterSnoc(InCategory(c), fs, f);
  }

  lemma {:induction false} EmptyGroup(fs: seq<Finding>, c: Str)
    requires c !in Categories(fs)
    ensures Group(fs, c) == []
  {
    if fs != [] {
      var init := fs[..|fs| - 1];
      assert fs == init + [fs[|fs| - 1]];
      assert forall f :: f in init ==> f in fs;
      EmptyGroup(init, c);
    }
  }

  method MergePaths(ghost before: seq<Str>, merged0: seq<Str>, paths: seq<Str>) returns (merged: seq<Str>)
    requires merged0 == Grouping.Distinct(before)
    ensures merged == Grouping.Distinct(before + paths)
  {
    merged := merged0;
    assert before + paths[..0] == before;
    for j := 0 to |paths|
      invariant merged == Grouping.Distinct(before + paths[..j])
    {
      Grouping.DistinctSnoc(before + paths[..j], paths[j]);
      assert before + paths[..j + 1] == before + paths[..j] + [paths[j]];
      if paths[j] !in merged {
        merged := merged + [paths[j]];
      }
    }
    assert paths[..|paths|] == paths;
  }

  method UnionAffectedPaths(sets: seq<seq<Str>>) returns (r: seq<Str>)
    ensures r == UnionPaths(sets)
  {
    var merged: seq<Str> := [];
    for i := 0 to |sets|
      invariant merged == Grouping.Distinct(Grouping.Flatten(sets[..i]))
    {
      merged := MergePaths(Grouping.Flatten(sets[..i]), merged, sets[i]);
      assert sets[..i + 1] == sets[..i] + [sets[i]];
      Grouping.FlattenSnoc(sets[..i], sets[i]);
    }
    assert sets[..|sets|] == sets;
    r := Sorting.Sort(Cmp, merged);
  }

  method HighestLevel(clustered: seq<Finding>) returns (level: Level)
    ensures level == MaxLevel(clustered)
  {
    level := Low;
    for i := 0 to |clustered|
      invariant level == MaxLevel(clustered[..i])
    {
      assert clustered[..i + 1][..i] == clustered[..i];
      if CompareLevel(clustered[i].level, level) > 0 {
        level := clustered[i].level;
      }
    }
    assert clustered[..|clustered|] == clustered;
  }

  method BuildClusterSummary(clusterId: Str, clustered: seq<Finding>) returns (r: Finding)
    requires clustered != []
    ensures r == Summary(clusterId, clustered)
  {
    var level := Low;
    if clusterId != LOW_TAIL {
      level := HighestLevel(clustered);
    }
    var affectedPaths := UnionAffectedPaths(MemberPaths(clustered));
    r := Finding(clusterId, SUMMARY, level, SummaryEvidence(clustered), affectedPaths, []);
  }

  // ---------------------------------------------------------------- pass 3: low findings

  /** A finding with its place in the list: the source tells findings apart by identity, not by content. */
  type Tagged = (nat, Finding)

  function Tag(fs: seq<Finding>): seq<Tagged> {
    seq(|fs|, i requires 0 <= i < |fs| => (i, fs[i]))
  }

  function Untagged(t: Tagged): Finding { t.1 }

  function CompareTagged(a: Tagged, b: Tagged): int {
    CompareFindings(a.1, b.1)
  }

  predicate IsLowTag(t: Tagged) { t.1.level == Low }

  function Lows(fs: seq<Finding>): seq<Tagged> {
    Grouping.Filter(IsLowTag, Tag(fs))
  }

  function SortedLows(fs: seq<Finding>): seq<Tagged> {
    Sorting.Sort(CompareTagged, Lows(fs))
  }

  predicate Dropped(keep: set<Tagged>, t: Tagged) {
    IsLowTag(t) && t !in keep
  }

  predicate AnyDropped(keep: set<Tagged>, ts: seq<Tagged>) {
    exists i :: 0 <= i < |ts| && Dropped(keep, ts[i])
  }

  /** Non-low and kept findings pass; the summary stands at the first dropped one. */
  function LowOutput(ts: seq<Tagged>, keep: set<Tagged>, summary: Finding): seq<Finding> {
    if ts == [] then []
    else
      var init, t := ts[..|ts| - 1], ts[|ts| - 1];
      var output := LowOutput(init, keep, summary);
      if !Dropped(keep, t) then output + [t.1]
      else if AnyDropped(keep, init) then output
      else output + [summary]
  }

  function SetOf(s: seq<Tagged>): set<Tagged> {
    set t | t in s
  }

  function KeptLows(fs: seq<Finding>): set<Tagged>
    requires |Lows(fs)| > CAP_LOW
  {
    SetOf(SortedLows(fs)[..CAP_LOW - 1])
  }

  function DroppedLows(fs: seq<Finding>): seq<Finding>
    requires |Lows(fs)| > CAP_LOW
  {
    Grouping.Map(Untagged, SortedLows(fs)[CAP_LOW - 1..])
  }

  function LowCap(fs: seq<Finding>): seq<Finding> {
    if |Lows(fs)| <= CAP_LOW then fs
    else LowOutput(Tag(fs), KeptLows(fs), Summary(LOW_TAIL, DroppedLows(fs)))
  }

  lemma {:induction false} LowOutputMembers(ts: seq<Tagged>, keep: set<Tagged>, summary: Finding)
    ensures forall t :: t in ts && !Dropped(keep, t) ==> t.1 in LowOutput(ts, keep, summary)
    ensures AnyDropped(keep, ts) ==> summary in LowOutput(ts, keep, summary)
    ensures forall g :: g in LowOutput(ts, keep, summary) ==> g == summary || exists t :: t in ts && g == t.1
    ensures summary in LowOutput(ts, keep, summary) ==> AnyDropped(keep, ts) || exists t :: t in ts && summary == t.1
  {
    if ts != [] {
      var init, t := ts[..|ts| - 1], ts[|ts| - 1];
      LowOutputMembers(init, keep, summary);
      assert ts == init + [t];
      assert forall i :: 0 <= i < |init| ==> ts[i] == init[i];
    }
  }

  function Kept(keep: set<Tagged>): Tagged -> bool {
    (t: Tagged) => t in keep
  }

  lemma {:induction false} LowOutputLows(ts: seq<Tagged>, keep: set<Tagged>, summary: Finding)
    requires forall t :: t in keep ==> IsLowTag(t)
    ensures Grouping.CountIf(IsLow, LowOutput(ts, keep, summary))
         <= Grouping.CountIf(Kept(keep), ts) + if AnyDropped(keep, ts) then 1 else 0
  {
    if ts != [] {
      var init, t := ts[..|ts| - 1], ts[|ts| - 1];
      var output := LowOutput(init, keep, summary);
      LowOutputLows(init, keep, summary);
      assert ts == init + [t];
      Grouping.CountAppend(Kept(keep), init, [t]);
      Grouping.CountAppend(IsLow, output, [t.1]);
      Grouping.CountAppend(IsLow, output, [summary]);
      assert Grouping.CountIf(Kept(keep), [t]) == if t in keep then 1 else 0;
      assert Grouping.CountIf(IsLow, [t.1]) == if IsLowTag(t) then 1 else 0;
      assert Grouping.CountIf(IsLow, [summary]) <= 1;
      assert AnyDropped(keep, ts) <==> AnyDropped(keep, init) || Dropped(keep, t) by {
        assert forall i :: 0 <= i < |init| ==> ts[i] == init[i];
      }
    }
  }

  lemma {:induction false} LowOutputCategory(ts: seq<Tagged>, keep: set<Tagged>, summary: Finding, d: Str)
    requires summary.category != d
    ensures Grouping.CountIf(InCategory(d), LowOutput(ts, keep, summary))
         <= Grouping.CountIf(InCategory(d), Grouping.Map(Untagged, ts))
  {
    if ts != [] {
      var init, t := ts[..|ts| - 1], ts[|ts| - 1];
      var output := LowOutput(init, keep, summary);
      LowOutputCategory(init, keep, summary, d);
      assert ts == init + [t];
      Grouping.MapSnoc(Untagged, init, t);
      Grouping.CountAppend(InCategory(d), Grouping.Map(Untagged, init), [t.1]);
      Grouping.CountAppend(InCategory(d), output, [t.1]);
      Grouping.CountAppend(InCategory(d), output, [summary]);
      assert Grouping.CountIf(InCategory(d), [summary]) == 0;
    }
  }

  lemma {:induction false} CountKept(ts: seq<Tagged>, keep: set<Tagged>)
    requires forall i, j :: 0 <= i < j < |ts| ==> ts[i] != ts[j]
    ensures Grouping.CountIf(Kept(keep), ts) <= |keep|
  {
    if ts != [] {
      if ts[0] in keep {
        CountKept(ts[1..], keep - {ts[0]});
        SameCount(ts[1..], keep, ts[0]);
      } else {
        CountKept(ts[1..], keep);
      }
    }
  }

  lemma {:induction false} SameCount(ts: seq<Tagged>, keep: set<Tagged>, x: Tagged)
    requires x !in ts
    ensures Grouping.CountIf(Kept(keep - {x}), ts) == Grouping.CountIf(Kept(keep), ts)
  {
    if ts != [] {
      assert ts[0] in ts && forall t :: t in ts[1..] ==> t in ts;
      SameCount(ts[1..], keep, x);
    }
  }

  lemma {:induction false} SetOfSeqSize(s: seq<Tagged>)
    ensures |SetOf(s)| <= |s|
  {
    if s != [] {
      SetOfSeqSize(s[1..]);
      assert SetOf(s) == {s[0]} + SetOf(s[1..]);
    }
  }

  lemma UntagTag(fs: seq<Finding>)
    ensures Grouping.Map(Untagged, Tag(fs)) == fs
  {
  }

  lemma LowSplit(fs: seq<Finding>)
    requires |Lows(fs)| > CAP_LOW
    ensures forall t :: t in Tag(fs) && Dropped(KeptLows(fs), t) ==> t.1 in DroppedLows(fs)
    ensures forall t :: t in KeptLows(fs) ==> IsLowTag(t)
    ensures forall f :: f in DroppedLows(fs) ==> f in fs && f.level == Low
    ensures |KeptLows(fs)| <= CAP_LOW - 1 && DroppedLows(fs) != []
  {
    var sorted := SortedLows(fs);
    Sorting.SortMembers(CompareTagged, Lows(fs));
    SetOfSeqSize(sorted[..CAP_LOW - 1]);
    assert sorted == sorted[..CAP_LOW - 1] + sorted[CAP_LOW - 1..];
    var tail := sorted[CAP_LOW - 1..];
    forall t | t in Tag(fs) && Dropped(KeptLows(fs), t) ensures t.1 in DroppedLows(fs) {
      assert t in Lows(fs) && t in sorted && t in tail;
      var i :| 0 <= i < |tail| && tail[i] == t;
      assert DroppedLows(fs)[i] == t.1;
    }
    forall f | f in DroppedLows(fs) ensures f in fs && f.level == Low {
      var i :| 0 <= i < |tail| && tail[i].1 == f;
      assert tail[i] in sorted && tail[i] in Lows(fs) && tail[i] in Tag(fs);
    }
    forall t | t in KeptLows(fs) ensures IsLowTag(t) {
      assert t in sorted;
    }
  }

  lemma CompareTaggedPreorder()
    ensures Sorting.TotalPreorder(CompareTagged)
  {
    CompareFindingsPreorder();
  }

  lemma LowsOrdered(fs: seq<Finding>, i: nat, j: nat)
    requires i < j < |SortedLows(fs)|
    ensures CompareFindings(SortedLows(fs)[i].1, SortedLows(fs)[j].1) <= 0
  {
    CompareTaggedPreorder();
    Sorting.SortSorted(CompareTagged, Lows(fs));
    assert CompareTagged(SortedLows(fs)[i], SortedLows(fs)[j]) <= 0;
  }

  // ---------------------------------------------------------------- which low findings stay, and where

  predicate FirstDropped(keep: set<Tagged>, ts: seq<Tagged>, p: nat) {
    p < |ts| && Dropped(keep, ts[p]) && forall i :: 0 <= i < p ==> !Dropped(keep, ts[i])
  }

  function Surviving(keep: set<Tagged>): Tagged -> bool {
    (t: Tagged) => !Dropped(keep, t)
  }

  lemma {:induction false} NoneDropped(ts: seq<Tagged>, keep: set<Tagged>, summary: Finding)
    requires forall i :: 0 <= i < |ts| ==> !Dropped(keep, ts[i])
    ensures LowOutput(ts, keep, summary) == Grouping.Map(Untagged, ts)
  {
    if ts != [] {
      var init, t := ts[..|ts| - 1], ts[|ts| - 1];
      NoneDropped(init, keep, summary);
      Grouping.MapSnoc(Untagged, init, t);
      assert ts == init + [t];
    }
  }

  /** The findings before the first dropped one, the summary in its place, and the surviving ones after it. */
  lemma {:induction false} LowOutputForm(ts: seq<Tagged>, keep: set<Tagged>, summary: Finding, p: nat)
    requires FirstDropped(keep, ts, p)
    ensures LowOutput(ts, keep, summary) ==
            Grouping.Map(Untagged, ts[..p]) + [summary] + Grouping.Map(Untagged, Grouping.Filter(Surviving(keep), ts[p..]))
  {
    var init, t := ts[..|ts| - 1], ts[|ts| - 1];
    if p == |ts| - 1 {
      NoneDropped(init, keep, summary);
      assert ts[p..] == [] + [t] && ts[..p] == init;
      Grouping.FilterSnoc(Surviving(keep), [], t);
      assert !AnyDropped(keep, init);
    } else {
      LowOutputForm(init, keep, summary, p);
      assert Dropped(keep, init[p]) && AnyDropped(keep, init);
      var rest := init[p..];
      assert ts[p..] == rest + [t] && ts[..p] == init[..p];
      Grouping.FilterSnoc(Surviving(keep), rest, t);
      Grouping.MapSnoc(Untagged, Grouping.Filter(Surviving(keep), rest), t);
    }
  }

  lemma {:induction false} FirstOf(keep: set<Tagged>, ts: seq<Tagged>) returns (p: nat)
    requires AnyDropped(keep, ts)
    ensures FirstDropped(keep, ts, p)
  {
    var init := ts[..|ts| - 1];
    if AnyDropped(keep, init) {
      p := FirstOf(keep, init);
    } else {
      p := |ts| - 1;
      assert forall i :: 0 <= i < p ==> init[i] == ts[i];
    }
  }

  lemma LowsSplit(fs: seq<Finding>)
    requires |Lows(fs)| > CAP_LOW
    ensures var kept, absorbed := SortedLows(fs)[..CAP_LOW - 1], SortedLows(fs)[CAP_LOW - 1..];
            && multiset(kept) + multiset(absorbed) == multiset(Lows(fs))
            && forall t, u :: t in kept && u in absorbed ==> CompareFindings(t.1, u.1) <= 0 && t != u
  {
    var sorted, n := SortedLows(fs), CAP_LOW - 1;
    var kept, absorbed := sorted[..n], sorted[n..];
    assert sorted == kept + absorbed;
    TagDistinct(fs);
    Grouping.FilterDistinct(IsLowTag, Tag(fs));
    Sorting.SortDistinct(CompareTagged, Lows(fs));
    forall t, u | t in kept && u in absorbed ensures CompareFindings(t.1, u.1) <= 0 && t != u {
      var i :| 0 <= i < |kept| && kept[i] == t;
      var j :| 0 <= j < |absorbed| && absorbed[j] == u;
      LowsOrdered(fs, i, n + j);
      assert sorted[i] == t && sorted[n + j] == u;
    }
  }

  lemma DroppedAreAbsorbed(fs: seq<Finding>, t: Tagged)
    requires |Lows(fs)| > CAP_LOW && t in Tag(fs)
    ensures Dropped(KeptLows(fs), t) <==> t in SortedLows(fs)[CAP_LOW - 1..]
  {
    var sorted, n := SortedLows(fs), CAP_LOW - 1;
    var kept, absorbed := sorted[..n], sorted[n..];
    LowsSplit(fs);
    assert sorted == kept + absorbed;
    Sorting.SortMembers(CompareTagged, Lows(fs));
    assert t in Lows(fs) <==> IsLowTag(t);
    assert t in sorted <==> t in kept || t in absorbed;
  }

  /** The findings of these places. */
  function AtPlaces(ts: seq<Tagged>): seq<Finding> { Grouping.Map(Untagged, ts) }

  function NotIn(absorbed: seq<Tagged>): Tagged -> bool {
    (t: Tagged) => t !in absorbed
  }

  /**
   * Over the low cap the first 19 low findings stay, one summary stands for the others at the place of the first of them,
   * and every other finding stays where it is.
   */
  lemma LowCapSplits(fs: seq<Finding>) returns (kept: seq<Tagged>, absorbed: seq<Tagged>, p: nat)
    requires |Lows(fs)| > CAP_LOW
    ensures |kept| == CAP_LOW - 1 && multiset(kept) + multiset(absorbed) == multiset(Lows(fs))
    ensures forall t, u :: t in kept && u in absorbed ==> CompareFindings(t.1, u.1) <= 0
    ensures Grouping.TiesInOrder(CompareTagged, Lows(fs), kept, absorbed)
    ensures p < |fs| && Tag(fs)[p] in absorbed && forall i :: 0 <= i < p ==> Tag(fs)[i] !in absorbed
    ensures LowCap(fs) == fs[..p] + [Summary(LOW_TAIL, AtPlaces(absorbed))] + AtPlaces(Grouping.Filter(NotIn(absorbed), Tag(fs)[p..]))
  {
    kept, absorbed := SortedLows(fs)[..CAP_LOW - 1], SortedLows(fs)[CAP_LOW - 1..];
    LowsSplit(fs);
    p := FirstAbsorbed(fs);
    LowCapForm(fs, p);
    DroppedExactly(fs, absorbed, p);
    FilterSame(Surviving(KeptLows(fs)), NotIn(absorbed), Tag(fs)[p..]);
    CompareTaggedPreorder();
    Grouping.CutKeepsTies(CompareTagged, Lows(fs), CAP_LOW - 1);
  }

  lemma LowCapForm(fs: seq<Finding>, p: nat)
    requires |Lows(fs)| > CAP_LOW && FirstDropped(KeptLows(fs), Tag(fs), p)
    ensures LowCap(fs) == fs[..p] + [Summary(LOW_TAIL, DroppedLows(fs))] + AtPlaces(Grouping.Filter(Surviving(KeptLows(fs)), Tag(fs)[p..]))
  {
    LowOutputForm(Tag(fs), KeptLows(fs), Summary(LOW_TAIL, DroppedLows(fs)), p);
    assert Grouping.Map(Untagged, Tag(fs)[..p]) == fs[..p];
  }

  lemma DroppedExactly(fs: seq<Finding>, absorbed: seq<Tagged>, p: nat)
    requires |Lows(fs)| > CAP_LOW && FirstDropped(KeptLows(fs), Tag(fs), p) && absorbed == SortedLows(fs)[CAP_LOW - 1..]
    ensures Tag(fs)[p] in absorbed && forall i :: 0 <= i < p ==> Tag(fs)[i] !in absorbed
    ensures forall t :: t in Tag(fs)[p..] ==> Surviving(KeptLows(fs))(t) == NotIn(absorbed)(t)
  {
    forall t | t in Tag(fs) ensures Dropped(KeptLows(fs), t) <==> t in absorbed {
      DroppedAreAbsorbed(fs, t);
    }
  }

  lemma LowIsTagged(fs: seq<Finding>, t: Tagged)
    requires t in SortedLows(fs)
    ensures t in Tag(fs)
  {
    Sorting.SortMembers(CompareTagged, Lows(fs));
    assert t in Lows(fs);
  }

  lemma FirstAbsorbed(fs: seq<Finding>) returns (p: nat)
    requires |Lows(fs)| > CAP_LOW
    ensures FirstDropped(KeptLows(fs), Tag(fs), p)
  {
    var sorted := SortedLows(fs);
    var u := sorted[CAP_LOW - 1];
    assert u in sorted && u in sorted[CAP_LOW - 1..];
    LowIsTagged(fs, u);
    DroppedAreAbsorbed(fs, u);
    var i :| 0 <= i < |Tag(fs)| && Tag(fs)[i] == u;
    p := FirstOf(KeptLows(fs), Tag(fs));
  }

  lemma {:induction false} FilterSame(p: Tagged -> bool, q: Tagged -> bool, ts: seq<Tagged>)
    requires forall t :: t in ts ==> p(t) == q(t)
    ensures Grouping.Filter(p, ts) == Grouping.Filter(q, ts)
  {
    if ts != [] {
      FilterSame(p, q, ts[..|ts| - 1]);
    }
  }

  lemma LowCapCovers(fs: seq<Finding>, levels: bool)
    ensures Covered(fs, LowCap(fs), levels)
  {
    if |Lows(fs)| <= CAP_LOW {
      CoveredRefl(fs, levels);
    } else {
      LowSplit(fs);
      SummaryCoversExactly(LOW_TAIL, DroppedLows(fs));
      LowCapCoversAll(fs, KeptLows(fs), Summary(LOW_TAIL, DroppedLows(fs)), levels);
    }
  }

  lemma LowCapCoversAll(fs: seq<Finding>, keep: set<Tagged>, summary: Finding, levels: bool)
    requires forall t :: t in Tag(fs) && Dropped(keep, t) ==> Covers(summary, t.1, levels)
    ensures Covered(fs, LowOutput(Tag(fs), keep, summary), levels)
  {
    forall f | f in fs ensures Represented(f, LowOutput(Tag(fs), keep, summary), levels) {
      var i :| 0 <= i < |fs| && fs[i] == f;
      assert Tag(fs)[i] in Tag(fs);
      LowOutputCovers(Tag(fs), keep, summary, i, levels);
    }
  }

  lemma LowOutputCovers(ts: seq<Tagged>, keep: set<Tagged>, summary: Finding, i: nat, levels: bool)
    requires i < |ts| && (Dropped(keep, ts[i]) ==> Covers(summary, ts[i].1, levels))
    ensures Represented(ts[i].1, LowOutput(ts, keep, summary), levels)
  {
    LowOutputMembers(ts, keep, summary);
    assert ts[i] in ts;
    var g := if Dropped(keep, ts[i]) then summary else ts[i].1;
    assert g in LowOutput(ts, keep, summary) && Covers(g, ts[i].1, levels);
  }

  lemma LowCapInvents(fs: seq<Finding>)
    ensures NothingInvented(fs, LowCap(fs))
  {
    if |Lows(fs)| <= CAP_LOW {
      CoveredRefl(fs, true);
    } else {
      var s := Summary(LOW_TAIL, DroppedLows(fs));
      LowSplit(fs);
      SummaryInvents(fs, DroppedLows(fs), LOW_TAIL);
      assert [s][0] in [s];
      LowOutputMembers(Tag(fs), KeptLows(fs), s);
      KeptInvents(fs, fs);
      forall g | g in LowCap(fs) ensures Accounted(fs, g) {
        if g != s {
          var t :| t in Tag(fs) && g == t.1;
          assert g in fs;
        }
      }
    }
  }

  lemma TagDistinct(fs: seq<Finding>)
    ensures forall i, j :: 0 <= i < j < |Tag(fs)| ==> Tag(fs)[i] != Tag(fs)[j]
  {
    forall i, j | 0 <= i < j < |Tag(fs)| ensures Tag(fs)[i] != Tag(fs)[j] {
      assert Tag(fs)[i].0 == i && Tag(fs)[j].0 == j;
    }
  }

  lemma {:induction false} CountLows(ts: seq<Tagged>)
    ensures Grouping.CountIf(IsLow, Grouping.Map(Untagged, ts)) == |Grouping.Filter(IsLowTag, ts)|
  {
    if ts != [] {
      var init, t := ts[..|ts| - 1], ts[|ts| - 1];
      CountLows(init);
      assert ts == init + [t];
      Grouping.MapSnoc(Untagged, init, t);
      Grouping.CountAppend(IsLow, Grouping.Map(Untagged, init), [t.1]);
      assert Grouping.CountIf(IsLow, [t.1]) == if IsLowTag(t) then 1 else 0;
    }
  }

  lemma LowCapCounts(fs: seq<Finding>, d: Str)
    requires d != SUMMARY
    ensures Grouping.CountIf(IsLow, LowCap(fs)) <= CAP_LOW
    ensures Grouping.CountIf(InCategory(d), LowCap(fs)) <= Grouping.CountIf(InCategory(d), fs)
  {
    UntagTag(fs);
    if |Lows(fs)| <= CAP_LOW {
      CountLows(Tag(fs));
    } else {
      LowSplit(fs);
      TagDistinct(fs);
      var s := Summary(LOW_TAIL, DroppedLows(fs));
      LowOutputLows(Tag(fs), KeptLows(fs), s);
      CountKept(Tag(fs), KeptLows(fs));
      LowOutputCategory(Tag(fs), KeptLows(fs), s, d);
    }
  }

  lemma TagStep(fs: seq<Finding>, i: nat)
    requires i < |fs|
    ensures Tag(fs)[..i + 1] == Tag(fs)[..i] + [(i, fs[i])]
  {
  }

  /** The pass as written: membership of the kept set is by identity, here by place. */
  method ApplyLowCap(fs: seq<Finding>) returns (output: seq<Finding>)
    ensures output == LowCap(fs)
  {
    var lows := Lows(fs);
    if |lows| <= CAP_LOW {
      return fs;
    }
    var sorted := SortedLows(fs);
    var keepLows := KeptLows(fs);
    var dropLows := Grouping.Map(Untagged, sorted[CAP_LOW - 1..]);
    LowSplit(fs);
    ghost var summary := Summary(LOW_TAIL, DroppedLows(fs));
    var droppedSummaryAdded := false;
    output := [];
    for i := 0 to |fs|
      invariant output == LowOutput(Tag(fs)[..i], keepLows, summary)
      invariant droppedSummaryAdded <==> AnyDropped(keepLows, Tag(fs)[..i])
    {
      var f := fs[i];
      TagStep(fs, i);
      DroppedStep(keepLows, Tag(fs)[..i], (i, f));
      if f.level != Low {
        output := output + [f];
      } else if (i, f) in keepLows {
        output := output + [f];
      } else if !droppedSummaryAdded {
        var s := BuildClusterSummary(LOW_TAIL, dropLows);
        output := output + [s];
        droppedSummaryAdded := true;
      }
    }
    assert Tag(fs)[..|fs|] == Tag(fs);
  }

  lemma DroppedStep(keep: set<Tagged>, ts: seq<Tagged>, t: Tagged)
    ensures AnyDropped(keep, ts + [t]) <==> AnyDropped(keep, ts) || Dropped(keep, t)
    ensures (ts + [t])[..|ts|] == ts
  {
    assert forall i :: 0 <= i < |ts| ==> (ts + [t])[i] == ts[i];
    assert (ts + [t])[|ts|] == t;
  }

  // ---------------------------------------------------------------- pass 4: total

  function TotalCap(fs: seq<Finding>): seq<Finding> {
    if |fs| <= CAP_TOTAL then fs else KeepAndSummarize(fs, CAP_TOTAL - 1, TAIL)
  }

  /** Over the total cap the first 89 findings stay and one summary stands for the others. */
  lemma TotalCapSplits(fs: seq<Finding>) returns (kept: seq<Finding>, absorbed: seq<Finding>)
    requires |fs| > CAP_TOTAL
    ensures |kept| == CAP_TOTAL - 1 && Splits(fs, kept, absorbed) && TotalCap(fs) == kept + [Summary(TAIL, absorbed)]
  {
    kept, absorbed := KeepAndSummarizeSplits(fs, CAP_TOTAL - 1, TAIL);
  }

  lemma TotalCapCovers(fs: seq<Finding>, levels: bool)
    ensures Covered(fs, TotalCap(fs), levels) && NothingInvented(fs, TotalCap(fs))
  {
    if |fs| <= CAP_TOTAL {
      CoveredRefl(fs, levels);
    } else {
      TailIsNotLowTail();
      KeepAndSummarizeCovers(fs, CAP_TOTAL - 1, TAIL, levels);
      KeepAndSummarizeInvents(fs, CAP_TOTAL - 1, TAIL);
    }
  }

  lemma TailIsNotLowTail()
    ensures TAIL != LOW_TAIL
  {
    CategoryTailIsLowTail([]);
  }

  /** Even when the last pass adds a low summary, it takes at least one low finding away. */
  lemma TotalCapCounts(fs: seq<Finding>, d: Str)
    requires d != SUMMARY
    ensures |TotalCap(fs)| <= CAP_TOTAL
    ensures Grouping.CountIf(IsLow, TotalCap(fs)) <= Grouping.CountIf(IsLow, fs)
    ensures Grouping.CountIf(InCategory(d), TotalCap(fs)) <= Grouping.CountIf(InCategory(d), fs)
  {
    if |fs| > CAP_TOTAL {
      TailIsNotLowTail();
      var sorted, n := SortFindings(fs), CAP_TOTAL - 1;
      SplitCount(IsLow, fs, n);
      SplitCount(InCategory(d), fs, n);
      SummaryCounts(sorted[..n], sorted[n..], Summary(TAIL, sorted[n..]), d);
    }
  }

  lemma SplitCount(p: Finding -> bool, fs: seq<Finding>, n: nat)
    requires n <= |fs|
    ensures Grouping.CountIf(p, SortFindings(fs)[..n]) + Grouping.CountIf(p, SortFindings(fs)[n..]) == Grouping.CountIf(p, fs)
  {
    Grouping.CountSort(CompareFindings, p, fs);
    Grouping.CountSplit(p, SortFindings(fs), n);
  }

  lemma SummaryCounts(kept: seq<Finding>, dropped: seq<Finding>, s: Finding, d: Str)
    requires dropped != [] && s.level == MaxLevel(dropped) && s.category != d
    ensures Grouping.CountIf(IsLow, kept + [s]) <= Grouping.CountIf(IsLow, kept) + Grouping.CountIf(IsLow, dropped)
    ensures Grouping.CountIf(InCategory(d), kept + [s]) == Grouping.CountIf(InCategory(d), kept)
  {
    Grouping.CountAppend(IsLow, kept, [s]);
    Grouping.CountAppend(InCategory(d), kept, [s]);
    assert Grouping.CountIf(InCategory(d), [s]) == 0;
    LowSummaryCounts(dropped, s);
  }

  /** A summary is low only when everything it absorbed is. */
  lemma LowSummaryCounts(dropped: seq<Finding>, s: Finding)
    requires dropped != [] && s.level == MaxLevel(dropped)
    ensures Grouping.CountIf(IsLow, [s]) <= Grouping.CountIf(IsLow, dropped)
  {
    Grouping.CountBounds(IsLow, dropped);
    if s.level == Low {
      forall f | f in dropped ensures IsLow(f) {
        assert f.level.Rank() <= s.level.Rank();
      }
    }
  }

  method ApplyTotalCap(fs: seq<Finding>) returns (output: seq<Finding>)
    ensures output == TotalCap(fs)
  {
    if |fs| <= CAP_TOTAL {
      return fs;
    }
    var sorted := SortFindings(fs);
    var summary := BuildClusterSummary(TAIL, sorted[CAP_TOTAL - 1..]);
    output := sorted[..CAP_TOTAL - 1] + [summary];
  }
}
