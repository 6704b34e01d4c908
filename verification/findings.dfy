/** Detector findings, their order, their identity and the cluster summary that absorbs several of them. */
module Findings {
  import opened Text
  import Grouping
  import SortedKeys
  import Sorting

  datatype Option<+T> = None | Some(value: T) {
    function GetOr(default: T): T {
      if Some? then value else default
    }
  }

  datatype Level = Low | Medium | High | Critical {
    function Rank(): nat {
      match this
      case Low => 0
      case Medium => 1
      case High => 2
      case Critical => 3
    }
  }

  /** Evidence text: a detector's own, or one of the two lines a summary writes. */
  datatype Detail = Written(text: Str) | MoreSummarized(count: nat) | Representative

  datatype Evidence = Evidence(detail: Detail, file: Option<Str>, line: Option<int>)

  /** `body` stands for the title, message, confidence and recommendation, which no pass reads. */
  datatype Finding = Finding(id: Str, category: Str, level: Level, evidence: seq<Evidence>, paths: seq<Str>, body: Str)

  function FileOf(f: Finding): Str {
    if |f.evidence| > 0 then f.evidence[0].file.GetOr([]) else []
  }

  function LineOf(f: Finding): int {
    if |f.evidence| > 0 then f.evidence[0].line.GetOr(0) else 0
  }

  function DetailOf(f: Finding): Detail {
    if |f.evidence| > 0 then f.evidence[0].detail else Written([])
  }

  // ---------------------------------------------------------------- order

  function CompareLevel(a: Level, b: Level): int {
    a.Rank() - b.Rank()
  }

  /** Level descending, then category, id, first evidence file and line ascending. */
  function CompareFindings(a: Finding, b: Finding): int {
    if CompareLevel(a.level, b.level) != 0 then -CompareLevel(a.level, b.level)
    else if Cmp(a.category, b.category) != 0 then Cmp(a.category, b.category)
    else if Cmp(a.id, b.id) != 0 then Cmp(a.id, b.id)
    else if Cmp(FileOf(a), FileOf(b)) != 0 then Cmp(FileOf(a), FileOf(b))
    else LineOf(a) - LineOf(b)
  }

  lemma CompareFindingsTransitive(a: Finding, b: Finding, c: Finding)
    requires CompareFindings(a, b) <= 0 && CompareFindings(b, c) <= 0
    ensures CompareFindings(a, c) <= 0
  {
    if a.level == b.level == c.level {
      CmpTransitive(a.category, b.category, c.category);
      CmpOrder(a.category, b.category);
      CmpOrder(b.category, c.category);
      if a.category == b.category == c.category {
        CmpTransitive(a.id, b.id, c.id);
        CmpOrder(a.id, b.id);
        CmpOrder(b.id, c.id);
        if a.id == b.id == c.id {
          CmpTransitive(FileOf(a), FileOf(b), FileOf(c));
          CmpOrder(FileOf(a), FileOf(b));
          CmpOrder(FileOf(b), FileOf(c));
        }
      }
    }
  }

  lemma CompareFindingsTotal(a: Finding, b: Finding)
    ensures CompareFindings(a, b) == -CompareFindings(b, a)
  {
    CmpOrder(a.category, b.category);
    CmpOrder(a.id, b.id);
    CmpOrder(FileOf(a), FileOf(b));
  }

  /** The finding order is a total preorder, and a finding of higher level always comes first. */
  lemma CompareFindingsPreorder()
    ensures Sorting.TotalPreorder(CompareFindings)
    ensures forall a, b :: CompareFindings(a, b) <= 0 ==> a.level.Rank() >= b.level.Rank()
  {
    forall a, b ensures CompareFindings(a, b) <= 0 || CompareFindings(b, a) <= 0 {
      CompareFindingsTotal(a, b);
    }
    forall a, b, c | CompareFindings(a, b) <= 0 && CompareFindings(b, c) <= 0 ensures CompareFindings(a, c) <= 0 {
      CompareFindingsTransitive(a, b, c);
    }
  }

  function SortFindings(fs: seq<Finding>): seq<Finding> {
    Sorting.Sort(CompareFindings, fs)
  }

  // ---------------------------------------------------------------- path sets

  /** Canonical union of path sets: every path once, in order. */
  function UnionPaths(sets: seq<seq<Str>>): seq<Str> {
    Sorting.Sort(Cmp, Grouping.Distinct(Grouping.Flatten(sets)))
  }

  lemma UnionPathsMeaning(sets: seq<seq<Str>>)
    ensures SortedKeys.Ascending(UnionPaths(sets))
    ensures forall p :: p in UnionPaths(sets) <==> exists i :: 0 <= i < |sets| && p in sets[i]
  {
    var merged := Grouping.Distinct(Grouping.Flatten(sets));
    SortedKeys.SortIgnoresOrder(merged, set p | p in merged);
  }

  // ---------------------------------------------------------------- the cluster summary

  function Max(a: Level, b: Level): Level {
    if CompareLevel(b, a) > 0 then b else a
  }

  /** The highest level present, starting from low. */
  function MaxLevel(fs: seq<Finding>): (r: Level)
    ensures forall f :: f in fs ==> f.level.Rank() <= r.Rank()
    ensures r == Low || exists f :: f in fs && f.level == r
  {
    if fs == [] then Low
    else
      assert fs == fs[..|fs| - 1] + [fs[|fs| - 1]];
      Max(MaxLevel(fs[..|fs| - 1]), fs[|fs| - 1].level)
  }

  const SUMMARY := Lit("summary")
  const LOW_TAIL := Lit("cluster.low-tail")
  const TAIL := Lit("cluster.tail")
  const EVIDENCE_FILE_CAP := 10

  function CategoryTail(category: Str): Str {
    Lit("cluster.") + category + Lit("-tail")
  }

  function SummaryLevel(clusterId: Str, clustered: seq<Finding>): Level {
    if clusterId == LOW_TAIL then Low else MaxLevel(clustered)
  }

  function FilesOf(clustered: seq<Finding>): seq<Str> {
    UnionPaths([Grouping.Filter((p: Str) => |p| > 0, Grouping.Map(FileOf, clustered))])
  }

  function SummaryEvidence(clustered: seq<Finding>): seq<Evidence> {
    var files := FilesOf(clustered);
    var count := MoreSummarized(|clustered|);
    if files == [] then [Evidence(count, None, None)]
    else
      var rest := files[1..if |files| <= 1 + EVIDENCE_FILE_CAP then |files| else 1 + EVIDENCE_FILE_CAP];
      [Evidence(count, Some(files[0]), None)] + Grouping.Map((p: Str) => Evidence(Representative, Some(p), None), rest)
  }

  function MemberPaths(fs: seq<Finding>): seq<seq<Str>> {
    Grouping.Map((f: Finding) => f.paths, fs)
  }

  /** The finding that stands for everything a cap pass dropped. */
  function Summary(clusterId: Str, clustered: seq<Finding>): Finding {
    Finding(clusterId, SUMMARY, SummaryLevel(clusterId, clustered), SummaryEvidence(clustered), UnionPaths(MemberPaths(clustered)), [])
  }

  ghost predicate CarriesAll(g: Finding, f: Finding) {
    forall p :: p in f.paths ==> p in g.paths
  }

  /** `g` stands for `f`: it carries all its paths and, when asked, at a level at least as high. */
  ghost predicate Covers(g: Finding, f: Finding, levels: bool) {
    CarriesAll(g, f) && (levels ==> f.level.Rank() <= g.level.Rank())
  }

  lemma SummaryPaths(clusterId: Str, clustered: seq<Finding>)
    ensures forall p :: p in Summary(clusterId, clustered).paths <==> exists f :: f in clustered && p in f.paths
  {
    var sets := MemberPaths(clustered);
    UnionPathsMeaning(sets);
    forall p ensures p in Summary(clusterId, clustered).paths <==> exists f :: f in clustered && p in f.paths {
      if i :| 0 <= i < |sets| && p in sets[i] {
        assert clustered[i] in clustered && p in clustered[i].paths;
      }
      if f :| f in clustered && p in f.paths {
        var i :| 0 <= i < |clustered| && clustered[i] == f;
        assert p in sets[i];
      }
    }
  }

  /** A summary stands for all it absorbed, except that the low tail holds its members' levels only if all are low. */
  lemma SummaryCoversExactly(clusterId: Str, clustered: seq<Finding>)
    ensures forall f :: f in clustered ==> Covers(Summary(clusterId, clustered), f, false)
    ensures (forall f :: f in clustered ==> Covers(Summary(clusterId, clustered), f, true))
            <==> (clusterId != LOW_TAIL || forall f :: f in clustered ==> f.level == Low)
  {
    SummaryPaths(clusterId, clustered);
    var s := Summary(clusterId, clustered);
    forall f | f in clustered ensures CarriesAll(s, f) {
    }
  }

  /** Only the category called "low" makes the per-category summary collide with the low tail. */
  lemma CategoryTailIsLowTail(category: Str)
    ensures CategoryTail(category) == LOW_TAIL <==> category == Lit("low")
    ensures TAIL != LOW_TAIL
  {
    var whole := Lit("cluster.") + Lit("low") + Lit("-tail");
    assert "cluster.low-tail" == "cluster." + "low" + "-tail";
    assert whole == LOW_TAIL;
    if CategoryTail(category) == LOW_TAIL {
      assert |category| == 3;
      assert category == CategoryTail(category)[8..11] == whole[8..11] == Lit("low");
    }
  }
}
