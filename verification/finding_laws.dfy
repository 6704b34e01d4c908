/** When two findings are one, how findings are ordered, and what a summary tells, in terms of their fields alone. */
module FindingLaws {
  import opened Text
  import opened Findings
  import opened Coverage
  import opened Deduplication
  import opened Clustering
  import Grouping
  import SortedKeys

  // ---------------------------------------------------------------- identity

  /** The first evidence names this file, or no file is named and it is empty. */
  predicate HasFile(f: Finding, file: Str) {
    if f.evidence == [] || f.evidence[0].file == None then file == [] else f.evidence[0].file == Some(file)
  }

  predicate HasLine(f: Finding, line: int) {
    if f.evidence == [] || f.evidence[0].line == None then line == 0 else f.evidence[0].line == Some(line)
  }

  predicate HasDetail(f: Finding, detail: Detail) {
    if f.evidence == [] then detail == Written([]) else f.evidence[0].detail == detail
  }

  /** Same id and category, and same file, line and text of the first evidence, a missing one counting as empty or zero. */
  ghost predicate Alike(f: Finding, g: Finding) {
    && f.id == g.id && f.category == g.category
    && (exists file :: HasFile(f, file) && HasFile(g, file))
    && (exists line :: HasLine(f, line) && HasLine(g, line))
    && (exists detail :: HasDetail(f, detail) && HasDetail(g, detail))
  }

  lemma FieldsExactly(f: Finding)
    ensures forall file :: HasFile(f, file) <==> file == FileOf(f)
    ensures forall line :: HasLine(f, line) <==> line == LineOf(f)
    ensures forall detail :: HasDetail(f, detail) <==> detail == DetailOf(f)
  {
  }

  /** Two findings have one deduplication key exactly when they are alike. */
  lemma KeyExactly(f: Finding, g: Finding)
    ensures Key(f) == Key(g) <==> Alike(f, g)
  {
    FieldsExactly(f);
    FieldsExactly(g);
    if Key(f) == Key(g) {
      assert HasFile(f, FileOf(f)) && HasFile(g, FileOf(f));
      assert HasLine(f, LineOf(f)) && HasLine(g, LineOf(f));
      assert HasDetail(f, DetailOf(f)) && HasDetail(g, DetailOf(f));
    }
  }

  /** Place `i`, and no other, holds a finding alike to `f`. */
  ghost predicate AlikeOnlyAt(out: seq<Finding>, f: Finding, i: nat) {
    i < |out| && forall j :: 0 <= j < |out| ==> (Alike(out[j], f) <==> j == i)
  }

  lemma AlikeAtKey(out: seq<Finding>, f: Finding, i: nat)
    requires KeysApart(out) && i < |out| && Key(out[i]) == Key(f)
    ensures AlikeOnlyAt(out, f, i)
  {
    forall j | 0 <= j < |out| ensures Alike(out[j], f) <==> j == i {
      KeyExactly(out[j], f);
    }
  }

  lemma KeyComesOut(fs: seq<Finding>, f: Finding) returns (i: nat)
    requires f in fs
    ensures i < |Dedup(fs)| && Key(Dedup(fs)[i]) == Key(f)
  {
    var keys := Keys(fs);
    assert Key(f) in keys;
    i :| 0 <= i < |keys| && keys[i] == Key(f);
    DedupAt(fs, i);
  }

  /** Each finding is alike to exactly one that comes out. */
  lemma OneComesOut(fs: seq<Finding>, f: Finding) returns (i: nat)
    requires f in fs
    ensures AlikeOnlyAt(Dedup(fs), f, i)
  {
    i := KeyComesOut(fs, f);
    DistinctKeys(fs);
    AlikeAtKey(Dedup(fs), f, i);
  }

  /** Two findings come out as one exactly when they are alike. */
  lemma MergedExactly(fs: seq<Finding>, f: Finding, g: Finding)
    requires f in fs && g in fs
    ensures (exists h :: h in Dedup(fs) && Alike(h, f) && Alike(h, g)) <==> Alike(f, g)
  {
    KeyExactly(f, g);
    if h :| h in Dedup(fs) && Alike(h, f) && Alike(h, g) {
      KeyExactly(h, f);
      KeyExactly(h, g);
    }
    if Alike(f, g) {
      var i := OneComesOut(fs, f);
      var h := Dedup(fs)[i];
      assert Alike(h, f);
      KeyExactly(h, f);
      KeyExactly(h, g);
    }
  }

  /** Findings no two of which are alike all come out, unchanged and in order. */
  lemma UnlikeAllStay(fs: seq<Finding>)
    requires forall i, j :: 0 <= i < j < |fs| ==> !Alike(fs[i], fs[j])
    ensures Dedup(fs) == fs
  {
    forall i, j | 0 <= i < j < |fs| ensures Key(fs[i]) != Key(fs[j]) {
      KeyExactly(fs[i], fs[j]);
    }
    DedupOfApart(fs);
  }

  // ---------------------------------------------------------------- order

  /** Critical over high over medium over low. */
  predicate Higher(a: Level, b: Level) {
    || (a.Critical? && !b.Critical?)
    || (a.High? && (b.Medium? || b.Low?))
    || (a.Medium? && b.Low?)
  }

  lemma RankExactly(a: Level, b: Level)
    ensures a.Rank() > b.Rank() <==> Higher(a, b)
    ensures CompareLevel(a, b) > 0 <==> Higher(a, b)
    ensures a.Rank() == b.Rank() <==> a == b
  {
  }

  /** Higher level first, then by category, id, file and line of the first evidence. */
  ghost predicate FindingBefore(a: Finding, b: Finding) {
    || Higher(a.level, b.level)
    || (a.level == b.level && Less(a.category, b.category))
    || (a.level == b.level && a.category == b.category && Less(a.id, b.id))
    || (a.level == b.level && a.category == b.category && a.id == b.id && FileBefore(a, b))
    || (a.level == b.level && a.category == b.category && a.id == b.id && SameFile(a, b) && LineBefore(a, b))
  }

  ghost predicate SameFile(a: Finding, b: Finding) { exists file :: HasFile(a, file) && HasFile(b, file) }

  ghost predicate FileBefore(a: Finding, b: Finding) { exists x, y :: HasFile(a, x) && HasFile(b, y) && Less(x, y) }

  ghost predicate LineBefore(a: Finding, b: Finding) { exists x, y :: HasLine(a, x) && HasLine(b, y) && x < y }

  lemma EvidenceBefore(a: Finding, b: Finding)
    ensures SameFile(a, b) <==> FileOf(a) == FileOf(b)
    ensures FileBefore(a, b) <==> Less(FileOf(a), FileOf(b))
    ensures LineBefore(a, b) <==> LineOf(a) < LineOf(b)
  {
    FieldsExactly(a);
    FieldsExactly(b);
    assert HasFile(a, FileOf(a)) && HasFile(b, FileOf(b)) && HasLine(a, LineOf(a)) && HasLine(b, LineOf(b));
  }

  /** A finding sorts strictly before another exactly in this order. */
  lemma CompareFindingsExactly(a: Finding, b: Finding)
    ensures CompareFindings(a, b) < 0 <==> FindingBefore(a, b)
  {
    RankExactly(a.level, b.level);
    RankExactly(b.level, a.level);
    EvidenceBefore(a, b);
    CmpExactly(a.category, b.category);
    CmpExactly(a.id, b.id);
    CmpExactly(FileOf(a), FileOf(b));
    LessAsymmetric(a.category, a.category);
    LessAsymmetric(a.id, a.id);
    LessAsymmetric(FileOf(a), FileOf(a));
  }

  // ---------------------------------------------------------------- what a summary tells

  /** The files that the first evidence of some finding names. */
  ghost function NamedFiles(fs: seq<Finding>): set<Str> {
    set f, file | f in fs && file in [FileOf(f)] && file != [] :: file
  }

  lemma NamedFilesExactly(fs: seq<Finding>, file: Str)
    ensures file in NamedFiles(fs) <==> file != [] && exists f :: f in fs && HasFile(f, file)
  {
    forall f: Finding ensures HasFile(f, file) <==> file == FileOf(f) {
      FieldsExactly(f);
    }
    if f :| f in fs && HasFile(f, file) && file != [] {
      assert file in [FileOf(f)];
    }
  }

  lemma NamedOnes(fs: seq<Finding>, file: Str)
    ensures file in Grouping.Filter((p: Str) => |p| > 0, Grouping.Map(FileOf, fs)) <==> file in NamedFiles(fs)
  {
    var all := Grouping.Map(FileOf, fs);
    if file in all {
      var i :| 0 <= i < |all| && all[i] == file;
      assert fs[i] in fs && file in [FileOf(fs[i])];
    }
    if file in NamedFiles(fs) {
      var f :| f in fs && file in [FileOf(f)] && file != [];
      var i :| 0 <= i < |fs| && fs[i] == f;
      assert all[i] == file;
    }
  }

  lemma UnionOfOne(names: seq<Str>, all: set<Str>)
    requires forall p :: p in names <==> p in all
    ensures UnionPaths([names]) == SortedKeys.Ordered(all)
  {
    UnionPathsMeaning([names]);
    forall p ensures p in UnionPaths([names]) <==> p in all {
      assert [names][0] == names;
    }
    SortedKeys.AscendingUnique(UnionPaths([names]), SortedKeys.Ordered(all));
  }

  lemma FilesInOrder(fs: seq<Finding>)
    ensures FilesOf(fs) == SortedKeys.Ordered(NamedFiles(fs))
  {
    forall file ensures file in Grouping.Filter((p: Str) => |p| > 0, Grouping.Map(FileOf, fs)) <==> file in NamedFiles(fs) {
      NamedOnes(fs, file);
    }
    UnionOfOne(Grouping.Filter((p: Str) => |p| > 0, Grouping.Map(FileOf, fs)), NamedFiles(fs));
  }

  /** What `evidence` says of `count` findings whose files, in order, are `files`. */
  ghost predicate Tells(evidence: seq<Evidence>, count: nat, files: seq<Str>) {
    && |evidence| == (if files == [] then 1 else if |files| <= 11 then |files| else 11)
    && evidence[0].detail == MoreSummarized(count)
    && (files == [] ==> evidence[0].file == None)
    && (files != [] ==> forall i :: 0 <= i < |evidence| ==> evidence[i].file == Some(files[i]))
    && (forall i :: 0 < i < |evidence| ==> evidence[i].detail == Representative)
    && (forall i :: 0 <= i < |evidence| ==> evidence[i].line == None)
  }

  lemma EvidenceTells(fs: seq<Finding>, files: seq<Str>)
    requires FilesOf(fs) == files
    ensures Tells(SummaryEvidence(fs), |fs|, files)
  {
  }

  /** The evidence of a summary: how many findings it stands for, and the first eleven of their files, in order. */
  lemma SummaryTells(clusterId: Str, fs: seq<Finding>)
    ensures Summary(clusterId, fs).id == clusterId && Spelled(Summary(clusterId, fs).category, "summary")
    ensures Tells(Summary(clusterId, fs).evidence, |fs|, SortedKeys.Ordered(NamedFiles(fs)))
  {
    FilesInOrder(fs);
    EvidenceTells(fs, FilesOf(fs));
  }

  // ---------------------------------------------------------------- below the caps

  /** No cap touches a list that is within it. */
  lemma CapsLeaveAlone(category: Str, fs: seq<Finding>)
    ensures |fs| <= 30 ==> CapGroup(category, fs) == fs
    ensures Grouping.CountIf(IsLow, fs) <= 20 ==> LowCap(fs) == fs
    ensures |fs| <= 90 ==> TotalCap(fs) == fs
  {
    UntagTag(fs);
    CountLows(Tag(fs));
  }

  ghost predicate NamesTail(id: Str, category: Str) {
    exists a, b :: Spelled(a, "cluster.") && Spelled(b, "-tail") && id == a + category + b
  }

  lemma CategoryTailNames(category: Str)
    ensures NamesTail(CategoryTail(category), category)
  {
    assert Spelled(Lit("cluster."), "cluster.") && Spelled(Lit("-tail"), "-tail");
  }

  /** What stands last above a cap is the summary named for it, after exactly 29 or 89 findings. */
  lemma CategoryTailStands(category: Str, fs: seq<Finding>) returns (kept: seq<Finding>, s: Finding)
    requires |fs| > 30
    ensures CapGroup(category, fs) == kept + [s] && |kept| == 29
    ensures NamesTail(s.id, category)
  {
    var absorbed;
    kept, absorbed := CapGroupSplits(category, fs);
    s := Summary(CategoryTail(category), absorbed);
    CategoryTailNames(category);
  }

  lemma TailStands(fs: seq<Finding>) returns (kept: seq<Finding>, s: Finding)
    requires |fs| > 90
    ensures TotalCap(fs) == kept + [s] && |kept| == 89
    ensures Spelled(s.id, "cluster.tail")
  {
    var absorbed;
    kept, absorbed := TotalCapSplits(fs);
    s := Summary(TAIL, absorbed);
  }

  lemma LowTailStands(fs: seq<Finding>) returns (p: nat)
    requires Grouping.CountIf(IsLow, fs) > 20
    ensures p < |LowCap(fs)| && Spelled(LowCap(fs)[p].id, "cluster.low-tail") && LowCap(fs)[p].level == Low
  {
    UntagTag(fs);
    CountLows(Tag(fs));
    var kept, absorbed, at := LowCapSplits(fs);
    p := at;
  }
}
