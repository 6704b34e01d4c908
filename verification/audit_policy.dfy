/** What a row of the report says: its place, its snapshots, its disposition, and the reasons of a conflict. */
module AuditPolicy {
  import opened Text
  import opened LicenseGraph
  import opened Reachability
  import opened Provenances
  import opened AuditCache
  import opened AuditModel
  import opened AuditBuild
  import opened Audits
  import Sorting

  // ---------------------------------------------------------------- reasons

  /** The two variants disagree on the fact of this reason; license values are compared only where both were declared. */
  ghost predicate Differ(r: Reason, a: Variant, b: Variant) {
    match r
    case IntegrityReason => a.integrity != b.integrity
    case PresenceReason => a.facts.rawLicensePresent != b.facts.rawLicensePresent
    case RawLicenseReason => a.facts.rawLicensePresent && b.facts.rawLicensePresent && a.facts.rawLicense != b.facts.rawLicense
    case SpdxReason => a.facts.spdx != b.facts.spdx
    case LegalFilesReason => a.facts.legalFiles != b.facts.legalFiles
    case DispositionReason => a.disposition != b.disposition
    case ObligationsReason => a.obligations != b.obligations
  }

  ghost predicate Disagree(r: Reason, vs: seq<Variant>) {
    exists i, j :: 0 <= i < |vs| && 0 <= j < |vs| && Differ(r, vs[i], vs[j])
  }

  function Place(r: Reason): nat {
    match r
    case IntegrityReason => 0
    case PresenceReason => 1
    case RawLicenseReason => 2
    case SpdxReason => 3
    case LegalFilesReason => 4
    case DispositionReason => 5
    case ObligationsReason => 6
  }

  ghost predicate PlacesAscend(rs: seq<Reason>) { forall i, j :: 0 <= i < j < |rs| ==> Place(rs[i]) < Place(rs[j]) }

  /** The reasons of the first `n` places that hold, in order. */
  ghost predicate ReasonsUpTo(rs: seq<Reason>, vs: seq<Variant>, n: nat) {
    PlacesAscend(rs) && forall r :: r in rs <==> Place(r) < n && Disagree(r, vs)
  }

  lemma DistinctMeans<T>(values: seq<T>, r: Reason, vs: seq<Variant>)
    requires |values| == |vs|
    requires forall i, j :: 0 <= i < |vs| && 0 <= j < |vs| ==> (values[i] != values[j] <==> Differ(r, vs[i], vs[j]))
    ensures Distinct(values) <==> Disagree(r, vs)
  {
    DistinctExactly(values);
  }

  lemma TextsMean(vs: seq<Variant>)
    requires ProperLicenses(vs)
    ensures Distinct(RawTexts(vs)) <==> Disagree(RawLicenseReason, vs)
  {
    TextsAgree(vs);
    if i, j :| 0 <= i < |vs| && 0 <= j < |vs| && Differ(RawLicenseReason, vs[i], vs[j]) {
      assert !LicensesAgree(vs);
    }
    if !LicensesAgree(vs) {
      var i, j :| 0 <= i < |vs| && 0 <= j < |vs| && vs[i].facts.rawLicensePresent && vs[j].facts.rawLicensePresent
                  && vs[i].facts.rawLicense != vs[j].facts.rawLicense;
      assert Differ(RawLicenseReason, vs[i], vs[j]);
    }
  }

  function With(rs: seq<Reason>, r: Reason, given: bool): seq<Reason> { rs + if given then [r] else [] }

  lemma OneMoreReason(rs: seq<Reason>, vs: seq<Variant>, r: Reason, given: bool)
    requires ReasonsUpTo(rs, vs, Place(r)) && (given <==> Disagree(r, vs))
    ensures ReasonsUpTo(With(rs, r, given), vs, Place(r) + 1)
  {
    forall i | 0 <= i < |rs| ensures Place(rs[i]) < Place(r) {
      assert rs[i] in rs;
    }
    forall other ensures Place(other) < Place(r) + 1 <==> Place(other) < Place(r) || other == r {
    }
  }

  lemma VerifiedFactsMean(vs: seq<Variant>)
    ensures Distinct(Integrities(vs)) <==> Disagree(IntegrityReason, vs)
    ensures Distinct(Presences(vs)) <==> Disagree(PresenceReason, vs)
    ensures Distinct(Expressions(vs)) <==> Disagree(SpdxReason, vs)
  {
    DistinctMeans(Integrities(vs), IntegrityReason, vs);
    DistinctMeans(Presences(vs), PresenceReason, vs);
    DistinctMeans(Expressions(vs), SpdxReason, vs);
  }

  lemma JudgedFactsMean(vs: seq<Variant>)
    ensures Distinct(LegalFiles(vs)) <==> Disagree(LegalFilesReason, vs)
    ensures Distinct(Dispositions(vs)) <==> Disagree(DispositionReason, vs)
    ensures Distinct(Obligations(vs)) <==> Disagree(ObligationsReason, vs)
  {
    DistinctMeans(LegalFiles(vs), LegalFilesReason, vs);
    DistinctMeans(Dispositions(vs), DispositionReason, vs);
    DistinctMeans(Obligations(vs), ObligationsReason, vs);
  }

  function FirstChosen(a: bool, b: bool, c: bool, d: bool): seq<Reason> {
    With(With(With(if a then [IntegrityReason] else [], PresenceReason, b), RawLicenseReason, c), SpdxReason, d)
  }

  function Chosen(first: seq<Reason>, e: bool, f: bool, g: bool): seq<Reason> {
    With(With(With(first, LegalFilesReason, e), DispositionReason, f), ObligationsReason, g)
  }

  lemma DetectsChosen(vs: seq<Variant>)
    ensures DetectConflictReasons(vs) ==
            Chosen(FirstChosen(Distinct(Integrities(vs)), Distinct(Presences(vs)), Distinct(RawTexts(vs)), Distinct(Expressions(vs))),
                   Distinct(LegalFiles(vs)), Distinct(Dispositions(vs)), Distinct(Obligations(vs)))
  {
  }

  /** A reason is reported exactly when two variants disagree on its fact, each once and in this order. */
  lemma ReasonsExactly(vs: seq<Variant>)
    requires ProperLicenses(vs)
    ensures ReasonsUpTo(DetectConflictReasons(vs), vs, 7)
  {
    VerifiedFactsMean(vs);
    TextsMean(vs);
    JudgedFactsMean(vs);
    DetectsChosen(vs);
    var first := FirstChosen(Distinct(Integrities(vs)), Distinct(Presences(vs)), Distinct(RawTexts(vs)), Distinct(Expressions(vs)));
    FirstReasons(vs, Distinct(Integrities(vs)), Distinct(Presences(vs)), Distinct(RawTexts(vs)), Distinct(Expressions(vs)));
    LastReasons(vs, first, Distinct(LegalFiles(vs)), Distinct(Dispositions(vs)), Distinct(Obligations(vs)));
  }

  lemma FirstReasons(vs: seq<Variant>, a: bool, b: bool, c: bool, d: bool)
    requires a <==> Disagree(IntegrityReason, vs)
    requires b <==> Disagree(PresenceReason, vs)
    requires c <==> Disagree(RawLicenseReason, vs)
    requires d <==> Disagree(SpdxReason, vs)
    ensures ReasonsUpTo(FirstChosen(a, b, c, d), vs, 4)
  {
    var one := if a then [IntegrityReason] else [];
    assert [] + one == one;
    var two := With(one, PresenceReason, b);
    var three := With(two, RawLicenseReason, c);
    OneMoreReason([], vs, IntegrityReason, a);
    OneMoreReason(one, vs, PresenceReason, b);
    OneMoreReason(two, vs, RawLicenseReason, c);
    OneMoreReason(three, vs, SpdxReason, d);
  }

  lemma LastReasons(vs: seq<Variant>, first: seq<Reason>, e: bool, f: bool, g: bool)
    requires ReasonsUpTo(first, vs, 4)
    requires e <==> Disagree(LegalFilesReason, vs)
    requires f <==> Disagree(DispositionReason, vs)
    requires g <==> Disagree(ObligationsReason, vs)
    ensures ReasonsUpTo(Chosen(first, e, f, g), vs, 7)
  {
    var five := With(first, LegalFilesReason, e);
    var six := With(five, DispositionReason, f);
    OneMoreReason(first, vs, LegalFilesReason, e);
    OneMoreReason(five, vs, DispositionReason, f);
    OneMoreReason(six, vs, ObligationsReason, g);
  }

  // ---------------------------------------------------------------- dispositions

  /** Every row of a report is exact. */
  lemma RowIsOf(g: Graph, packages: Packages, entries: seq<Entry>, policy: Policy, reach: Reach, audit: Audit, row: Row) returns (nv: Str)
    requires ReportExact(g, packages, entries, policy, reach, audit) && row in audit.rows
    ensures RowExact(g, packages, entries, policy, reach, nv, row)
  {
    nv := RowAt(g, packages, entries, policy, reach, audit.rows, row);
  }

  lemma RowAt(g: Graph, packages: Packages, entries: seq<Entry>, policy: Policy, reach: Reach, rows: seq<Row>, row: Row) returns (nv: Str)
    requires EachRowExact(g, packages, entries, policy, reach, rows) && row in rows
    ensures RowExact(g, packages, entries, policy, reach, nv, row)
  {
    nv :| RowExact(g, packages, entries, policy, reach, nv, row);
  }

  /** Every variant of every row has what the policy lists for its expression, and wants review where nothing is listed. */
  lemma VariantsAsListed(g: Graph, packages: Packages, entries: seq<Entry>, policy: Policy, reach: Reach, audit: Audit, row: Row, v: Variant)
    requires ReportExact(g, packages, entries, policy, reach, audit) && row in audit.rows && v in row.variants
    ensures AsListed(policy, v)
  {
    var nv := RowIsOf(g, packages, entries, policy, reach, audit, row);
    ListedInRow(packages, entries, policy, row, v);
  }

  lemma ListedInRow(packages: Packages, entries: seq<Entry>, policy: Policy, row: Row, v: Variant)
    requires VariantsExact(packages, entries, policy, row) && v in row.variants
    ensures AsListed(policy, v)
  {
    assert Verified(packages[v.packageKey], entries, policy, v);
  }

  /** The policy lists the expression of these facts with this disposition. */
  ghost predicate ListedAs(policy: Policy, facts: Facts, d: Disposition) {
    exists text :: facts.spdx == Expression(text) && text in policy.Keys && policy[text].disposition == d
  }

  lemma ListedMeans(policy: Policy, v: Variant, d: Disposition)
    requires AsListed(policy, v) && d != ReviewRequired
    ensures v.disposition == d <==> ListedAs(policy, v.facts, d)
  {
    if v.disposition == d {
      assert v.facts.spdx == Expression(v.facts.spdx.text);
    }
  }

  /** A row wants anything but review exactly when its variants agree and the policy lists their expression so. */
  lemma DispositionExactly(g: Graph, packages: Packages, entries: seq<Entry>, policy: Policy, reach: Reach, audit: Audit, row: Row, d: Disposition)
    requires ReportExact(g, packages, entries, policy, reach, audit) && row in audit.rows && d != ReviewRequired
    ensures row.disposition == d <==> row.aggregate.Aggregate? && ListedAs(policy, row.aggregate.facts, d)
  {
    var nv := RowIsOf(g, packages, entries, policy, reach, audit, row);
    DispositionOfRow(packages, entries, policy, row, d);
  }

  lemma DispositionOfRow(packages: Packages, entries: seq<Entry>, policy: Policy, row: Row, d: Disposition)
    requires VariantsExact(packages, entries, policy, row) && FactsExact(row) && d != ReviewRequired
    ensures row.disposition == d <==> row.aggregate.Aggregate? && ListedAs(policy, row.aggregate.facts, d)
  {
    var v := row.variants[0];
    assert v in row.variants;
    ListedInRow(packages, entries, policy, row, v);
    ListedMeans(policy, v, d);
  }

  /** The reasons of a row are exactly the facts its variants disagree on, in order. */
  lemma RowReasons(g: Graph, packages: Packages, entries: seq<Entry>, policy: Policy, reach: Reach, nv: Str, row: Row)
    requires RowExact(g, packages, entries, policy, reach, nv, row) && ProperLicenses(row.variants)
    ensures ReasonsUpTo(row.reasons, row.variants, 7)
  {
    ReasonsExactly(row.variants);
  }

  // ---------------------------------------------------------------- rows

  ghost predicate HasVariant(row: Row, p: Str) { exists v :: v in row.variants && v.packageKey == p }

  /** A row has one variant for each identity behind its snapshots, in the order of their keys. */
  lemma VariantForEach(g: Graph, packages: Packages, entries: seq<Entry>, policy: Policy, reach: Reach, nv: Str, row: Row)
    requires RowExact(g, packages, entries, policy, reach, nv, row)
    ensures KeysAscend(row.variants)
    ensures forall p :: HasVariant(row, p) <==> exists k :: k in row.snapshotKeys && k in g.snapshots && g.snapshots[k].packageKey == p
  {
    forall p ensures HasVariant(row, p) <==> exists k :: k in row.snapshotKeys && k in g.snapshots && g.snapshots[k].packageKey == p {
      KeyHasVariant(packages, entries, policy, row, p);
      KeyHasSnapshot(g, reach.Keys, nv, row, p);
    }
  }

  lemma KeyHasVariant(packages: Packages, entries: seq<Entry>, policy: Policy, row: Row, p: Str)
    requires VariantsExact(packages, entries, policy, row)
    ensures HasVariant(row, p) <==> p in row.packageKeys
  {
  }

  lemma KeyHasSnapshot(g: Graph, done: set<Str>, nv: Str, row: Row, p: Str)
    requires GroupExact(g, done, nv, Group(row.name, row.version, row.snapshotKeys, row.packageKeys))
    ensures p in row.packageKeys <==> exists k :: k in row.snapshotKeys && k in g.snapshots && g.snapshots[k].packageKey == p
  {
  }

  /** The name, an at sign and the version. */
  ghost predicate Spells(n: Node, name: Str, version: Str) { n.name + Lit("@") + n.version == name + Lit("@") + version }

  lemma NameVersionSpells(n: Node, nv: Str)
    ensures NameVersion(n) == nv <==> n.name + Lit("@") + n.version == nv
  {
    assert Lit("@") == [AT];
  }

  /** The snapshots of a row are the reachable ones whose name, an at sign and version spell what its own do. */
  lemma RowSnapshots(g: Graph, packages: Packages, entries: seq<Entry>, policy: Policy, reach: Reach, nv: Str, row: Row, k: Str)
    requires RowExact(g, packages, entries, policy, reach, nv, row) && ExactReach(g, reach)
    ensures k in row.snapshotKeys <==> ReachableKey(g, k) && k in g.snapshots && Spells(g.snapshots[k], row.name, row.version)
  {
    var w := RowName(g, reach.Keys, nv, row);
    if k in g.snapshots {
      NameVersionSpells(g.snapshots[k], nv);
    }
    NameVersionSpells(g.snapshots[w], nv);
    assert k in row.snapshotKeys <==> InGroup(g, reach.Keys, nv, k);
  }

  lemma RowName(g: Graph, done: set<Str>, nv: Str, row: Row) returns (k: Str)
    requires GroupExact(g, done, nv, Group(row.name, row.version, row.snapshotKeys, row.packageKeys))
    ensures InGroup(g, done, nv, k) && k in row.snapshotKeys && g.snapshots[k].name == row.name && g.snapshots[k].version == row.version
  {
    var group := Group(row.name, row.version, row.snapshotKeys, row.packageKeys);
    k :| InGroup(g, done, nv, k) && g.snapshots[k].name == group.name && g.snapshots[k].version == group.version;
  }

  ghost predicate RowBefore(a: Row, b: Row) { Less(a.name, b.name) || (a.name == b.name && Less(a.version, b.version)) }

  lemma SameNameSharesSnapshots(g: Graph, packages: Packages, entries: seq<Entry>, policy: Policy, reach: Reach, nv: Str, a: Row, nv': Str, b: Row)
    requires RowExact(g, packages, entries, policy, reach, nv, a) && RowExact(g, packages, entries, policy, reach, nv', b)
    requires a.name == b.name && a.version == b.version
    ensures !(a.snapshotKeys !! b.snapshotKeys)
  {
    var k := RowName(g, reach.Keys, nv, a);
    var k' := RowName(g, reach.Keys, nv', b);
    assert InGroup(g, reach.Keys, nv', k);
    assert k in a.snapshotKeys && k in b.snapshotKeys;
  }

  lemma CompareRowsExactly(a: Row, b: Row)
    requires a.name != b.name || a.version != b.version
    ensures CompareRows(a, b) <= 0 <==> RowBefore(a, b)
  {
    CmpOrder(a.name, b.name);
    CmpOrder(a.version, b.version);
    CmpExactly(a.name, b.name);
    CmpExactly(a.version, b.version);
  }

  /** The rows come by name and then by version, no two of them with the same. */
  lemma RowsInOrder(g: Graph, packages: Packages, entries: seq<Entry>, policy: Policy, reach: Reach, audit: Audit, i: nat, j: nat)
    requires ReportExact(g, packages, entries, policy, reach, audit) && i < j < |audit.rows|
    ensures RowBefore(audit.rows[i], audit.rows[j])
  {
    RowsOrdered(g, packages, entries, policy, reach, audit.rows, i, j);
  }

  lemma RowsOrdered(g: Graph, packages: Packages, entries: seq<Entry>, policy: Policy, reach: Reach, rows: seq<Row>, i: nat, j: nat)
    requires EachRowExact(g, packages, entries, policy, reach, rows) && RowsApart(rows) && Sorting.Sorted(CompareRows, rows) && i < j < |rows|
    ensures RowBefore(rows[i], rows[j])
  {
    var nv := RowAt(g, packages, entries, policy, reach, rows, rows[i]);
    var nv' := RowAt(g, packages, entries, policy, reach, rows, rows[j]);
    RowsBefore(g, packages, entries, policy, reach, nv, rows[i], nv', rows[j]);
  }

  lemma RowsBefore(g: Graph, packages: Packages, entries: seq<Entry>, policy: Policy, reach: Reach, nv: Str, a: Row, nv': Str, b: Row)
    requires RowExact(g, packages, entries, policy, reach, nv, a) && RowExact(g, packages, entries, policy, reach, nv', b)
    requires a.snapshotKeys !! b.snapshotKeys && CompareRows(a, b) <= 0
    ensures RowBefore(a, b)
  {
    if a.name == b.name && a.version == b.version {
      SameNameSharesSnapshots(g, packages, entries, policy, reach, nv, a, nv', b);
    }
    CompareRowsExactly(a, b);
  }

  // ---------------------------------------------------------------- the entry behind a snapshot

  lemma IdentityFits(g: Graph, packages: Packages, k: Str)
    requires GraphValid(g, packages) && k in g.snapshots
    ensures var n := g.snapshots[k];
            n.packageKey in packages && packages[n.packageKey].name == n.name && packages[n.packageKey].version == n.version
  {
    assert NodeFits(g, packages, g.snapshots[k]);
  }

  /** The cache speaks for every reachable snapshot by its own name and version, and by the integrity the lockfile pins for it. */
  lemma SnapshotIsCollected(g: Graph, packages: Packages, entries: seq<Entry>, policy: Policy, reach: Reach, nv: Str, row: Row, k: Str)
    returns (v: Variant)
    requires GraphValid(g, packages) && RowExact(g, packages, entries, policy, reach, nv, row) && k in row.snapshotKeys
    ensures k in g.snapshots && v in row.variants && g.snapshots[k].packageKey in packages
    ensures Collected(g.snapshots[k].name, g.snapshots[k].version, v.integrity, v.integrity, v.facts) in entries
    ensures packages[g.snapshots[k].packageKey].integrity == Pinned(v.integrity)
  {
    v := RowVariant(g, packages, entries, policy, reach, nv, row, k);
    IdentityFits(g, packages, k);
  }
}
