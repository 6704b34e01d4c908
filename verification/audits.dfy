/** The license audit as a whole, and what its report means for the graph. */
module Audits {
  import opened Text
  import opened LicenseGraph
  import opened Reachability
  import opened Importers
  import opened Provenances
  import opened AuditCache
  import opened AuditModel
  import opened AuditBuild
  import Sorting

  // ---------------------------------------------------------------- what is asked of the inputs

  /** The identity behind every reachable snapshot has a collected, verified entry. */
  ghost predicate ReachableCovered(g: Graph, packages: Packages, entries: seq<Entry>, policy: Policy) {
    forall k :: ReachableKey(g, k) && k in g.snapshots ==> IdentityCovered(packages, entries, policy, g.snapshots[k].packageKey)
  }

  ghost predicate IdentityCovered(packages: Packages, entries: seq<Entry>, policy: Policy, p: Str) {
    p in packages && exists v :: Verified(packages[p], entries, policy, v)
  }

  ghost predicate Auditable(g: Graph, packages: Packages, entries: seq<Entry>, policy: Policy, maxPathDepth: int) {
    && GraphValid(g, packages) && WithinDepth(g, maxPathDepth) && NoDuplicates(entries) && AllReferenced(entries, packages)
    && ReachableCovered(g, packages, entries, policy)
  }

  // ---------------------------------------------------------------- groups and rows

  lemma ValidGraphDangles(g: Graph, packages: Packages)
    requires GraphValid(g, packages)
    ensures NoDangling(g)
  {
    forall k | k in AllKeys(g) ensures k in g.snapshots {
      if r :| r in g.roots && r.key == k {
        var i :| 0 <= i < |g.roots| && g.roots[i] == r;
      } else if n, i :| n in g.snapshots && 0 <= i < |g.snapshots[n].dependencies| && g.snapshots[n].dependencies[i].target == k {
        assert NodeFits(g, packages, g.snapshots[n]);
      } else {
        var n, i :| n in g.snapshots && 0 <= i < |g.snapshots[n].optionalDependencies| && g.snapshots[n].optionalDependencies[i].target == k;
        assert NodeFits(g, packages, g.snapshots[n]);
      }
    }
    forall k | ReachableKey(g, k) ensures k in g.snapshots {
      var q, p :| WalkTo(g, p, State(k, q));
      WalkStates(g, p, State(k, q));
    }
  }

  lemma GroupsReady(g: Graph, packages: Packages, reach: Reach, groups: map<Str, Group>)
    requires GroupsExact(g, reach.Keys, groups) && GraphValid(g, packages) && ExactReach(g, reach) && forall k :: k in reach ==> k in g.snapshots
    ensures AllReady(g, packages, reach, groups)
  {
  }

  lemma GroupKeyCovered(g: Graph, packages: Packages, entries: seq<Entry>, policy: Policy, reach: Reach, nv: Str, group: Group, p: Str)
    requires GroupExact(g, reach.Keys, nv, group) && ExactReach(g, reach) && ReachableCovered(g, packages, entries, policy) && p in group.packageKeys
    ensures IdentityCovered(packages, entries, policy, p)
  {
    var k :| InGroup(g, reach.Keys, nv, k) && g.snapshots[k].packageKey == p;
    assert ReachableKey(g, k);
  }

  lemma SnapshotKeyCovered(g: Graph, packages: Packages, entries: seq<Entry>, policy: Policy, reach: Reach, groups: map<Str, Group>, k: Str)
    requires GroupsExact(g, reach.Keys, groups) && GroupsCovered(packages, entries, policy, groups, groups.Keys) && k in reach && k in g.snapshots
    ensures IdentityCovered(packages, entries, policy, g.snapshots[k].packageKey)
  {
    var nv := NameVersion(g.snapshots[k]);
    assert InGroup(g, reach.Keys, nv, k);
    assert nv in groups && GroupExact(g, reach.Keys, nv, groups[nv]);
    assert CoveredKeys(packages, entries, policy, groups[nv].packageKeys);
  }

  lemma GroupsMeanCoverage(g: Graph, packages: Packages, entries: seq<Entry>, policy: Policy, reach: Reach, groups: map<Str, Group>)
    requires GroupsExact(g, reach.Keys, groups) && ExactReach(g, reach)
    ensures GroupsCovered(packages, entries, policy, groups, groups.Keys) <==> ReachableCovered(g, packages, entries, policy)
  {
    if ReachableCovered(g, packages, entries, policy) {
      forall nv | nv in groups ensures CoveredKeys(packages, entries, policy, groups[nv].packageKeys) {
        forall p | p in groups[nv].packageKeys ensures p in packages && exists v :: Verified(packages[p], entries, policy, v) {
          GroupKeyCovered(g, packages, entries, policy, reach, nv, groups[nv], p);
        }
      }
    }
    if GroupsCovered(packages, entries, policy, groups, groups.Keys) {
      forall k | ReachableKey(g, k) && k in g.snapshots ensures IdentityCovered(packages, entries, policy, g.snapshots[k].packageKey) {
        SnapshotKeyCovered(g, packages, entries, policy, reach, groups, k);
      }
    }
  }

  ghost predicate Inside(reach: Reach, rows: seq<Row>) {
    forall i :: 0 <= i < |rows| ==> rows[i].snapshotKeys != {} && rows[i].snapshotKeys <= reach.Keys
  }

  ghost predicate Complete(reach: Reach, rows: seq<Row>) {
    forall k :: k in reach ==> exists i :: 0 <= i < |rows| && k in rows[i].snapshotKeys
  }

  ghost predicate RowsApart(rows: seq<Row>) {
    forall i, j :: 0 <= i < j < |rows| ==> rows[i].snapshotKeys !! rows[j].snapshotKeys
  }

  /** The rows split the reachable snapshots: each is in one row, and in no other. */
  ghost predicate Partition(reach: Reach, rows: seq<Row>) { Inside(reach, rows) && Complete(reach, rows) && RowsApart(rows) }

  /** The snapshots of the row are those of the name and version. */
  ghost predicate KeysOf(g: Graph, done: set<Str>, nv: Str, row: Row) {
    row.snapshotKeys != {} && forall k :: k in row.snapshotKeys <==> InGroup(g, done, nv, k)
  }

  lemma RowKeys(g: Graph, packages: Packages, entries: seq<Entry>, policy: Policy, reach: Reach, nv: Str, row: Row)
    requires RowExact(g, packages, entries, policy, reach, nv, row)
    ensures KeysOf(g, reach.Keys, nv, row)
  {
    var k := GroupNotEmpty(g, reach.Keys, nv, Group(row.name, row.version, row.snapshotKeys, row.packageKeys));
  }

  lemma KeysPartition(g: Graph, reach: Reach, groups: map<Str, Group>, rows: seq<Row>, of: seq<Str>)
    requires |of| == |rows| && (forall i :: 0 <= i < |rows| ==> KeysOf(g, reach.Keys, of[i], rows[i]))
    requires forall i, j :: 0 <= i < j < |of| ==> of[i] != of[j]
    requires forall k :: k in reach ==> k in g.snapshots && NameVersion(g.snapshots[k]) in of
    ensures Partition(reach, rows)
  {
    forall k | k in reach ensures exists i :: 0 <= i < |rows| && k in rows[i].snapshotKeys {
      var i :| 0 <= i < |of| && of[i] == NameVersion(g.snapshots[k]);
      assert InGroup(g, reach.Keys, of[i], k);
    }
    forall i, j | 0 <= i < j < |rows| ensures rows[i].snapshotKeys !! rows[j].snapshotKeys {
      KeysApart(g, reach.Keys, of[i], rows[i], of[j], rows[j]);
    }
  }

  lemma KeysApart(g: Graph, done: set<Str>, nv: Str, row: Row, nv': Str, row': Row)
    requires KeysOf(g, done, nv, row) && KeysOf(g, done, nv', row') && nv != nv'
    ensures row.snapshotKeys !! row'.snapshotKeys
  {
    forall k | k in row.snapshotKeys ensures k !in row'.snapshotKeys {
      assert InGroup(g, done, nv, k);
    }
  }

  lemma RowsPartition(g: Graph, packages: Packages, entries: seq<Entry>, policy: Policy, reach: Reach, groups: map<Str, Group>, rows: seq<Row>, of: seq<Str>)
    requires GroupsExact(g, reach.Keys, groups) && (forall k :: k in reach ==> k in g.snapshots)
    requires RowsExact(g, packages, entries, policy, reach, groups.Keys, rows, of)
    ensures Partition(reach, rows)
  {
    forall i | 0 <= i < |rows| ensures KeysOf(g, reach.Keys, of[i], rows[i]) {
      RowKeys(g, packages, entries, policy, reach, of[i], rows[i]);
    }
    forall k | k in reach ensures NameVersion(g.snapshots[k]) in of {
      assert InGroup(g, reach.Keys, NameVersion(g.snapshots[k]), k);
    }
    KeysPartition(g, reach, groups, rows, of);
  }

  // ---------------------------------------------------------------- the report is sorted

  function CompareRows(a: Row, b: Row): int {
    if Cmp(a.name, b.name) != 0 then Cmp(a.name, b.name) else Cmp(a.version, b.version)
  }

  lemma CompareRowsPreorder()
    ensures Sorting.TotalPreorder(CompareRows)
  {
    forall a, b ensures CompareRows(a, b) <= 0 || CompareRows(b, a) <= 0 {
      CmpOrder(a.name, b.name);
      CmpOrder(a.version, b.version);
    }
    forall a, b, c | CompareRows(a, b) <= 0 && CompareRows(b, c) <= 0 ensures CompareRows(a, c) <= 0 {
      CmpOrder(a.name, b.name);
      CmpOrder(b.name, c.name);
      CmpTransitive(a.name, b.name, c.name);
      if a.name == b.name == c.name {
        CmpTransitive(a.version, b.version, c.version);
      }
    }
  }

  lemma PartitionDistinct(reach: Reach, rows: seq<Row>)
    requires Partition(reach, rows)
    ensures forall i, j :: 0 <= i < j < |rows| ==> rows[i] != rows[j]
  {
    forall i, j | 0 <= i < j < |rows| ensures rows[i] != rows[j] {
      var k :| k in rows[i].snapshotKeys;
    }
  }

  /** The same rows, each once, in another order. */
  ghost predicate Reordered(rows: seq<Row>, sorted: seq<Row>) {
    (forall row :: row in sorted <==> row in rows) && forall i, j :: 0 <= i < j < |sorted| ==> sorted[i] != sorted[j]
  }

  lemma ReorderedComplete(reach: Reach, rows: seq<Row>, sorted: seq<Row>)
    requires Complete(reach, rows) && Reordered(rows, sorted)
    ensures Complete(reach, sorted)
  {
    forall k | k in reach ensures exists i :: 0 <= i < |sorted| && k in sorted[i].snapshotKeys {
      var i :| 0 <= i < |rows| && k in rows[i].snapshotKeys;
      assert rows[i] in sorted;
      var j :| 0 <= j < |sorted| && sorted[j] == rows[i];
    }
  }

  lemma ReorderedApart(rows: seq<Row>, sorted: seq<Row>, i: nat, j: nat)
    requires RowsApart(rows) && Reordered(rows, sorted) && i < j < |sorted|
    ensures sorted[i].snapshotKeys !! sorted[j].snapshotKeys
  {
    assert sorted[i] in rows && sorted[j] in rows;
    var a :| 0 <= a < |rows| && rows[a] == sorted[i];
    var b :| 0 <= b < |rows| && rows[b] == sorted[j];
    if a < b {
      assert rows[a].snapshotKeys !! rows[b].snapshotKeys;
    } else {
      assert rows[b].snapshotKeys !! rows[a].snapshotKeys;
    }
  }

  lemma ReorderedPartition(reach: Reach, rows: seq<Row>, sorted: seq<Row>)
    requires Partition(reach, rows) && Reordered(rows, sorted)
    ensures Partition(reach, sorted)
  {
    ReorderedComplete(reach, rows, sorted);
    forall i, j | 0 <= i < j < |sorted| ensures sorted[i].snapshotKeys !! sorted[j].snapshotKeys {
      ReorderedApart(rows, sorted, i, j);
    }
    forall i | 0 <= i < |sorted| ensures sorted[i].snapshotKeys != {} && sorted[i].snapshotKeys <= reach.Keys {
      assert sorted[i] in rows;
    }
  }

  lemma SortKeepsPartition(reach: Reach, rows: seq<Row>)
    requires Partition(reach, rows)
    ensures Partition(reach, Sorting.Sort(CompareRows, rows)) && Sorting.Sorted(CompareRows, Sorting.Sort(CompareRows, rows))
    ensures forall row :: row in Sorting.Sort(CompareRows, rows) <==> row in rows
  {
    Sorting.SortMembers(CompareRows, rows);
    PartitionDistinct(reach, rows);
    Sorting.SortDistinct(CompareRows, rows);
    ReorderedPartition(reach, rows, Sorting.Sort(CompareRows, rows));
    CompareRowsPreorder();
    Sorting.SortSorted(CompareRows, rows);
  }

  // ---------------------------------------------------------------- the audit

  /** Every row says exactly what its group gives. */
  ghost predicate EachRowExact(g: Graph, packages: Packages, entries: seq<Entry>, policy: Policy, reach: Reach, rows: seq<Row>) {
    forall row :: row in rows ==> exists nv :: RowExact(g, packages, entries, policy, reach, nv, row)
  }

  /** The report: its rows split the reachable snapshots, in order, and each is exact. */
  ghost predicate ReportExact(g: Graph, packages: Packages, entries: seq<Entry>, policy: Policy, reach: Reach, audit: Audit) {
    && audit.Audit? && ExactReach(g, reach) && NoDangling(g) && audit.reachableCount == |reach|
    && Partition(reach, audit.rows) && Sorting.Sorted(CompareRows, audit.rows)
    && EachRowExact(g, packages, entries, policy, reach, audit.rows)
  }

  lemma RowsEachExact(g: Graph, packages: Packages, entries: seq<Entry>, policy: Policy, reach: Reach, done: set<Str>, rows: seq<Row>, of: seq<Str>, sorted: seq<Row>)
    requires RowsExact(g, packages, entries, policy, reach, done, rows, of) && forall row :: row in sorted <==> row in rows
    ensures EachRowExact(g, packages, entries, policy, reach, sorted)
  {
    forall row | row in sorted ensures exists nv :: RowExact(g, packages, entries, policy, reach, nv, row) {
      assert row in rows;
      var i :| 0 <= i < |rows| && rows[i] == row;
      assert RowExact(g, packages, entries, policy, reach, of[i], rows[i]);
    }
  }

  lemma ReachInside(g: Graph, reach: Reach)
    requires NoDangling(g) && ExactReach(g, reach)
    ensures forall k :: k in reach ==> k in g.snapshots
  {
  }

  lemma ReportParts(g: Graph, packages: Packages, entries: seq<Entry>, policy: Policy, reach: Reach, sorted: seq<Row>)
    requires NoDangling(g) && ExactReach(g, reach) && Partition(reach, sorted) && Sorting.Sorted(CompareRows, sorted)
    requires EachRowExact(g, packages, entries, policy, reach, sorted)
    ensures ReportExact(g, packages, entries, policy, reach, Audit(|reach|, sorted))
  {
  }

  lemma ReportReady(g: Graph, packages: Packages, entries: seq<Entry>, policy: Policy, reach: Reach, groups: map<Str, Group>,
                    rows: seq<Row>, of: seq<Str>, sorted: seq<Row>)
    requires NoDangling(g) && ExactReach(g, reach) && GroupsExact(g, reach.Keys, groups) && sorted == Sorting.Sort(CompareRows, rows)
    requires RowsExact(g, packages, entries, policy, reach, groups.Keys, rows, of)
    ensures ReportExact(g, packages, entries, policy, reach, Audit(|reach|, sorted))
  {
    assert Partition(reach, rows) by {
      ReachInside(g, reach);
      RowsPartition(g, packages, entries, policy, reach, groups, rows, of);
    }
    SortKeepsPartition(reach, rows);
    assert EachRowExact(g, packages, entries, policy, reach, sorted) by {
      RowsEachExact(g, packages, entries, policy, reach, groups.Keys, rows, of, sorted);
    }
    ReportParts(g, packages, entries, policy, reach, sorted);
  }

  method GroupReachable(g: Graph, packages: Packages, ghost entries: seq<Entry>, policy: Policy, reach: Reach) returns (groups: map<Str, Group>)
    requires GraphValid(g, packages) && NoDangling(g) && ExactReach(g, reach)
    ensures GroupsExact(g, reach.Keys, groups) && AllReady(g, packages, reach, groups)
    ensures GroupsCovered(packages, entries, policy, groups, groups.Keys) <==> ReachableCovered(g, packages, entries, policy)
  {
    ReachInside(g, reach);
    groups := GroupByNameVersion(g, reach.Keys);
    GroupsReady(g, packages, reach, groups);
    GroupsMeanCoverage(g, packages, entries, policy, reach, groups);
  }

  /** Rows for the reachable snapshots, when every identity behind them is covered. */
  method Assemble(g: Graph, packages: Packages, ghost entries: seq<Entry>, registry: map<RegistryKey, Entry>, ghost unsupported: map<Str, Entry>,
                  policy: Policy, reach: Reach) returns (audit: Audit)
    requires Known(entries, registry, unsupported) && GraphValid(g, packages) && NoDangling(g) && ExactReach(g, reach)
    ensures audit.Audit? <==> ReachableCovered(g, packages, entries, policy)
    ensures audit.Audit? ==> ReportExact(g, packages, entries, policy, reach, audit)
  {
    var groups := GroupReachable(g, packages, entries, policy, reach);
    var ok, rows, of := BuildRows(g, packages, entries, registry, unsupported, policy, reach, groups);
    if !ok {
      return Refused;
    }
    var sorted := Sorting.Sort(CompareRows, rows);
    ReportReady(g, packages, entries, policy, reach, groups, rows, of, sorted);
    return Audit(|reach|, sorted);
  }

  method BuildAuditModel(g: Graph, packages: Packages, entries: seq<Entry>, policy: Policy, maxPathDepth: int)
    returns (audit: Audit, ghost reach: Reach)
    ensures audit.Audit? <==> Auditable(g, packages, entries, policy, maxPathDepth)
    ensures audit.Audit? ==> ReportExact(g, packages, entries, policy, reach, audit)
  {
    reach := map[];
    var valid := ValidateReferentialIntegrity(g, packages);
    if !valid {
      return Refused, reach;
    }
    ValidGraphDangles(g, packages);
    var result := ComputeReachability(g, maxPathDepth);
    FailedMeans(g, maxPathDepth, result);
    if result.Failed? {
      return Refused, reach;
    }
    var duplicates, registry, unsupported := IndexCache(entries);
    if duplicates {
      return Refused, reach;
    }
    reach := result.reach;
    var referenced := CheckReferences(entries, packages);
    audit := Assemble(g, packages, entries, registry, unsupported, policy, result.reach);
    if !referenced {
      audit := Refused;
    }
  }

  // ---------------------------------------------------------------- what a row means for the graph

  lemma BestIsLeast(g: Graph, reach: Reach, keys: set<Str>, best: map<Posture, Path>, q: Posture, other: Str, w: Path)
    requires ExactReach(g, reach) && keys <= reach.Keys && BestOver(reach, keys, best) && q in best
    requires other in keys && WalkTo(g, w, State(other, q))
    ensures ComparePath(best[q], w) <= 0
  {
    ShortestIsLeast(g, reach, other, q, w);
    ComparePathTransitive(best[q], reach[other].shortest[q], w);
  }

  lemma ShortestIsLeast(g: Graph, reach: Reach, k: Str, q: Posture, w: Path)
    requires ExactReach(g, reach) && k in reach && WalkTo(g, w, State(k, q))
    ensures q in reach[k].shortest && ComparePath(reach[k].shortest[q], w) <= 0
  {
    assert Exact(g, k, reach[k]) && Reachable(g, State(k, q));
  }

  lemma ShortestIsWalk(g: Graph, reach: Reach, k: Str, q: Posture)
    requires ExactReach(g, reach) && k in reach && q in reach[k].shortest
    ensures WalkTo(g, reach[k].shortest[q], State(k, q))
  {
    assert Exact(g, k, reach[k]);
  }

  lemma BestFrom(reach: Reach, keys: set<Str>, best: map<Posture, Path>, q: Posture) returns (k: Str)
    requires BestOver(reach, keys, best) && q in best
    ensures k in keys && k in reach && q in reach[k].shortest && best[q] == reach[k].shortest[q]
  {
    k :| k in keys && k in reach && q in reach[k].shortest && best[q] == reach[k].shortest[q];
  }

  /** For each posture of a row, its path is the least of all walks to any of its snapshots in that posture. */
  lemma RowPathIsLeast(g: Graph, packages: Packages, entries: seq<Entry>, policy: Policy, reach: Reach, nv: Str, row: Row, q: Posture) returns (k: Str)
    requires ExactReach(g, reach) && RowExact(g, packages, entries, policy, reach, nv, row) && q in row.provenance.best
    ensures k in row.snapshotKeys && WalkTo(g, row.provenance.best[q], State(k, q))
    ensures forall other, w :: other in row.snapshotKeys && WalkTo(g, w, State(other, q)) ==> ComparePath(row.provenance.best[q], w) <= 0
  {
    var keys, best := row.snapshotKeys, row.provenance.best;
    k := BestFrom(reach, keys, best, q);
    ShortestIsWalk(g, reach, k, q);
    forall other, w | other in keys && WalkTo(g, w, State(other, q)) ensures ComparePath(best[q], w) <= 0 {
      BestIsLeast(g, reach, keys, best, q, other, w);
    }
  }

  /** A row has a posture, a parent or an importer exactly when one of its snapshots has. */
  lemma RowProvenance(g: Graph, packages: Packages, entries: seq<Entry>, policy: Policy, reach: Reach, nv: Str, row: Row)
    requires ExactReach(g, reach) && RowExact(g, packages, entries, policy, reach, nv, row)
    ensures forall q :: q in row.postures <==> exists k :: k in row.snapshotKeys && Reachable(g, State(k, q))
    ensures forall i :: i in row.provenance.importers <==> exists k :: k in row.snapshotKeys && OriginatesFrom(g, k, i)
    ensures forall p :: p in row.provenance.parents <==> exists k :: k in row.snapshotKeys && ReachableKey(g, p) && Linked(g, p, k)
  {
    forall k | k in row.snapshotKeys ensures k in reach && Exact(g, k, reach[k]) {
    }
  }

  /** No name and version string can be read in two ways among these snapshots. */
  ghost predicate Unambiguous(g: Graph) {
    forall a, b :: a in g.snapshots && b in g.snapshots && NameVersion(g.snapshots[a]) == NameVersion(g.snapshots[b])
                   ==> g.snapshots[a].name == g.snapshots[b].name && g.snapshots[a].version == g.snapshots[b].version
  }

  /** Where the strings are unambiguous, a row's snapshots all have its name and version. */
  lemma RowIdentity(g: Graph, packages: Packages, entries: seq<Entry>, policy: Policy, reach: Reach, nv: Str, row: Row, k: Str)
    requires RowExact(g, packages, entries, policy, reach, nv, row) && Unambiguous(g) && k in row.snapshotKeys
    ensures k in g.snapshots && g.snapshots[k].name == row.name && g.snapshots[k].version == row.version
  {
    var group := Group(row.name, row.version, row.snapshotKeys, row.packageKeys);
    assert GroupExact(g, reach.Keys, nv, group);
    var w :| InGroup(g, reach.Keys, nv, w) && g.snapshots[w].name == group.name && g.snapshots[w].version == group.version;
    assert InGroup(g, reach.Keys, nv, k);
  }

  /** A row gives no aggregate exactly when two of its variants disagree. */
  lemma AggregateExactly(g: Graph, packages: Packages, entries: seq<Entry>, policy: Policy, reach: Reach, nv: Str, row: Row)
    requires RowExact(g, packages, entries, policy, reach, nv, row) && ProperLicenses(row.variants)
    ensures row.aggregate.NoAggregate? <==> !AllAgree(row.variants)
    ensures !AllAgree(row.variants) ==> row.disposition == ReviewRequired
  {
    ConflictsExactly(row.variants);
  }

  lemma RowVariant(g: Graph, packages: Packages, entries: seq<Entry>, policy: Policy, reach: Reach, nv: Str, row: Row, k: Str) returns (v: Variant)
    requires RowExact(g, packages, entries, policy, reach, nv, row) && k in row.snapshotKeys
    ensures k in g.snapshots && g.snapshots[k].packageKey in packages && v in row.variants
    ensures Verified(packages[g.snapshots[k].packageKey], entries, policy, v)
  {
    assert InGroup(g, reach.Keys, nv, k);
    var p := g.snapshots[k].packageKey;
    assert p in row.packageKeys;
    v :| v in row.variants && Verified(packages[p], entries, policy, v);
  }

  /** Behind every reachable snapshot there is a variant in its row whose tarball had the integrity the lockfile pins. */
  lemma SnapshotIsVerified(g: Graph, packages: Packages, entries: seq<Entry>, policy: Policy, reach: Reach, audit: Audit, k: Str)
    returns (row: Row, v: Variant)
    requires ReportExact(g, packages, entries, policy, reach, audit) && ReachableKey(g, k)
    ensures row in audit.rows && k in row.snapshotKeys && v in row.variants && k in g.snapshots && g.snapshots[k].packageKey in packages
    ensures Verified(packages[g.snapshots[k].packageKey], entries, policy, v)
  {
    var nv;
    row, nv := RowOf(g, packages, entries, policy, reach, audit.rows, k);
    v := RowVariant(g, packages, entries, policy, reach, nv, row, k);
  }

  lemma RowOf(g: Graph, packages: Packages, entries: seq<Entry>, policy: Policy, reach: Reach, rows: seq<Row>, k: Str) returns (row: Row, nv: Str)
    requires Complete(reach, rows) && EachRowExact(g, packages, entries, policy, reach, rows) && k in reach
    ensures row in rows && k in row.snapshotKeys && RowExact(g, packages, entries, policy, reach, nv, row)
  {
    var i :| 0 <= i < |rows| && k in rows[i].snapshotKeys;
    row := rows[i];
    assert row in rows;
    nv :| RowExact(g, packages, entries, policy, reach, nv, row);
  }
}
