/** `buildAuditModel`: one row for each name and version that is reachable, or a failure. */
module AuditBuild {
  import opened Text
  import opened LicenseGraph
  import opened Provenances
  import opened AuditCache
  import opened AuditModel
  import SortedKeys

  datatype Aggregate = NoAggregate | Aggregate(facts: Facts, obligations: set<Str>)

  datatype Row = Row(
    name: Str, version: Str, primary: Posture, postures: seq<Posture>,
    packageKeys: set<Str>, snapshotKeys: set<Str>, integrities: set<Str>,
    disposition: Disposition, reasons: seq<Reason>, aggregate: Aggregate, variants: seq<Variant>, provenance: Merged)

  datatype Audit = Audit(reachableCount: nat, rows: seq<Row>) | Refused

  // ---------------------------------------------------------------- checks before assembly

  method CheckEdges(g: Graph, edges: seq<Edge>) returns (ok: bool)
    ensures ok <==> EdgesFit(g, edges)
  {
    ok := true;
    for i := 0 to |edges|
      invariant ok <==> forall j :: 0 <= j < i ==> edges[j].target in g.snapshots && g.snapshots[edges[j].target].name == edges[j].name
    {
      if edges[i].target !in g.snapshots || g.snapshots[edges[i].target].name != edges[i].name {
        ok := false;
      }
    }
  }

  method ValidateReferentialIntegrity(g: Graph, packages: Packages) returns (ok: bool)
    ensures ok <==> GraphValid(g, packages)
  {
    ok := true;
    for i := 0 to |g.roots|
      invariant ok <==> forall j :: 0 <= j < i ==> g.roots[j].key in g.snapshots && g.snapshots[g.roots[j].key].name == g.roots[j].name
    {
      if g.roots[i].key !in g.snapshots || g.snapshots[g.roots[i].key].name != g.roots[i].name {
        ok := false;
      }
    }
    ghost var rootsOk := ok;
    var rest := g.snapshots.Keys;
    while rest != {}
      invariant rest <= g.snapshots.Keys
      invariant ok <==> rootsOk && forall k :: k in g.snapshots && k !in rest ==> NodeFits(g, packages, g.snapshots[k])
    {
      var key :| key in rest;
      var n := g.snapshots[key];
      if n.packageKey !in packages {
        ok := false;
      } else if packages[n.packageKey].name != n.name || packages[n.packageKey].version != n.version || packages[n.packageKey].packageKey != n.packageKey {
        ok := false;
      }
      var required := CheckEdges(g, n.dependencies);
      var optional := CheckEdges(g, n.optionalDependencies);
      ok := ok && required && optional;
      rest := rest - {key};
    }
  }

  // ---------------------------------------------------------------- one row

  function RowFrom(group: Group, variants: seq<Variant>, m: Merged): Row
    requires variants != [] && m.postures != {}
  {
    var reasons := DetectConflictReasons(variants);
    var sorted := SortedPostures(m.postures);
    assert sorted != [] by {
      var q :| q in m.postures;
      assert q in sorted;
    }
    Row(group.name, group.version, sorted[0], sorted, group.packageKeys, group.keys, set v | v in variants :: v.integrity,
        if reasons != [] then ReviewRequired else variants[0].disposition, reasons,
        if reasons != [] then NoAggregate else Aggregate(variants[0].facts, variants[0].obligations), variants, m)
  }

  /** The index was made from entries without duplicates. */
  ghost predicate Known(entries: seq<Entry>, registry: map<RegistryKey, Entry>, unsupported: map<Str, Entry>) {
    NoDuplicates(entries) && Indexes(entries, registry, unsupported)
  }

  /** `keys` lists the identities in `domain`, all of them in the lockfile. */
  ghost predicate ListsIdentities(packages: Packages, keys: seq<Str>, domain: set<Str>) {
    (forall p :: p in keys <==> p in domain) && forall p :: p in keys ==> p in packages && packages[p].packageKey == p
  }

  ghost predicate VariantsOf(packages: Packages, registry: map<RegistryKey, Entry>, policy: Policy, keys: seq<Str>, variants: seq<Variant>) {
    && |variants| == |keys| && (forall p :: p in keys ==> p in packages)
    && forall i :: 0 <= i < |keys| ==> Cover(packages[keys[i]], registry, policy) == Covered(variants[i])
  }

  /** Each package key once, in order. */
  ghost predicate KeysAscend(variants: seq<Variant>) {
    forall i, j :: 0 <= i < j < |variants| ==> Less(variants[i].packageKey, variants[j].packageKey)
  }

  /** The variants of a row are exactly the verified facts of its identities, one for each and in order. */
  ghost predicate VariantsExact(packages: Packages, entries: seq<Entry>, policy: Policy, row: Row) {
    && (forall p :: p in row.packageKeys ==> p in packages && exists v :: v in row.variants && v.packageKey == p && Verified(packages[p], entries, policy, v))
    && (forall v :: v in row.variants ==> v.packageKey in row.packageKeys && v.packageKey in packages && Verified(packages[v.packageKey], entries, policy, v))
    && (forall i :: i in row.integrities <==> exists v :: v in row.variants && v.integrity == i)
    && KeysAscend(row.variants)
  }

  /** The facts of a row are given only where its variants leave no doubt. */
  ghost predicate FactsExact(row: Row) {
    && row.variants != [] && row.reasons == DetectConflictReasons(row.variants)
    && (row.aggregate.NoAggregate? <==> row.reasons != [])
    && (row.reasons != [] ==> row.disposition == ReviewRequired)
    && (row.reasons == [] ==> row.disposition == row.variants[0].disposition
                              && row.aggregate == Aggregate(row.variants[0].facts, row.variants[0].obligations))
  }

  ghost predicate RowExact(g: Graph, packages: Packages, entries: seq<Entry>, policy: Policy, reach: Reach, nv: Str, row: Row) {
    && GroupExact(g, reach.Keys, nv, Group(row.name, row.version, row.snapshotKeys, row.packageKeys))
    && VariantsExact(packages, entries, policy, row) && FactsExact(row)
    && row.snapshotKeys <= reach.Keys && MergeExact(reach, row.snapshotKeys, row.provenance)
    && row.postures == SortedPostures(row.provenance.postures) && row.postures != [] && row.primary == row.postures[0]
  }

  ghost predicate CoveredKeys(packages: Packages, entries: seq<Entry>, policy: Policy, keys: set<Str>) {
    forall p :: p in keys ==> p in packages && exists v :: Verified(packages[p], entries, policy, v)
  }

  lemma CoverageMeaning(packages: Packages, entries: seq<Entry>, registry: map<RegistryKey, Entry>, unsupported: map<Str, Entry>, policy: Policy,
                        keys: seq<Str>, domain: set<Str>)
    requires Known(entries, registry, unsupported) && ListsIdentities(packages, keys, domain)
    ensures AllCovered(packages, registry, policy, keys) <==> CoveredKeys(packages, entries, policy, domain)
  {
    forall i | 0 <= i < |keys|
      ensures Cover(packages[keys[i]], registry, policy).Covered? <==> exists v :: Verified(packages[keys[i]], entries, policy, v)
    {
      var id := packages[keys[i]];
      if Cover(id, registry, policy).Covered? {
        CoverExactly(id, entries, registry, unsupported, policy, Cover(id, registry, policy).variant);
      }
      if v :| Verified(id, entries, policy, v) {
        CoverExactly(id, entries, registry, unsupported, policy, v);
      }
    }
    if CoveredKeys(packages, entries, policy, domain) {
      forall i | 0 <= i < |keys| ensures Cover(packages[keys[i]], registry, policy).Covered? {
        assert keys[i] in domain;
      }
    }
    if AllCovered(packages, registry, policy, keys) {
      forall p | p in domain ensures p in packages && exists v :: Verified(packages[p], entries, policy, v) {
        assert p in keys;
        var i :| 0 <= i < |keys| && keys[i] == p;
      }
    }
  }

  lemma VariantsMeaning(packages: Packages, entries: seq<Entry>, registry: map<RegistryKey, Entry>, unsupported: map<Str, Entry>, policy: Policy,
                        keys: seq<Str>, row: Row)
    requires Known(entries, registry, unsupported) && ListsIdentities(packages, keys, row.packageKeys)
    requires VariantsOf(packages, registry, policy, keys, row.variants) && row.integrities == set v | v in row.variants :: v.integrity
    requires SortedKeys.Ascending(keys)
    ensures VariantsExact(packages, entries, policy, row)
  {
    forall i | 0 <= i < |keys| ensures Verified(packages[keys[i]], entries, policy, row.variants[i]) && row.variants[i].packageKey == keys[i] {
      CoverExactly(packages[keys[i]], entries, registry, unsupported, policy, row.variants[i]);
    }
    forall p | p in row.packageKeys ensures p in packages && exists v :: v in row.variants && v.packageKey == p && Verified(packages[p], entries, policy, v) {
      assert p in keys;
      var i :| 0 <= i < |keys| && keys[i] == p;
      assert row.variants[i] in row.variants;
    }
    forall v | v in row.variants
      ensures v.packageKey in row.packageKeys && v.packageKey in packages && Verified(packages[v.packageKey], entries, policy, v)
    {
      var i :| 0 <= i < |row.variants| && row.variants[i] == v;
      assert keys[i] in keys;
    }
  }

  lemma SomePosture(g: Graph, reach: Reach, keys: set<Str>, k: Str, m: Merged)
    requires ExactReach(g, reach) && keys <= reach.Keys && k in keys && MergeExact(reach, keys, m)
    ensures m.postures != {}
  {
    assert Exact(g, k, reach[k]);
    assert reach[k].primaryPosture in reach[k].reachingPostures;
    assert reach[k].primaryPosture in m.postures;
  }

  lemma GroupNotEmpty(g: Graph, done: set<Str>, nv: Str, group: Group) returns (k: Str)
    requires GroupExact(g, done, nv, group)
    ensures k in group.keys && k in g.snapshots && g.snapshots[k].packageKey in group.packageKeys
  {
    k :| InGroup(g, done, nv, k) && g.snapshots[k].name == group.name && g.snapshots[k].version == group.version;
  }

  /** What a group's row needs of its identities. */
  ghost predicate GroupReady(g: Graph, packages: Packages, reach: Reach, nv: Str, group: Group) {
    && GroupExact(g, reach.Keys, nv, group) && GraphValid(g, packages) && ExactReach(g, reach)
    && forall k :: k in reach ==> k in g.snapshots
  }

  lemma IdentitiesExist(g: Graph, packages: Packages, reach: Reach, nv: Str, group: Group)
    requires GroupReady(g, packages, reach, nv, group)
    ensures ListsIdentities(packages, SortedKeys.Ordered(group.packageKeys), group.packageKeys) && group.keys <= reach.Keys
  {
    forall p | p in group.packageKeys ensures p in packages && packages[p].packageKey == p {
      var k :| InGroup(g, reach.Keys, nv, k) && g.snapshots[k].packageKey == p;
      assert NodeFits(g, packages, g.snapshots[k]);
    }
  }

  lemma RowNotEmpty(g: Graph, packages: Packages, reach: Reach, nv: Str, group: Group, keys: seq<Str>, m: Merged)
    requires GroupReady(g, packages, reach, nv, group) && ListsIdentities(packages, keys, group.packageKeys)
    requires group.keys <= reach.Keys && MergeExact(reach, group.keys, m)
    ensures keys != [] && m.postures != {} && SortedPostures(m.postures) != []
  {
    var k := GroupNotEmpty(g, reach.Keys, nv, group);
    SomePosture(g, reach, group.keys, k, m);
    assert g.snapshots[k].packageKey in keys;
    SortedNotEmpty(m.postures);
  }

  lemma RowIsExact(g: Graph, packages: Packages, entries: seq<Entry>, registry: map<RegistryKey, Entry>, unsupported: map<Str, Entry>, policy: Policy,
                   reach: Reach, nv: Str, group: Group, keys: seq<Str>, variants: seq<Variant>, m: Merged)
    requires Known(entries, registry, unsupported) && GroupReady(g, packages, reach, nv, group)
    requires ListsIdentities(packages, keys, group.packageKeys) && VariantsOf(packages, registry, policy, keys, variants)
    requires group.keys <= reach.Keys && MergeExact(reach, group.keys, m) && SortedKeys.Ascending(keys)
    ensures variants != [] && m.postures != {} && RowExact(g, packages, entries, policy, reach, nv, RowFrom(group, variants, m))
  {
    RowNotEmpty(g, packages, reach, nv, group, keys, m);
    VariantsMeaning(packages, entries, registry, unsupported, policy, keys, RowFrom(group, variants, m));
  }

  lemma SortedNotEmpty(postures: set<Posture>)
    requires postures != {}
    ensures SortedPostures(postures) != []
  {
    var q :| q in postures;
    assert q in SortedPostures(postures);
  }

  method BuildRow(g: Graph, packages: Packages, ghost entries: seq<Entry>, registry: map<RegistryKey, Entry>, ghost unsupported: map<Str, Entry>,
                  policy: Policy, reach: Reach, ghost nv: Str, group: Group) returns (rows: seq<Row>)
    requires Known(entries, registry, unsupported) && GroupReady(g, packages, reach, nv, group)
    ensures |rows| <= 1 && (rows != [] <==> CoveredKeys(packages, entries, policy, group.packageKeys))
    ensures rows != [] ==> RowExact(g, packages, entries, policy, reach, nv, rows[0])
  {
    IdentitiesExist(g, packages, reach, nv, group);
    var keys := SortedKeys.Ordered(group.packageKeys);
    var ok, variants := BuildVariants(packages, registry, policy, keys);
    CoverageMeaning(packages, entries, registry, unsupported, policy, keys, group.packageKeys);
    if !ok {
      return [];
    }
    var m := MergeProvenance(reach, group.keys);
    RowIsExact(g, packages, entries, registry, unsupported, policy, reach, nv, group, keys, variants, m);
    return [RowFrom(group, variants, m)];
  }

  // ---------------------------------------------------------------- all rows

  /** One exact row for each name and version in `done`. */
  ghost predicate RowsExact(g: Graph, packages: Packages, entries: seq<Entry>, policy: Policy, reach: Reach, done: set<Str>, rows: seq<Row>, of: seq<Str>) {
    && |of| == |rows| && (forall i :: 0 <= i < |rows| ==> of[i] in done && RowExact(g, packages, entries, policy, reach, of[i], rows[i]))
    && (forall nv :: nv in done ==> nv in of)
    && forall i, j :: 0 <= i < j < |of| ==> of[i] != of[j]
  }

  ghost predicate GroupsCovered(packages: Packages, entries: seq<Entry>, policy: Policy, groups: map<Str, Group>, done: set<Str>) {
    forall nv :: nv in done && nv in groups ==> CoveredKeys(packages, entries, policy, groups[nv].packageKeys)
  }

  lemma OneMoreRow(g: Graph, packages: Packages, entries: seq<Entry>, policy: Policy, reach: Reach, done: set<Str>, rows: seq<Row>, of: seq<Str>, nv: Str, row: Row)
    requires RowsExact(g, packages, entries, policy, reach, done, rows, of) && nv !in done && RowExact(g, packages, entries, policy, reach, nv, row)
    ensures RowsExact(g, packages, entries, policy, reach, done + {nv}, rows + [row], of + [nv])
  {
    var rows', of' := rows + [row], of + [nv];
    forall i | 0 <= i < |rows'| ensures of'[i] in done + {nv} && RowExact(g, packages, entries, policy, reach, of'[i], rows'[i]) {
      if i < |rows| {
        assert rows'[i] == rows[i] && of'[i] == of[i];
      }
    }
    ListedOnce(of, done, nv);
  }

  lemma ListedOnce(of: seq<Str>, done: set<Str>, nv: Str)
    requires (forall i :: 0 <= i < |of| ==> of[i] in done) && (forall n :: n in done ==> n in of) && nv !in done
    requires forall i, j :: 0 <= i < j < |of| ==> of[i] != of[j]
    ensures (forall n :: n in done + {nv} ==> n in of + [nv]) && forall i, j :: 0 <= i < j < |of + [nv]| ==> (of + [nv])[i] != (of + [nv])[j]
  {
    var of' := of + [nv];
    assert of'[|of|] == nv;
    forall i, j | 0 <= i < j < |of'| ensures of'[i] != of'[j] {
      assert of'[i] == of[i];
    }
  }

  ghost predicate AllReady(g: Graph, packages: Packages, reach: Reach, groups: map<Str, Group>) {
    forall nv :: nv in groups ==> GroupReady(g, packages, reach, nv, groups[nv])
  }

  lemma OneMoreCovered(packages: Packages, entries: seq<Entry>, policy: Policy, groups: map<Str, Group>, done: set<Str>, nv: Str)
    requires nv in groups
    ensures GroupsCovered(packages, entries, policy, groups, done + {nv}) <==>
            GroupsCovered(packages, entries, policy, groups, done) && CoveredKeys(packages, entries, policy, groups[nv].packageKeys)
  {
  }

  lemma DoneMore(all: set<Str>, rest: set<Str>, nv: Str)
    requires rest <= all && nv in rest
    ensures all - (rest - {nv}) == all - rest + {nv}
  {
  }

  method BuildRows(g: Graph, packages: Packages, ghost entries: seq<Entry>, registry: map<RegistryKey, Entry>, ghost unsupported: map<Str, Entry>,
                   policy: Policy, reach: Reach, groups: map<Str, Group>) returns (ok: bool, rows: seq<Row>, ghost of: seq<Str>)
    requires Known(entries, registry, unsupported) && AllReady(g, packages, reach, groups)
    ensures ok <==> GroupsCovered(packages, entries, policy, groups, groups.Keys)
    ensures ok ==> RowsExact(g, packages, entries, policy, reach, groups.Keys, rows, of)
  {
    ok, rows, of := true, [], [];
    var rest := groups.Keys;
    while rest != {}
      invariant rest <= groups.Keys
      invariant ok <==> GroupsCovered(packages, entries, policy, groups, groups.Keys - rest)
      invariant ok ==> RowsExact(g, packages, entries, policy, reach, groups.Keys - rest, rows, of)
    {
      var nv :| nv in rest;
      ghost var done := groups.Keys - rest;
      DoneMore(groups.Keys, rest, nv);
      var made := BuildRow(g, packages, entries, registry, unsupported, policy, reach, nv, groups[nv]);
      OneMoreCovered(packages, entries, policy, groups, done, nv);
      if made == [] {
        ok := false;
      } else if ok {
        OneMoreRow(g, packages, entries, policy, reach, done, rows, of, nv, made[0]);
        rows, of := rows + [made[0]], of + [nv];
      }
      rest := rest - {nv};
    }
    NothingLeft(groups.Keys, rest);
  }

  lemma NothingLeft(all: set<Str>, rest: set<Str>)
    requires rest == {}
    ensures all - rest == all
  {
  }
}
