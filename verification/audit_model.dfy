/** Assembly of the audit model: reachable snapshots are grouped into rows, and every identity must be covered. */
module AuditModel {
  import opened Text
  import opened LicenseGraph
  import opened Provenances
  import opened AuditCache

  type Reach = map<Str, Provenance>

  /** The string rows are grouped by. */
  function NameVersion(n: Node): Str { n.name + [AT] + n.version }

  // ---------------------------------------------------------------- referential integrity

  predicate EdgesFit(g: Graph, edges: seq<Edge>) {
    forall i :: 0 <= i < |edges| ==> edges[i].target in g.snapshots && g.snapshots[edges[i].target].name == edges[i].name
  }

  predicate NodeFits(g: Graph, packages: Packages, n: Node) {
    && n.packageKey in packages
    && packages[n.packageKey].name == n.name && packages[n.packageKey].version == n.version && packages[n.packageKey].packageKey == n.packageKey
    && EdgesFit(g, n.dependencies) && EdgesFit(g, n.optionalDependencies)
  }

  predicate RootsFit(g: Graph) {
    forall i :: 0 <= i < |g.roots| ==> g.roots[i].key in g.snapshots && g.snapshots[g.roots[i].key].name == g.roots[i].name
  }

  /** Roots and edges lead to snapshots of the name they give, and snapshots to the identity they give. */
  predicate GraphValid(g: Graph, packages: Packages) {
    RootsFit(g) && forall k :: k in g.snapshots ==> NodeFits(g, packages, g.snapshots[k])
  }

  // ---------------------------------------------------------------- groups

  datatype Group = Group(name: Str, version: Str, keys: set<Str>, packageKeys: set<Str>)

  /** The reachable snapshots of a name and version. */
  ghost predicate InGroup(g: Graph, done: set<Str>, nv: Str, k: Str) {
    k in done && k in g.snapshots && NameVersion(g.snapshots[k]) == nv
  }

  ghost predicate GroupExact(g: Graph, done: set<Str>, nv: Str, group: Group) {
    && (forall k :: k in group.keys <==> InGroup(g, done, nv, k))
    && (forall p :: p in group.packageKeys <==> exists k :: InGroup(g, done, nv, k) && g.snapshots[k].packageKey == p)
    && (exists k :: InGroup(g, done, nv, k) && g.snapshots[k].name == group.name && g.snapshots[k].version == group.version)
  }

  ghost predicate GroupsExact(g: Graph, done: set<Str>, groups: map<Str, Group>) {
    && (forall nv :: nv in groups <==> exists k :: InGroup(g, done, nv, k))
    && forall nv :: nv in groups ==> GroupExact(g, done, nv, groups[nv])
  }

  /** The group of a snapshot with the snapshot in it. */
  function Joined(groups: map<Str, Group>, n: Node, key: Str): Group {
    var group := if NameVersion(n) in groups then groups[NameVersion(n)] else Group(n.name, n.version, {}, {});
    group.(keys := group.keys + {key}, packageKeys := group.packageKeys + {n.packageKey})
  }

  method GroupByNameVersion(g: Graph, keys: set<Str>) returns (groups: map<Str, Group>)
    requires forall k :: k in keys ==> k in g.snapshots
    ensures GroupsExact(g, keys, groups)
  {
    groups := map[];
    var rest := keys;
    while rest != {}
      invariant rest <= keys && GroupsExact(g, keys - rest, groups)
    {
      var key :| key in rest;
      var node := g.snapshots[key];
      var nv := NameVersion(node);
      var group := Joined(groups, node, key);
      AddedToGroup(g, keys - rest, groups, key, group);
      assert keys - (rest - {key}) == keys - rest + {key};
      groups := groups[nv := group];
      rest := rest - {key};
    }
    assert keys - rest == keys;
  }

  lemma AddedToGroup(g: Graph, done: set<Str>, groups: map<Str, Group>, key: Str, group: Group)
    requires GroupsExact(g, done, groups) && key in g.snapshots && key !in done
    requires group == Joined(groups, g.snapshots[key], key)
    ensures GroupsExact(g, done + {key}, groups[NameVersion(g.snapshots[key]) := group])
  {
    var n := g.snapshots[key];
    var more := done + {key};
    forall nv, k ensures InGroup(g, more, nv, k) <==> InGroup(g, done, nv, k) || (k == key && nv == NameVersion(n)) {
    }
    assert InGroup(g, more, NameVersion(n), key);
    GroupGrows(g, done, groups, key, group);
    forall nv | nv in groups && nv != NameVersion(n) ensures GroupExact(g, more, nv, groups[nv]) {
      OtherGroup(g, done, key, nv, groups[nv]);
    }
    forall nv ensures (exists k :: InGroup(g, more, nv, k)) <==> nv in groups || nv == NameVersion(n) {
      if nv in groups {
        var k :| InGroup(g, done, nv, k);
        assert InGroup(g, more, nv, k);
      }
      if k :| InGroup(g, more, nv, k) && nv != NameVersion(n) {
        assert InGroup(g, done, nv, k);
      }
    }
  }

  lemma OtherGroup(g: Graph, done: set<Str>, key: Str, nv: Str, group: Group)
    requires key in g.snapshots && nv != NameVersion(g.snapshots[key]) && GroupExact(g, done, nv, group)
    ensures GroupExact(g, done + {key}, nv, group)
  {
    forall k ensures InGroup(g, done + {key}, nv, k) <==> InGroup(g, done, nv, k) {
    }
  }

  lemma GroupGrows(g: Graph, done: set<Str>, groups: map<Str, Group>, key: Str, group: Group)
    requires GroupsExact(g, done, groups) && key in g.snapshots && key !in done
    requires group == Joined(groups, g.snapshots[key], key)
    ensures GroupExact(g, done + {key}, NameVersion(g.snapshots[key]), group)
  {
    var n := g.snapshots[key];
    var nv, more := NameVersion(n), done + {key};
    forall k ensures InGroup(g, more, nv, k) <==> InGroup(g, done, nv, k) || k == key {
    }
    if nv in groups {
      var w :| InGroup(g, done, nv, w) && g.snapshots[w].name == group.name && g.snapshots[w].version == group.version;
      assert InGroup(g, more, nv, w);
    } else {
      assert InGroup(g, more, nv, key);
    }
    forall p ensures p in group.packageKeys <==> exists k :: InGroup(g, more, nv, k) && g.snapshots[k].packageKey == p {
      if p == n.packageKey {
        assert InGroup(g, more, nv, key);
      }
      if nv in groups && p in groups[nv].packageKeys {
        var k :| InGroup(g, done, nv, k) && g.snapshots[k].packageKey == p;
        assert InGroup(g, more, nv, k);
      }
    }
  }

  // ---------------------------------------------------------------- variants of a group

  ghost predicate AllCovered(packages: Packages, registry: map<RegistryKey, Entry>, policy: Policy, keys: seq<Str>)
    requires forall p :: p in keys ==> p in packages
  {
    forall i :: 0 <= i < |keys| ==> Cover(packages[keys[i]], registry, policy).Covered?
  }

  method BuildVariants(packages: Packages, registry: map<RegistryKey, Entry>, policy: Policy, keys: seq<Str>) returns (ok: bool, variants: seq<Variant>)
    requires forall p :: p in keys ==> p in packages
    ensures ok <==> AllCovered(packages, registry, policy, keys)
    ensures ok ==> |variants| == |keys| && forall i :: 0 <= i < |keys| ==> Cover(packages[keys[i]], registry, policy) == Covered(variants[i])
  {
    ok, variants := true, [];
    for i := 0 to |keys|
      invariant ok <==> forall j :: 0 <= j < i ==> Cover(packages[keys[j]], registry, policy).Covered?
      invariant ok ==> |variants| == i && forall j :: 0 <= j < i ==> Cover(packages[keys[j]], registry, policy) == Covered(variants[j])
    {
      var coverage := Cover(packages[keys[i]], registry, policy);
      if coverage.Covered? {
        variants := variants + [coverage.variant];
      } else {
        ok := false;
      }
    }
  }

  // ---------------------------------------------------------------- provenance of a group

  datatype Merged = Merged(postures: set<Posture>, best: map<Posture, Path>, parents: set<Str>, importers: set<Str>)

  ghost predicate BestOver(reach: Reach, keys: set<Str>, best: map<Posture, Path>) {
    && (forall q: Posture :: q in best <==> exists k :: k in keys && k in reach && q in reach[k].shortest)
    && (forall q: Posture :: q in best ==> exists k :: k in keys && k in reach && q in reach[k].shortest && best[q] == reach[k].shortest[q])
    && (forall q: Posture, k :: k in keys && k in reach && q in reach[k].shortest ==> q in best && ComparePath(best[q], reach[k].shortest[q]) <= 0)
  }

  /** The merged record says what the records of the snapshots say together. */
  ghost predicate MergeExact(reach: Reach, keys: set<Str>, m: Merged) {
    && (forall q :: q in m.postures <==> exists k :: k in keys && k in reach && q in reach[k].reachingPostures)
    && (forall p :: p in m.parents <==> exists k :: k in keys && k in reach && p in reach[k].directParents)
    && (forall i :: i in m.importers <==> exists k :: k in keys && k in reach && i in reach[k].originatingImporters)
    && BestOver(reach, keys, m.best)
  }

  predicate Better(best: map<Posture, Path>, q: Posture, path: Path) { q !in best || ComparePath(path, best[q]) < 0 }

  /** The inner loop over one snapshot's paths: each posture keeps the smaller path. */
  method MergePaths(best: map<Posture, Path>, shortest: map<Posture, Path>) returns (better: map<Posture, Path>)
    ensures forall q: Posture :: q in better <==> q in best || q in shortest
    ensures forall q: Posture :: q in better ==> better[q] == if q in shortest && Better(best, q, shortest[q]) then shortest[q] else best[q]
  {
    better := best;
    var rest := shortest.Keys;
    while rest != {}
      invariant rest <= shortest.Keys
      invariant forall q: Posture :: q in better <==> q in best || (q in shortest && q !in rest)
      invariant forall q: Posture :: q in better ==>
                  better[q] == if q in shortest && q !in rest && Better(best, q, shortest[q]) then shortest[q] else best[q]
    {
      var q: Posture :| q in rest;
      if q !in better || ComparePath(shortest[q], better[q]) < 0 {
        better := better[q := shortest[q]];
      }
      rest := rest - {q};
    }
  }

  method MergeProvenance(reach: Reach, keys: set<Str>) returns (m: Merged)
    requires keys <= reach.Keys
    ensures MergeExact(reach, keys, m)
  {
    m := Merged({}, map[], {}, {});
    var rest := keys;
    while rest != {}
      invariant rest <= keys && MergeExact(reach, keys - rest, m)
    {
      var key :| key in rest;
      var p := reach[key];
      var better := MergePaths(m.best, p.shortest);
      var next := Merged(m.postures + (set q | q in p.reachingPostures), better, m.parents + p.directParents, m.importers + p.originatingImporters);
      MergedOne(reach, keys - rest, key, m, next);
      assert keys - (rest - {key}) == keys - rest + {key};
      m := next;
      rest := rest - {key};
    }
    assert keys - rest == keys;
  }

  lemma MergedOne(reach: Reach, done: set<Str>, key: Str, m: Merged, next: Merged)
    requires MergeExact(reach, done, m) && key in reach
    requires next.postures == m.postures + (set q | q in reach[key].reachingPostures)
    requires next.parents == m.parents + reach[key].directParents && next.importers == m.importers + reach[key].originatingImporters
    requires forall q: Posture :: q in next.best <==> q in m.best || q in reach[key].shortest
    requires forall q: Posture :: q in next.best ==>
               next.best[q] == if q in reach[key].shortest && Better(m.best, q, reach[key].shortest[q]) then reach[key].shortest[q] else m.best[q]
    ensures MergeExact(reach, done + {key}, next)
  {
    BestOverOne(reach, done, key, m.best, next.best);
  }

  lemma BestOverOne(reach: Reach, done: set<Str>, key: Str, best: map<Posture, Path>, better: map<Posture, Path>)
    requires BestOver(reach, done, best) && key in reach
    requires forall q: Posture :: q in better <==> q in best || q in reach[key].shortest
    requires forall q: Posture :: q in better ==>
               better[q] == if q in reach[key].shortest && Better(best, q, reach[key].shortest[q]) then reach[key].shortest[q] else best[q]
    ensures BestOver(reach, done + {key}, better)
  {
    forall q: Posture, k | k in done + {key} && k in reach && q in reach[k].shortest
      ensures q in better && ComparePath(better[q], reach[k].shortest[q]) <= 0
    {
      BetterThan(reach, done, key, best, better, q, k);
    }
    forall q: Posture | q in better
      ensures exists k :: k in done + {key} && k in reach && q in reach[k].shortest && better[q] == reach[k].shortest[q]
    {
      if !(q in reach[key].shortest && Better(best, q, reach[key].shortest[q])) {
        var k :| k in done && k in reach && q in reach[k].shortest && best[q] == reach[k].shortest[q];
        assert k in done + {key};
      }
    }
  }

  lemma BetterThan(reach: Reach, done: set<Str>, key: Str, best: map<Posture, Path>, better: map<Posture, Path>, q: Posture, k: Str)
    requires BestOver(reach, done, best) && key in reach && k in done + {key} && k in reach && q in reach[k].shortest && q in better
    requires better[q] == if q in reach[key].shortest && Better(best, q, reach[key].shortest[q]) then reach[key].shortest[q] else best[q]
    requires q in best || q in reach[key].shortest
    ensures ComparePath(better[q], reach[k].shortest[q]) <= 0
  {
    if q in reach[key].shortest {
      var here := reach[key].shortest[q];
      ComparePathOrder(here, here);
      if q in best {
        ComparePathOrder(here, best[q]);
        if k in done {
          ComparePathTransitive(better[q], best[q], reach[k].shortest[q]);
        }
      }
    }
    if q in best {
      ComparePathOrder(best[q], best[q]);
    }
  }
}
