/** Originating importers: unions pushed along edges until nothing changes. */
module Importers {
  import opened Text
  import opened LicenseGraph
  import opened Reachability
  import SortedKeys
  import Sorting

  type Origins = map<Str, set<Str>>

  /** Importer `i` has a root from which snapshot `k` can be reached. */
  ghost predicate OriginatesFrom(g: Graph, k: Str, i: Str) {
    exists p, q :: WalkTo(g, p, State(k, q)) && p.importer == i
  }

  function Get(m: Origins, k: Str): set<Str> {
    if k in m then m[k] else {}
  }

  /** The source's `addImporters`: the key is queued again only when its set grew. */
  function AddImporters(m: Origins, queue: seq<Str>, key: Str, importers: set<Str>): (r: (Origins, seq<Str>))
    ensures queue <= r.1 && r.0.Keys == m.Keys + {key}
    ensures forall k :: Get(r.0, k) == if k == key then Get(m, k) + importers else Get(m, k)
    ensures forall k :: k in r.1[|queue|..] <==> k == key && !(importers <= Get(m, key))
  {
    (m[key := Get(m, key) + importers], if importers <= Get(m, key) then queue else queue + [key])
  }

  // ---------------------------------------------------------------- invariants

  ghost predicate OriginsSound(g: Graph, m: Origins) {
    forall k :: k in m ==> ReachableKey(g, k) && m[k] != {} && forall i :: i in m[k] ==> OriginatesFrom(g, k, i)
  }

  ghost predicate FlowsOn(g: Graph, m: Origins, k: Str) {
    forall c :: Linked(g, k, c) ==> c in m && Get(m, k) <= m[c]
  }

  ghost predicate OriginsClosed(g: Graph, m: Origins, pending: seq<Str>) {
    forall k :: k in m && k !in pending ==> FlowsOn(g, m, k)
  }

  ghost predicate RootsSeeded(g: Graph, m: Origins) {
    forall r :: r in g.roots ==> r.importer in Get(m, r.key)
  }

  /** `m` grew from `m0`, and whatever grew is queued. */
  ghost predicate Grown(m0: Origins, m: Origins, pushed: seq<Str>) {
    && (forall k :: k in m0 ==> k in m && m0[k] <= m[k])
    && (forall k :: k in m && k !in pushed ==> k in m0 && m0[k] == m[k])
    && (forall k :: k in pushed ==> k in m && Get(m0, k) < m[k])
  }

  lemma OriginExtends(g: Graph, k: Str, c: Str, i: Str)
    requires OriginatesFrom(g, k, i) && Linked(g, k, c)
    ensures OriginatesFrom(g, c, i)
  {
    var p, q :| WalkTo(g, p, State(k, q)) && p.importer == i;
    var kind := if HasEdge(g, k, Required, c) then Required else Optional;
    ExtendWalk(g, p, State(k, q), State(c, Transition(q, kind)));
  }

  lemma ReachableExtends(g: Graph, k: Str, c: Str)
    requires ReachableKey(g, k) && Linked(g, k, c)
    ensures ReachableKey(g, c)
  {
    var q, p :| WalkTo(g, p, State(k, q));
    assert OriginatesFrom(g, k, p.importer);
    OriginExtends(g, k, c, p.importer);
    var p', q' :| WalkTo(g, p', State(c, q')) && p'.importer == p.importer;
    assert Reachable(g, State(c, q'));
  }

  lemma {:induction false} WalkOriginFlows(g: Graph, m: Origins, p: Path, q: Posture)
    requires OriginsClosed(g, m, []) && RootsSeeded(g, m)
    requires Walk(g, p, q)
    ensures p.importer in Get(m, Last(p))
    decreases |p.keys|
  {
    if |p.keys| == 1 {
      var r :| r in g.roots && RootPath(r) == p && r.posture == q;
    } else {
      var q0 :| Walk(g, Prefix(p), q0) && Succ(g, State(Last(Prefix(p)), q0), State(Last(p), q));
      WalkOriginFlows(g, m, Prefix(p), q0);
      assert FlowsOn(g, m, Last(Prefix(p)));
      assert Linked(g, Last(Prefix(p)), Last(p));
    }
  }

  // ---------------------------------------------------------------- termination

  ghost function AllPairs(g: Graph): set<(Str, Str)> {
    set k, r | k in AllKeys(g) && r in g.roots :: (k, r.importer)
  }

  ghost function Pairs(m: Origins): set<(Str, Str)> {
    set k, i | k in m && i in m[k] :: (k, i)
  }

  ghost function Missing(g: Graph, m: Origins): nat {
    |AllPairs(g) - Pairs(m)|
  }

  lemma {:induction false} WalkImporterIsRoot(g: Graph, p: Path, q: Posture)
    requires Walk(g, p, q)
    ensures exists r :: r in g.roots && r.importer == p.importer
    decreases |p.keys|
  {
    if |p.keys| > 1 {
      var q0 :| Walk(g, Prefix(p), q0) && Succ(g, State(Last(Prefix(p)), q0), State(Last(p), q));
      WalkImporterIsRoot(g, Prefix(p), q0);
    }
  }

  lemma PairsBounded(g: Graph, m: Origins)
    requires OriginsSound(g, m)
    ensures Pairs(m) <= AllPairs(g)
  {
    forall k, i | k in m && i in m[k] ensures (k, i) in AllPairs(g) {
      assert OriginatesFrom(g, k, i);
      var p, q :| WalkTo(g, p, State(k, q)) && p.importer == i;
      WalkStates(g, p, State(k, q));
      WalkImporterIsRoot(g, p, q);
    }
  }

  lemma PairsKept(m0: Origins, m: Origins)
    requires Grown(m0, m, [])
    ensures Pairs(m) == Pairs(m0)
  {
    forall k, i | k in m && i in m[k] ensures (k, i) in Pairs(m0) {
      assert Get(m0, k) == m[k];
    }
  }

  lemma PairsGrow(m0: Origins, m: Origins, pushed: seq<Str>) returns (x: (Str, Str))
    requires Grown(m0, m, pushed) && pushed != []
    ensures Pairs(m0) <= Pairs(m) && x in Pairs(m) && x !in Pairs(m0)
  {
    var k := pushed[0];
    assert k in pushed;
    var i :| i in m[k] && i !in Get(m0, k);
    x := (k, i);
  }

  lemma MissingDrops(g: Graph, m0: Origins, m: Origins, pushed: seq<Str>)
    requires OriginsSound(g, m) && Grown(m0, m, pushed)
    ensures pushed == [] ==> Missing(g, m) == Missing(g, m0)
    ensures pushed != [] ==> Missing(g, m) < Missing(g, m0)
  {
    PairsBounded(g, m);
    if pushed == [] {
      PairsKept(m0, m);
    } else {
      var x := PairsGrow(m0, m, pushed);
      var more, less := AllPairs(g) - Pairs(m0), AllPairs(g) - Pairs(m);
      assert x in more && x !in less;
      assert less <= more - {x};
      SortedKeys.SubsetSize(less, more - {x});
    }
  }

  // ---------------------------------------------------------------- one pop

  lemma GrownStep(m0: Origins, m1: Origins, pushed1: seq<Str>, key: Str, importers: set<Str>)
    requires Grown(m0, m1, pushed1) && importers != {}
    ensures var (m, pushed) := AddImporters(m1, pushed1, key, importers); Grown(m0, m, pushed)
  {
    var (m, pushed) := AddImporters(m1, pushed1, key, importers);
    assert pushed == pushed1 + pushed[|pushed1|..];
    forall k | k in pushed ensures k in m && Get(m0, k) < m[k] {
      if k == key {
        assert Get(m0, k) <= Get(m1, k) <= m[k];
        if k in pushed1 {
          assert Get(m0, k) < m1[k];
        } else {
          assert k in pushed[|pushed1|..];
          assert Get(m, k) == m[k];
        }
      } else {
        assert k in pushed1;
        assert m[k] == Get(m, k) == Get(m1, k);
      }
    }
    forall k | k in m0 ensures k in m && m0[k] <= m[k] {
      assert Get(m, k) == m[k];
    }
    forall k | k in m && k !in pushed ensures k in m0 && m0[k] == m[k] {
      assert Get(m, k) == m[k];
      if k == key {
        assert k !in pushed[|pushed1|..];
      }
    }
  }

  lemma SoundStep(g: Graph, m: Origins, k: Str, c: Str, queue: seq<Str>)
    requires OriginsSound(g, m) && k in m && Linked(g, k, c)
    ensures OriginsSound(g, AddImporters(m, queue, c, m[k]).0)
  {
    var m' := AddImporters(m, queue, c, m[k]).0;
    ReachableExtends(g, k, c);
    forall i | i in m[k] ensures OriginatesFrom(g, c, i) {
      OriginExtends(g, k, c, i);
    }
    forall k' | k' in m' ensures ReachableKey(g, k') && m'[k'] != {} && forall i :: i in m'[k'] ==> OriginatesFrom(g, k', i) {
      assert Get(m', k') == m'[k'];
    }
  }

  function AllEdges(n: Node): seq<Edge> { n.dependencies + n.optionalDependencies }

  lemma AllEdgesLinked(g: Graph, k: Str)
    requires k in g.snapshots
    ensures forall c :: Linked(g, k, c) <==> TargetBefore(AllEdges(g.snapshots[k]), |AllEdges(g.snapshots[k])|, c)
  {
    var n := g.snapshots[k];
    var edges := AllEdges(n);
    forall c ensures Linked(g, k, c) <==> TargetBefore(edges, |edges|, c) {
      if HasEdge(g, k, Required, c) {
        var i :| 0 <= i < |n.Edges(Required)| && n.Edges(Required)[i].target == c;
        assert edges[i].target == c;
      } else if HasEdge(g, k, Optional, c) {
        var i :| 0 <= i < |n.Edges(Optional)| && n.Edges(Optional)[i].target == c;
        assert edges[|n.dependencies| + i].target == c;
      }
      if TargetBefore(edges, |edges|, c) {
        var j :| 0 <= j < |edges| && edges[j].target == c;
        if j < |n.dependencies| {
          assert n.Edges(Required)[j].target == c;
        } else {
          assert n.Edges(Optional)[j - |n.dependencies|].target == c;
        }
      }
    }
  }

  ghost predicate FlowedBefore(m: Origins, edges: seq<Edge>, n: nat, importers: set<Str>)
    requires n <= |edges|
  {
    forall i :: 0 <= i < n ==> edges[i].target in m && importers <= m[edges[i].target]
  }

  lemma FlowStep(m0: Origins, queue0: seq<Str>, m1: Origins, queue1: seq<Str>, edges: seq<Edge>, n: nat, importers: set<Str>)
    requires queue0 <= queue1 && Grown(m0, m1, queue1[|queue0|..])
    requires n < |edges| && FlowedBefore(m1, edges, n, importers) && importers != {}
    ensures var (m, queue) := AddImporters(m1, queue1, edges[n].target, importers);
            queue0 <= queue && Grown(m0, m, queue[|queue0|..]) && FlowedBefore(m, edges, n + 1, importers)
  {
    var c := edges[n].target;
    var (m, queue) := AddImporters(m1, queue1, c, importers);
    GrownStep(m0, m1, queue1[|queue0|..], c, importers);
    assert queue[|queue0|..] == AddImporters(m1, queue1[|queue0|..], c, importers).1;
    forall i | 0 <= i < n + 1 ensures edges[i].target in m && importers <= m[edges[i].target] {
      assert Get(m, edges[i].target) == m[edges[i].target];
    }
  }

  lemma FlowKeeps(m: Origins, queue: seq<Str>, c: Str, k: Str)
    requires k in m
    ensures k in AddImporters(m, queue, c, m[k]).0 && AddImporters(m, queue, c, m[k]).0[k] == m[k]
  {
    assert Get(AddImporters(m, queue, c, m[k]).0, k) == m[k];
  }

  lemma QueueTail(queue0: seq<Str>, queue: seq<Str>, head: nat)
    requires queue0 <= queue && head < |queue0|
    ensures queue[head + 1..] == queue0[head..][1..] + queue[|queue0|..]
    ensures forall k :: k in queue ==> k in queue0 || k in queue[|queue0|..]
  {
    assert queue == queue0 + queue[|queue0|..];
  }

  lemma GrownRefl(m: Origins)
    ensures Grown(m, m, [])
  {
  }

  /** Pushes the importers of `k` along each of its edges. */
  method Flow(g: Graph, k: Str, m0: Origins, queue0: seq<Str>) returns (m: Origins, queue: seq<Str>)
    requires k in m0 && k in g.snapshots && OriginsSound(g, m0)
    ensures queue0 <= queue && Grown(m0, m, queue[|queue0|..])
    ensures OriginsSound(g, m) && k in m && m[k] == m0[k] && FlowsOn(g, m, k)
  {
    var edges := AllEdges(g.snapshots[k]);
    var importers := m0[k];
    m, queue := m0, queue0;
    AllEdgesLinked(g, k);
    GrownRefl(m);
    for j := 0 to |edges|
      invariant queue0 <= queue && Grown(m0, m, queue[|queue0|..])
      invariant OriginsSound(g, m) && k in m && m[k] == importers
      invariant FlowedBefore(m, edges, j, importers)
    {
      var c := edges[j].target;
      assert TargetBefore(edges, |edges|, c);
      SoundStep(g, m, k, c, queue);
      FlowStep(m0, queue0, m, queue, edges, j, importers);
      FlowKeeps(m, queue, c, k);
      var step := AddImporters(m, queue, c, importers);
      m, queue := step.0, step.1;
    }
  }

  ghost predicate SeededBefore(m: Origins, roots: seq<Root>, n: nat)
    requires n <= |roots|
  {
    forall i :: 0 <= i < n ==> roots[i].importer in Get(m, roots[i].key)
  }

  lemma RootOriginates(g: Graph, r: Root)
    requires r in g.roots
    ensures ReachableKey(g, r.key) && OriginatesFrom(g, r.key, r.importer)
  {
    assert WalkTo(g, RootPath(r), State(r.key, r.posture));
    assert Reachable(g, State(r.key, r.posture));
  }

  lemma SeededMore(m0: Origins, queue0: seq<Str>, roots: seq<Root>, n: nat)
    requires n < |roots| && SeededBefore(m0, roots, n)
    ensures SeededBefore(AddImporters(m0, queue0, roots[n].key, {roots[n].importer}).0, roots, n + 1)
  {
  }

  lemma SeedStep(g: Graph, m0: Origins, queue0: seq<Str>, roots: seq<Root>, n: nat)
    requires n < |roots| && roots[n] in g.roots && OriginsSound(g, m0) && SeededBefore(m0, roots, n)
    requires m0.Keys == set k | k in queue0
    ensures var (m, queue) := AddImporters(m0, queue0, roots[n].key, {roots[n].importer});
            OriginsSound(g, m) && SeededBefore(m, roots, n + 1) && m.Keys == set k | k in queue
  {
    var r := roots[n];
    var (m, queue) := AddImporters(m0, queue0, r.key, {r.importer});
    RootOriginates(g, r);
    SeededMore(m0, queue0, roots, n);
    assert queue == queue0 + queue[|queue0|..];
    forall k | k in m ensures ReachableKey(g, k) && m[k] != {} && (forall i :: i in m[k] ==> OriginatesFrom(g, k, i)) {
      assert Get(m, k) == m[k];
    }
    if r.key !in m0 {
      assert r.key in queue[|queue0|..];
    }
  }

  method SeedImporters(g: Graph) returns (m: Origins, queue: seq<Str>)
    ensures OriginsSound(g, m) && RootsSeeded(g, m)
    ensures m.Keys == set k | k in queue
  {
    var roots := SortedRoots(g);
    Sorting.SortMembers(CompareRoots, g.roots);
    m, queue := map[], [];
    for j := 0 to |roots|
      invariant OriginsSound(g, m) && SeededBefore(m, roots, j)
      invariant m.Keys == set k | k in queue
    {
      assert roots[j] in g.roots;
      SeedStep(g, m, queue, roots, j);
      var step := AddImporters(m, queue, roots[j].key, {roots[j].importer});
      m, queue := step.0, step.1;
    }
    forall r | r in g.roots ensures r.importer in Get(m, r.key) {
      assert r in roots;
    }
  }

  lemma PopKeepsClosed(g: Graph, m0: Origins, pending0: seq<Str>, m: Origins, pushed: seq<Str>)
    requires |pending0| > 0 && OriginsClosed(g, m0, pending0)
    requires Grown(m0, m, pushed)
    requires pending0[0] in m && FlowsOn(g, m, pending0[0])
    ensures OriginsClosed(g, m, pending0[1..] + pushed)
  {
    assert pending0 == [pending0[0]] + pending0[1..];
    forall k | k in m && k !in pending0[1..] + pushed && k != pending0[0] ensures FlowsOn(g, m, k) {
      assert FlowsOn(g, m0, k);
    }
  }

  lemma GrownKeepsSeeds(g: Graph, m0: Origins, m: Origins, pushed: seq<Str>)
    requires RootsSeeded(g, m0) && Grown(m0, m, pushed)
    ensures RootsSeeded(g, m)
  {
  }

  lemma FlowKeepsInvariant(g: Graph, m0: Origins, queue0: seq<Str>, head: nat, m: Origins, queue: seq<Str>)
    requires head < |queue0| && queue0 <= queue && (set k | k in queue0) <= m0.Keys
    requires RootsSeeded(g, m0) && OriginsClosed(g, m0, queue0[head..])
    requires OriginsSound(g, m) && Grown(m0, m, queue[|queue0|..])
    requires queue0[head] in m && FlowsOn(g, m, queue0[head])
    ensures RootsSeeded(g, m) && OriginsClosed(g, m, queue[head + 1..])
    ensures (set k | k in queue) <= m.Keys
    ensures |queue| == |queue0| ==> Missing(g, m) == Missing(g, m0)
    ensures |queue| > |queue0| ==> Missing(g, m) < Missing(g, m0)
  {
    MissingDrops(g, m0, m, queue[|queue0|..]);
    GrownKeepsSeeds(g, m0, m, queue[|queue0|..]);
    PopKeepsClosed(g, m0, queue0[head..], m, queue[|queue0|..]);
    QueueTail(queue0, queue, head);
  }

  /** The importer fixpoint: exactly the reachable snapshots, each with exactly the importers it originates from. */
  method OriginatingImporters(g: Graph) returns (m: Origins)
    requires forall k :: ReachableKey(g, k) ==> k in g.snapshots
    ensures forall k :: k in m <==> ReachableKey(g, k)
    ensures forall k, i :: i in Get(m, k) <==> OriginatesFrom(g, k, i)
  {
    var queue: seq<Str>;
    m, queue := SeedImporters(g);
    var head := 0;
    while head < |queue|
      invariant 0 <= head <= |queue|
      invariant OriginsSound(g, m) && RootsSeeded(g, m) && OriginsClosed(g, m, queue[head..])
      invariant (set k | k in queue) <= m.Keys
      decreases Missing(g, m), |queue| - head
    {
      var k := queue[head];
      ghost var m0, queue0 := m, queue;
      m, queue := Flow(g, k, m, queue);
      FlowKeepsInvariant(g, m0, queue0, head, m, queue);
      head := head + 1;
    }
    assert queue[head..] == [];
    Fixpoint(g, m);
  }

  lemma Fixpoint(g: Graph, m: Origins)
    requires OriginsSound(g, m) && RootsSeeded(g, m) && OriginsClosed(g, m, [])
    ensures forall k :: k in m <==> ReachableKey(g, k)
    ensures forall k, i :: i in Get(m, k) <==> OriginatesFrom(g, k, i)
  {
    forall k, i | OriginatesFrom(g, k, i) ensures i in Get(m, k) {
      var p, q :| WalkTo(g, p, State(k, q)) && p.importer == i;
      WalkOriginFlows(g, m, p, q);
    }
    forall k | ReachableKey(g, k) ensures k in m {
      var q, p :| WalkTo(g, p, State(k, q));
      assert OriginatesFrom(g, k, p.importer);
    }
  }
}
