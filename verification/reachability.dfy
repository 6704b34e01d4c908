/**
 * The relaxation worklist over (snapshot, posture) and the importer fixpoint.
 *
 * The proof follows the queue. It always holds states of two neighbouring depths, the shallower ones first; every
 * state not waiting in it has had its outgoing edges relaxed; and every walk no deeper than the current level is
 * accounted for. So a state is already at its least walk when it is popped.
 */
module Reachability {
  import opened Text
  import opened LicenseGraph
  import SortedKeys
  import Sorting

  type Best = map<State, Path>
  type Parents = map<Str, set<Str>>

  // ---------------------------------------------------------------- invariants

  /** The recorded path at `s` is no later than `p`. */
  ghost predicate Bounds(best: Best, s: State, p: Path) {
    s in best && ComparePath(best[s], p) <= 0
  }

  ghost predicate Sound(g: Graph, best: Best) {
    forall s :: s in best ==> WalkTo(g, best[s], s)
  }

  ghost predicate RelaxedFrom(g: Graph, best: Best, s: State)
    requires s in best
  {
    forall t {:trigger Bounds(best, t, Extend(best[s], t.key))} :: Succ(g, s, t) ==> Bounds(best, t, Extend(best[s], t.key))
  }

  /** Every recorded state that is not waiting has had its edges relaxed. */
  ghost predicate Closed(g: Graph, best: Best, pending: seq<State>) {
    forall s {:trigger RelaxedFrom(g, best, s)} :: s in best && s !in pending ==> RelaxedFrom(g, best, s)
  }

  ghost predicate RootsBound(g: Graph, best: Best) {
    forall r :: r in g.roots ==> Bounds(best, State(r.key, r.posture), RootPath(r))
  }

  /** All walks no deeper than `level` are bounded by the record. */
  ghost predicate Complete(g: Graph, best: Best, level: int) {
    forall s, w {:trigger Bounds(best, s, w)} :: WalkTo(g, w, s) && Depth(w) <= level ==> Bounds(best, s, w)
  }

  ghost predicate AtDepth(best: Best, s: State, depth: int) {
    s in best && Depth(best[s]) == depth
  }

  /** The queue holds `level` states first, then states one deeper, and nothing recorded is deeper than that. */
  ghost predicate Levels(best: Best, now: seq<State>, next: seq<State>, level: int) {
    && (forall s :: s in now ==> AtDepth(best, s, level))
    && (forall s :: s in next ==> AtDepth(best, s, level + 1))
    && (forall s :: s in best ==> Depth(best[s]) <= level + 1)
    && (forall s :: s in best && Depth(best[s]) == level + 1 ==> s in next)
  }

  ghost predicate Checked(g: Graph, best: Best, pending: seq<State>, maxPathDepth: int) {
    forall s :: s in best && s !in pending ==> s.key in g.snapshots && Depth(best[s]) <= maxPathDepth
  }

  predicate ParentIn(parents: Parents, c: Str, k: Str) {
    c in parents && k in parents[c]
  }

  /** Parents are recorded snapshots linked to the child, and all of those whose states are not waiting. */
  ghost predicate ParentsExact(g: Graph, best: Best, parents: Parents, pending: seq<State>) {
    && (forall c, k :: ParentIn(parents, c, k) ==> Linked(g, k, c) && exists q :: State(k, q) in best)
    && (forall c, s :: s in best && s !in pending && Linked(g, s.key, c) ==> ParentIn(parents, c, s.key))
  }

  // ---------------------------------------------------------------- consequences

  lemma LevelUp(g: Graph, best: Best, pending: seq<State>, level: int)
    requires Closed(g, best, pending) && RootsBound(g, best) && Complete(g, best, level)
    requires forall s :: s in pending ==> AtDepth(best, s, level + 1)
    ensures Complete(g, best, level + 1)
  {
    forall s, w | WalkTo(g, w, s) && Depth(w) == level + 1 ensures Bounds(best, s, w) {
      BoundsNext(g, best, pending, level, s, w);
    }
  }

  lemma BoundsNext(g: Graph, best: Best, pending: seq<State>, level: int, s: State, w: Path)
    requires Closed(g, best, pending) && RootsBound(g, best) && Complete(g, best, level)
    requires forall s :: s in pending ==> AtDepth(best, s, level + 1)
    requires WalkTo(g, w, s) && Depth(w) == level + 1
    ensures Bounds(best, s, w)
  {
    if |w.keys| == 1 {
      var r :| r in g.roots && RootPath(r) == w && r.posture == s.posture;
      assert Bounds(best, State(r.key, r.posture), RootPath(r));
    } else {
      var v := Prefix(w);
      var q0 :| Walk(g, v, q0) && Succ(g, State(Last(v), q0), State(Last(w), s.posture));
      var s0 := State(Last(v), q0);
      assert WalkTo(g, v, s0);
      assert Bounds(best, s0, v);
      assert s0 !in pending;
      assert RelaxedFrom(g, best, s0);
      assert Bounds(best, s, Extend(best[s0], s.key));
      ComparePathExtend(best[s0], v, s.key);
      assert Extend(v, s.key).keys == w.keys;
      ComparePathTransitive(best[s], Extend(best[s0], s.key), w);
    }
  }

  lemma {:induction false} AllWalksBound(g: Graph, best: Best, level: nat)
    requires Closed(g, best, []) && RootsBound(g, best)
    ensures Complete(g, best, level)
  {
    if level == 0 {
      assert Complete(g, best, -1);
      LevelUp(g, best, [], -1);
    } else {
      AllWalksBound(g, best, level - 1);
      LevelUp(g, best, [], level - 1);
    }
  }

  lemma LeastWhenBound(g: Graph, best: Best, s: State, level: int)
    requires Sound(g, best) && Complete(g, best, level) && AtDepth(best, s, level)
    ensures LeastWalk(g, best[s], s)
  {
    forall w | WalkTo(g, w, s) ensures ComparePath(best[s], w) <= 0 {
      if Depth(w) <= level {
        assert Bounds(best, s, w);
      }
    }
  }

  lemma AllLeast(g: Graph, best: Best)
    requires Sound(g, best) && Closed(g, best, []) && RootsBound(g, best)
    ensures forall s :: s in best <==> Reachable(g, s)
    ensures forall s :: s in best ==> LeastWalk(g, best[s], s)
  {
    forall s, w | WalkTo(g, w, s) ensures Bounds(best, s, w) {
      AllWalksBound(g, best, Depth(w));
    }
  }

  // ---------------------------------------------------------------- one relaxation step

  /** What relaxing edges out of a state at depth `level` may do to the record and the queue. */
  ghost predicate Relaxation(best0: Best, queue0: seq<State>, best: Best, queue: seq<State>, level: int) {
    && queue0 <= queue
    && (forall t :: t in best0 ==> Bounds(best, t, best0[t]))
    && (forall t :: t in best0 && Depth(best0[t]) <= level ==> best[t] == best0[t])
    && (forall t :: t in best ==> (t in best0 && best[t] == best0[t]) || t in queue[|queue0|..])
    && (forall t :: t in queue[|queue0|..] ==> AtDepth(best, t, level + 1))
  }

  lemma RelaxationTransitive(best0: Best, queue0: seq<State>, best1: Best, queue1: seq<State>, best: Best, queue: seq<State>, level: int)
    requires Relaxation(best0, queue0, best1, queue1, level) && Relaxation(best1, queue1, best, queue, level)
    ensures Relaxation(best0, queue0, best, queue, level)
  {
    assert queue[|queue0|..] == queue1[|queue0|..] + queue[|queue1|..];
    forall t | t in best0 ensures Bounds(best, t, best0[t]) {
      assert Bounds(best1, t, best0[t]);
      ComparePathTransitive(best[t], best1[t], best0[t]);
    }
    forall t | t in queue1[|queue0|..] ensures AtDepth(best, t, level + 1) {
      assert AtDepth(best1, t, level + 1);
    }
  }

  lemma RelaxationRefl(best: Best, queue: seq<State>, level: int)
    ensures Relaxation(best, queue, best, queue, level)
  {
    forall u | u in best ensures Bounds(best, u, best[u]) {
      ComparePathOrder(best[u], best[u]);
    }
  }

  lemma RelaxationImprove(best: Best, queue: seq<State>, t: State, p: Path)
    requires t in best ==> ComparePath(p, best[t]) < 0 && Depth(best[t]) <= Depth(p)
    ensures Relaxation(best, queue, best[t := p], queue + [t], Depth(p) - 1)
  {
    var best', queue' := best[t := p], queue + [t];
    assert queue'[|queue|..] == [t];
    forall u | u in best ensures Bounds(best', u, best[u]) {
      ComparePathOrder(best[u], best[u]);
    }
  }

  /** The source's `relax`: record the path if it is the first or strictly earlier, and queue the state again. */
  method Relax(ghost g: Graph, t: State, p: Path, best0: Best, queue0: seq<State>) returns (best: Best, queue: seq<State>)
    requires WalkTo(g, p, t) && Sound(g, best0)
    requires forall u :: u in best0 ==> Depth(best0[u]) <= Depth(p)
    ensures Relaxation(best0, queue0, best, queue, Depth(p) - 1) && Sound(g, best)
    ensures Bounds(best, t, p)
    ensures best.Keys == best0.Keys + {t} && forall u :: u in best0 && u != t ==> best[u] == best0[u]
    ensures best[t] == p || (t in best0 && best[t] == best0[t])
    ensures if t !in best0 || ComparePath(p, best0[t]) < 0 then queue == queue0 + [t] else queue == queue0 && best[t] == best0[t]
    ensures forall u :: u in best ==> Depth(best[u]) <= Depth(p)
  {
    ComparePathOrder(p, p);
    if t !in best0 || ComparePath(p, best0[t]) < 0 {
      RelaxationImprove(best0, queue0, t, p);
      best, queue := best0[t := p], queue0 + [t];
    } else {
      ComparePathOrder(p, best0[t]);
      RelaxationRefl(best0, queue0, Depth(p) - 1);
      best, queue := best0, queue0;
    }
  }

  function CompareEdges(a: Edge, b: Edge): int {
    if Cmp(a.target, b.target) != 0 then Cmp(a.target, b.target) else Cmp(a.name, b.name)
  }

  /** The source's `addParent`. */
  function AddParent(parents: Parents, c: Str, k: Str): (r: Parents)
    ensures forall c', k' :: ParentIn(r, c', k') <==> ParentIn(parents, c', k') || (c' == c && k' == k)
  {
    parents[c := (if c in parents then parents[c] else {}) + {k}]
  }

  predicate TargetBefore(edges: seq<Edge>, n: nat, c: Str)
    requires n <= |edges|
  {
    exists j :: 0 <= j < n && edges[j].target == c
  }

  /** The first `n` edges of one kind have been relaxed. */
  ghost predicate RelaxedBefore(g: Graph, best0: Best, queue0: seq<State>, best: Best, queue: seq<State>,
                                path: Path, edges: seq<Edge>, n: nat, child: Posture)
    requires n <= |edges|
  {
    && Relaxation(best0, queue0, best, queue, Depth(path))
    && Sound(g, best)
    && (forall u :: u in best ==> Depth(best[u]) <= Depth(path) + 1)
    && BoundsBefore(edges, n, child, path, best)
  }

  /** The parents recorded are the old ones and `k` for each target among the first `n` edges. */
  ghost predicate ParentsBefore(parents0: Parents, parents: Parents, k: Str, edges: seq<Edge>, n: nat)
    requires n <= |edges|
  {
    forall c, k' :: ParentIn(parents, c, k') <==> ParentIn(parents0, c, k') || (k' == k && TargetBefore(edges, n, c))
  }

  lemma ParentsStep(parents0: Parents, parents: Parents, k: Str, edges: seq<Edge>, n: nat)
    requires n < |edges| && ParentsBefore(parents0, parents, k, edges, n)
    ensures ParentsBefore(parents0, AddParent(parents, edges[n].target, k), k, edges, n + 1)
  {
    assert forall c :: TargetBefore(edges, n + 1, c) <==> TargetBefore(edges, n, c) || c == edges[n].target;
  }

  method RelaxEdge(ghost g: Graph, ghost s: State, path: Path, ghost best0: Best, ghost queue0: seq<State>,
                   best1: Best, queue1: seq<State>, ghost edges: seq<Edge>, ghost n: nat, edge: Edge, child: Posture)
    returns (best: Best, queue: seq<State>)
    requires n < |edges| && edges[n] == edge && WalkTo(g, path, s) && Succ(g, s, State(edge.target, child))
    requires RelaxedBefore(g, best0, queue0, best1, queue1, path, edges, n, child)
    ensures RelaxedBefore(g, best0, queue0, best, queue, path, edges, n + 1, child)
  {
    ExtendWalk(g, path, s, State(edge.target, child));
    best, queue := Relax(g, State(edge.target, child), Extend(path, edge.target), best1, queue1);
    RelaxationTransitive(best0, queue0, best1, queue1, best, queue, Depth(path));
    KeepBounds(edges, n, child, path, best1, best);
  }

  /** Relaxes the edges of one kind, in sorted order, recording the parent of each target. */
  method RelaxEdges(g: Graph, s: State, kind: EdgeKind, path: Path, best0: Best, queue0: seq<State>, parents0: Parents)
    returns (best: Best, queue: seq<State>, parents: Parents)
    requires WalkTo(g, path, s) && s.key in g.snapshots && Sound(g, best0)
    requires forall u :: u in best0 ==> Depth(best0[u]) <= Depth(path) + 1
    ensures Relaxation(best0, queue0, best, queue, Depth(path)) && Sound(g, best)
    ensures forall u :: u in best ==> Depth(best[u]) <= Depth(path) + 1
    ensures forall c :: HasEdge(g, s.key, kind, c) ==> Bounds(best, State(c, Transition(s.posture, kind)), Extend(path, c))
    ensures forall c, k :: ParentIn(parents, c, k) <==> ParentIn(parents0, c, k) || (k == s.key && HasEdge(g, s.key, kind, c))
  {
    var edges := Sorting.Sort(CompareEdges, g.snapshots[s.key].Edges(kind));
    var child := Transition(s.posture, kind);
    best, queue, parents := best0, queue0, parents0;
    RelaxationRefl(best, queue, Depth(path));
    for i := 0 to |edges|
      invariant RelaxedBefore(g, best0, queue0, best, queue, path, edges, i, child)
      invariant ParentsBefore(parents0, parents, s.key, edges, i)
    {
      ParentsStep(parents0, parents, s.key, edges, i);
      parents := AddParent(parents, edges[i].target, s.key);
      SortedEdgeIsSucc(g, s, kind, i);
      best, queue := RelaxEdge(g, s, path, best0, queue0, best, queue, edges, i, edges[i], child);
    }
    EdgesBySort(g, s.key, kind);
  }

  lemma SortedEdgeIsSucc(g: Graph, s: State, kind: EdgeKind, i: nat)
    requires s.key in g.snapshots
    requires i < |Sorting.Sort(CompareEdges, g.snapshots[s.key].Edges(kind))|
    ensures Succ(g, s, State(Sorting.Sort(CompareEdges, g.snapshots[s.key].Edges(kind))[i].target, Transition(s.posture, kind)))
  {
    var edges := Sorting.Sort(CompareEdges, g.snapshots[s.key].Edges(kind));
    Sorting.SortMembers(CompareEdges, g.snapshots[s.key].Edges(kind));
    assert edges[i] in edges;
    assert HasEdge(g, s.key, kind, edges[i].target);
  }

  lemma EdgesBySort(g: Graph, k: Str, kind: EdgeKind)
    requires k in g.snapshots
    ensures var edges := Sorting.Sort(CompareEdges, g.snapshots[k].Edges(kind));
            forall c :: HasEdge(g, k, kind, c) <==> TargetBefore(edges, |edges|, c)
  {
    var unsorted := g.snapshots[k].Edges(kind);
    var edges := Sorting.Sort(CompareEdges, unsorted);
    Sorting.SortMembers(CompareEdges, unsorted);
    forall c ensures HasEdge(g, k, kind, c) <==> TargetBefore(edges, |edges|, c) {
      if HasEdge(g, k, kind, c) {
        var i :| 0 <= i < |unsorted| && unsorted[i].target == c;
        assert unsorted[i] in edges;
      }
      if TargetBefore(edges, |edges|, c) {
        var j :| 0 <= j < |edges| && edges[j].target == c;
        assert edges[j] in unsorted;
      }
    }
  }

  ghost predicate BoundsBefore(edges: seq<Edge>, n: nat, child: Posture, path: Path, best: Best)
    requires n <= |edges|
  {
    forall j :: 0 <= j < n ==> Bounds(best, State(edges[j].target, child), Extend(path, edges[j].target))
  }

  lemma KeepBounds(edges: seq<Edge>, n: nat, child: Posture, path: Path, best0: Best, best: Best)
    requires n <= |edges| && BoundsBefore(edges, n, child, path, best0)
    requires forall t :: t in best0 ==> Bounds(best, t, best0[t])
    ensures BoundsBefore(edges, n, child, path, best)
  {
    forall j | 0 <= j < n ensures Bounds(best, State(edges[j].target, child), Extend(path, edges[j].target)) {
      var t := State(edges[j].target, child);
      assert Bounds(best0, t, Extend(path, edges[j].target));
      ComparePathTransitive(best[t], best0[t], Extend(path, edges[j].target));
    }
  }

  function CompareRoots(a: Root, b: Root): int {
    if Cmp(a.importer, b.importer) != 0 then Cmp(a.importer, b.importer)
    else if Cmp(a.name, b.name) != 0 then Cmp(a.name, b.name)
    else if Cmp(a.key, b.key) != 0 then Cmp(a.key, b.key)
    else b.posture.Rank() - a.posture.Rank()
  }

  function SortedRoots(g: Graph): seq<Root> {
    Sorting.Sort(CompareRoots, g.roots)
  }

  ghost predicate RootsBefore(roots: seq<Root>, n: nat, best: Best)
    requires n <= |roots|
  {
    forall j :: 0 <= j < n ==> Bounds(best, State(roots[j].key, roots[j].posture), RootPath(roots[j]))
  }

  lemma SeedOne(roots: seq<Root>, i: nat, best0: Best, queue0: seq<State>, best: Best, queue: seq<State>)
    requires i < |roots| && RootsBefore(roots, i, best0)
    requires Relaxation(best0, queue0, best, queue, -1)
    requires Bounds(best, State(roots[i].key, roots[i].posture), RootPath(roots[i]))
    requires forall s :: s in best0 <==> s in queue0
    ensures RootsBefore(roots, i + 1, best)
    ensures forall s :: s in best <==> s in queue
    ensures forall s :: s in queue[|queue0|..] ==> Depth(best[s]) == 0
  {
    forall j | 0 <= j < i ensures Bounds(best, State(roots[j].key, roots[j].posture), RootPath(roots[j])) {
      var t := State(roots[j].key, roots[j].posture);
      assert Bounds(best0, t, RootPath(roots[j]));
      ComparePathTransitive(best[t], best0[t], RootPath(roots[j]));
    }
    assert queue == queue0 + queue[|queue0|..];
    forall s | s in queue ensures s in best {
      if s in queue[|queue0|..] {
        assert AtDepth(best, s, 0);
      } else {
        assert Bounds(best, s, best0[s]);
      }
    }
  }

  method SeedRoots(g: Graph) returns (best: Best, queue: seq<State>)
    ensures Sound(g, best) && RootsBound(g, best)
    ensures forall s :: s in best <==> s in queue
    ensures forall s :: s in best ==> Depth(best[s]) == 0
  {
    var roots := SortedRoots(g);
    Sorting.SortMembers(CompareRoots, g.roots);
    best, queue := map[], [];
    for i := 0 to |roots|
      invariant Sound(g, best)
      invariant forall s :: s in best <==> s in queue
      invariant forall s :: s in best ==> Depth(best[s]) == 0
      invariant RootsBefore(roots, i, best)
    {
      var r := roots[i];
      assert r in g.roots;
      assert WalkTo(g, RootPath(r), State(r.key, r.posture));
      ghost var best0, queue0 := best, queue;
      best, queue := Relax(g, State(r.key, r.posture), RootPath(r), best, queue);
      SeedOne(roots, i, best0, queue0, best, queue);
    }
    forall r | r in g.roots ensures Bounds(best, State(r.key, r.posture), RootPath(r)) {
      assert r in roots;
    }
  }

  // ---------------------------------------------------------------- the worklist

  ghost function AllKeys(g: Graph): set<Str> {
    (set r | r in g.roots :: r.key)
    + (set k, i | k in g.snapshots && 0 <= i < |g.snapshots[k].dependencies| :: g.snapshots[k].dependencies[i].target)
    + (set k, i | k in g.snapshots && 0 <= i < |g.snapshots[k].optionalDependencies| :: g.snapshots[k].optionalDependencies[i].target)
  }

  ghost function AllStates(g: Graph): set<State> {
    set k, q: Posture | k in AllKeys(g) :: State(k, q)
  }

  lemma WalkStates(g: Graph, p: Path, s: State)
    requires WalkTo(g, p, s)
    ensures s in AllStates(g)
  {
    assert s.key in AllKeys(g);
    assert s == State(s.key, s.posture);
  }

  /** The states whose recorded path is final at this level. */
  ghost function Settled(best: Best, level: int): set<State> {
    set s | s in best && Depth(best[s]) <= level
  }

  lemma SettledSize(g: Graph, best: Best, level: int)
    requires Sound(g, best)
    ensures Settled(best, level) <= AllStates(g)
  {
    forall s | s in best ensures s in AllStates(g) {
      WalkStates(g, best[s], s);
    }
  }

  ghost function Unsettled(g: Graph, best: Best, level: int): nat {
    |AllStates(g) - Settled(best, level)|
  }

  lemma UnsettledDrops(g: Graph, best: Best, level: int, s: State)
    requires Sound(g, best) && AtDepth(best, s, level + 1)
    ensures Unsettled(g, best, level + 1) < Unsettled(g, best, level)
  {
    SettledSize(g, best, level + 1);
    var more, less := AllStates(g) - Settled(best, level), AllStates(g) - Settled(best, level + 1);
    assert s in more && s !in less;
    assert less <= more - {s};
    SortedKeys.SubsetSize(less, more - {s});
  }

  lemma SettledKept(g: Graph, best0: Best, queue0: seq<State>, best: Best, queue: seq<State>, level: int)
    requires Relaxation(best0, queue0, best, queue, level)
    ensures Settled(best, level) == Settled(best0, level)
  {
    forall s | s in best && Depth(best[s]) <= level ensures s in best0 && Depth(best0[s]) <= level {
      assert s in queue[|queue0|..] ==> AtDepth(best, s, level + 1);
    }
  }

  datatype Traversal =
    | Traversed(best: Best, parents: Parents)
    | MissingSnapshot(key: Str)
    | DepthExceeded(key: Str, depth: int)

  /** What holds between two pops. */
  ghost predicate Invariant(g: Graph, best: Best, parents: Parents, now: seq<State>, next: seq<State>, level: int, maxPathDepth: int) {
    && Sound(g, best)
    && Closed(g, best, now + next)
    && RootsBound(g, best)
    && Complete(g, best, level)
    && Levels(best, now, next, level)
    && Checked(g, best, now + next, maxPathDepth)
    && ParentsExact(g, best, parents, now + next)
  }

  lemma SeededInvariant(g: Graph, best: Best, queue: seq<State>, maxPathDepth: int)
    requires Sound(g, best) && RootsBound(g, best)
    requires forall s :: s in best <==> s in queue
    requires forall s :: s in best ==> Depth(best[s]) == 0
    ensures Invariant(g, best, map[], queue, [], 0, maxPathDepth)
  {
    assert queue + [] == queue;
    assert Complete(g, best, -1);
    LevelUp(g, best, queue, -1);
  }

  lemma NextLevel(g: Graph, best: Best, parents: Parents, next: seq<State>, level: int, maxPathDepth: int)
    requires Invariant(g, best, parents, [], next, level, maxPathDepth)
    ensures Invariant(g, best, parents, next, [], level + 1, maxPathDepth)
  {
    assert [] + next == next && next + [] == next;
    LevelUp(g, best, next, level);
  }

  lemma PopKeepsInvariant(g: Graph, best0: Best, parents0: Parents, now0: seq<State>, next0: seq<State>, level: int, maxPathDepth: int,
                          best: Best, parents: Parents, pushed: seq<State>)
    requires Invariant(g, best0, parents0, now0, next0, level, maxPathDepth)
    requires |now0| > 0 && now0[0].key in g.snapshots && level <= maxPathDepth
    requires Sound(g, best) && forall u :: u in best ==> Depth(best[u]) <= level + 1
    requires Relaxation(best0, next0, best, next0 + pushed, level)
    requires now0[0] in best0 && now0[0] in best && best[now0[0]] == best0[now0[0]] && RelaxedFrom(g, best, now0[0])
    requires forall c, k :: ParentIn(parents, c, k) <==> ParentIn(parents0, c, k) || (k == now0[0].key && Linked(g, k, c))
    ensures Invariant(g, best, parents, now0[1..], next0 + pushed, level, maxPathDepth)
  {
    PopCloses(g, best0, now0, next0, level, best, pushed);
    PopBounds(g, best0, next0, level, best, pushed);
    PopLevels(best0, now0, next0, level, best, pushed);
    PopChecks(g, best0, now0, next0, level, maxPathDepth, best, pushed);
    PopParents(g, best0, parents0, now0, next0, level, best, parents, pushed);
  }

  lemma PopChecks(g: Graph, best0: Best, now0: seq<State>, next0: seq<State>, level: int, maxPathDepth: int, best: Best, pushed: seq<State>)
    requires Checked(g, best0, now0 + next0, maxPathDepth) && Levels(best0, now0, next0, level)
    requires |now0| > 0 && now0[0].key in g.snapshots && level <= maxPathDepth
    requires Relaxation(best0, next0, best, next0 + pushed, level)
    requires now0[0] in best0 && now0[0] in best && best[now0[0]] == best0[now0[0]]
    ensures Checked(g, best, now0[1..] + (next0 + pushed), maxPathDepth)
  {
    assert now0 == [now0[0]] + now0[1..];
    assert (next0 + pushed)[|next0|..] == pushed;
    assert AtDepth(best0, now0[0], level);
  }

  lemma PopParents(g: Graph, best0: Best, parents0: Parents, now0: seq<State>, next0: seq<State>, level: int,
                   best: Best, parents: Parents, pushed: seq<State>)
    requires ParentsExact(g, best0, parents0, now0 + next0) && |now0| > 0
    requires Relaxation(best0, next0, best, next0 + pushed, level)
    requires now0[0] in best
    requires forall c, k :: ParentIn(parents, c, k) <==> ParentIn(parents0, c, k) || (k == now0[0].key && Linked(g, k, c))
    ensures ParentsExact(g, best, parents, now0[1..] + (next0 + pushed))
  {
    assert now0 == [now0[0]] + now0[1..];
    assert (next0 + pushed)[|next0|..] == pushed;
    forall c, k | ParentIn(parents, c, k) ensures Linked(g, k, c) && exists q :: State(k, q) in best {
      if ParentIn(parents0, c, k) {
        var q :| State(k, q) in best0;
        assert Bounds(best, State(k, q), best0[State(k, q)]);
      } else {
        assert State(k, now0[0].posture) in best;
      }
    }
  }

  lemma PopCloses(g: Graph, best0: Best, now0: seq<State>, next0: seq<State>, level: int, best: Best, pushed: seq<State>)
    requires Closed(g, best0, now0 + next0) && |now0| > 0
    requires Relaxation(best0, next0, best, next0 + pushed, level)
    requires now0[0] in best && RelaxedFrom(g, best, now0[0])
    ensures Closed(g, best, now0[1..] + (next0 + pushed))
  {
    assert now0 == [now0[0]] + now0[1..];
    assert (next0 + pushed)[|next0|..] == pushed;
    forall t | t in best && t !in now0[1..] + (next0 + pushed) && t != now0[0] ensures RelaxedFrom(g, best, t) {
      assert t in best0 && best[t] == best0[t] && t !in now0 + next0;
      assert RelaxedFrom(g, best0, t);
      forall u | Succ(g, t, u) ensures Bounds(best, u, Extend(best[t], u.key)) {
        assert Bounds(best0, u, Extend(best0[t], u.key));
        ComparePathTransitive(best[u], best0[u], Extend(best0[t], u.key));
      }
    }
  }

  lemma PopBounds(g: Graph, best0: Best, next0: seq<State>, level: int, best: Best, pushed: seq<State>)
    requires RootsBound(g, best0) && Complete(g, best0, level)
    requires Relaxation(best0, next0, best, next0 + pushed, level)
    ensures RootsBound(g, best) && Complete(g, best, level)
  {
    forall s, w | Bounds(best0, s, w) ensures Bounds(best, s, w) {
      ComparePathTransitive(best[s], best0[s], w);
    }
  }

  lemma PopLevels(best0: Best, now0: seq<State>, next0: seq<State>, level: int, best: Best, pushed: seq<State>)
    requires Levels(best0, now0, next0, level) && |now0| > 0
    requires Relaxation(best0, next0, best, next0 + pushed, level)
    requires forall u :: u in best ==> Depth(best[u]) <= level + 1
    ensures Levels(best, now0[1..], next0 + pushed, level)
  {
    assert (next0 + pushed)[|next0|..] == pushed;
    forall s | s in now0[1..] ensures AtDepth(best, s, level) {
      assert s in now0;
      assert AtDepth(best0, s, level);
    }
    forall s | s in next0 ensures AtDepth(best, s, level + 1) {
      assert AtDepth(best0, s, level + 1);
      if s !in pushed {
        assert best[s] == best0[s];
      }
    }
  }

  lemma RelaxationOfTail(best0: Best, queue0: seq<State>, best: Best, queue: seq<State>, level: int, from: nat)
    requires Relaxation(best0, queue0, best, queue, level) && from <= |queue0|
    ensures Relaxation(best0, queue0[from..], best, queue0[from..] + queue[|queue0|..], level)
    ensures queue[from..] == queue0[from..] + queue[|queue0|..]
  {
    assert (queue0[from..] + queue[|queue0|..])[|queue0[from..]|..] == queue[|queue0|..];
  }

  lemma BothKindsRelaxed(g: Graph, s: State, best: Best)
    requires s in best
    requires forall c :: HasEdge(g, s.key, Required, c) ==> Bounds(best, State(c, Transition(s.posture, Required)), Extend(best[s], c))
    requires forall c :: HasEdge(g, s.key, Optional, c) ==> Bounds(best, State(c, Transition(s.posture, Optional)), Extend(best[s], c))
    ensures RelaxedFrom(g, best, s)
  {
    forall t | Succ(g, s, t) ensures Bounds(best, t, Extend(best[s], t.key)) {
      if HasEdge(g, s.key, Required, t.key) && t.posture == Transition(s.posture, Required) {
        assert t == State(t.key, Transition(s.posture, Required));
      } else {
        assert t == State(t.key, Transition(s.posture, Optional));
      }
    }
  }

  /** One pop: both kinds of edges of `s` are relaxed and its children learn their parent. */
  method Expand(g: Graph, s: State, best0: Best, queue0: seq<State>, parents0: Parents)
    returns (best: Best, queue: seq<State>, parents: Parents)
    requires s in best0 && s.key in g.snapshots && Sound(g, best0)
    requires forall u :: u in best0 ==> Depth(best0[u]) <= Depth(best0[s]) + 1
    ensures Relaxation(best0, queue0, best, queue, Depth(best0[s])) && Sound(g, best)
    ensures forall u :: u in best ==> Depth(best[u]) <= Depth(best0[s]) + 1
    ensures s in best && best[s] == best0[s] && RelaxedFrom(g, best, s)
    ensures forall c, k :: ParentIn(parents, c, k) <==> ParentIn(parents0, c, k) || (k == s.key && Linked(g, k, c))
  {
    var path := best0[s];
    assert WalkTo(g, path, s);
    var best1, queue1, parents1 := RelaxEdges(g, s, Required, path, best0, queue0, parents0);
    best, queue, parents := RelaxEdges(g, s, Optional, path, best1, queue1, parents1);
    RelaxationTransitive(best0, queue0, best1, queue1, best, queue, Depth(path));
    forall c | HasEdge(g, s.key, Required, c)
      ensures Bounds(best, State(c, Transition(s.posture, Required)), Extend(path, c))
    {
      var t := State(c, Transition(s.posture, Required));
      assert Bounds(best1, t, Extend(path, c));
      assert Bounds(best, t, best1[t]);
      ComparePathTransitive(best[t], best1[t], Extend(path, c));
    }
    assert Bounds(best, s, best0[s]);
    BothKindsRelaxed(g, s, best);
  }

  lemma ExceededIsExact(g: Graph, best: Best, s: State, level: int)
    requires Sound(g, best) && Complete(g, best, level) && AtDepth(best, s, level)
    ensures LeastWalk(g, best[s], s) && Depth(best[s]) == level
  {
    LeastWhenBound(g, best, s, level);
  }

  ghost predicate DeepState(g: Graph, key: Str, depth: int) {
    exists q, p :: LeastWalk(g, p, State(key, q)) && Depth(p) == depth
  }

  ghost predicate ReachableKey(g: Graph, key: Str) {
    exists q :: Reachable(g, State(key, q))
  }

  /** What each outcome of the traversal means. */
  ghost predicate TraversalMeaning(g: Graph, maxPathDepth: int, r: Traversal) {
    match r
    case Traversed(best, parents) =>
      && (forall s :: s in best <==> Reachable(g, s))
      && (forall s :: s in best ==> LeastWalk(g, best[s], s) && Depth(best[s]) <= maxPathDepth && s.key in g.snapshots)
      && (forall c, k :: ParentIn(parents, c, k) <==> ReachableKey(g, k) && Linked(g, k, c))
    case MissingSnapshot(key) => key !in g.snapshots && ReachableKey(g, key)
    case DepthExceeded(key, depth) => depth > maxPathDepth && DeepState(g, key, depth)
  }

  lemma FinishedMeaning(g: Graph, best: Best, parents: Parents, level: int, maxPathDepth: int)
    requires Invariant(g, best, parents, [], [], level, maxPathDepth)
    ensures TraversalMeaning(g, maxPathDepth, Traversed(best, parents))
  {
    var none: seq<State> := [];
    assert none + none == none;
    AllLeast(g, best);
    forall c, k ensures ParentIn(parents, c, k) <==> ReachableKey(g, k) && Linked(g, k, c) {
      if ParentIn(parents, c, k) {
        var q :| State(k, q) in best;
        assert Reachable(g, State(k, q));
      }
      if ReachableKey(g, k) && Linked(g, k, c) {
        var q :| Reachable(g, State(k, q));
        assert State(k, q) in best;
      }
    }
  }

  lemma HeadFacts(g: Graph, best: Best, parents: Parents, now: seq<State>, next: seq<State>, level: int, maxPathDepth: int)
    requires Invariant(g, best, parents, now, next, level, maxPathDepth) && |now| > 0
    ensures AtDepth(best, now[0], level) && Sound(g, best)
    ensures forall u :: u in best ==> Depth(best[u]) <= level + 1
    ensures now[0].key !in g.snapshots ==> TraversalMeaning(g, maxPathDepth, MissingSnapshot(now[0].key))
    ensures level > maxPathDepth ==> TraversalMeaning(g, maxPathDepth, DepthExceeded(now[0].key, level))
  {
    var s := now[0];
    assert s in now;
    assert Reachable(g, s);
    ExceededIsExact(g, best, s, level);
    assert s == State(s.key, s.posture);
  }

  lemma SliceTail(queue0: seq<State>, queue: seq<State>, head: nat, split: nat)
    requires head < split <= |queue0| && queue0 <= queue
    ensures queue[head + 1..split] == queue0[head..split][1..]
  {
  }

  method PopHead(g: Graph, best0: Best, queue0: seq<State>, parents0: Parents, head: nat, ghost split: nat, ghost level: int, ghost maxPathDepth: int)
    returns (best: Best, queue: seq<State>, parents: Parents)
    requires head < split <= |queue0|
    requires Invariant(g, best0, parents0, queue0[head..split], queue0[split..], level, maxPathDepth)
    requires queue0[head].key in g.snapshots && level <= maxPathDepth
    ensures queue0 <= queue
    ensures Invariant(g, best, parents, queue[head + 1..split], queue[split..], level, maxPathDepth)
    ensures Unsettled(g, best, level) == Unsettled(g, best0, level)
  {
    HeadFacts(g, best0, parents0, queue0[head..split], queue0[split..], level, maxPathDepth);
    best, queue, parents := Expand(g, queue0[head], best0, queue0, parents0);
    RelaxationOfTail(best0, queue0, best, queue, level, split);
    PopKeepsInvariant(g, best0, parents0, queue0[head..split], queue0[split..], level, maxPathDepth,
                      best, parents, queue[|queue0|..]);
    SliceTail(queue0, queue, head, split);
    SettledKept(g, best0, queue0, best, queue, level);
  }

  lemma Descend(g: Graph, best: Best, parents: Parents, queue: seq<State>, split: nat, level: int, maxPathDepth: int)
    requires split < |queue|
    requires Invariant(g, best, parents, queue[split..split], queue[split..], level, maxPathDepth)
    ensures Invariant(g, best, parents, queue[split..|queue|], queue[|queue|..], level + 1, maxPathDepth)
    ensures Unsettled(g, best, level + 1) < Unsettled(g, best, level)
  {
    assert queue[split..split] == [] && queue[|queue|..] == [] && queue[split..|queue|] == queue[split..];
    NextLevel(g, best, parents, queue[split..], level, maxPathDepth);
    assert queue[split] in queue[split..];
    UnsettledDrops(g, best, level, queue[split]);
  }

  /** The relaxation worklist. It always ends, cycles included. */
  method Traverse(g: Graph, maxPathDepth: int) returns (r: Traversal)
    ensures TraversalMeaning(g, maxPathDepth, r)
  {
    var best, queue := SeedRoots(g);
    var parents: Parents := map[];
    var head := 0;
    ghost var level, split := 0, |queue|;
    SeededInvariant(g, best, queue, maxPathDepth);
    assert queue[0..split] == queue && queue[split..] == [];
    while head < |queue|
      invariant 0 <= head <= split <= |queue|
      invariant head < |queue| ==> head < split
      invariant Invariant(g, best, parents, queue[head..split], queue[split..], level, maxPathDepth)
      decreases Unsettled(g, best, level), split - head
    {
      var s := queue[head];
      HeadFacts(g, best, parents, queue[head..split], queue[split..], level, maxPathDepth);
      if s.key !in g.snapshots {
        return MissingSnapshot(s.key);
      }
      if Depth(best[s]) > maxPathDepth {
        return DepthExceeded(s.key, Depth(best[s]));
      }
      best, queue, parents := PopHead(g, best, queue, parents, head, split, level, maxPathDepth);
      head := head + 1;
      if head == split && head < |queue| {
        Descend(g, best, parents, queue, split, level, maxPathDepth);
        level, split := level + 1, |queue|;
      }
    }
    assert queue[head..split] == [] && queue[split..] == [];
    FinishedMeaning(g, best, parents, level, maxPathDepth);
    return Traversed(best, parents);
  }
}
