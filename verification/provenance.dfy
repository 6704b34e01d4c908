/** `computeReachability` as a whole: traversal, importer fixpoint and the per-snapshot record. */
module Provenances {
  import opened Text
  import opened LicenseGraph
  import opened Reachability
  import opened Importers
  import SortedKeys

  datatype Provenance = Provenance(
    reachingPostures: seq<Posture>,
    primaryPosture: Posture,
    shortest: map<Posture, Path>,
    directParents: set<Str>,
    originatingImporters: set<Str>)

  datatype ReachError = SnapshotMissing(key: Str) | PathDepth(key: Str, depth: int)

  datatype ReachResult = Reached(reach: map<Str, Provenance>) | Failed(error: ReachError)

  function Only(q: Posture, s: set<Posture>): seq<Posture> {
    if q in s then [q] else []
  }

  /** The postures present, highest precedence first. */
  function SortedPostures(s: set<Posture>): (r: seq<Posture>)
    ensures forall q :: q in r <==> q in s
    ensures forall i, j :: 0 <= i < j < |r| ==> r[i].Rank() > r[j].Rank()
  {
    var upper, lower := Only(Production, s) + Only(OptionalProduction, s), Only(Peer, s) + Only(Development, s);
    assert forall q :: q in upper <==> q in s && q.Rank() >= 3;
    assert forall q :: q in lower <==> q in s && q.Rank() <= 2;
    upper + lower
  }

  function BestOf(best: Best, key: Str): map<Posture, Path> {
    map q: Posture | State(key, q) in best :: best[State(key, q)]
  }

  ghost predicate ExactPaths(g: Graph, key: Str, p: Provenance) {
    && (forall q :: q in p.shortest <==> Reachable(g, State(key, q)))
    && (forall q :: q in p.shortest ==> LeastWalk(g, p.shortest[q], State(key, q)))
  }

  ghost predicate ExactPostures(p: Provenance) {
    && (forall q :: q in p.reachingPostures <==> q in p.shortest)
    && (forall i, j :: 0 <= i < j < |p.reachingPostures| ==> p.reachingPostures[i].Rank() > p.reachingPostures[j].Rank())
    && p.primaryPosture in p.shortest
    && (forall q :: q in p.shortest ==> q.Rank() <= p.primaryPosture.Rank())
  }

  /** The record of `key` says exactly what walks of the graph say. */
  ghost predicate Exact(g: Graph, key: Str, p: Provenance) {
    && ExactPaths(g, key, p)
    && ExactPostures(p)
    && (forall k :: k in p.directParents <==> ReachableKey(g, k) && Linked(g, k, key))
    && (forall i :: i in p.originatingImporters <==> OriginatesFrom(g, key, i))
  }

  ghost predicate WithinDepth(g: Graph, maxPathDepth: int) {
    forall s, p :: LeastWalk(g, p, s) ==> Depth(p) <= maxPathDepth
  }

  /** Every key a walk arrives at is a snapshot. */
  ghost predicate NoDangling(g: Graph) {
    forall k :: ReachableKey(g, k) ==> k in g.snapshots
  }

  ghost predicate ExactReach(g: Graph, reach: map<Str, Provenance>) {
    && (forall k :: k in reach <==> ReachableKey(g, k))
    && (forall k {:trigger reach[k]} :: k in reach ==> Exact(g, k, reach[k]))
  }

  ghost predicate ReachMeaning(g: Graph, maxPathDepth: int, r: ReachResult) {
    match r
    case Reached(reach) =>
      && NoDangling(g) && WithinDepth(g, maxPathDepth)
      && ExactReach(g, reach)
    case Failed(SnapshotMissing(key)) => key !in g.snapshots && ReachableKey(g, key)
    case Failed(PathDepth(key, depth)) => depth > maxPathDepth && DeepState(g, key, depth)
  }

  lemma TraversedWithin(g: Graph, maxPathDepth: int, best: Best, parents: Parents)
    requires TraversalMeaning(g, maxPathDepth, Traversed(best, parents))
    ensures NoDangling(g) && WithinDepth(g, maxPathDepth)
    ensures forall k :: k in (set s | s in best :: s.key) <==> ReachableKey(g, k)
  {
    forall k | ReachableKey(g, k) ensures k in g.snapshots && k in (set s | s in best :: s.key) {
      var q :| Reachable(g, State(k, q));
      assert State(k, q) in best;
    }
    forall s, p | LeastWalk(g, p, s) ensures Depth(p) <= maxPathDepth {
      assert Reachable(g, s);
      LeastWalkUnique(g, p, best[s], s);
    }
    forall s | s in best ensures ReachableKey(g, s.key) {
      assert s == State(s.key, s.posture);
    }
  }

  function Record(best: Best, parents: Parents, origins: Origins, key: Str): Provenance
    requires exists q :: State(key, q) in best
  {
    var shortest := BestOf(best, key);
    var reaching := SortedPostures(shortest.Keys);
    assert |reaching| > 0 by {
      var q :| State(key, q) in best;
      assert q in shortest && q in reaching;
    }
    Provenance(reaching, reaching[0], shortest, if key in parents then parents[key] else {}, Get(origins, key))
  }

  lemma RecordPostures(best: Best, parents: Parents, origins: Origins, key: Str)
    requires exists q :: State(key, q) in best
    ensures ExactPostures(Record(best, parents, origins, key))
  {
    var p := Record(best, parents, origins, key);
    var q0 :| State(key, q0) in best;
    assert q0 in p.shortest && q0 in p.reachingPostures;
    assert p.primaryPosture == p.reachingPostures[0];
    forall q | q in p.shortest ensures q.Rank() <= p.primaryPosture.Rank() {
      assert q in p.reachingPostures;
    }
  }

  lemma RecordExact(g: Graph, maxPathDepth: int, best: Best, parents: Parents, origins: Origins, key: Str)
    requires TraversalMeaning(g, maxPathDepth, Traversed(best, parents))
    requires forall k, i :: i in Get(origins, k) <==> OriginatesFrom(g, k, i)
    requires exists q :: State(key, q) in best
    ensures Exact(g, key, Record(best, parents, origins, key))
  {
    var p := Record(best, parents, origins, key);
    RecordPostures(best, parents, origins, key);
    assert ExactPaths(g, key, p);
    forall k ensures k in p.directParents <==> ReachableKey(g, k) && Linked(g, k, key) {
      assert k in p.directParents <==> ParentIn(parents, key, k);
    }
  }

  method ComputeReachability(g: Graph, maxPathDepth: int) returns (r: ReachResult)
    ensures ReachMeaning(g, maxPathDepth, r)
  {
    var t := Traverse(g, maxPathDepth);
    match t
    case MissingSnapshot(key) => return Failed(SnapshotMissing(key));
    case DepthExceeded(key, depth) => return Failed(PathDepth(key, depth));
    case Traversed(best, parents) =>
      TraversedWithin(g, maxPathDepth, best, parents);
      var origins := OriginatingImporters(g);
      var keys := set s | s in best :: s.key;
      forall k | k in keys ensures exists q :: State(k, q) in best {
        var s :| s in best && s.key == k;
        assert State(k, s.posture) in best;
      }
      forall k | k in keys ensures Exact(g, k, Record(best, parents, origins, k)) {
        RecordExact(g, maxPathDepth, best, parents, origins, k);
      }
      return Reached(map k | k in keys :: Record(best, parents, origins, k));
  }

  // ---------------------------------------------------------------- when it fails

  ghost predicate ReferentiallyValid(g: Graph) {
    AllKeys(g) <= g.snapshots.Keys
  }

  /** On a valid graph the only failure is the depth error, raised exactly when some least walk is too deep. */
  lemma DepthErrorExact(g: Graph, maxPathDepth: int, r: ReachResult)
    requires ReferentiallyValid(g) && ReachMeaning(g, maxPathDepth, r)
    ensures r.Failed? ==> r.error.PathDepth?
    ensures r.Failed? <==> exists s, p :: LeastWalk(g, p, s) && Depth(p) > maxPathDepth
  {
    if r.Failed? && r.error.SnapshotMissing? {
      var q, p :| WalkTo(g, p, State(r.error.key, q));
      WalkStates(g, p, State(r.error.key, q));
      assert false;
    }
  }

  ghost predicate Distance(g: Graph, s: State, d: int) {
    && (exists w :: WalkTo(g, w, s) && Depth(w) == d)
    && (forall w :: WalkTo(g, w, s) ==> Depth(w) >= d)
  }

  lemma {:induction false} DistanceExists(g: Graph, w: Path, s: State) returns (d: int)
    requires WalkTo(g, w, s)
    ensures Distance(g, s, d) && d <= Depth(w)
    decreases Depth(w)
  {
    if w' :| WalkTo(g, w', s) && Depth(w') < Depth(w) {
      d := DistanceExists(g, w', s);
    } else {
      d := Depth(w);
    }
  }

  /** Every state of `chain` is at most at distance `d`. */
  ghost predicate AllWithin(g: Graph, chain: set<State>, d: int) {
    forall t :: t in chain ==> exists e :: e <= d && Distance(g, t, e)
  }

  lemma WithinWith(g: Graph, chain: set<State>, s: State, d: int)
    requires AllWithin(g, chain, d - 1) && Distance(g, s, d)
    ensures AllWithin(g, chain + {s}, d)
  {
  }

  /** A state at distance `d` comes with `d + 1` different states, one at each distance up to it. */
  lemma {:induction false} DistanceChain(g: Graph, s: State, d: nat) returns (chain: set<State>)
    requires Distance(g, s, d)
    ensures |chain| == d + 1 && chain <= AllStates(g)
    ensures AllWithin(g, chain, d)
    decreases d
  {
    chain := {};
    if d > 0 {
      var s0 := Predecessor(g, s, d);
      chain := DistanceChain(g, s0, d - 1);
    }
    FartherThanAll(g, s, d, chain);
    DistanceInGraph(g, s, d);
    WithinWith(g, chain, s, d);
    chain := chain + {s};
  }

  lemma DistanceInGraph(g: Graph, s: State, d: nat)
    requires Distance(g, s, d)
    ensures s in AllStates(g)
  {
    var w :| WalkTo(g, w, s) && Depth(w) == d;
    WalkStates(g, w, s);
  }

  /** The state before the last step of a shortest walk. */
  lemma Predecessor(g: Graph, s: State, d: nat) returns (s0: State)
    requires Distance(g, s, d) && d > 0
    ensures Distance(g, s0, d - 1)
  {
    var w :| WalkTo(g, w, s) && Depth(w) == d;
    var v := Prefix(w);
    var q0 :| Walk(g, v, q0) && Succ(g, State(Last(v), q0), State(Last(w), s.posture));
    s0 := State(Last(v), q0);
    forall u | WalkTo(g, u, s0) ensures Depth(u) >= d - 1 {
      ExtendWalk(g, u, s0, s);
      assert Depth(Extend(u, s.key)) == Depth(u) + 1;
    }
    assert WalkTo(g, v, s0) && Depth(v) == d - 1;
  }

  lemma FartherThanAll(g: Graph, s: State, d: nat, nearer: set<State>)
    requires Distance(g, s, d) && AllWithin(g, nearer, d - 1)
    ensures s !in nearer
  {
    forall t | t in nearer ensures t != s {
      var e :| e <= d - 1 && Distance(g, t, e);
      NearerIsOther(g, t, e, s, d);
    }
  }

  lemma NearerIsOther(g: Graph, t: State, e: int, s: State, d: int)
    requires Distance(g, t, e) && Distance(g, s, d) && e < d
    ensures t != s
  {
    var u :| WalkTo(g, u, t) && Depth(u) == e;
  }

  /** Cycles alone never raise the depth error: distances stay below the number of states. */
  lemma CyclesNeverTooDeep(g: Graph, maxPathDepth: int, r: ReachResult)
    requires ReferentiallyValid(g) && ReachMeaning(g, maxPathDepth, r)
    requires |AllStates(g)| <= maxPathDepth + 1
    ensures r.Reached?
  {
    DepthErrorExact(g, maxPathDepth, r);
    if s, p :| LeastWalk(g, p, s) && Depth(p) > maxPathDepth {
      var d := DistanceExists(g, p, s);
      var w :| WalkTo(g, w, s) && Depth(w) == d;
      assert ComparePath(p, w) <= 0;
      var chain := DistanceChain(g, s, d);
      SortedKeys.SubsetSize(chain, AllStates(g));
    }
  }

  // ---------------------------------------------------------------- order of the arrays

  /** The same roots and edges, in any order and multiplicity. */
  ghost predicate SameContent(g: Graph, h: Graph) {
    && (forall r :: r in g.roots <==> r in h.roots)
    && g.snapshots.Keys == h.snapshots.Keys
    && (forall a, kind, b :: HasEdge(g, a, kind, b) <==> HasEdge(h, a, kind, b))
  }

  lemma {:induction false} SameWalks(g: Graph, h: Graph, p: Path, q: Posture)
    requires SameContent(g, h)
    ensures Walk(g, p, q) ==> Walk(h, p, q)
    decreases |p.keys|
  {
    if Walk(g, p, q) && |p.keys| > 1 {
      var q0 :| Walk(g, Prefix(p), q0) && Succ(g, State(Last(Prefix(p)), q0), State(Last(p), q));
      SameWalks(g, h, Prefix(p), q0);
      assert Succ(h, State(Last(Prefix(p)), q0), State(Last(p), q));
    }
  }

  lemma SameAllWalks(g: Graph, h: Graph)
    requires SameContent(g, h)
    ensures forall p, s :: WalkTo(g, p, s) <==> WalkTo(h, p, s)
    ensures forall s :: Reachable(g, s) <==> Reachable(h, s)
    ensures forall k :: ReachableKey(g, k) <==> ReachableKey(h, k)
    ensures forall p, s :: LeastWalk(g, p, s) <==> LeastWalk(h, p, s)
  {
    forall p, s ensures WalkTo(g, p, s) <==> WalkTo(h, p, s) {
      SameWalks(g, h, p, s.posture);
      SameWalks(h, g, p, s.posture);
    }
    forall s ensures Reachable(g, s) <==> Reachable(h, s) {
    }
    forall k ensures ReachableKey(g, k) <==> ReachableKey(h, k) {
    }
    forall p, s ensures LeastWalk(g, p, s) <==> LeastWalk(h, p, s) {
    }
  }

  lemma TailMembers(a: seq<Posture>, q: Posture)
    requires |a| > 0
    requires forall i, j :: 0 <= i < j < |a| ==> a[i].Rank() > a[j].Rank()
    ensures q in a[1..] <==> q in a && q != a[0]
  {
    assert a == [a[0]] + a[1..];
    if q in a[1..] {
      var i :| 0 <= i < |a[1..]| && a[1..][i] == q;
      assert a[0].Rank() > a[i + 1].Rank();
    }
  }

  lemma SortedPosturesUnique(a: seq<Posture>, b: seq<Posture>)
    requires forall q :: q in a <==> q in b
    requires forall i, j :: 0 <= i < j < |a| ==> a[i].Rank() > a[j].Rank()
    requires forall i, j :: 0 <= i < j < |b| ==> b[i].Rank() > b[j].Rank()
    ensures a == b
    decreases |a|
  {
    assert |a| > 0 ==> a[0] in a;
    assert |b| > 0 ==> b[0] in b;
    if a != [] {
      assert a[0] == b[0];
      forall q ensures q in a[1..] <==> q in b[1..] {
        TailMembers(a, q);
        TailMembers(b, q);
      }
      SortedPosturesUnique(a[1..], b[1..]);
    }
  }

  lemma SamePaths(g: Graph, h: Graph, key: Str, p: Provenance, p': Provenance)
    requires forall s :: Reachable(g, s) <==> Reachable(h, s)
    requires forall p, s :: LeastWalk(g, p, s) <==> LeastWalk(h, p, s)
    requires ExactPaths(g, key, p) && ExactPaths(h, key, p')
    ensures p.shortest == p'.shortest
  {
    assert p.shortest.Keys == p'.shortest.Keys;
    forall q | q in p.shortest ensures p.shortest[q] == p'.shortest[q] {
      LeastWalkUnique(g, p.shortest[q], p'.shortest[q], State(key, q));
    }
  }

  lemma SamePostures(p: Provenance, p': Provenance)
    requires ExactPostures(p) && ExactPostures(p') && p.shortest == p'.shortest
    ensures p.reachingPostures == p'.reachingPostures && p.primaryPosture == p'.primaryPosture
  {
    SortedPosturesUnique(p.reachingPostures, p'.reachingPostures);
  }

  lemma SameOrigins(g: Graph, h: Graph)
    requires forall p, s :: WalkTo(g, p, s) <==> WalkTo(h, p, s)
    ensures forall k, i :: OriginatesFrom(g, k, i) <==> OriginatesFrom(h, k, i)
  {
  }

  lemma SameProvenance(g: Graph, h: Graph, key: Str, p: Provenance, p': Provenance)
    requires SameContent(g, h) && Exact(g, key, p) && Exact(h, key, p')
    ensures p == p'
  {
    SameAllWalks(g, h);
    SameOrigins(g, h);
    SamePaths(g, h, key, p, p');
    SamePostures(p, p');
    assert p.directParents == p'.directParents by {
      assert forall k :: Linked(g, k, key) <==> Linked(h, k, key);
    }
    assert p.originatingImporters == p'.originatingImporters;
  }

  lemma SameAt(g: Graph, h: Graph, reach: map<Str, Provenance>, reach': map<Str, Provenance>, k: Str)
    requires SameContent(g, h) && ExactReach(g, reach) && ExactReach(h, reach')
    requires k in reach && k in reach'
    ensures reach[k] == reach'[k]
  {
    SameProvenance(g, h, k, reach[k], reach'[k]);
  }

  lemma SameKeysAt(g: Graph, h: Graph, reach: map<Str, Provenance>, reach': map<Str, Provenance>)
    requires SameContent(g, h) && ExactReach(g, reach) && ExactReach(h, reach')
    ensures reach.Keys == reach'.Keys
  {
    SameReachableKeys(g, h);
  }

  lemma SameReach(g: Graph, h: Graph, reach: map<Str, Provenance>, reach': map<Str, Provenance>)
    requires SameContent(g, h) && ExactReach(g, reach) && ExactReach(h, reach')
    ensures reach == reach'
  {
    SameKeysAt(g, h, reach, reach');
    forall k | k in reach ensures reach[k] == reach'[k] {
      SameAt(g, h, reach, reach', k);
    }
  }

  lemma SameReachableKeys(g: Graph, h: Graph)
    requires SameContent(g, h)
    ensures forall k :: ReachableKey(g, k) <==> ReachableKey(h, k)
  {
    SameAllWalks(g, h);
  }

  lemma SameFailure(g: Graph, h: Graph, maxPathDepth: int, r: ReachResult, r': ReachResult)
    requires SameContent(g, h)
    requires ReachMeaning(g, maxPathDepth, r) && ReachMeaning(h, maxPathDepth, r')
    ensures r.Reached? <==> r'.Reached?
  {
    SameAllWalks(g, h);
    assert NoDangling(g) <==> NoDangling(h);
    assert WithinDepth(g, maxPathDepth) <==> WithinDepth(h, maxPathDepth);
    FailedMeans(g, maxPathDepth, r);
    FailedMeans(h, maxPathDepth, r');
  }

  /** A run fails exactly when a walk dangles or is too deep. */
  lemma FailedMeans(g: Graph, maxPathDepth: int, r: ReachResult)
    requires ReachMeaning(g, maxPathDepth, r)
    ensures r.Reached? <==> NoDangling(g) && WithinDepth(g, maxPathDepth)
  {
    if r.Failed? && r.error.PathDepth? {
      var q, p :| LeastWalk(g, p, State(r.error.key, q)) && Depth(p) == r.error.depth;
    }
  }

  /** The order of the root and edge arrays never shows in the result. */
  lemma OrderIrrelevant(g: Graph, h: Graph, maxPathDepth: int, r: ReachResult, r': ReachResult)
    requires SameContent(g, h)
    requires ReachMeaning(g, maxPathDepth, r) && ReachMeaning(h, maxPathDepth, r')
    ensures r.Reached? <==> r'.Reached?
    ensures r.Reached? ==> r == r'
  {
    SameFailure(g, h, maxPathDepth, r, r');
    if r.Reached? {
      SameReach(g, h, r.reach, r'.reach);
    }
  }
}
