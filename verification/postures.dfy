/** Walks, postures and their order, from roots, edges and code units alone. */
module Postures {
  import opened Text
  import opened LicenseGraph
  import opened Provenances

  // ---------------------------------------------------------------- chains of edges

  /** The keys are linked one to the next by edges of these kinds. */
  predicate Chain(g: Graph, keys: seq<Str>, kinds: seq<EdgeKind>) {
    |keys| == |kinds| + 1 && forall i :: 0 <= i < |kinds| ==> HasEdge(g, keys[i], kinds[i], keys[i + 1])
  }

  /** What a chain of these kinds makes of its root's posture. */
  predicate Carries(from: Posture, kinds: seq<EdgeKind>, q: Posture) {
    match q
    case Development => from.Development?
    case Peer => from.Peer?
    case Production => from.Production? && Optional !in kinds
    case OptionalProduction => from.OptionalProduction? || (from.Production? && Optional in kinds)
  }

  /** The path is that of a chain which starts at this root. */
  ghost predicate PathOf(g: Graph, p: Path, r: Root, kinds: seq<EdgeKind>) {
    r in g.roots && p.importer == r.importer && p.rootDependency == r.name && Chain(g, p.keys, kinds) && p.keys[0] == r.key
  }

  lemma CarriesNothing(from: Posture, q: Posture)
    ensures Carries(from, [], q) <==> q == from
  {
  }

  lemma CarriesFurther(from: Posture, kinds: seq<EdgeKind>, kind: EdgeKind, q0: Posture)
    requires Carries(from, kinds, q0)
    ensures Carries(from, kinds + [kind], Transition(q0, kind))
  {
  }

  lemma CarriedBefore(from: Posture, kinds: seq<EdgeKind>, kind: EdgeKind, q: Posture) returns (q0: Posture)
    requires Carries(from, kinds + [kind], q)
    ensures Carries(from, kinds, q0) && q == Transition(q0, kind)
  {
    q0 := if from.Production? && Optional in kinds then OptionalProduction else from;
  }

  lemma ChainFurther(g: Graph, keys: seq<Str>, kinds: seq<EdgeKind>, kind: EdgeKind, key: Str)
    requires Chain(g, keys, kinds) && HasEdge(g, keys[|keys| - 1], kind, key)
    ensures Chain(g, keys + [key], kinds + [kind])
  {
    var longer, more := keys + [key], kinds + [kind];
    forall i | 0 <= i < |more| ensures HasEdge(g, longer[i], more[i], longer[i + 1]) {
      if i < |kinds| {
        assert longer[i] == keys[i] && longer[i + 1] == keys[i + 1] && more[i] == kinds[i];
      }
    }
  }

  lemma ChainBefore(g: Graph, keys: seq<Str>, kinds: seq<EdgeKind>)
    requires Chain(g, keys, kinds) && kinds != []
    ensures Chain(g, keys[..|keys| - 1], kinds[..|kinds| - 1])
    ensures HasEdge(g, keys[|keys| - 2], kinds[|kinds| - 1], keys[|keys| - 1])
  {
    var n := |kinds| - 1;
    assert HasEdge(g, keys[n], kinds[n], keys[n + 1]);
  }

  lemma {:induction false} WalkHasChain(g: Graph, p: Path, q: Posture) returns (r: Root, kinds: seq<EdgeKind>)
    requires Walk(g, p, q)
    ensures PathOf(g, p, r, kinds) && Carries(r.posture, kinds, q)
    decreases |p.keys|
  {
    if |p.keys| == 1 {
      r :| r in g.roots && RootPath(r) == p && r.posture == q;
      kinds := [];
      CarriesNothing(r.posture, q);
    } else {
      var q0 :| Walk(g, Prefix(p), q0) && Succ(g, State(Last(Prefix(p)), q0), State(Last(p), q));
      r, kinds := WalkHasChain(g, Prefix(p), q0);
      var kind := StepKind(g, State(Last(Prefix(p)), q0), State(Last(p), q));
      CarriesFurther(r.posture, kinds, kind, q0);
      ChainFurther(g, Prefix(p).keys, kinds, kind, Last(p));
      assert p.keys == Prefix(p).keys + [Last(p)];
      kinds := kinds + [kind];
    }
  }

  lemma StepKind(g: Graph, s: State, t: State) returns (kind: EdgeKind)
    requires Succ(g, s, t)
    ensures HasEdge(g, s.key, kind, t.key) && t.posture == Transition(s.posture, kind)
  {
    kind := if HasEdge(g, s.key, Required, t.key) && t.posture == Transition(s.posture, Required) then Required else Optional;
  }

  lemma {:induction false} ChainIsWalk(g: Graph, p: Path, r: Root, kinds: seq<EdgeKind>, q: Posture)
    requires PathOf(g, p, r, kinds) && Carries(r.posture, kinds, q)
    ensures Walk(g, p, q)
    decreases |p.keys|
  {
    if kinds == [] {
      CarriesNothing(r.posture, q);
      assert p.keys == [r.key] && RootPath(r) == p;
    } else {
      var n := |kinds| - 1;
      assert kinds == kinds[..n] + [kinds[n]];
      var q0 := CarriedBefore(r.posture, kinds[..n], kinds[n], q);
      ChainBefore(g, p.keys, kinds);
      ChainIsWalk(g, Prefix(p), r, kinds[..n], q0);
      assert Succ(g, State(Last(Prefix(p)), q0), State(Last(p), q)) by {
        assert kinds[n].Required? || kinds[n].Optional?;
      }
    }
  }

  /** A path is a walk in a posture exactly when it is that of a chain of edges from a root, and the chain carries the root's posture there. */
  lemma WalkExactly(g: Graph, p: Path, q: Posture)
    ensures Walk(g, p, q) <==> exists r, kinds :: PathOf(g, p, r, kinds) && Carries(r.posture, kinds, q)
  {
    if Walk(g, p, q) {
      var r, kinds := WalkHasChain(g, p, q);
    }
    if r, kinds :| PathOf(g, p, r, kinds) && Carries(r.posture, kinds, q) {
      ChainIsWalk(g, p, r, kinds, q);
    }
  }

  /** A chain of edges of these kinds leads from this root to the key. */
  ghost predicate Leads(g: Graph, r: Root, keys: seq<Str>, kinds: seq<EdgeKind>, key: Str) {
    r in g.roots && Chain(g, keys, kinds) && keys[0] == r.key && keys[|keys| - 1] == key
  }

  lemma ReachableByChain(g: Graph, key: Str, q: Posture)
    ensures Reachable(g, State(key, q)) <==> exists r, keys, kinds :: Leads(g, r, keys, kinds, key) && Carries(r.posture, kinds, q)
  {
    if Reachable(g, State(key, q)) {
      var p :| WalkTo(g, p, State(key, q));
      var r, kinds := WalkHasChain(g, p, q);
      assert Leads(g, r, p.keys, kinds, key);
    }
    if r, keys, kinds :| Leads(g, r, keys, kinds, key) && Carries(r.posture, kinds, q) {
      var p := Path(r.importer, r.name, keys);
      ChainIsWalk(g, p, r, kinds, q);
      assert WalkTo(g, p, State(key, q));
    }
  }

  /**
   * A key is reached as a development (peer) dependency exactly by a chain from such a root, as a production dependency exactly
   * by a chain of required edges from a production root, and as an optional one exactly by a chain from such a root, or by
   * a chain from a production root with an optional edge in it.
   */
  lemma PosturesExactly(g: Graph, key: Str)
    ensures Reachable(g, State(key, Development)) <==> exists r, keys, kinds :: Leads(g, r, keys, kinds, key) && r.posture == Development
    ensures Reachable(g, State(key, Peer)) <==> exists r, keys, kinds :: Leads(g, r, keys, kinds, key) && r.posture == Peer
    ensures Reachable(g, State(key, Production)) <==>
              exists r, keys, kinds :: Leads(g, r, keys, kinds, key) && r.posture == Production && forall i :: 0 <= i < |kinds| ==> kinds[i] == Required
    ensures Reachable(g, State(key, OptionalProduction)) <==>
              exists r, keys, kinds :: Leads(g, r, keys, kinds, key)
                && (r.posture == OptionalProduction || (r.posture == Production && exists i :: 0 <= i < |kinds| && kinds[i] == Optional))
  {
    ReachableByChain(g, key, Development);
    ReachableByChain(g, key, Peer);
    ReachableByChain(g, key, Production);
    ReachableByChain(g, key, OptionalProduction);
    forall kinds: seq<EdgeKind> ensures Optional !in kinds <==> forall i :: 0 <= i < |kinds| ==> kinds[i] == Required {
    }
  }

  // ---------------------------------------------------------------- precedence

  /** Production before optional production before peer before development. */
  predicate Precedes(a: Posture, b: Posture) {
    || (a.Production? && !b.Production?)
    || (a.OptionalProduction? && (b.Peer? || b.Development?))
    || (a.Peer? && b.Development?)
  }

  lemma RankExactly(a: Posture, b: Posture)
    ensures a.Rank() > b.Rank() <==> Precedes(a, b)
  {
  }

  /** The postures of a record are listed by precedence, and the primary one is the first. */
  lemma PrimaryPrecedes(p: Provenance)
    requires ExactPostures(p)
    ensures forall i, j :: 0 <= i < j < |p.reachingPostures| ==> Precedes(p.reachingPostures[i], p.reachingPostures[j])
    ensures forall q :: q in p.shortest ==> q == p.primaryPosture || Precedes(p.primaryPosture, q)
  {
    forall q | q in p.shortest && q != p.primaryPosture ensures Precedes(p.primaryPosture, q) {
      RankExactly(p.primaryPosture, q);
    }
  }

  /** Postures are sorted by precedence. */
  lemma SortedByPrecedence(s: set<Posture>)
    ensures forall i, j :: 0 <= i < j < |SortedPostures(s)| ==> Precedes(SortedPostures(s)[i], SortedPostures(s)[j])
  {
  }

  // ---------------------------------------------------------------- the path order

  /** Key by key, the first difference decides. */
  predicate KeysBefore(a: seq<Str>, b: seq<Str>) {
    exists n :: 0 <= n < |a| && n < |b| && a[..n] == b[..n] && Less(a[n], b[n])
  }

  /** Fewer edges first, then importer, then root dependency, then the keys. */
  predicate PathBefore(a: Path, b: Path) {
    || |a.keys| < |b.keys|
    || (|a.keys| == |b.keys| && Less(a.importer, b.importer))
    || (|a.keys| == |b.keys| && a.importer == b.importer && Less(a.rootDependency, b.rootDependency))
    || (|a.keys| == |b.keys| && a.importer == b.importer && a.rootDependency == b.rootDependency && KeysBefore(a.keys, b.keys))
  }

  lemma {:induction false} CompareKeysExactly(a: seq<Str>, b: seq<Str>)
    requires |a| == |b|
    ensures CompareKeys(a, b) < 0 <==> KeysBefore(a, b)
  {
    if a != [] {
      CmpOrder(a[0], b[0]);
      LessAsymmetric(a[0], b[0]);
      CompareKeysExactly(a[1..], b[1..]);
      if a[0] == b[0] {
        RestBefore(a, b);
      } else {
        FirstBefore(a, b);
      }
    }
  }

  lemma FirstBefore(a: seq<Str>, b: seq<Str>)
    requires |a| == |b| > 0 && a[0] != b[0]
    ensures KeysBefore(a, b) <==> Less(a[0], b[0])
  {
    if Less(a[0], b[0]) {
      assert a[..0] == b[..0];
    }
  }

  lemma RestBefore(a: seq<Str>, b: seq<Str>)
    requires |a| == |b| > 0 && a[0] == b[0]
    ensures KeysBefore(a, b) <==> KeysBefore(a[1..], b[1..])
  {
    if n :| 0 <= n < |a| && a[..n] == b[..n] && Less(a[n], b[n]) {
      LessAsymmetric(a[0], a[0]);
      assert a[1..][..n - 1] == a[..n][1..] && b[1..][..n - 1] == b[..n][1..];
    }
    if n :| 0 <= n < |a[1..]| && a[1..][..n] == b[1..][..n] && Less(a[1..][n], b[1..][n]) {
      assert a[..n + 1] == [a[0]] + a[1..][..n] && b[..n + 1] == [b[0]] + b[1..][..n];
    }
  }

  /** One path is strictly earlier than another exactly in this order. */
  lemma ComparePathExactly(a: Path, b: Path)
    ensures ComparePath(a, b) < 0 <==> PathBefore(a, b)
  {
    CmpOrder(a.importer, b.importer);
    CmpOrder(a.rootDependency, b.rootDependency);
    LessAsymmetric(a.importer, b.importer);
    LessAsymmetric(a.rootDependency, b.rootDependency);
    if |a.keys| == |b.keys| {
      CompareKeysExactly(a.keys, b.keys);
    }
  }
}
