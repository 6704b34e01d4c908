/** The normalized lockfile graph, postures and the deterministic path order of the license audit. */
module LicenseGraph {
  import opened Text

  datatype Posture = Production | OptionalProduction | Peer | Development {
    function Rank(): nat {
      match this
      case Production => 4
      case OptionalProduction => 3
      case Peer => 2
      case Development => 1
    }
  }

  datatype EdgeKind = Required | Optional

  datatype Edge = Edge(name: Str, target: Str)

  datatype Node = Node(name: Str, version: Str, packageKey: Str, dependencies: seq<Edge>, optionalDependencies: seq<Edge>) {
    function Edges(kind: EdgeKind): seq<Edge> {
      match kind
      case Required => dependencies
      case Optional => optionalDependencies
    }
  }

  datatype Root = Root(importer: Str, name: Str, key: Str, posture: Posture)

  datatype Graph = Graph(roots: seq<Root>, snapshots: map<Str, Node>)

  /** A traversal state: one snapshot reached in one posture. */
  datatype State = State(key: Str, posture: Posture)

  datatype Path = Path(importer: Str, rootDependency: Str, keys: seq<Str>)

  /** A required edge keeps the posture; an optional one demotes production. */
  function Transition(parent: Posture, kind: EdgeKind): Posture {
    if kind == Optional && parent == Production then OptionalProduction else parent
  }

  function RootPath(r: Root): Path { Path(r.importer, r.name, [r.key]) }

  function Extend(p: Path, key: Str): Path { p.(keys := p.keys + [key]) }

  /** Edge depth of a path; a direct root has depth 0. */
  function Depth(p: Path): int { |p.keys| - 1 }

  function CompareKeys(a: seq<Str>, b: seq<Str>): int {
    if |a| == 0 || |b| == 0 then |a| - |b|
    else if Cmp(a[0], b[0]) != 0 then Cmp(a[0], b[0])
    else CompareKeys(a[1..], b[1..])
  }

  function ComparePath(a: Path, b: Path): int {
    if |a.keys| != |b.keys| then |a.keys| - |b.keys|
    else if Cmp(a.importer, b.importer) != 0 then Cmp(a.importer, b.importer)
    else if Cmp(a.rootDependency, b.rootDependency) != 0 then Cmp(a.rootDependency, b.rootDependency)
    else CompareKeys(a.keys, b.keys)
  }

  lemma {:induction false} CompareKeysOrder(a: seq<Str>, b: seq<Str>)
    ensures CompareKeys(a, b) == -CompareKeys(b, a)
    ensures CompareKeys(a, b) == 0 <==> a == b
  {
    if |a| > 0 && |b| > 0 {
      CmpOrder(a[0], b[0]);
      CompareKeysOrder(a[1..], b[1..]);
      assert a == [a[0]] + a[1..] && b == [b[0]] + b[1..];
    }
  }

  lemma {:induction false} CompareKeysTransitive(a: seq<Str>, b: seq<Str>, c: seq<Str>)
    requires CompareKeys(a, b) <= 0 && CompareKeys(b, c) <= 0
    ensures CompareKeys(a, c) <= 0
    ensures CompareKeys(a, c) == 0 ==> CompareKeys(a, b) == 0 && CompareKeys(b, c) == 0
  {
    if |a| > 0 && |b| > 0 && |c| > 0 {
      CmpTransitive(a[0], b[0], c[0]);
      CmpOrder(a[0], b[0]);
      CmpOrder(b[0], c[0]);
      if a[0] == b[0] && b[0] == c[0] {
        CmpOrder(a[0], a[0]);
        CompareKeysTransitive(a[1..], b[1..], c[1..]);
      }
    }
  }

  lemma {:induction false} CompareKeysAppend(a: seq<Str>, b: seq<Str>, key: Str)
    requires |a| == |b|
    ensures CompareKeys(a + [key], b + [key]) == CompareKeys(a, b)
  {
    if |a| > 0 {
      assert (a + [key])[1..] == a[1..] + [key] && (b + [key])[1..] == b[1..] + [key];
      CompareKeysAppend(a[1..], b[1..], key);
    } else {
      CmpOrder(key, key);
      assert a + [key] == [key] && b + [key] == [key];
    }
  }

  /** `ComparePath` is antisymmetric and is zero only on equal paths. */
  lemma ComparePathOrder(a: Path, b: Path)
    ensures ComparePath(a, b) == -ComparePath(b, a)
    ensures ComparePath(a, b) == 0 <==> a == b
  {
    CmpOrder(a.importer, b.importer);
    CmpOrder(a.rootDependency, b.rootDependency);
    CompareKeysOrder(a.keys, b.keys);
  }

  lemma ComparePathTransitive(a: Path, b: Path, c: Path)
    requires ComparePath(a, b) <= 0 && ComparePath(b, c) <= 0
    ensures ComparePath(a, c) <= 0
  {
    if |a.keys| == |b.keys| == |c.keys| {
      CmpTransitive(a.importer, b.importer, c.importer);
      CmpOrder(a.importer, b.importer);
      CmpOrder(b.importer, c.importer);
      if a.importer == b.importer == c.importer {
        CmpTransitive(a.rootDependency, b.rootDependency, c.rootDependency);
        CmpOrder(a.rootDependency, b.rootDependency);
        CmpOrder(b.rootDependency, c.rootDependency);
        if a.rootDependency == b.rootDependency == c.rootDependency {
          CompareKeysTransitive(a.keys, b.keys, c.keys);
        }
      }
    }
  }

  /** Appending one key to both sides keeps the order: what makes relaxation along an edge sound. */
  lemma ComparePathExtend(a: Path, b: Path, key: Str)
    requires ComparePath(a, b) <= 0
    ensures ComparePath(Extend(a, key), Extend(b, key)) <= 0
  {
    if |a.keys| == |b.keys| {
      CompareKeysAppend(a.keys, b.keys, key);
    }
  }

  /** Some edge of the given kind leads from snapshot `a` to `b`. */
  predicate HasEdge(g: Graph, a: Str, kind: EdgeKind, b: Str) {
    a in g.snapshots && exists i :: 0 <= i < |g.snapshots[a].Edges(kind)| && g.snapshots[a].Edges(kind)[i].target == b
  }

  predicate Linked(g: Graph, a: Str, b: Str) {
    HasEdge(g, a, Required, b) || HasEdge(g, a, Optional, b)
  }

  predicate Succ(g: Graph, s: State, t: State) {
    || (HasEdge(g, s.key, Required, t.key) && t.posture == Transition(s.posture, Required))
    || (HasEdge(g, s.key, Optional, t.key) && t.posture == Transition(s.posture, Optional))
  }

  function Prefix(p: Path): Path
    requires |p.keys| > 0
  {
    p.(keys := p.keys[..|p.keys| - 1])
  }

  function Last(p: Path): Str
    requires |p.keys| > 0
  {
    p.keys[|p.keys| - 1]
  }

  /** `p` is the record of a walk of the graph that starts at a root and arrives in posture `q`. */
  ghost predicate Walk(g: Graph, p: Path, q: Posture)
    decreases |p.keys|
  {
    if |p.keys| == 0 then false
    else if |p.keys| == 1 then exists r :: r in g.roots && RootPath(r) == p && r.posture == q
    else exists q0 :: Walk(g, Prefix(p), q0) && Succ(g, State(Last(Prefix(p)), q0), State(Last(p), q))
  }

  ghost predicate WalkTo(g: Graph, p: Path, s: State) {
    Walk(g, p, s.posture) && Last(p) == s.key
  }

  ghost predicate Reachable(g: Graph, s: State) {
    exists p :: WalkTo(g, p, s)
  }

  /** `p` is the `ComparePath`-least walk to `s`. */
  ghost predicate LeastWalk(g: Graph, p: Path, s: State) {
    WalkTo(g, p, s) && forall w :: WalkTo(g, w, s) ==> ComparePath(p, w) <= 0
  }

  lemma LeastWalkUnique(g: Graph, p: Path, p': Path, s: State)
    requires LeastWalk(g, p, s) && LeastWalk(g, p', s)
    ensures p == p'
  {
    ComparePathOrder(p, p');
  }

  lemma ExtendWalk(g: Graph, p: Path, s: State, t: State)
    requires WalkTo(g, p, s) && Succ(g, s, t)
    ensures WalkTo(g, Extend(p, t.key), t)
  {
    assert Prefix(Extend(p, t.key)) == p;
  }
}
