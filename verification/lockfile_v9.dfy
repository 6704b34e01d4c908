/** The adapter as a whole: manifests and lockfile importers in, root edges out, or errors. */
module LockfileV9 {
  import opened Text
  import opened LockfileAdapter
  import opened LockfileCrosscheck
  import opened LockfilePlaces
  import Sorting

  // ---------------------------------------------------------------- manifests by importer

  function CompareManifests(a: Manifest, b: Manifest): int { Cmp(a.importer, b.importer) }

  function ByImporter(ms: seq<Manifest>): map<Str, Manifest> {
    if ms == [] then map[] else ByImporter(ms[..|ms| - 1])[ms[|ms| - 1].importer := ms[|ms| - 1]]
  }

  /** One manifest for each importer. */
  ghost predicate OneEach(ms: seq<Manifest>) {
    forall m, n :: m in ms && n in ms && m.importer == n.importer ==> m == n
  }

  lemma {:induction false} ByImporterMeaning(ms: seq<Manifest>)
    requires OneEach(ms)
    ensures forall p :: p in ByImporter(ms) <==> HasManifest(ms, p)
    ensures forall m :: m in ms ==> m.importer in ByImporter(ms) && ByImporter(ms)[m.importer] == m
  {
    if ms != [] {
      var init, last := ms[..|ms| - 1], ms[|ms| - 1];
      LastOf(ms);
      ByImporterMeaning(init);
      forall p ensures p in ByImporter(ms) <==> HasManifest(ms, p) {
        if HasManifest(ms, p) && p != last.importer {
          var m :| m in ms && m.importer == p;
          assert m in init;
        }
        if HasManifest(init, p) {
          var m :| m in init && m.importer == p;
          assert m in ms;
        }
      }
    }
  }

  lemma ByImporterIgnoresOrder(ms: seq<Manifest>, sorted: seq<Manifest>)
    requires OneEach(ms) && forall m :: m in sorted <==> m in ms
    ensures OneEach(sorted) && ByImporter(sorted) == ByImporter(ms)
  {
    ByImporterMeaning(ms);
    ByImporterMeaning(sorted);
    forall p ensures p in ByImporter(sorted) <==> p in ByImporter(ms) {
      if HasManifest(ms, p) {
        var m :| m in ms && m.importer == p;
        assert m in sorted;
      }
      if HasManifest(sorted, p) {
        var m :| m in sorted && m.importer == p;
        assert m in ms;
      }
    }
    forall p | p in ByImporter(ms) ensures ByImporter(sorted)[p] == ByImporter(ms)[p] {
      var m :| m in ms && m.importer == p;
      assert m in sorted;
    }
  }

  method IndexManifests(ms: seq<Manifest>) returns (index: map<Str, Manifest>)
    ensures index == ByImporter(ms)
  {
    index := map[];
    for i := 0 to |ms|
      invariant index == ByImporter(ms[..i])
    {
      assert ms[..i + 1][..i] == ms[..i];
      index := index[ms[i].importer := ms[i]];
    }
    assert ms[..|ms|] == ms;
  }

  // ---------------------------------------------------------------- the two directions

  method CheckImporters(ms: seq<Manifest>, index: map<Str, Manifest>, imps: Importers) returns (errors: seq<Code>)
    requires forall p :: p in index <==> HasManifest(ms, p)
    ensures errors == [] <==> SameImporters(ms, imps)
  {
    errors := [];
    for i := 0 to |ms|
      invariant errors == [] <==> forall m :: m in ms[..i] ==> m.importer in imps
    {
      assert ms[..i + 1] == ms[..i] + [ms[i]];
      if ms[i].importer !in imps {
        errors := errors + [ImporterMissing];
      }
    }
    assert ms[..|ms|] == ms;
    var rest := imps.Keys;
    ghost var forward := errors == [];
    while rest != {}
      invariant rest <= imps.Keys
      invariant errors == [] <==> forward && forall p :: p in imps && p !in rest ==> HasManifest(ms, p)
    {
      var p :| p in rest;
      if p !in index {
        errors := errors + [ManifestMissing];
      }
      rest := rest - {p};
    }
  }

  function DeclaredNames(m: Manifest): (r: set<Str>)
    ensures forall n :: n in r <==> Declared(m, n)
  {
    NamesIn(m.dependencies) + NamesIn(m.optional) + NamesIn(m.development) + NamesIn(m.peer)
  }

  method CheckDeclared(imp: Importer, m: Manifest, conflicted: set<Str>) returns (errors: seq<Code>)
    ensures errors == [] <==> forall n :: Listed(imp, n) && n !in conflicted ==> Declared(m, n)
  {
    errors := [];
    var rest := imp.dependencies.Keys + imp.optional.Keys + imp.development.Keys;
    while rest != {}
      invariant forall n :: n in rest ==> Listed(imp, n)
      invariant errors == [] <==> forall n :: Listed(imp, n) && n !in rest && n !in conflicted ==> Declared(m, n)
    {
      var name :| name in rest;
      if name !in conflicted && name !in DeclaredNames(m) {
        errors := errors + [DeclarationMissing];
      }
      rest := rest - {name};
    }
  }

  method CheckReverse(index: map<Str, Manifest>, imps: Importers, conflicts: map<Str, set<Str>>) returns (errors: seq<Code>)
    requires conflicts.Keys == imps.Keys
    ensures (forall p :: p in imps ==> conflicts[p] == {}) ==>
              (errors == [] <==> forall p :: p in imps && p in index ==> ImporterDeclared(imps[p], index[p]))
  {
    errors := [];
    var rest := imps.Keys;
    while rest != {}
      invariant rest <= imps.Keys
      invariant (forall p :: p in imps ==> conflicts[p] == {}) ==>
                  (errors == [] <==> forall p :: p in imps && p !in rest && p in index ==> ImporterDeclared(imps[p], index[p]))
    {
      var p :| p in rest;
      if p in index {
        var more := CheckDeclared(imps[p], index[p], conflicts[p]);
        errors := errors + more;
      }
      rest := rest - {p};
    }
  }

  // ---------------------------------------------------------------- the second stage

  /** Everything the second stage asks. */
  ghost predicate CrossValid(ms: seq<Manifest>, imps: Importers, target: (Str, Str) -> Str) {
    && SameImporters(ms, imps) && NoConflicts(imps)
    && AllAccounted(Workspace(ByImporter(ms), target), ms, imps) && AllDeclared(ms, imps)
  }

  lemma OrderDoesNotMatter(ms: seq<Manifest>, sorted: seq<Manifest>, imps: Importers, target: (Str, Str) -> Str)
    requires OneEach(ms) && forall m :: m in sorted <==> m in ms
    ensures CrossValid(sorted, imps, target) <==> CrossValid(ms, imps, target)
  {
    ByImporterIgnoresOrder(ms, sorted);
    assert SameImporters(sorted, imps) <==> SameImporters(ms, imps) by {
      forall p ensures HasManifest(sorted, p) <==> HasManifest(ms, p) {
        ByImporterMeaning(ms);
        ByImporterMeaning(sorted);
      }
    }
  }

  lemma ReverseExactly(ms: seq<Manifest>, imps: Importers)
    requires OneEach(ms)
    ensures (forall p :: p in imps && p in ByImporter(ms) ==> ImporterDeclared(imps[p], ByImporter(ms)[p])) <==> AllDeclared(ms, imps)
  {
    ByImporterMeaning(ms);
    forall p | p in ByImporter(ms) ensures exists m :: m in ms && m.importer == p && ByImporter(ms)[p] == m {
      assert HasManifest(ms, p);
      var m :| m in ms && m.importer == p;
    }
  }

  method CrossValidate(sorted: seq<Manifest>, imps: Importers, target: (Str, Str) -> Str) returns (t: Tally, ghost indexes: Indexes)
    requires OneEach(sorted)
    ensures t.errors == [] <==> CrossValid(sorted, imps, target)
    ensures t.errors == [] ==>
              && IsIndexes(imps, indexes)
              && t == TallyOf(Outcomes(Workspace(ByImporter(sorted), target), sorted, imps, indexes))
  {
    var index := IndexManifests(sorted);
    ByImporterMeaning(sorted);
    var ws := Workspace(index, target);
    var e1 := CheckImporters(sorted, index, imps);
    var found, conflicts, e2 := IndexAll(imps);
    var classified := ClassifyAll(ws, sorted, imps, found, conflicts);
    var e3 := CheckReverse(index, imps, conflicts);
    indexes := found;
    TallyKeepsAll(Outcomes(ws, sorted, imps, indexes));
    ReverseExactly(sorted, imps);
    if e1 == [] && e2 == [] {
      AllClassified(ws, sorted, imps, indexes);
    }
    t := classified.(errors := e1 + e2 + classified.errors + e3);
  }

  // ---------------------------------------------------------------- the adapter

  datatype Adapted = Graph(roots: seq<Root>, peers: seq<PeerRoot>, links: set<Str>) | Faulted(manifests: seq<ManifestFault>, codes: seq<Code>)

  lemma ApartOneEach(ms: seq<Manifest>)
    requires Apart(ms, |ms|)
    ensures OneEach(ms)
  {
    forall m, n | m in ms && n in ms && m.importer == n.importer ensures m == n {
      var i :| 0 <= i < |ms| && ms[i] == m;
      var j :| 0 <= j < |ms| && ms[j] == n;
      assert !(i < j) && !(j < i);
    }
  }

  lemma SortedPlaces(ms: seq<Manifest>, max: nat, sorted: seq<Manifest>)
    requires ManifestsValid(ms, max) && sorted == Sorting.Sort(CompareManifests, ms)
    ensures EachOnce(ms, Places(sorted)) && |Places(sorted)| == DeclarationCount(ms)
  {
    Sorting.SortMembers(CompareManifests, ms);
    Sorting.SortDistinct(CompareManifests, ms);
    PlacesOnce(ms);
    PlacesOnce(sorted);
    SameListing(sorted, ms, Places(sorted));
    OnceCount(ms, Places(ms), Places(sorted));
    PlaceCount(ms);
  }

  lemma SameListing(sorted: seq<Manifest>, ms: seq<Manifest>, places: seq<Place>)
    requires EachOnce(sorted, places) && forall m :: m in sorted <==> m in ms
    ensures EachOnce(ms, places)
  {
  }

  /** The graph holds what the declarations are recorded as, each of them once, and nothing else. */
  ghost predicate GraphOf(ms: seq<Manifest>, imps: Importers, places: seq<Place>, outcomes: seq<Outcome>, r: Adapted)
    requires r.Graph?
  {
    && EachOnce(ms, places) && |places| == DeclarationCount(ms)
    && Records(imps, places, outcomes)
    && TallyOf(outcomes) == Tally(r.roots, r.peers, r.links, [])
    && |r.roots| + |r.peers| + LinkCount(outcomes) == |places|
  }

  /** Each root, each peer and each link comes from a declaration, and each declaration is there as one of them. */
  ghost predicate ExactlyDeclared(ms: seq<Manifest>, imps: Importers, r: Adapted)
    requires r.Graph?
  {
    && (forall x :: x in r.roots <==> Gives(ms, imps, Resolved(x)))
    && (forall x :: x in r.peers <==> Gives(ms, imps, UnresolvedPeer(x)))
    && (forall x :: x in r.links <==> Gives(ms, imps, Linked(x)))
    && forall p :: IsPlace(ms, p) ==> !Record(imps, p).Wrong?
  }

  lemma GraphIsDeclared(ms: seq<Manifest>, imps: Importers, places: seq<Place>, outcomes: seq<Outcome>, r: Adapted)
    requires r.Graph? && GraphOf(ms, imps, places, outcomes, r)
    ensures ExactlyDeclared(ms, imps, r)
  {
    TallyKeepsAll(outcomes);
    forall x ensures x in r.roots <==> Gives(ms, imps, Resolved(x)) {
      RecordsGive(ms, imps, places, outcomes, Resolved(x));
    }
    forall x ensures x in r.peers <==> Gives(ms, imps, UnresolvedPeer(x)) {
      RecordsGive(ms, imps, places, outcomes, UnresolvedPeer(x));
    }
    forall x ensures x in r.links <==> Gives(ms, imps, Linked(x)) {
      RecordsGive(ms, imps, places, outcomes, Linked(x));
    }
    forall p | IsPlace(ms, p) ensures !Record(imps, p).Wrong? {
      assert p in places;
      var i :| 0 <= i < |places| && places[i] == p;
    }
  }

  /**
   * Succeeds exactly when the manifests are valid and both directions check out. Then the declarations can be listed, each
   * once, so that the roots, peers and links are what they are recorded as, one each, and nothing else.
   */
  method ParsePnpmLockfileV9(ms: seq<Manifest>, imps: Importers, max: nat, target: (Str, Str) -> Str)
    returns (r: Adapted, ghost places: seq<Place>, ghost outcomes: seq<Outcome>)
    ensures r.Graph? <==> ManifestsValid(ms, max) && CrossValid(ms, imps, target)
    ensures r.Graph? ==> GraphOf(ms, imps, places, outcomes, r) && ExactlyDeclared(ms, imps, r)
  {
    places, outcomes := [], [];
    var faults := ValidateManifests(ms, max);
    if faults != [] {
      return Faulted(faults, []), places, outcomes;
    }
    ApartOneEach(ms);
    var sorted := Sorting.Sort(CompareManifests, ms);
    Sorting.SortMembers(CompareManifests, ms);
    OrderDoesNotMatter(ms, sorted, imps, target);
    var t, indexes := CrossValidate(sorted, imps, target);
    if t.errors != [] {
      return Faulted([], t.errors), places, outcomes;
    }
    r := Graph(t.roots, t.peers, t.links);
    places, outcomes := Places(sorted), Outcomes(Workspace(ByImporter(sorted), target), sorted, imps, indexes);
    SortedPlaces(ms, max, sorted);
    OutcomesAreRecords(Workspace(ByImporter(sorted), target), sorted, imps, indexes);
    TallyKeepsAll(outcomes);
    GraphIsDeclared(ms, imps, places, outcomes, r);
  }

  // ---------------------------------------------------------------- what success means

  /** Each manifest declaration but a peer is listed in its own section only, with its own specifier; a peer is listed nowhere. */
  lemma DeclarationsAreListed(ms: seq<Manifest>, imps: Importers, target: (Str, Str) -> Str, m: Manifest, s: Section, d: Declaration)
    requires CrossValid(ms, imps, target) && m in ms && d in DeclarationsOf(m, s)
    ensures m.importer in imps
    ensures var imp := imps[m.importer];
            if s.Peer? then !Listed(imp, d.name)
            else d.name in SectionOf(imp, s) && SectionOf(imp, s)[d.name].specifier == d.spec
                 && forall other :: other != s ==> d.name !in SectionOf(imp, other)
  {
    var imp := imps[m.importer];
    var ws := Workspace(ByImporter(ms), target);
    assert ManifestAccounted(ws, imp, m);
    var decls := DeclarationsOf(m, s);
    var i :| 0 <= i < |decls| && decls[i] == d;
    assert SectionAccounted(ws, imp, m.importer, s, decls);
    assert Accounted(ws, imp, m.importer, s, d);
    assert ConflictedNames(imp) == {};
    forall other | other != s && !s.Peer? ensures d.name !in SectionOf(imp, other) {
      assert d.name !in ConflictedNames(imp);
    }
  }

  /** Each lockfile entry is declared in the same section of its manifest with the same specifier. */
  lemma EntriesAreDeclared(ms: seq<Manifest>, imps: Importers, target: (Str, Str) -> Str, m: Manifest, s: Section, name: Str)
    returns (d: Declaration)
    requires CrossValid(ms, imps, target) && m in ms && m.importer in imps && name in SectionOf(imps[m.importer], s)
    ensures d in DeclarationsOf(m, s) && d.name == name && d.spec == SectionOf(imps[m.importer], s)[name].specifier
  {
    var imp := imps[m.importer];
    assert Listed(imp, name);
    assert ImporterDeclared(imp, m) && Declared(m, name);
    var from;
    from, d := DeclaredSomewhere(m, name);
    DeclarationsAreListed(ms, imps, target, m, from, d);
  }

  lemma DeclaredSomewhere(m: Manifest, name: Str) returns (s: Section, d: Declaration)
    requires Declared(m, name)
    ensures d in DeclarationsOf(m, s) && d.name == name
  {
    s := if name in NamesIn(m.dependencies) then Dependencies else if name in NamesIn(m.optional) then Optional
         else if name in NamesIn(m.development) then Development else Peer;
    var decls := DeclarationsOf(m, s);
    assert name in NamesIn(decls);
    var i :| 0 <= i < |decls| && decls[i].name == name;
    d := decls[i];
  }
}
