/** Every manifest declaration has its place, and the outcomes of the second stage are the records of the places, one each. */
module LockfilePlaces {
  import opened Text
  import opened LockfileAdapter
  import opened LockfileCrosscheck

  /** One declaration, where it stands. */
  datatype Place = Place(manifest: Manifest, section: Section, declaration: Declaration)

  ghost predicate IsPlace(ms: seq<Manifest>, p: Place) {
    p.manifest in ms && p.declaration in DeclarationsOf(p.manifest, p.section)
  }

  /**
   * What an accounted declaration is recorded as: a peer as a peer; any other, by the version its own lockfile section has for
   * it, as a link or as the root with the snapshot key of that version.
   */
  ghost function Record(imps: Importers, p: Place): Outcome {
    var m, s, d := p.manifest, p.section, p.declaration;
    if s.Peer? then UnresolvedPeer(PeerRoot(m.importer, d.name, d.spec))
    else if m.importer !in imps || d.name !in SectionOf(imps[m.importer], s) then Wrong(Unresolved)
    else
      var version := SectionOf(imps[m.importer], s)[d.name].version;
      if IsLink(version) then Linked(d.name) else Resolved(Root(m.importer, d.name, d.name + [AT] + version, s))
  }

  /** Outcome by outcome, the records of the places. */
  ghost predicate Records(imps: Importers, places: seq<Place>, outcomes: seq<Outcome>) {
    |outcomes| == |places| && forall i :: 0 <= i < |places| ==> outcomes[i] == Record(imps, places[i])
  }

  /** Some declaration is recorded as this. */
  ghost predicate Gives(ms: seq<Manifest>, imps: Importers, o: Outcome) {
    exists p :: IsPlace(ms, p) && Record(imps, p) == o
  }

  ghost predicate NoRepeat(places: seq<Place>) { forall i, j :: 0 <= i < j < |places| ==> places[i] != places[j] }

  /** The places list every declaration of the manifests once. */
  ghost predicate EachOnce(ms: seq<Manifest>, places: seq<Place>) {
    NoRepeat(places) && forall p :: p in places <==> IsPlace(ms, p)
  }

  // ---------------------------------------------------------------- the places in order

  function SectionPlaces(m: Manifest, s: Section, decls: seq<Declaration>): (r: seq<Place>)
    ensures |r| == |decls| && forall i :: 0 <= i < |decls| ==> r[i] == Place(m, s, decls[i])
  {
    seq(|decls|, i requires 0 <= i < |decls| => Place(m, s, decls[i]))
  }

  function ManifestPlaces(m: Manifest): seq<Place> {
    SectionPlaces(m, Dependencies, m.dependencies) + SectionPlaces(m, Optional, m.optional)
    + SectionPlaces(m, Development, m.development) + SectionPlaces(m, Peer, m.peer)
  }

  function Places(ms: seq<Manifest>): seq<Place> {
    if ms == [] then [] else Places(ms[..|ms| - 1]) + ManifestPlaces(ms[|ms| - 1])
  }

  // ---------------------------------------------------------------- outcomes are records

  lemma RecordsJoin(imps: Importers, p: seq<Place>, a: seq<Outcome>, q: seq<Place>, b: seq<Outcome>)
    requires Records(imps, p, a) && Records(imps, q, b)
    ensures Records(imps, p + q, a + b)
  {
  }

  lemma OutcomeIsRecord(ws: Workspace, imps: Importers, p: Place, index: Index)
    requires p.manifest.importer in imps && IsIndex(imps[p.manifest.importer], index) && ConflictedNames(imps[p.manifest.importer]) == {}
    requires Accounted(ws, imps[p.manifest.importer], p.manifest.importer, p.section, p.declaration)
    ensures Classify(ws, p.manifest.importer, p.section, p.declaration, index) == Record(imps, p)
  {
    var imp, importer, s, d := imps[p.manifest.importer], p.manifest.importer, p.section, p.declaration;
    ClassifyExactly(ws, imp, importer, s, d, index);
    if !s.Peer? {
      assert d.name in index && d.name in SectionOf(imp, index[d.name].section);
      assert index[d.name].section != s ==> d.name in ConflictedNames(imp);
    }
  }

  lemma {:induction false} SectionRecords(ws: Workspace, imps: Importers, m: Manifest, s: Section, decls: seq<Declaration>, index: Index)
    requires m.importer in imps && IsIndex(imps[m.importer], index) && ConflictedNames(imps[m.importer]) == {}
    requires SectionAccounted(ws, imps[m.importer], m.importer, s, decls)
    ensures Records(imps, SectionPlaces(m, s, decls), SectionOutcomes(ws, m.importer, s, decls, index, {}))
  {
    if decls != [] {
      var init, d := decls[..|decls| - 1], decls[|decls| - 1];
      AccountedSnoc(ws, imps[m.importer], m.importer, s, decls);
      SectionRecords(ws, imps, m, s, init, index);
      OutcomeIsRecord(ws, imps, Place(m, s, d), index);
      RecordsJoin(imps, SectionPlaces(m, s, init), SectionOutcomes(ws, m.importer, s, init, index, {}),
                  [Place(m, s, d)], [Classify(ws, m.importer, s, d, index)]);
      assert SectionPlaces(m, s, decls) == SectionPlaces(m, s, init) + [Place(m, s, d)];
    }
  }

  lemma ManifestRecords(ws: Workspace, imps: Importers, m: Manifest, index: Index)
    requires m.importer in imps && IsIndex(imps[m.importer], index) && ConflictedNames(imps[m.importer]) == {}
    requires ManifestAccounted(ws, imps[m.importer], m)
    ensures Records(imps, ManifestPlaces(m), ManifestOutcomes(ws, m, index, {}))
  {
    SectionRecords(ws, imps, m, Dependencies, m.dependencies, index);
    SectionRecords(ws, imps, m, Optional, m.optional, index);
    SectionRecords(ws, imps, m, Development, m.development, index);
    SectionRecords(ws, imps, m, Peer, m.peer, index);
    FourJoin(imps,
             SectionPlaces(m, Dependencies, m.dependencies), SectionOutcomes(ws, m.importer, Dependencies, m.dependencies, index, {}),
             SectionPlaces(m, Optional, m.optional), SectionOutcomes(ws, m.importer, Optional, m.optional, index, {}),
             SectionPlaces(m, Development, m.development), SectionOutcomes(ws, m.importer, Development, m.development, index, {}),
             SectionPlaces(m, Peer, m.peer), SectionOutcomes(ws, m.importer, Peer, m.peer, index, {}));
  }

  lemma FourJoin(imps: Importers, p: seq<Place>, a: seq<Outcome>, q: seq<Place>, b: seq<Outcome>,
                 r: seq<Place>, c: seq<Outcome>, t: seq<Place>, d: seq<Outcome>)
    requires Records(imps, p, a) && Records(imps, q, b) && Records(imps, r, c) && Records(imps, t, d)
    ensures Records(imps, p + q + r + t, a + b + c + d)
  {
    RecordsJoin(imps, p, a, q, b);
    RecordsJoin(imps, p + q, a + b, r, c);
    RecordsJoin(imps, p + q + r, a + b + c, t, d);
  }

  /** With everything accounted for, the outcomes are the records of the places, in their order. */
  lemma {:induction false} OutcomesAreRecords(ws: Workspace, ms: seq<Manifest>, imps: Importers, indexes: Indexes)
    requires IsIndexes(imps, indexes) && NoConflicts(imps) && AllAccounted(ws, ms, imps) && forall m :: m in ms ==> m.importer in imps
    ensures Records(imps, Places(ms), Outcomes(ws, ms, imps, indexes))
  {
    if ms != [] {
      var init, m := ms[..|ms| - 1], ms[|ms| - 1];
      LastOf(ms);
      AllAccountedSnoc(ws, ms, imps);
      OutcomesAreRecords(ws, init, imps, indexes);
      ManifestRecords(ws, imps, m, indexes[m.importer]);
      LastManifest(ws, ms, imps, indexes);
      RecordsJoin(imps, Places(init), Outcomes(ws, init, imps, indexes), ManifestPlaces(m), ManifestOutcomes(ws, m, indexes[m.importer], {}));
    }
  }

  // ---------------------------------------------------------------- every declaration once

  lemma InManifest(m: Manifest, p: Place)
    ensures p in ManifestPlaces(m) <==> p.manifest == m && p.declaration in DeclarationsOf(m, p.section)
  {
    if p.manifest == m && p.declaration in DeclarationsOf(m, p.section) {
      var decls := DeclarationsOf(m, p.section);
      var i :| 0 <= i < |decls| && decls[i] == p.declaration;
      assert SectionPlaces(m, p.section, decls)[i] == p;
    }
  }

  lemma {:induction false} InPlaces(ms: seq<Manifest>, p: Place)
    ensures p in Places(ms) <==> IsPlace(ms, p)
  {
    if ms != [] {
      LastOf(ms);
      InPlaces(ms[..|ms| - 1], p);
      InManifest(ms[|ms| - 1], p);
    }
  }

  lemma NoRepeatJoin(a: seq<Place>, b: seq<Place>)
    requires NoRepeat(a) && NoRepeat(b) && forall p :: p in a ==> p !in b
    ensures NoRepeat(a + b)
  {
    var all := a + b;
    forall i, j | 0 <= i < j < |all| ensures all[i] != all[j] {
      if i < |a| <= j {
        assert all[i] in a && all[j] in b;
      }
    }
  }

  lemma SectionNoRepeat(m: Manifest, s: Section, decls: seq<Declaration>)
    requires SectionValid(decls)
    ensures NoRepeat(SectionPlaces(m, s, decls)) && forall p :: p in SectionPlaces(m, s, decls) ==> p.section == s
  {
  }

  lemma ManifestNoRepeat(m: Manifest)
    requires DeclarationsValid(m)
    ensures NoRepeat(ManifestPlaces(m))
  {
    var a, b := SectionPlaces(m, Dependencies, m.dependencies), SectionPlaces(m, Optional, m.optional);
    var c, d := SectionPlaces(m, Development, m.development), SectionPlaces(m, Peer, m.peer);
    SectionNoRepeat(m, Dependencies, m.dependencies);
    SectionNoRepeat(m, Optional, m.optional);
    SectionNoRepeat(m, Development, m.development);
    SectionNoRepeat(m, Peer, m.peer);
    NoRepeatJoin(a, b);
    NoRepeatJoin(a + b, c);
    NoRepeatJoin(a + b + c, d);
  }

  lemma {:induction false} PlacesOnce(ms: seq<Manifest>)
    requires (forall m :: m in ms ==> DeclarationsValid(m)) && forall i, j :: 0 <= i < j < |ms| ==> ms[i] != ms[j]
    ensures EachOnce(ms, Places(ms))
  {
    forall p ensures p in Places(ms) <==> IsPlace(ms, p) {
      InPlaces(ms, p);
    }
    if ms != [] {
      var init, m := ms[..|ms| - 1], ms[|ms| - 1];
      LastOf(ms);
      PlacesOnce(init);
      ManifestNoRepeat(m);
      forall p | p in Places(init) ensures p !in ManifestPlaces(m) {
        InManifest(m, p);
      }
      NoRepeatJoin(Places(init), ManifestPlaces(m));
    }
  }

  lemma {:induction false} PlaceCount(ms: seq<Manifest>)
    ensures |Places(ms)| == DeclarationCount(ms)
  {
    if ms != [] {
      PlaceCount(ms[..|ms| - 1]);
    }
  }

  lemma {:induction false} ListedLength(a: seq<Place>, b: seq<Place>)
    requires NoRepeat(a) && forall p :: p in a ==> p in b
    ensures |a| <= |b|
  {
    if a != [] {
      var init, last := a[..|a| - 1], a[|a| - 1];
      assert last in a;
      var k :| 0 <= k < |b| && b[k] == last;
      var rest := b[..k] + b[k + 1..];
      forall p | p in init ensures p in rest {
        assert p in a && p != last;
        var n :| 0 <= n < |b| && b[n] == p;
        assert if n < k then rest[n] == p else rest[n - 1] == p;
      }
      ListedLength(init, rest);
    }
  }

  /** Listings that have every declaration once are as long as there are declarations. */
  lemma OnceCount(ms: seq<Manifest>, a: seq<Place>, b: seq<Place>)
    requires EachOnce(ms, a) && EachOnce(ms, b)
    ensures |a| == |b|
  {
    ListedLength(a, b);
    ListedLength(b, a);
  }

  lemma RecordsGive(ms: seq<Manifest>, imps: Importers, places: seq<Place>, outcomes: seq<Outcome>, o: Outcome)
    requires EachOnce(ms, places) && Records(imps, places, outcomes)
    ensures o in outcomes <==> Gives(ms, imps, o)
  {
    if o in outcomes {
      var i :| 0 <= i < |outcomes| && outcomes[i] == o;
      assert places[i] in places;
    }
    if Gives(ms, imps, o) {
      var p :| IsPlace(ms, p) && Record(imps, p) == o;
      assert p in places;
      var i :| 0 <= i < |places| && places[i] == p;
    }
  }
}
