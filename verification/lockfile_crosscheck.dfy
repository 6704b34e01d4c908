/** The second stage of the adapter: every declaration and every lockfile entry is matched with its counterpart. */
module LockfileCrosscheck {
  import opened Text
  import opened LockfileKeys
  import opened LockfileAdapter

  type Index = map<Str, Located>

  // ---------------------------------------------------------------- the index of an importer

  function ConflictedNames(imp: Importer): set<Str> {
    imp.dependencies.Keys * imp.optional.Keys + (imp.dependencies.Keys + imp.optional.Keys) * imp.development.Keys
  }

  /** Where each name listed in one section only is listed. */
  ghost predicate IsIndex(imp: Importer, index: Index) {
    && index.Keys == imp.dependencies.Keys + imp.optional.Keys + imp.development.Keys - ConflictedNames(imp)
    && forall n :: n in index ==> n in SectionOf(imp, index[n].section) && index[n].resolution == SectionOf(imp, index[n].section)[n]
  }

  method IndexSection(s: Section, entries: map<Str, Resolution>, first: set<Str>, index: Index, conflicted: set<Str>)
    returns (index': Index, conflicted': set<Str>, errors: seq<Code>)
    requires conflicted <= first && index.Keys == first - conflicted
    ensures conflicted' == conflicted + first * entries.Keys && index'.Keys == first + entries.Keys - conflicted'
    ensures forall n :: n in index' ==> if n in entries then index'[n] == Located(s, entries[n]) else n in index && index'[n] == index[n]
    ensures errors == [] <==> first * entries.Keys <= conflicted
  {
    index', conflicted', errors := index, conflicted, [];
    var rest := entries.Keys;
    while rest != {}
      invariant rest <= entries.Keys
      invariant conflicted' == conflicted + first * (entries.Keys - rest)
      invariant index'.Keys == first + (entries.Keys - rest) - conflicted'
      invariant forall n :: n in index' ==> if n in entries && n !in rest then index'[n] == Located(s, entries[n]) else n in index && index'[n] == index[n]
      invariant errors == [] <==> first * (entries.Keys - rest) <= conflicted
    {
      var name :| name in rest;
      if name !in first {
        index' := index'[name := Located(s, entries[name])];
      } else if name !in conflicted' {
        errors := errors + [MultipleSections];
        conflicted' := conflicted' + {name};
        index' := index' - {name};
      }
      rest := rest - {name};
    }
  }

  method IndexImporter(imp: Importer) returns (index: Index, conflicted: set<Str>, errors: seq<Code>)
    ensures IsIndex(imp, index) && conflicted == ConflictedNames(imp) && (errors == [] <==> conflicted == {})
  {
    var e0, e1, e2;
    index, conflicted, e0 := IndexSection(Dependencies, imp.dependencies, {}, map[], {});
    index, conflicted, e1 := IndexSection(Optional, imp.optional, imp.dependencies.Keys, index, conflicted);
    index, conflicted, e2 := IndexSection(Development, imp.development, imp.dependencies.Keys + imp.optional.Keys, index, conflicted);
    errors := e0 + e1 + e2;
  }

  // ---------------------------------------------------------------- classifying declarations

  datatype Tally = Tally(roots: seq<Root>, peers: seq<PeerRoot>, links: set<Str>, errors: seq<Code>)

  function Counted(t: Tally, o: Outcome): Tally {
    match o
    case Resolved(root) => t.(roots := t.roots + [root])
    case Linked(name) => t.(links := t.links + {name})
    case UnresolvedPeer(peer) => t.(peers := t.peers + [peer])
    case Wrong(code) => t.(errors := t.errors + [code])
  }

  function TallyOf(outcomes: seq<Outcome>): Tally {
    if outcomes == [] then Tally([], [], {}, []) else Counted(TallyOf(outcomes[..|outcomes| - 1]), outcomes[|outcomes| - 1])
  }

  lemma TallySnoc(outcomes: seq<Outcome>, o: Outcome)
    ensures TallyOf(outcomes + [o]) == Counted(TallyOf(outcomes), o)
  {
    assert (outcomes + [o])[..|outcomes|] == outcomes;
  }

  /** The outcomes of a section's declarations, in order; names in conflict are passed over. */
  ghost function SectionOutcomes(ws: Workspace, importer: Str, s: Section, decls: seq<Declaration>, index: Index, conflicted: set<Str>): seq<Outcome> {
    if decls == [] then []
    else
      var d := decls[|decls| - 1];
      SectionOutcomes(ws, importer, s, decls[..|decls| - 1], index, conflicted)
      + if d.name in conflicted then [] else [Classify(ws, importer, s, d, index)]
  }

  method ClassifyDeclaration(ws: Workspace, importer: Str, s: Section, d: Declaration, index: Index) returns (o: Outcome)
    ensures o == Classify(ws, importer, s, d, index)
  {
    if s.Peer? {
      return if d.name in index then Wrong(SectionMismatch) else UnresolvedPeer(PeerRoot(importer, d.name, d.spec));
    }
    if d.name !in index {
      return Wrong(Unresolved);
    }
    var entry := index[d.name];
    if entry.section != s {
      return Wrong(SectionMismatch);
    }
    if entry.resolution.specifier != d.spec {
      return Wrong(SpecMismatch);
    }
    var ref := ResolveReference(d.name, entry.resolution.version);
    match ref
    case BadReference => return Wrong(ReferenceInvalid);
    case FirstParty(link) => return LinkOutcome(ws, importer, d.name, link);
    case Registry(key) => return Resolved(Root(importer, d.name, key, s));
  }

  method ClassifySection(t: Tally, ws: Workspace, importer: Str, s: Section, decls: seq<Declaration>, index: Index, conflicted: set<Str>,
                         ghost before: seq<Outcome>) returns (t': Tally)
    requires t == TallyOf(before)
    ensures t' == TallyOf(before + SectionOutcomes(ws, importer, s, decls, index, conflicted))
  {
    t' := t;
    ghost var done := before;
    assert before + [] == before;
    for i := 0 to |decls|
      invariant done == before + SectionOutcomes(ws, importer, s, decls[..i], index, conflicted) && t' == TallyOf(done)
    {
      NextOutcome(ws, importer, s, decls, i, index, conflicted, before);
      if decls[i].name !in conflicted {
        var o := ClassifyDeclaration(ws, importer, s, decls[i], index);
        TallySnoc(done, o);
        t' := Counted(t', o);
        done := done + [o];
      }
    }
    assert decls[..|decls|] == decls;
  }

  lemma NextOutcome(ws: Workspace, importer: Str, s: Section, decls: seq<Declaration>, i: nat, index: Index, conflicted: set<Str>, before: seq<Outcome>)
    requires i < |decls|
    ensures before + SectionOutcomes(ws, importer, s, decls[..i + 1], index, conflicted) ==
            before + SectionOutcomes(ws, importer, s, decls[..i], index, conflicted)
            + if decls[i].name in conflicted then [] else [Classify(ws, importer, s, decls[i], index)]
  {
    assert decls[..i + 1][..i] == decls[..i];
  }

  ghost function ManifestOutcomes(ws: Workspace, m: Manifest, index: Index, conflicted: set<Str>): seq<Outcome> {
    SectionOutcomes(ws, m.importer, Dependencies, m.dependencies, index, conflicted)
    + SectionOutcomes(ws, m.importer, Optional, m.optional, index, conflicted)
    + SectionOutcomes(ws, m.importer, Development, m.development, index, conflicted)
    + SectionOutcomes(ws, m.importer, Peer, m.peer, index, conflicted)
  }

  lemma Regroup(before: seq<Outcome>, a: seq<Outcome>, b: seq<Outcome>, c: seq<Outcome>, d: seq<Outcome>)
    ensures before + a + b + c + d == before + (a + b + c + d)
  {
  }

  method ClassifyManifest(t: Tally, ws: Workspace, m: Manifest, index: Index, conflicted: set<Str>, ghost before: seq<Outcome>) returns (t': Tally)
    requires t == TallyOf(before)
    ensures t' == TallyOf(before + ManifestOutcomes(ws, m, index, conflicted))
  {
    ghost var a := SectionOutcomes(ws, m.importer, Dependencies, m.dependencies, index, conflicted);
    ghost var b := SectionOutcomes(ws, m.importer, Optional, m.optional, index, conflicted);
    ghost var c := SectionOutcomes(ws, m.importer, Development, m.development, index, conflicted);
    ghost var d := SectionOutcomes(ws, m.importer, Peer, m.peer, index, conflicted);
    Regroup(before, a, b, c, d);
    ghost var one := before + a;
    ghost var two := one + b;
    ghost var three := two + c;
    t' := ClassifySection(t, ws, m.importer, Dependencies, m.dependencies, index, conflicted, before);
    t' := ClassifySection(t', ws, m.importer, Optional, m.optional, index, conflicted, one);
    t' := ClassifySection(t', ws, m.importer, Development, m.development, index, conflicted, two);
    t' := ClassifySection(t', ws, m.importer, Peer, m.peer, index, conflicted, three);
  }

  type Indexes = map<Str, Index>

  /** The index of every lockfile importer. */
  ghost predicate IsIndexes(imps: Importers, indexes: Indexes) {
    indexes.Keys == imps.Keys && forall p :: p in imps ==> IsIndex(imps[p], indexes[p])
  }

  /** The outcomes of all declarations, manifest by manifest; a manifest without a lockfile importer is passed over. */
  ghost function Outcomes(ws: Workspace, ms: seq<Manifest>, imps: Importers, indexes: Indexes): seq<Outcome>
    requires imps.Keys <= indexes.Keys
  {
    if ms == [] then []
    else
      var m := ms[|ms| - 1];
      Outcomes(ws, ms[..|ms| - 1], imps, indexes)
      + if m.importer in imps then ManifestOutcomes(ws, m, indexes[m.importer], ConflictedNames(imps[m.importer])) else []
  }

  method ClassifyAll(ws: Workspace, ms: seq<Manifest>, imps: Importers, indexes: Indexes, conflicts: map<Str, set<Str>>) returns (t: Tally)
    requires IsIndexes(imps, indexes) && conflicts.Keys == imps.Keys && forall p :: p in imps ==> conflicts[p] == ConflictedNames(imps[p])
    ensures t == TallyOf(Outcomes(ws, ms, imps, indexes))
  {
    t := Tally([], [], {}, []);
    for i := 0 to |ms|
      invariant t == TallyOf(Outcomes(ws, ms[..i], imps, indexes))
    {
      assert ms[..i + 1][..i] == ms[..i];
      var m := ms[i];
      if m.importer in indexes {
        t := ClassifyManifest(t, ws, m, indexes[m.importer], conflicts[m.importer], Outcomes(ws, ms[..i], imps, indexes));
      } else {
        assert Outcomes(ws, ms[..i], imps, indexes) + [] == Outcomes(ws, ms[..i], imps, indexes);
      }
    }
    assert ms[..|ms|] == ms;
  }

  method IndexAll(imps: Importers) returns (indexes: Indexes, conflicts: map<Str, set<Str>>, errors: seq<Code>)
    ensures IsIndexes(imps, indexes) && conflicts.Keys == imps.Keys && forall p :: p in imps ==> conflicts[p] == ConflictedNames(imps[p])
    ensures errors == [] <==> NoConflicts(imps)
  {
    indexes, conflicts, errors := map[], map[], [];
    var rest := imps.Keys;
    while rest != {}
      invariant rest <= imps.Keys && indexes.Keys == imps.Keys - rest && conflicts.Keys == imps.Keys - rest
      invariant forall p :: p in imps && p !in rest ==> IsIndex(imps[p], indexes[p]) && conflicts[p] == ConflictedNames(imps[p])
      invariant errors == [] <==> forall p :: p in imps && p !in rest ==> ConflictedNames(imps[p]) == {}
    {
      var p :| p in rest;
      var index, conflicted, more := IndexImporter(imps[p]);
      indexes, conflicts, errors := indexes[p := index], conflicts[p := conflicted], errors + more;
      rest := rest - {p};
    }
  }

  // ---------------------------------------------------------------- what the stage checks

  /** No lockfile importer lists a name in two sections. */
  ghost predicate NoConflicts(imps: Importers) { forall p :: p in imps ==> ConflictedNames(imps[p]) == {} }

  /** Manifests and lockfile importers are for the same paths. */
  ghost predicate SameImporters(ms: seq<Manifest>, imps: Importers) {
    && (forall m :: m in ms ==> m.importer in imps)
    && forall p :: p in imps ==> HasManifest(ms, p)
  }

  ghost predicate HasManifest(ms: seq<Manifest>, p: Str) { exists m :: m in ms && m.importer == p }

  predicate Listed(imp: Importer, name: Str) {
    name in imp.dependencies || name in imp.optional || name in imp.development
  }

  predicate Declared(m: Manifest, name: Str) {
    name in NamesIn(m.dependencies) || name in NamesIn(m.optional) || name in NamesIn(m.development) || name in NamesIn(m.peer)
  }

  /** The link resolves to a committed workspace importer whose package has this name. */
  predicate LinksTo(ws: Workspace, importer: Str, link: Str, name: Str) {
    var target := ws.target(importer, link);
    target != [] && target in ws.manifests && ws.manifests[target].packageName == Named(name)
  }

  /**
   * A peer declaration is listed nowhere; any other is listed in the same section with the same specifier, and resolves to
   * a snapshot or to a workspace package of that name.
   */
  ghost predicate Accounted(ws: Workspace, imp: Importer, importer: Str, s: Section, d: Declaration) {
    if s.Peer? then !Listed(imp, d.name)
    else
      && d.name in SectionOf(imp, s) && SectionOf(imp, s)[d.name].specifier == d.spec
      && match Resolve(d.name, SectionOf(imp, s)[d.name].version)
         case BadReference => false
         case FirstParty(link) => LinksTo(ws, importer, link, d.name)
         case Registry(_) => true
  }

  ghost predicate SectionAccounted(ws: Workspace, imp: Importer, importer: Str, s: Section, decls: seq<Declaration>) {
    forall i :: 0 <= i < |decls| ==> Accounted(ws, imp, importer, s, decls[i])
  }

  ghost predicate ManifestAccounted(ws: Workspace, imp: Importer, m: Manifest) {
    && SectionAccounted(ws, imp, m.importer, Dependencies, m.dependencies)
    && SectionAccounted(ws, imp, m.importer, Optional, m.optional)
    && SectionAccounted(ws, imp, m.importer, Development, m.development)
    && SectionAccounted(ws, imp, m.importer, Peer, m.peer)
  }

  ghost predicate AllAccounted(ws: Workspace, ms: seq<Manifest>, imps: Importers) {
    forall m :: m in ms && m.importer in imps ==> ManifestAccounted(ws, imps[m.importer], m)
  }

  /** Every name a lockfile importer lists is declared in its manifest. */
  ghost predicate AllDeclared(ms: seq<Manifest>, imps: Importers) {
    forall m :: m in ms && m.importer in imps ==> ImporterDeclared(imps[m.importer], m)
  }

  ghost predicate ImporterDeclared(imp: Importer, m: Manifest) { forall n :: Listed(imp, n) ==> Declared(m, n) }

  // ---------------------------------------------------------------- classification decides accounting

  lemma ClassifyExactly(ws: Workspace, imp: Importer, importer: Str, s: Section, d: Declaration, index: Index)
    requires IsIndex(imp, index) && ConflictedNames(imp) == {}
    ensures !Classify(ws, importer, s, d, index).Wrong? <==> Accounted(ws, imp, importer, s, d)
  {
    assert d.name in index <==> Listed(imp, d.name);
    if !s.Peer? && d.name in index {
      var found := index[d.name].section;
      assert d.name in SectionOf(imp, found);
      assert found != s ==> d.name !in SectionOf(imp, s);
    }
  }

  predicate NoneWrong(outcomes: seq<Outcome>) { forall i :: 0 <= i < |outcomes| ==> !outcomes[i].Wrong? }

  lemma {:induction false} SectionClassified(ws: Workspace, imp: Importer, importer: Str, s: Section, decls: seq<Declaration>, index: Index)
    requires IsIndex(imp, index) && ConflictedNames(imp) == {}
    ensures NoneWrong(SectionOutcomes(ws, importer, s, decls, index, {})) <==> SectionAccounted(ws, imp, importer, s, decls)
    ensures |SectionOutcomes(ws, importer, s, decls, index, {})| == |decls|
  {
    if decls != [] {
      var init, d := decls[..|decls| - 1], decls[|decls| - 1];
      SectionClassified(ws, imp, importer, s, init, index);
      ClassifyExactly(ws, imp, importer, s, d, index);
      NoneWrongSnoc(SectionOutcomes(ws, importer, s, init, index, {}), Classify(ws, importer, s, d, index));
      AccountedSnoc(ws, imp, importer, s, decls);
    }
  }

  lemma NoneWrongSnoc(outcomes: seq<Outcome>, o: Outcome)
    ensures NoneWrong(outcomes + [o]) <==> NoneWrong(outcomes) && !o.Wrong?
  {
    var all := outcomes + [o];
    assert all[|outcomes|] == o;
    forall i | 0 <= i < |outcomes| ensures all[i] == outcomes[i] {
    }
  }

  lemma AccountedSnoc(ws: Workspace, imp: Importer, importer: Str, s: Section, decls: seq<Declaration>)
    requires decls != []
    ensures SectionAccounted(ws, imp, importer, s, decls) <==>
              SectionAccounted(ws, imp, importer, s, decls[..|decls| - 1]) && Accounted(ws, imp, importer, s, decls[|decls| - 1])
  {
    forall i | 0 <= i < |decls| - 1 ensures decls[..|decls| - 1][i] == decls[i] {
    }
  }

  lemma NoneWrongJoin(a: seq<Outcome>, b: seq<Outcome>)
    ensures NoneWrong(a + b) <==> NoneWrong(a) && NoneWrong(b)
  {
    var all := a + b;
    forall i | 0 <= i < |a| ensures all[i] == a[i] {
    }
    forall i | 0 <= i < |b| ensures all[|a| + i] == b[i] {
    }
  }

  lemma ManifestClassified(ws: Workspace, imp: Importer, m: Manifest, index: Index)
    requires IsIndex(imp, index) && ConflictedNames(imp) == {}
    ensures NoneWrong(ManifestOutcomes(ws, m, index, {})) <==> ManifestAccounted(ws, imp, m)
    ensures |ManifestOutcomes(ws, m, index, {})| == |m.dependencies| + |m.optional| + |m.development| + |m.peer|
  {
    var a := SectionOutcomes(ws, m.importer, Dependencies, m.dependencies, index, {});
    var b := SectionOutcomes(ws, m.importer, Optional, m.optional, index, {});
    var c := SectionOutcomes(ws, m.importer, Development, m.development, index, {});
    var d := SectionOutcomes(ws, m.importer, Peer, m.peer, index, {});
    SectionClassified(ws, imp, m.importer, Dependencies, m.dependencies, index);
    SectionClassified(ws, imp, m.importer, Optional, m.optional, index);
    SectionClassified(ws, imp, m.importer, Development, m.development, index);
    SectionClassified(ws, imp, m.importer, Peer, m.peer, index);
    NoneWrongJoin(a, b);
    NoneWrongJoin(a + b, c);
    NoneWrongJoin(a + b + c, d);
  }

  lemma AllAccountedSnoc(ws: Workspace, ms: seq<Manifest>, imps: Importers)
    requires ms != [] && ms[|ms| - 1].importer in imps
    ensures AllAccounted(ws, ms, imps) <==>
              AllAccounted(ws, ms[..|ms| - 1], imps) && ManifestAccounted(ws, imps[ms[|ms| - 1].importer], ms[|ms| - 1])
  {
    LastOf(ms);
  }

  lemma LastOf(ms: seq<Manifest>)
    requires ms != []
    ensures forall m :: m in ms <==> m in ms[..|ms| - 1] || m == ms[|ms| - 1]
  {
    assert ms == ms[..|ms| - 1] + [ms[|ms| - 1]];
  }

  /** With the same importers on both sides and no conflict, every declaration has one outcome, and none is wrong exactly when all are accounted for. */
  lemma {:induction false} AllClassified(ws: Workspace, ms: seq<Manifest>, imps: Importers, indexes: Indexes)
    requires IsIndexes(imps, indexes) && NoConflicts(imps) && forall m :: m in ms ==> m.importer in imps
    ensures NoneWrong(Outcomes(ws, ms, imps, indexes)) <==> AllAccounted(ws, ms, imps)
    ensures |Outcomes(ws, ms, imps, indexes)| == DeclarationCount(ms)
  {
    if ms != [] {
      var init, m := ms[..|ms| - 1], ms[|ms| - 1];
      LastOf(ms);
      var before, last := Outcomes(ws, init, imps, indexes), ManifestOutcomes(ws, m, indexes[m.importer], {});
      AllClassified(ws, init, imps, indexes);
      ManifestClassified(ws, imps[m.importer], m, indexes[m.importer]);
      LastManifest(ws, ms, imps, indexes);
      NoneWrongJoin(before, last);
      AllAccountedSnoc(ws, ms, imps);
    }
  }

  lemma LastManifest(ws: Workspace, ms: seq<Manifest>, imps: Importers, indexes: Indexes)
    requires ms != [] && imps.Keys <= indexes.Keys && ms[|ms| - 1].importer in imps && ConflictedNames(imps[ms[|ms| - 1].importer]) == {}
    ensures var m := ms[|ms| - 1];
            Outcomes(ws, ms, imps, indexes) == Outcomes(ws, ms[..|ms| - 1], imps, indexes) + ManifestOutcomes(ws, m, indexes[m.importer], {})
  {
  }

  // ---------------------------------------------------------------- tallies

  function LinkCount(outcomes: seq<Outcome>): nat {
    if outcomes == [] then 0 else LinkCount(outcomes[..|outcomes| - 1]) + if outcomes[|outcomes| - 1].Linked? then 1 else 0
  }

  /** A tally keeps every outcome: as a root, a peer, a link or an error. */
  lemma {:induction false} TallyKeepsAll(outcomes: seq<Outcome>)
    ensures var t := TallyOf(outcomes);
            && |t.roots| + |t.peers| + LinkCount(outcomes) + |t.errors| == |outcomes|
            && (t.errors == [] <==> NoneWrong(outcomes))
            && (forall r :: r in t.roots <==> Resolved(r) in outcomes)
            && (forall p :: p in t.peers <==> UnresolvedPeer(p) in outcomes)
            && (forall n :: n in t.links <==> Linked(n) in outcomes)
  {
    if outcomes != [] {
      var init, o := outcomes[..|outcomes| - 1], outcomes[|outcomes| - 1];
      TallyKeepsAll(init);
      assert outcomes == init + [o];
      NoneWrongSnoc(init, o);
    }
  }
}
