/** Manifests against lockfile importers, in both directions. */
module LockfileAdapter {
  import opened Text
  import opened LockfileKeys

  datatype Declaration = Declaration(name: Str, spec: Str)

  datatype Section = Dependencies | Optional | Development | Peer

  datatype PackageName = Unnamed | Named(name: Str)

  datatype Manifest = Manifest(importer: Str, packageName: PackageName, dependencies: seq<Declaration>, optional: seq<Declaration>,
                               development: seq<Declaration>, peer: seq<Declaration>)

  datatype Resolution = Resolution(specifier: Str, version: Str)

  /** A lockfile importer: the three sections it can have, each a mapping. */
  datatype Importer = Importer(dependencies: map<Str, Resolution>, optional: map<Str, Resolution>, development: map<Str, Resolution>)

  type Importers = map<Str, Importer>

  function DeclarationsOf(m: Manifest, s: Section): seq<Declaration> {
    match s
    case Dependencies => m.dependencies
    case Optional => m.optional
    case Development => m.development
    case Peer => m.peer
  }

  function SectionOf(imp: Importer, s: Section): map<Str, Resolution> {
    match s
    case Dependencies => imp.dependencies
    case Optional => imp.optional
    case Development => imp.development
    case Peer => map[]
  }

  // ---------------------------------------------------------------- references

  datatype Reference = Registry(snapshotKey: Str) | FirstParty(target: Str) | BadReference

  const LINK: Str := [0x6c, 0x69, 0x6e, 0x6b, 0x3a]

  predicate IsLink(ref: Str) { |ref| >= 5 && ref[..5] == LINK }

  /** A version, bare or with a peer suffix. */
  ghost predicate IsRegistryReference(ref: Str) {
    exists k: nat :: k <= |ref| && IsSafeBase(ref[..k]) && AT !in ref[..k] && IsSuffix(ref[k..])
  }

  ghost function Resolve(name: Str, ref: Str): Reference {
    if IsLink(ref) then FirstParty(ref[5..])
    else if IsRegistryReference(ref) then Registry(name + [AT] + ref)
    else BadReference
  }

  lemma ReferenceSplits(ref: Str, k: nat)
    requires k <= |ref| && IsSafeBase(ref[..k]) && IsSuffix(ref[k..])
    ensures k == FirstParenthesis(ref)
  {
    SuffixShape(ref[k..]);
    forall i | 0 <= i < k ensures ref[i] != OPEN {
      assert ref[i] == ref[..k][i];
    }
    if k < |ref| {
      assert ref[k] == ref[k..][0];
    }
  }

  method ResolveReference(name: Str, ref: Str) returns (r: Reference)
    ensures r == Resolve(name, ref)
  {
    if IsLink(ref) {
      return FirstParty(ref[5..]);
    }
    var paren := FirstParenthesis(ref);
    var base, suffix := ref[..paren], ref[paren..];
    if IsRegistryReference(ref) {
      ghost var k: nat :| k <= |ref| && IsSafeBase(ref[..k]) && AT !in ref[..k] && IsSuffix(ref[k..]);
      ReferenceSplits(ref, k);
    }
    if !IsSafeBase(base) || AT in base {
      return BadReference;
    }
    var ok := IsValidPeerSuffix(suffix);
    return if ok then Registry(name + [AT] + ref) else BadReference;
  }

  // ---------------------------------------------------------------- one declaration

  datatype Located = Located(section: Section, resolution: Resolution)

  datatype Root = Root(importer: Str, name: Str, snapshotKey: Str, section: Section)

  datatype PeerRoot = PeerRoot(importer: Str, name: Str, spec: Str)

  datatype Outcome = Resolved(root: Root) | Linked(name: Str) | UnresolvedPeer(peer: PeerRoot) | Wrong(code: Code)

  datatype Code =
    | SectionMismatch | Unresolved | SpecMismatch | ReferenceInvalid | TargetUnresolved | TargetNameMismatch
    | ImporterMissing | ManifestMissing | MultipleSections | DeclarationMissing

  /** The manifests by importer, and how a link target resolves against an importer: empty when it does not. */
  datatype Workspace = Workspace(manifests: map<Str, Manifest>, target: (Str, Str) -> Str)

  function LinkOutcome(ws: Workspace, importer: Str, name: Str, link: Str): Outcome {
    var target := ws.target(importer, link);
    if target == [] || target !in ws.manifests then Wrong(TargetUnresolved)
    else if ws.manifests[target].packageName != Named(name) then Wrong(TargetNameMismatch)
    else Linked(name)
  }

  /** What becomes of one declaration, given where the lockfile importer lists its name. */
  ghost function Classify(ws: Workspace, importer: Str, s: Section, d: Declaration, index: map<Str, Located>): Outcome {
    if s.Peer? then
      if d.name in index then Wrong(SectionMismatch) else UnresolvedPeer(PeerRoot(importer, d.name, d.spec))
    else if d.name !in index then Wrong(Unresolved)
    else if index[d.name].section != s then Wrong(SectionMismatch)
    else if index[d.name].resolution.specifier != d.spec then Wrong(SpecMismatch)
    else
      match Resolve(d.name, index[d.name].resolution.version)
      case BadReference => Wrong(ReferenceInvalid)
      case FirstParty(link) => LinkOutcome(ws, importer, d.name, link)
      case Registry(key) => Resolved(Root(importer, d.name, key, s))
  }

  // ---------------------------------------------------------------- valid manifests

  const DOT: Unit := 0x2e
  const BACKSLASH: Unit := 0x5c
  const COLON: Unit := 0x3a

  /** `split("/")`. */
  function Segments(p: Str): (r: seq<Str>)
    ensures r != []
  {
    var slash := IndexOf(p, SLASH);
    if slash == -1 then [p] else [p[..slash]] + Segments(p[slash + 1..])
  }

  predicate IsLetter(c: Unit) { 0x41 <= c <= 0x5a || 0x61 <= c <= 0x7a }

  predicate IsImporterPath(p: Str) {
    p == [DOT] ||
    (&& p != [] && (forall i :: 0 <= i < |p| ==> !IsSpace(p[i]) && !IsControl(p[i]) && p[i] != BACKSLASH)
     && p[0] != SLASH && !(|p| > 1 && IsLetter(p[0]) && p[1] == COLON)
     && forall i :: 0 <= i < |Segments(p)| ==> Segments(p)[i] != [] && Segments(p)[i] != [DOT] && Segments(p)[i] != [DOT, DOT])
  }

  predicate IsDeclaration(d: Declaration) { IsPackageName(d.name) && d.spec != [] }

  /** The names declared in a section. */
  function NamesIn(decls: seq<Declaration>): (r: set<Str>)
    ensures forall n :: n in r <==> exists i :: 0 <= i < |decls| && decls[i].name == n
  {
    set d | d in decls :: d.name
  }

  predicate SectionValid(decls: seq<Declaration>) {
    && (forall i :: 0 <= i < |decls| ==> IsDeclaration(decls[i]))
    && forall i, j :: 0 <= i < j < |decls| ==> decls[i].name != decls[j].name
  }

  /** Every declaration is well formed, and no name is declared twice, in one section or in two. */
  predicate DeclarationsValid(m: Manifest) {
    && SectionValid(m.dependencies) && SectionValid(m.optional) && SectionValid(m.development) && SectionValid(m.peer)
    && NamesIn(m.dependencies) !! NamesIn(m.optional)
    && NamesIn(m.dependencies) + NamesIn(m.optional) !! NamesIn(m.development)
    && NamesIn(m.dependencies) + NamesIn(m.optional) + NamesIn(m.development) !! NamesIn(m.peer)
  }

  datatype ManifestFault = TooMany | BadPath | DuplicateImporter | DuplicatePackage | BadDeclaration | DuplicateDeclaration | SeveralSections

  method ValidateSection(s: Section, decls: seq<Declaration>, placed: map<Str, Section>)
    returns (placed': map<Str, Section>, errors: seq<ManifestFault>)
    requires forall n :: n in placed ==> placed[n] != s
    ensures errors == [] <==> SectionValid(decls) && NamesIn(decls) !! placed.Keys
    ensures errors == [] ==> placed'.Keys == placed.Keys + NamesIn(decls)
    ensures forall n :: n in placed' ==> placed'[n] == s || (n in placed && placed'[n] == placed[n])
  {
    placed', errors := placed, [];
    var seen: set<Str> := {};
    for i := 0 to |decls|
      invariant errors == [] <==> SectionValid(decls[..i]) && NamesIn(decls[..i]) !! placed.Keys
      invariant errors == [] ==> seen == NamesIn(decls[..i]) && placed'.Keys == placed.Keys + seen
      invariant forall n :: n in placed' ==> placed'[n] == s || (n in placed && placed'[n] == placed[n])
      invariant placed.Keys <= placed'.Keys && forall n :: n in placed ==> placed'[n] == placed[n]
    {
      var d := decls[i];
      NextDeclaration(decls, i, placed.Keys);
      if !IsDeclaration(d) {
        errors := errors + [BadDeclaration];
      } else {
        if d.name in seen {
          errors := errors + [DuplicateDeclaration];
        } else {
          seen := seen + {d.name};
        }
        if d.name in placed' && placed'[d.name] != s {
          errors := errors + [SeveralSections];
        } else if d.name !in placed' {
          placed' := placed'[d.name := s];
        }
      }
    }
    assert decls[..|decls|] == decls;
  }

  lemma NextDeclaration(decls: seq<Declaration>, i: nat, taken: set<Str>)
    requires i < |decls|
    ensures var before, d := decls[..i], decls[i];
            && NamesIn(decls[..i + 1]) == NamesIn(before) + {d.name}
            && (SectionValid(decls[..i + 1]) && NamesIn(decls[..i + 1]) !! taken <==>
                SectionValid(before) && NamesIn(before) !! taken && IsDeclaration(d) && d.name !in NamesIn(before) && d.name !in taken)
  {
    var before, after := decls[..i], decls[..i + 1];
    assert after == before + [decls[i]];
    forall k | 0 <= k < i ensures after[k] == before[k] {
    }
  }

  method ValidateDeclarations(m: Manifest) returns (errors: seq<ManifestFault>)
    ensures errors == [] <==> DeclarationsValid(m)
  {
    var placed, e0 := ValidateSection(Dependencies, m.dependencies, map[]);
    var placed1, e1 := ValidateSection(Optional, m.optional, placed);
    var placed2, e2 := ValidateSection(Development, m.development, placed1);
    var placed3, e3 := ValidateSection(Peer, m.peer, placed2);
    errors := e0 + e1 + e2 + e3;
  }

  function DeclarationCount(ms: seq<Manifest>): nat {
    if ms == [] then 0
    else
      var m := ms[|ms| - 1];
      DeclarationCount(ms[..|ms| - 1]) + |m.dependencies| + |m.optional| + |m.development| + |m.peer|
  }

  predicate ManifestsValid(ms: seq<Manifest>, max: nat) {
    && DeclarationCount(ms) <= max
    && (forall i :: 0 <= i < |ms| ==> IsImporterPath(ms[i].importer) && DeclarationsValid(ms[i]))
    && (forall i, j :: 0 <= i < j < |ms| ==> ms[i].importer != ms[j].importer)
    && forall i, j :: 0 <= i < j < |ms| && ms[i].packageName.Named? ==> ms[i].packageName != ms[j].packageName
  }

  method CountDeclarations(ms: seq<Manifest>) returns (total: nat)
    ensures total == DeclarationCount(ms)
  {
    total := 0;
    for i := 0 to |ms|
      invariant total == DeclarationCount(ms[..i])
    {
      assert ms[..i + 1][..i] == ms[..i];
      total := total + |ms[i].dependencies| + |ms[i].optional| + |ms[i].development| + |ms[i].peer|;
    }
    assert ms[..|ms|] == ms;
  }

  predicate FitsAfter(m: Manifest, importers: set<Str>, names: set<PackageName>) {
    IsImporterPath(m.importer) && DeclarationsValid(m) && m.importer !in importers && (m.packageName.Named? ==> m.packageName !in names)
  }

  method ValidateManifest(m: Manifest, importers: set<Str>, names: set<PackageName>)
    returns (importers': set<Str>, names': set<PackageName>, errors: seq<ManifestFault>)
    ensures errors == [] <==> FitsAfter(m, importers, names)
    ensures importers' == importers + {m.importer}
    ensures names' == if m.packageName.Named? then names + {m.packageName} else names
  {
    importers', names', errors := importers, names, [];
    if !IsImporterPath(m.importer) {
      errors := errors + [BadPath];
    }
    if m.importer in importers {
      errors := errors + [DuplicateImporter];
    } else {
      importers' := importers + {m.importer};
    }
    if m.packageName.Named? {
      if m.packageName in names {
        errors := errors + [DuplicatePackage];
      } else {
        names' := names + {m.packageName};
      }
    }
    var more := ValidateDeclarations(m);
    errors := errors + more;
  }

  ghost predicate SeenSoFar(ms: seq<Manifest>, n: nat, importers: set<Str>, names: set<PackageName>) {
    && n <= |ms|
    && (forall p :: p in importers <==> exists k :: 0 <= k < n && ms[k].importer == p)
    && forall p :: p in names <==> p.Named? && exists k :: 0 <= k < n && ms[k].packageName == p
  }

  lemma SeenOneMore(ms: seq<Manifest>, n: nat, importers: set<Str>, names: set<PackageName>)
    requires n < |ms| && SeenSoFar(ms, n, importers, names)
    ensures SeenSoFar(ms, n + 1, importers + {ms[n].importer}, if ms[n].packageName.Named? then names + {ms[n].packageName} else names)
  {
  }

  lemma ApartOneMore(ms: seq<Manifest>, n: nat, importers: set<Str>, names: set<PackageName>)
    requires n < |ms| && SeenSoFar(ms, n, importers, names)
    ensures Apart(ms, n + 1) <==> Apart(ms, n) && ms[n].importer !in importers && (ms[n].packageName.Named? ==> ms[n].packageName !in names)
  {
  }

  lemma ValidOneMore(ms: seq<Manifest>, n: nat, importers: set<Str>, names: set<PackageName>)
    requires n < |ms| && SeenSoFar(ms, n, importers, names)
    ensures EachValid(ms, n + 1) && Apart(ms, n + 1) <==> EachValid(ms, n) && Apart(ms, n) && FitsAfter(ms[n], importers, names)
  {
    ApartOneMore(ms, n, importers, names);
  }

  /** `validateManifests` finds no fault exactly when the manifests are valid. */
  method ValidateManifests(ms: seq<Manifest>, max: nat) returns (errors: seq<ManifestFault>)
    ensures errors == [] <==> ManifestsValid(ms, max)
  {
    var total := CountDeclarations(ms);
    errors := if total > max then [TooMany] else [];
    var importers, names := {}, {};
    for i := 0 to |ms|
      invariant errors == [] <==> DeclarationCount(ms) <= max && EachValid(ms, i) && Apart(ms, i)
      invariant SeenSoFar(ms, i, importers, names)
    {
      SeenOneMore(ms, i, importers, names);
      ValidOneMore(ms, i, importers, names);
      var more;
      importers, names, more := ValidateManifest(ms[i], importers, names);
      errors := errors + more;
    }
  }

  predicate EachValid(ms: seq<Manifest>, n: nat)
    requires n <= |ms|
  {
    forall i :: 0 <= i < n ==> IsImporterPath(ms[i].importer) && DeclarationsValid(ms[i])
  }

  predicate Apart(ms: seq<Manifest>, n: nat)
    requires n <= |ms|
  {
    && (forall i, j :: 0 <= i < j < n ==> ms[i].importer != ms[j].importer)
    && forall i, j :: 0 <= i < j < n && ms[i].packageName.Named? ==> ms[i].packageName != ms[j].packageName
  }
}
