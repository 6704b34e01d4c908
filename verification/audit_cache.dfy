/** The metadata cache of the license audit: which entry speaks for a package identity, and when verified facts disagree. */
module AuditCache {
  import opened Text
  import JsonGrammar
  import JsonPrinter
  import SortedKeys

  type Json = JsonGrammar.Json

  datatype Integrity = NoIntegrity | Pinned(value: Str)

  datatype SourceKind = Registry | TarballUrl | Git | Directory

  /** A `packages:` identity of the lockfile. */
  datatype Identity = Identity(packageKey: Str, name: Str, version: Str, integrity: Integrity, kind: SourceKind)

  predicate IsRegistryKind(id: Identity) { id.kind.Registry? || id.kind.TarballUrl? }

  /** The tuple the source encodes as JSON. */
  datatype RegistryKey = RegistryKey(name: Str, version: Str, integrity: Integrity)

  function KeyOf(id: Identity): RegistryKey { RegistryKey(id.name, id.version, id.integrity) }

  datatype Spdx = NoSpdx | Expression(text: Str)

  /** `rawLicense` is a value in memory: each number in it is the text that `JSON.stringify` prints for its double. */
  datatype Facts = Facts(rawLicensePresent: bool, rawLicense: Json, spdx: Spdx, legalFiles: set<Str>)

  datatype Entry =
    | Collected(name: Str, version: Str, integrity: Str, tarballIntegrity: Str, facts: Facts)
    | FailedRegistry(name: Str, version: Str, pinned: Integrity)
    | FailedUnsupported(packageKey: Str)

  function EntryKey(e: Entry): RegistryKey
    requires !e.FailedUnsupported?
  {
    match e
    case Collected(n, v, i, _, _) => RegistryKey(n, v, Pinned(i))
    case FailedRegistry(n, v, i) => RegistryKey(n, v, i)
  }

  // ---------------------------------------------------------------- indexing

  /** What a collected entry was pinned to, or a failed one, if anything. */
  predicate PinnedTo(e: Entry, integrity: Integrity) {
    (e.Collected? && integrity == Pinned(e.integrity)) || (e.FailedRegistry? && integrity == e.pinned)
  }

  /** Two entries speak for the same identity. */
  ghost predicate SameIdentity(a: Entry, b: Entry) {
    if a.FailedUnsupported? || b.FailedUnsupported? then a.FailedUnsupported? && b.FailedUnsupported? && a.packageKey == b.packageKey
    else a.name == b.name && a.version == b.version && forall integrity :: PinnedTo(a, integrity) <==> PinnedTo(b, integrity)
  }

  lemma KeyExactly(a: Entry, b: Entry)
    requires !a.FailedUnsupported? && !b.FailedUnsupported?
    ensures EntryKey(a) == EntryKey(b) <==> SameIdentity(a, b)
  {
    assert PinnedTo(a, EntryKey(a).integrity) && PinnedTo(b, EntryKey(b).integrity);
  }

  ghost predicate NoDuplicates(entries: seq<Entry>) {
    forall i, j :: 0 <= i < j < |entries| ==> !SameIdentity(entries[i], entries[j])
  }

  /** Every entry is found under its identity, and nothing else is. */
  ghost predicate Indexes(entries: seq<Entry>, registry: map<RegistryKey, Entry>, unsupported: map<Str, Entry>) {
    && (forall k :: k in registry ==> registry[k] in entries && !registry[k].FailedUnsupported? && EntryKey(registry[k]) == k)
    && (forall k :: k in unsupported ==> unsupported[k] in entries && unsupported[k].FailedUnsupported? && unsupported[k].packageKey == k)
    && (forall e :: e in entries ==> if e.FailedUnsupported? then e.packageKey in unsupported else EntryKey(e) in registry)
  }

  method IndexCache(entries: seq<Entry>) returns (duplicates: bool, registry: map<RegistryKey, Entry>, unsupported: map<Str, Entry>)
    ensures duplicates <==> !NoDuplicates(entries)
    ensures Indexes(entries, registry, unsupported)
  {
    duplicates, registry, unsupported := false, map[], map[];
    for i := 0 to |entries|
      invariant duplicates <==> !NoDuplicates(entries[..i])
      invariant Indexes(entries[..i], registry, unsupported)
    {
      var e := entries[i];
      assert entries[..i + 1] == entries[..i] + [e];
      OneMoreEntry(entries[..i], e, registry, unsupported);
      if e.FailedUnsupported? {
        if e.packageKey in unsupported {
          duplicates := true;
        } else {
          unsupported := unsupported[e.packageKey := e];
        }
      } else if EntryKey(e) in registry {
        duplicates := true;
      } else {
        registry := registry[EntryKey(e) := e];
      }
    }
    assert entries[..|entries|] == entries;
  }

  predicate Taken(e: Entry, registry: map<RegistryKey, Entry>, unsupported: map<Str, Entry>) {
    if e.FailedUnsupported? then e.packageKey in unsupported else EntryKey(e) in registry
  }

  lemma OneMoreEntry(before: seq<Entry>, e: Entry, registry: map<RegistryKey, Entry>, unsupported: map<Str, Entry>)
    requires Indexes(before, registry, unsupported)
    ensures NoDuplicates(before + [e]) <==> NoDuplicates(before) && !Taken(e, registry, unsupported)
  {
    var after := before + [e];
    forall other | other in before && !other.FailedUnsupported? && !e.FailedUnsupported?
      ensures EntryKey(other) == EntryKey(e) <==> SameIdentity(other, e)
    {
      KeyExactly(other, e);
    }
    if Taken(e, registry, unsupported) {
      var same := if e.FailedUnsupported? then unsupported[e.packageKey] else registry[EntryKey(e)];
      var i :| 0 <= i < |before| && before[i] == same;
      assert after[i] == same && after[|before|] == e && SameIdentity(same, e);
    }
    if NoDuplicates(after) {
      forall i, j | 0 <= i < j < |before| ensures !SameIdentity(before[i], before[j]) {
        assert after[i] == before[i] && after[j] == before[j];
      }
    }
  }

  // ---------------------------------------------------------------- entries against the lockfile

  type Packages = map<Str, Identity>

  /** The entry is for a current lockfile identity of its own kind. */
  ghost predicate Referenced(e: Entry, packages: Packages) {
    if e.FailedUnsupported? then e.packageKey in packages && (packages[e.packageKey].kind == Git || packages[e.packageKey].kind == Directory)
    else exists p :: p in packages && SpeaksFor(e, packages[p])
  }

  predicate SpeaksFor(e: Entry, id: Identity) {
    && (id.kind == Registry || id.kind == TarballUrl)
    && !e.FailedUnsupported? && e.name == id.name && e.version == id.version && PinnedTo(e, id.integrity)
  }

  ghost predicate AllReferenced(entries: seq<Entry>, packages: Packages) { forall e :: e in entries ==> Referenced(e, packages) }

  method RegistryKeys(packages: Packages) returns (keys: set<RegistryKey>)
    ensures forall k :: k in keys <==> exists p :: p in packages && IsRegistryKind(packages[p]) && KeyOf(packages[p]) == k
  {
    keys := {};
    var rest := packages.Keys;
    while rest != {}
      invariant rest <= packages.Keys
      invariant forall k :: k in keys <==> exists p :: p in packages && p !in rest && IsRegistryKind(packages[p]) && KeyOf(packages[p]) == k
    {
      var p :| p in rest;
      if IsRegistryKind(packages[p]) {
        keys := keys + {KeyOf(packages[p])};
      }
      rest := rest - {p};
    }
  }

  method CheckReferences(entries: seq<Entry>, packages: Packages) returns (ok: bool)
    ensures ok <==> AllReferenced(entries, packages)
  {
    var keys := RegistryKeys(packages);
    ok := true;
    for i := 0 to |entries|
      invariant ok <==> AllReferenced(entries[..i], packages)
    {
      var e := entries[i];
      assert entries[..i + 1] == entries[..i] + [e];
      assert AllReferenced(entries[..i + 1], packages) <==> AllReferenced(entries[..i], packages) && Referenced(e, packages);
      if e.FailedUnsupported? {
        if e.packageKey !in packages || IsRegistryKind(packages[e.packageKey]) {
          ok := false;
        }
      } else if EntryKey(e) !in keys {
        ok := false;
      }
    }
    assert entries[..|entries|] == entries;
  }

  // ---------------------------------------------------------------- variants

  datatype Disposition = Allowed | AllowedWithObligations | ReviewRequired | Disallowed

  datatype PolicyEntry = PolicyEntry(disposition: Disposition, obligations: set<Str>)

  type Policy = map<Str, PolicyEntry>

  datatype Variant = Variant(packageKey: Str, integrity: Str, facts: Facts, disposition: Disposition, obligations: set<Str>)

  datatype Coverage = Covered(variant: Variant) | Uncovered

  /** What the policy says of an expression; unknown and missing expressions want review. */
  function Judge(policy: Policy, spdx: Spdx): PolicyEntry {
    if spdx.Expression? && spdx.text in policy then policy[spdx.text] else PolicyEntry(ReviewRequired, {})
  }

  /** The verified facts for a package identity: a collected entry whose tarball had the integrity the lockfile pins. */
  function Cover(id: Identity, registry: map<RegistryKey, Entry>, policy: Policy): Coverage {
    if !IsRegistryKind(id) || KeyOf(id) !in registry then Uncovered
    else
      var e := registry[KeyOf(id)];
      if !e.Collected? || id.integrity.NoIntegrity? || e.tarballIntegrity != id.integrity.value then Uncovered
      else
        var judged := Judge(policy, e.facts.spdx);
        Covered(Variant(id.packageKey, id.integrity.value, e.facts, judged.disposition, judged.obligations))
  }

  /** A listed expression has the disposition and the obligations the policy gives it, anything else wants review without obligations. */
  predicate AsListed(policy: Policy, v: Variant) {
    && (v.facts.spdx.NoSpdx? || v.facts.spdx.text !in policy.Keys ==> v.disposition == ReviewRequired && v.obligations == {})
    && (forall text :: v.facts.spdx == Expression(text) && text in policy.Keys ==>
                         v.disposition == policy[text].disposition && v.obligations == policy[text].obligations)
  }

  /** The cache has, for this identity, exactly one collected and verified entry, and `v` carries its facts. */
  ghost predicate Verified(id: Identity, entries: seq<Entry>, policy: Policy, v: Variant) {
    && (id.kind == Registry || id.kind == TarballUrl) && v.packageKey == id.packageKey && id.integrity == Pinned(v.integrity)
    && Collected(id.name, id.version, v.integrity, v.integrity, v.facts) in entries && AsListed(policy, v)
  }

  /** An identity is covered exactly when the cache verifies it, and then by those facts. */
  lemma CoverExactly(id: Identity, entries: seq<Entry>, registry: map<RegistryKey, Entry>, unsupported: map<Str, Entry>, policy: Policy, v: Variant)
    requires NoDuplicates(entries) && Indexes(entries, registry, unsupported)
    ensures Cover(id, registry, policy) == Covered(v) <==> Verified(id, entries, policy, v)
  {
    if Verified(id, entries, policy, v) {
      var e := Collected(id.name, id.version, v.integrity, v.integrity, v.facts);
      assert EntryKey(e) == KeyOf(id) && KeyOf(id) in registry;
      OneEntryEach(entries, e, registry[KeyOf(id)]);
    }
  }

  lemma OneEntryEach(entries: seq<Entry>, a: Entry, b: Entry)
    requires NoDuplicates(entries) && a in entries && b in entries && SameIdentity(a, b)
    ensures a == b
  {
    var i :| 0 <= i < |entries| && entries[i] == a;
    var j :| 0 <= j < |entries| && entries[j] == b;
    assert SameIdentity(entries[i], entries[j]) && SameIdentity(entries[j], entries[i]);
  }

  // ---------------------------------------------------------------- conflicts

  datatype Reason =
    | IntegrityReason | PresenceReason | RawLicenseReason | SpdxReason | LegalFilesReason | DispositionReason | ObligationsReason

  /** `new Set(values).size > 1`. */
  predicate Distinct<T(==)>(values: seq<T>) { |set x | x in values| > 1 }

  /** The license values that were declared, as canonical JSON. */
  function RawTexts(vs: seq<Variant>): (r: seq<Str>)
    ensures forall t :: t in r <==> exists v :: v in vs && v.facts.rawLicensePresent && JsonPrinter.Canonical(v.facts.rawLicense) == t
  {
    if vs == [] then []
    else
      assert vs == [vs[0]] + vs[1..];
      (if vs[0].facts.rawLicensePresent then [JsonPrinter.Canonical(vs[0].facts.rawLicense)] else []) + RawTexts(vs[1..])
  }

  function Integrities(vs: seq<Variant>): seq<Str> { seq(|vs|, i requires 0 <= i < |vs| => vs[i].integrity) }

  function Presences(vs: seq<Variant>): seq<bool> { seq(|vs|, i requires 0 <= i < |vs| => vs[i].facts.rawLicensePresent) }

  function Expressions(vs: seq<Variant>): seq<Spdx> { seq(|vs|, i requires 0 <= i < |vs| => vs[i].facts.spdx) }

  function LegalFiles(vs: seq<Variant>): seq<set<Str>> { seq(|vs|, i requires 0 <= i < |vs| => vs[i].facts.legalFiles) }

  function Dispositions(vs: seq<Variant>): seq<Disposition> { seq(|vs|, i requires 0 <= i < |vs| => vs[i].disposition) }

  function Obligations(vs: seq<Variant>): seq<set<Str>> { seq(|vs|, i requires 0 <= i < |vs| => vs[i].obligations) }

  function DetectConflictReasons(vs: seq<Variant>): seq<Reason> {
    (if Distinct(Integrities(vs)) then [IntegrityReason] else [])
    + (if Distinct(Presences(vs)) then [PresenceReason] else [])
    + (if Distinct(RawTexts(vs)) then [RawLicenseReason] else [])
    + (if Distinct(Expressions(vs)) then [SpdxReason] else [])
    + (if Distinct(LegalFiles(vs)) then [LegalFilesReason] else [])
    + (if Distinct(Dispositions(vs)) then [DispositionReason] else [])
    + (if Distinct(Obligations(vs)) then [ObligationsReason] else [])
  }

  /** Two variants agree on every fact; a license value counts only where one was declared. */
  predicate Agree(a: Variant, b: Variant) {
    && a.integrity == b.integrity && a.facts.rawLicensePresent == b.facts.rawLicensePresent
    && (a.facts.rawLicensePresent ==> a.facts.rawLicense == b.facts.rawLicense)
    && a.facts.spdx == b.facts.spdx && a.facts.legalFiles == b.facts.legalFiles
    && a.disposition == b.disposition && a.obligations == b.obligations
  }

  lemma DistinctExactly<T>(values: seq<T>)
    ensures !Distinct(values) <==> forall i, j :: 0 <= i < |values| && 0 <= j < |values| ==> values[i] == values[j]
  {
    var all := set x | x in values;
    if i, j :| 0 <= i < |values| && 0 <= j < |values| && values[i] != values[j] {
      SortedKeys.SubsetSize({values[i], values[j]}, all);
      assert |{values[i], values[j]}| == 2;
    }
    if |all| > 1 {
      TwoElements(all);
      var x, y :| x in all && y in all && x != y;
      var i :| 0 <= i < |values| && values[i] == x;
      var j :| 0 <= j < |values| && values[j] == y;
    }
  }

  lemma TwoElements<T>(all: set<T>)
    requires |all| > 1
    ensures exists x, y :: x in all && y in all && x != y
  {
    var x :| x in all;
    assert |all - {x}| > 0;
    var y :| y in all - {x};
  }

  ghost predicate AllAgree(vs: seq<Variant>) { forall i, j :: 0 <= i < |vs| && 0 <= j < |vs| ==> Agree(vs[i], vs[j]) }

  /** Declared license values are JSON with proper number tokens. */
  ghost predicate ProperLicenses(vs: seq<Variant>) {
    forall i :: 0 <= i < |vs| ==> JsonPrinter.Numeric(vs[i].facts.rawLicense)
  }

  ghost predicate LicensesAgree(vs: seq<Variant>) {
    forall i, j :: 0 <= i < |vs| && 0 <= j < |vs| && vs[i].facts.rawLicensePresent && vs[j].facts.rawLicensePresent
                   ==> vs[i].facts.rawLicense == vs[j].facts.rawLicense
  }

  /** Comparing canonical texts compares the values: the printer is injective. */
  lemma TextsAgree(vs: seq<Variant>)
    requires ProperLicenses(vs)
    ensures !Distinct(RawTexts(vs)) <==> LicensesAgree(vs)
  {
    var texts := RawTexts(vs);
    DistinctExactly(texts);
    forall i, j | 0 <= i < |vs| && 0 <= j < |vs| && vs[i].facts.rawLicensePresent && vs[j].facts.rawLicensePresent
      ensures !Distinct(texts) ==> vs[i].facts.rawLicense == vs[j].facts.rawLicense
    {
      var a, b := JsonPrinter.Canonical(vs[i].facts.rawLicense), JsonPrinter.Canonical(vs[j].facts.rawLicense);
      assert vs[i] in vs && vs[j] in vs;
      assert a in texts && b in texts;
      JsonPrinter.CanonicalInjective(vs[i].facts.rawLicense, vs[j].facts.rawLicense);
    }
    forall i, j | 0 <= i < |texts| && 0 <= j < |texts| && LicensesAgree(vs) ensures texts[i] == texts[j] {
      assert texts[i] in texts && texts[j] in texts;
      var v :| v in vs && v.facts.rawLicensePresent && JsonPrinter.Canonical(v.facts.rawLicense) == texts[i];
      var w :| w in vs && w.facts.rawLicensePresent && JsonPrinter.Canonical(w.facts.rawLicense) == texts[j];
    }
  }

  ghost predicate NoReason(vs: seq<Variant>) {
    && !Distinct(Integrities(vs)) && !Distinct(Presences(vs)) && !Distinct(RawTexts(vs)) && !Distinct(Expressions(vs))
    && !Distinct(LegalFiles(vs)) && !Distinct(Dispositions(vs)) && !Distinct(Obligations(vs))
  }

  lemma ReasonsListed(vs: seq<Variant>)
    ensures DetectConflictReasons(vs) == [] <==> NoReason(vs)
  {
  }

  lemma NoReasonAgrees(vs: seq<Variant>, i: nat, j: nat)
    requires NoReason(vs) && LicensesAgree(vs) && i < |vs| && j < |vs|
    ensures Agree(vs[i], vs[j])
  {
    DistinctExactly(Integrities(vs));
    DistinctExactly(Presences(vs));
    DistinctExactly(Expressions(vs));
    DistinctExactly(LegalFiles(vs));
    DistinctExactly(Dispositions(vs));
    DistinctExactly(Obligations(vs));
    assert Integrities(vs)[i] == Integrities(vs)[j] && Presences(vs)[i] == Presences(vs)[j];
    assert Expressions(vs)[i] == Expressions(vs)[j] && LegalFiles(vs)[i] == LegalFiles(vs)[j];
    assert Dispositions(vs)[i] == Dispositions(vs)[j] && Obligations(vs)[i] == Obligations(vs)[j];
  }

  lemma AgreementGivesNoReason(vs: seq<Variant>)
    requires AllAgree(vs) && ProperLicenses(vs)
    ensures NoReason(vs)
  {
    DistinctExactly(Integrities(vs));
    DistinctExactly(Presences(vs));
    DistinctExactly(Expressions(vs));
    DistinctExactly(LegalFiles(vs));
    DistinctExactly(Dispositions(vs));
    DistinctExactly(Obligations(vs));
    forall i, j | 0 <= i < |vs| && 0 <= j < |vs| ensures Agree(vs[i], vs[j]) {
    }
    TextsAgree(vs);
  }

  /** No reason is reported exactly when all variants agree. */
  lemma ConflictsExactly(vs: seq<Variant>)
    requires ProperLicenses(vs)
    ensures DetectConflictReasons(vs) == [] <==> AllAgree(vs)
  {
    ReasonsListed(vs);
    TextsAgree(vs);
    if NoReason(vs) {
      forall i, j | 0 <= i < |vs| && 0 <= j < |vs| ensures Agree(vs[i], vs[j]) {
        NoReasonAgrees(vs, i, j);
      }
    } else if AllAgree(vs) {
      AgreementGivesNoReason(vs);
    }
  }
}
