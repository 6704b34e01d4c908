/** The selective rollback history: what each invocation directory proves, and what blocks another apply. */
module RollbackHistory {
  import opened Text
  import Sorting
  import SortedKeys

  /** `selectors` is the text the source compares, `JSON.stringify(selectors)`. */
  datatype Selection = Selection(selectors: Str, groups: seq<Str>)

  datatype Attempt = Attempt(rollbackId: Str, sessionId: Str, contribution: Str, checkpoint: Str, selection: Selection, writtenAt: Str)

  datatype Receipt = Receipt(isApply: bool, rollbackId: Str, sessionId: Str, contribution: Str, checkpoint: Str,
                             selection: Selection, succeeded: bool)

  datatype MarkerFile = NoMarker | UnreadableMarker | MalformedMarker | Marker(attempt: Attempt)

  datatype ReceiptFile = NoReceipt | UnreadableReceipt | MalformedReceipt | Received(receipt: Receipt)

  /** One directory `rollbacks/<id>/`. */
  datatype Invocation = Invocation(marker: MarkerFile, receipt: ReceiptFile)

  type History = map<Str, Invocation>

  datatype ScannedInvocation =
    | NeverAuthorized(id: Str)
    | Unfinalized(id: Str, writtenAt: Str, checkpoint: Str)
    | Finalized(id: Str, writtenAt: Str, checkpoint: Str, succeeded: bool)

  datatype FaultKind = Unreadable | Inconsistent

  datatype Reading = Scanned(invocation: ScannedInvocation) | Fault(kind: FaultKind)

  datatype Blocker = Blocker(id: Str, writtenAt: Str, checkpoint: Str, unfinalized: bool)

  datatype Report = Report(invocations: seq<ScannedInvocation>, blocking: seq<Blocker>)

  /** `at` names the directory at fault, or is empty when `rollbacks/` itself could not be listed. */
  datatype Scan = Readable(report: Report) | Faulty(kind: FaultKind, at: Str)

  // ---------------------------------------------------------------- one invocation

  /** `selectionsEqual`. */
  method SelectionsEqual(a: Selection, b: Selection) returns (equal: bool)
    ensures equal <==> a == b
  {
    if |a.groups| != |b.groups| {
      return false;
    }
    var i := 0;
    while i < |a.groups|
      invariant i <= |a.groups| && a.groups[..i] == b.groups[..i]
    {
      if a.groups[i] != b.groups[i] {
        return false;
      }
      i := i + 1;
    }
    assert a.groups[..i] == a.groups && b.groups[..i] == b.groups;
    return a.selectors == b.selectors;
  }

  /** `bindingFault` finds nothing: marker, receipt, directory and session agree on everything they share. */
  predicate Binds(attempt: Attempt, receipt: Receipt, id: Str, session: Str) {
    && receipt.isApply
    && attempt.rollbackId == id && receipt.rollbackId == id
    && attempt.sessionId == session && receipt.sessionId == session
    && attempt.contribution == receipt.contribution
    && attempt.checkpoint == receipt.checkpoint
    && attempt.selection == receipt.selection
  }

  function ScanOne(dir: Invocation, id: Str, session: Str): Reading {
    if dir.marker.UnreadableMarker? || dir.receipt.UnreadableReceipt? then Fault(Unreadable)
    else
      match dir.marker
      case NoMarker => if dir.receipt.NoReceipt? then Scanned(NeverAuthorized(id)) else Fault(Inconsistent)
      case MalformedMarker => Fault(Unreadable)
      case UnreadableMarker => Fault(Unreadable)
      case Marker(attempt) =>
        if attempt.rollbackId != id || attempt.sessionId != session then Fault(Inconsistent)
        else
          match dir.receipt
          case NoReceipt => Scanned(Unfinalized(id, attempt.writtenAt, attempt.checkpoint))
          case UnreadableReceipt => Fault(Unreadable)
          case MalformedReceipt => Fault(Unreadable)
          case Received(receipt) =>
            if Binds(attempt, receipt, id, session)
            then Scanned(Finalized(id, attempt.writtenAt, attempt.checkpoint, receipt.succeeded))
            else Fault(Inconsistent)
  }

  /** The directory forbids another apply: its marker stands and no receipt that binds to it says it succeeded. */
  predicate Blocks(dir: Invocation, id: Str, session: Str) {
    match ScanOne(dir, id, session)
    case Scanned(Unfinalized(_, _, _)) => true
    case Scanned(Finalized(_, _, _, succeeded)) => !succeeded
    case _ => false
  }

  predicate Succeeded(dir: Invocation, id: Str, session: Str) {
    match ScanOne(dir, id, session)
    case Scanned(Finalized(_, _, _, succeeded)) => succeeded
    case _ => false
  }

  /** Readable and well named. */
  predicate Sound(dir: Invocation, id: Str, session: Str) { ValidName(id) && ScanOne(dir, id, session).Scanned? }

  /**
   * Fail closed. A directory counts as never authorized only when both artifacts are truly absent, and as finalized
   * only when marker and receipt bind, so a receipt taken from another invocation or session never finalizes this one.
   */
  lemma ScanFailsClosed(dir: Invocation, id: Str, session: Str)
    ensures ScanOne(dir, id, session) == Scanned(NeverAuthorized(id)) <==> dir == Invocation(NoMarker, NoReceipt)
    ensures (ScanOne(dir, id, session).Scanned? && ScanOne(dir, id, session).invocation.Finalized?)
            <==> dir.marker.Marker? && dir.receipt.Received? && Binds(dir.marker.attempt, dir.receipt.receipt, id, session)
    ensures Sound(dir, id, session) && dir.marker != NoMarker ==> Blocks(dir, id, session) || Succeeded(dir, id, session)
    ensures dir.receipt.Received? && (dir.receipt.receipt.rollbackId != id || dir.receipt.receipt.sessionId != session)
            ==> !Sound(dir, id, session)
  {
  }

  // ---------------------------------------------------------------- names

  /** The character class of a Crockford ULID. */
  predicate IsCrockford(c: Unit) {
    0x30 <= c <= 0x39 || 0x41 <= c <= 0x48 || c == 0x4a || c == 0x4b || c == 0x4d || c == 0x4e
    || 0x50 <= c <= 0x54 || 0x56 <= c <= 0x5a
  }

  /** `rb_` and 26 characters of a ULID. */
  predicate ValidName(name: Str) {
    |name| == 29 && name[0] == 0x72 && name[1] == 0x62 && name[2] == 0x5f && forall i :: 3 <= i < 29 ==> IsCrockford(name[i])
  }

  // ---------------------------------------------------------------- the whole history

  /** The first directory, in the order of `names`, that is ill named or cannot be read, as the scan reports it. */
  function ReadAll(dirs: History, names: seq<Str>, session: Str): (r: (seq<ScannedInvocation>, Scan))
    requires forall n :: n in names ==> n in dirs
  {
    if names == [] then ([], Readable(Report([], [])))
    else if !ValidName(names[0]) then ([], Faulty(Inconsistent, names[0]))
    else
      match ScanOne(dirs[names[0]], names[0], session)
      case Fault(kind) => ([], Faulty(kind, names[0]))
      case Scanned(invocation) =>
        var rest := ReadAll(dirs, names[1..], session);
        ([invocation] + rest.0, rest.1)
  }

  function BlockerOf(invocation: ScannedInvocation): seq<Blocker> {
    match invocation
    case NeverAuthorized(_) => []
    case Unfinalized(id, at, checkpoint) => [Blocker(id, at, checkpoint, true)]
    case Finalized(id, at, checkpoint, succeeded) => if succeeded then [] else [Blocker(id, at, checkpoint, false)]
  }

  function BlockersOf(invocations: seq<ScannedInvocation>): seq<Blocker> {
    if invocations == [] then [] else BlockerOf(invocations[0]) + BlockersOf(invocations[1..])
  }

  /** The persisted timestamp first, the id as the tie-break. */
  function CompareBlockers(a: Blocker, b: Blocker): int {
    if a.writtenAt == b.writtenAt then Cmp(a.id, b.id) else Cmp(a.writtenAt, b.writtenAt)
  }

  function Summarized(read: (seq<ScannedInvocation>, Scan)): Scan {
    if read.1.Faulty? then read.1 else Readable(Report(read.0, Sorting.Sort(CompareBlockers, BlockersOf(read.0))))
  }

  /** What a scan of these directories says. */
  function ScanHistory(dirs: History, session: Str): Scan {
    Summarized(ReadAll(dirs, SortedKeys.Ordered(dirs.Keys), session))
  }

  /** What `readdir` gave: nothing there, an error, or the directories in any order. */
  datatype Listing = Absent | Unlistable | Listed(names: seq<Str>, dirs: History)

  lemma ReadAllFrom(dirs: History, names: seq<Str>, session: Str, i: nat, done: seq<ScannedInvocation>)
    requires i < |names| && forall n :: n in names ==> n in dirs
    ensures var all, rest := ReadAll(dirs, names[i..], session), ReadAll(dirs, names[i + 1..], session);
            if !ValidName(names[i]) then all == ([], Faulty(Inconsistent, names[i]))
            else match ScanOne(dirs[names[i]], names[i], session)
                 case Fault(kind) => all == ([], Faulty(kind, names[i]))
                 case Scanned(invocation) => all.1 == rest.1 && done + all.0 == done + [invocation] + rest.0
  {
    assert names[i..][1..] == names[i + 1..];
  }

  lemma BlockersSnoc(invocations: seq<ScannedInvocation>, last: ScannedInvocation)
    ensures BlockersOf(invocations + [last]) == BlockersOf(invocations) + BlockerOf(last)
  {
    if invocations == [] {
      assert invocations + [last] == [last];
    } else {
      assert (invocations + [last])[1..] == invocations[1..] + [last];
      BlockersSnoc(invocations[1..], last);
    }
  }

  method ReadInvocations(dirs: History, names: seq<Str>, session: Str) returns (invocations: seq<ScannedInvocation>, fault: Scan)
    requires forall n :: n in names ==> n in dirs
    ensures fault == ReadAll(dirs, names, session).1
    ensures fault.Readable? ==> invocations == ReadAll(dirs, names, session).0
  {
    invocations := [];
    assert names[0..] == names;
    for i := 0 to |names|
      invariant ReadAll(dirs, names[i..], session).1 == ReadAll(dirs, names, session).1
      invariant invocations + ReadAll(dirs, names[i..], session).0 == ReadAll(dirs, names, session).0
    {
      ReadAllFrom(dirs, names, session, i, invocations);
      if !ValidName(names[i]) {
        return invocations, Faulty(Inconsistent, names[i]);
      }
      var reading := ScanOne(dirs[names[i]], names[i], session);
      if reading.Fault? {
        return invocations, Faulty(reading.kind, names[i]);
      }
      invocations := invocations + [reading.invocation];
    }
    fault := Readable(Report([], []));
  }

  method CollectBlockers(invocations: seq<ScannedInvocation>) returns (blocking: seq<Blocker>)
    ensures blocking == BlockersOf(invocations)
  {
    blocking := [];
    for i := 0 to |invocations|
      invariant blocking == BlockersOf(invocations[..i])
    {
      var invocation := invocations[i];
      assert invocations[..i + 1] == invocations[..i] + [invocation];
      BlockersSnoc(invocations[..i], invocation);
      if invocation.Unfinalized? {
        blocking := blocking + [Blocker(invocation.id, invocation.writtenAt, invocation.checkpoint, true)];
      } else if invocation.Finalized? && !invocation.succeeded {
        blocking := blocking + [Blocker(invocation.id, invocation.writtenAt, invocation.checkpoint, false)];
      }
    }
    assert invocations[..|invocations|] == invocations;
  }

  /** The order in which `readdir` lists the directories does not matter. */
  method ScanSelectiveRollbackHistory(listing: Listing, session: Str) returns (scan: Scan)
    requires listing.Listed? ==> SortedKeys.Distinct(listing.names) && forall n :: n in listing.names <==> n in listing.dirs.Keys
    ensures match listing
            case Absent => scan == Readable(Report([], []))
            case Unlistable => scan == Faulty(Unreadable, [])
            case Listed(_, dirs) => scan == ScanHistory(dirs, session)
  {
    if listing.Absent? {
      return Readable(Report([], []));
    }
    if listing.Unlistable? {
      return Faulty(Unreadable, []);
    }
    var names := Sorting.Sort(Cmp, listing.names);
    SortedKeys.SortIgnoresOrder(listing.names, listing.dirs.Keys);
    var invocations, fault := ReadInvocations(listing.dirs, names, session);
    if fault.Faulty? {
      return fault;
    }
    var blocking := CollectBlockers(invocations);
    return Readable(Report(invocations, Sorting.Sort(CompareBlockers, blocking)));
  }

  // ---------------------------------------------------------------- what a scan means

  lemma {:induction false} ReadAllMeaning(dirs: History, names: seq<Str>, session: Str)
    requires forall n :: n in names ==> n in dirs
    ensures ReadAll(dirs, names, session).1.Readable? <==> forall n :: n in names ==> Sound(dirs[n], n, session)
    ensures ReadAll(dirs, names, session).1.Readable? ==>
              && |ReadAll(dirs, names, session).0| == |names|
              && forall i :: 0 <= i < |names| ==> ScanOne(dirs[names[i]], names[i], session) == Scanned(ReadAll(dirs, names, session).0[i])
  {
    if names != [] {
      ReadAllMeaning(dirs, names[1..], session);
      assert names[0] in names && names == [names[0]] + names[1..];
    }
  }

  lemma CompareBlockersPreorder()
    ensures Sorting.TotalPreorder(CompareBlockers)
  {
    forall a, b ensures CompareBlockers(a, b) <= 0 || CompareBlockers(b, a) <= 0 {
      CmpOrder(a.writtenAt, b.writtenAt);
      CmpOrder(a.id, b.id);
    }
    forall a, b, c | CompareBlockers(a, b) <= 0 && CompareBlockers(b, c) <= 0 ensures CompareBlockers(a, c) <= 0 {
      CompareBlockersTransitive(a, b, c);
    }
  }

  lemma CompareBlockersTransitive(a: Blocker, b: Blocker, c: Blocker)
    requires CompareBlockers(a, b) <= 0 && CompareBlockers(b, c) <= 0
    ensures CompareBlockers(a, c) <= 0
  {
    CmpOrder(a.writtenAt, b.writtenAt);
    CmpOrder(b.writtenAt, c.writtenAt);
    CmpOrder(a.writtenAt, c.writtenAt);
    if a.writtenAt == b.writtenAt == c.writtenAt {
      CmpTransitive(a.id, b.id, c.id);
    } else {
      CmpTransitive(a.writtenAt, b.writtenAt, c.writtenAt);
    }
  }

  /** A history is readable exactly when every directory is sound, and its report then has each of them, in id order. */
  lemma ScanReadable(dirs: History, session: Str)
    ensures ScanHistory(dirs, session).Readable? <==> forall id :: id in dirs ==> Sound(dirs[id], id, session)
    ensures ScanHistory(dirs, session).Readable? ==>
              var names, read := SortedKeys.Ordered(dirs.Keys), ScanHistory(dirs, session).report.invocations;
              |read| == |names| && forall i :: 0 <= i < |names| ==> ScanOne(dirs[names[i]], names[i], session) == Scanned(read[i])
  {
    ReadAllMeaning(dirs, SortedKeys.Ordered(dirs.Keys), session);
  }

  ghost predicate Names(blocking: seq<Blocker>, id: Str) { exists b :: b in blocking && b.id == id }

  ghost predicate ReadFrom(dirs: History, names: seq<Str>, session: Str, read: seq<ScannedInvocation>) {
    && |read| == |names| && (forall n :: n in names ==> n in dirs)
    && forall i :: 0 <= i < |names| ==> ScanOne(dirs[names[i]], names[i], session) == Scanned(read[i])
  }

  lemma NamesJoin(a: seq<Blocker>, b: seq<Blocker>, id: Str)
    ensures Names(a + b, id) <==> Names(a, id) || Names(b, id)
  {
    if Names(a, id) {
      var x :| x in a && x.id == id;
      assert x in a + b;
    }
    if Names(b, id) {
      var x :| x in b && x.id == id;
      assert x in a + b;
    }
  }

  lemma OneBlockerNamed(dir: Invocation, name: Str, session: Str, read: ScannedInvocation, id: Str)
    requires ScanOne(dir, name, session) == Scanned(read)
    ensures Names(BlockerOf(read), id) <==> name == id && Blocks(dir, name, session)
  {
    if Blocks(dir, name, session) {
      var b := BlockerOf(read)[0];
      assert b in BlockerOf(read) && b.id == name;
    }
  }

  lemma ReadFromRest(dirs: History, names: seq<Str>, session: Str, read: seq<ScannedInvocation>)
    requires names != [] && ReadFrom(dirs, names, session, read)
    ensures ReadFrom(dirs, names[1..], session, read[1..])
    ensures names[0] in dirs && ScanOne(dirs[names[0]], names[0], session) == Scanned(read[0])
  {
    assert names[0] in names;
  }

  lemma InFirstOrRest(names: seq<Str>, id: Str)
    requires names != []
    ensures id in names <==> id == names[0] || id in names[1..]
  {
    assert names == [names[0]] + names[1..];
  }

  lemma {:induction false} BlockersNamed(dirs: History, names: seq<Str>, session: Str, read: seq<ScannedInvocation>, id: Str)
    requires ReadFrom(dirs, names, session, read)
    ensures Names(BlockersOf(read), id) <==> id in names && id in dirs && Blocks(dirs[id], id, session)
  {
    if names != [] {
      ReadFromRest(dirs, names, session, read);
      BlockersNamed(dirs, names[1..], session, read[1..], id);
      OneBlockerNamed(dirs[names[0]], names[0], session, read[0], id);
      NamesJoin(BlockerOf(read[0]), BlockersOf(read[1..]), id);
      InFirstOrRest(names, id);
    }
  }

  /** The report lists exactly the blocking directories. */
  lemma BlockingExactly(dirs: History, session: Str, id: Str)
    requires ScanHistory(dirs, session).Readable?
    ensures Names(ScanHistory(dirs, session).report.blocking, id) <==> id in dirs && Blocks(dirs[id], id, session)
  {
    var names, report := SortedKeys.Ordered(dirs.Keys), ScanHistory(dirs, session).report;
    ReadAllMeaning(dirs, names, session);
    BlockersNamed(dirs, names, session, report.invocations, id);
    SameNames(BlockersOf(report.invocations), id);
  }

  lemma SameNames(found: seq<Blocker>, id: Str)
    ensures Names(Sorting.Sort(CompareBlockers, found), id) <==> Names(found, id)
  {
    Sorting.SortMembers(CompareBlockers, found);
  }

  /** `primaryBlocker`: none of the blocking directories was marked before it. */
  lemma PrimaryIsEarliest(dirs: History, session: Str, b: Blocker)
    requires ScanHistory(dirs, session).Readable? && b in ScanHistory(dirs, session).report.blocking
    ensures var first := ScanHistory(dirs, session).report.blocking[0];
            Cmp(first.writtenAt, b.writtenAt) <= 0 && (first.writtenAt == b.writtenAt ==> Cmp(first.id, b.id) <= 0)
  {
    var found := BlockersOf(ScanHistory(dirs, session).report.invocations);
    CompareBlockersPreorder();
    Sorting.SortSorted(CompareBlockers, found);
    var sorted := Sorting.Sort(CompareBlockers, found);
    var i :| 0 <= i < |sorted| && sorted[i] == b;
    CmpOrder(b.writtenAt, b.writtenAt);
    CmpOrder(b.id, b.id);
  }

  /** Nothing blocks exactly when the list is empty. */
  lemma NothingBlocks(dirs: History, session: Str)
    requires ScanHistory(dirs, session).Readable?
    ensures ScanHistory(dirs, session).report.blocking == [] <==> forall id :: id in dirs ==> !Blocks(dirs[id], id, session)
  {
    var blocking := ScanHistory(dirs, session).report.blocking;
    forall id | id in dirs && Blocks(dirs[id], id, session) ensures blocking != [] {
      BlockingExactly(dirs, session, id);
    }
    if blocking != [] {
      BlockingExactly(dirs, session, blocking[0].id);
      assert blocking[0] in blocking;
    }
  }

  // ---------------------------------------------------------------- after a publication that threw

  datatype Binding = Binding(sessionId: Str, contribution: Str, checkpoint: Str, selection: Selection)

  datatype Inspection = Published(attempt: Attempt) | NotPublished | Indeterminate

  /** The marker describes exactly the attempt that was being published. */
  predicate Describes(attempt: Attempt, id: Str, binding: Binding) {
    attempt.rollbackId == id && attempt.sessionId == binding.sessionId && attempt.contribution == binding.contribution
    && attempt.checkpoint == binding.checkpoint && attempt.selection == binding.selection
  }

  function InspectPublication(dir: Invocation, id: Str, binding: Binding): Inspection {
    if dir.marker.UnreadableMarker? || dir.receipt.UnreadableReceipt? then Indeterminate
    else if dir.receipt != NoReceipt then Indeterminate
    else
      match dir.marker
      case NoMarker => NotPublished
      case Marker(attempt) => if Describes(attempt, id, binding) then Published(attempt) else Indeterminate
      case _ => Indeterminate
  }

  /** The inspection and the scan never disagree: what one calls published blocks, and what it calls absent was never authorized. */
  lemma InspectionAgreesWithScan(dir: Invocation, id: Str, binding: Binding)
    ensures InspectPublication(dir, id, binding).NotPublished? <==> ScanOne(dir, id, binding.sessionId) == Scanned(NeverAuthorized(id))
    ensures InspectPublication(dir, id, binding).Published? <==>
              && ScanOne(dir, id, binding.sessionId).Scanned? && ScanOne(dir, id, binding.sessionId).invocation.Unfinalized?
              && Describes(dir.marker.attempt, id, binding)
    ensures InspectPublication(dir, id, binding).Published? ==> Blocks(dir, id, binding.sessionId)
  {
  }
}
