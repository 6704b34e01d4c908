/** What a scan of the history reports, against the marker and receipt files on disk. */
module RollbackReport {
  import opened Text
  import opened RollbackHistory
  import Sorting
  import SortedKeys

  // ---------------------------------------------------------------- one directory

  /** Marker and receipt are those of one apply, in the directory and the session that they name. */
  predicate SameApply(a: Attempt, r: Receipt, id: Str, session: Str) {
    && r.isApply && r.rollbackId == id && r.sessionId == session
    && r.contribution == a.contribution && r.checkpoint == a.checkpoint && r.selection == a.selection
  }

  predicate MarkerOfPlace(dir: Invocation, id: Str, session: Str) {
    dir.marker.Marker? && dir.marker.attempt.rollbackId == id && dir.marker.attempt.sessionId == session
  }

  /**
   * A directory is sound exactly when it is well named and holds nothing, or a marker of its own place and session with no
   * receipt or with the receipt of the same apply.
   */
  lemma SoundExactly(dir: Invocation, id: Str, session: Str)
    ensures Sound(dir, id, session) <==>
              && ValidName(id)
              && (|| (dir.marker.NoMarker? && dir.receipt.NoReceipt?)
                  || (MarkerOfPlace(dir, id, session) && dir.receipt.NoReceipt?)
                  || (MarkerOfPlace(dir, id, session) && dir.receipt.Received? && SameApply(dir.marker.attempt, dir.receipt.receipt, id, session)))
  {
  }

  /** It blocks exactly when it is an apply of its place and session that has not been recorded as succeeded. */
  lemma BlocksExactly(dir: Invocation, id: Str, session: Str)
    ensures Blocks(dir, id, session) <==>
              && MarkerOfPlace(dir, id, session)
              && (|| dir.receipt.NoReceipt?
                  || (dir.receipt.Received? && SameApply(dir.marker.attempt, dir.receipt.receipt, id, session) && !dir.receipt.receipt.succeeded))
    ensures Succeeded(dir, id, session) <==>
              && MarkerOfPlace(dir, id, session) && dir.receipt.Received?
              && SameApply(dir.marker.attempt, dir.receipt.receipt, id, session) && dir.receipt.receipt.succeeded
  {
  }

  /** A file that could not be read, or whose content could not. */
  predicate Illegible(dir: Invocation) {
    || dir.marker.UnreadableMarker? || dir.receipt.UnreadableReceipt? || dir.marker.MalformedMarker?
    || (dir.marker.Marker? && dir.receipt.MalformedReceipt?)
  }

  /** A fault is called unreadable when a file is, unless the marker is another place's, which is found out first. */
  lemma FaultKindExactly(dir: Invocation, id: Str, session: Str)
    requires ScanOne(dir, id, session).Fault?
    ensures ScanOne(dir, id, session).kind.Unreadable? <==>
              Illegible(dir) && (dir.receipt.MalformedReceipt? && dir.marker.Marker? ==> MarkerOfPlace(dir, id, session))
  {
  }

  /** A marker counts as published exactly when it says what was being published and no receipt is there. */
  lemma PublishedExactly(dir: Invocation, id: Str, binding: Binding)
    ensures InspectPublication(dir, id, binding).Published? <==>
              && MarkerOfPlace(dir, id, binding.sessionId) && dir.receipt.NoReceipt?
              && dir.marker.attempt.contribution == binding.contribution && dir.marker.attempt.checkpoint == binding.checkpoint
              && dir.marker.attempt.selection == binding.selection
    ensures InspectPublication(dir, id, binding).Published? ==> InspectPublication(dir, id, binding).attempt == dir.marker.attempt
    ensures InspectPublication(dir, id, binding).NotPublished? <==> dir.marker.NoMarker? && dir.receipt.NoReceipt?
  {
  }

  // ---------------------------------------------------------------- the reported invocations

  /** The invocation says what the files of its directory say. */
  ghost predicate OnDisk(dirs: History, inv: ScannedInvocation) {
    && inv.id in dirs
    && var dir := dirs[inv.id];
       match inv
       case NeverAuthorized(_) => dir.marker.NoMarker? && dir.receipt.NoReceipt?
       case Unfinalized(_, at, checkpoint) =>
         dir.receipt.NoReceipt? && dir.marker.Marker? && at == dir.marker.attempt.writtenAt && checkpoint == dir.marker.attempt.checkpoint
       case Finalized(_, at, checkpoint, succeeded) =>
         && dir.marker.Marker? && at == dir.marker.attempt.writtenAt && checkpoint == dir.marker.attempt.checkpoint
         && dir.receipt.Received? && succeeded == dir.receipt.receipt.succeeded
  }

  lemma ReadingOnDisk(dirs: History, id: Str, session: Str, inv: ScannedInvocation)
    requires id in dirs && ScanOne(dirs[id], id, session) == Scanned(inv)
    ensures inv.id == id && OnDisk(dirs, inv)
  {
  }

  /** Every reported invocation is what is on disk, and every directory is reported once, in the order of the ids. */
  lemma InvocationsOnDisk(dirs: History, session: Str)
    requires ScanHistory(dirs, session).Readable?
    ensures var read := ScanHistory(dirs, session).report.invocations;
            && (forall inv :: inv in read ==> OnDisk(dirs, inv))
            && (forall id :: id in dirs ==> exists i :: 0 <= i < |read| && read[i].id == id)
            && forall i, j :: 0 <= i < j < |read| ==> Less(read[i].id, read[j].id)
  {
    var names, read := SortedKeys.Ordered(dirs.Keys), ScanHistory(dirs, session).report.invocations;
    ScanReadable(dirs, session);
    forall i | 0 <= i < |read| ensures read[i].id == names[i] && OnDisk(dirs, read[i]) {
      assert names[i] in names;
      ReadingOnDisk(dirs, names[i], session, read[i]);
    }
    forall id | id in dirs ensures exists i :: 0 <= i < |read| && read[i].id == id {
      assert id in names;
      var i :| 0 <= i < |names| && names[i] == id;
    }
  }

  // ---------------------------------------------------------------- the reported blockers

  /** The blocker's directory holds this marker, and no receipt or one that records a failure. */
  ghost predicate BlockerOnDisk(dirs: History, b: Blocker) {
    && b.id in dirs && dirs[b.id].marker.Marker?
    && b.writtenAt == dirs[b.id].marker.attempt.writtenAt && b.checkpoint == dirs[b.id].marker.attempt.checkpoint
    && if b.unfinalized then dirs[b.id].receipt.NoReceipt? else dirs[b.id].receipt.Received? && !dirs[b.id].receipt.receipt.succeeded
  }

  lemma {:induction false} BlockersFrom(read: seq<ScannedInvocation>, b: Blocker)
    ensures b in BlockersOf(read) <==> exists i :: 0 <= i < |read| && b in BlockerOf(read[i])
  {
    if read != [] {
      BlockersFrom(read[1..], b);
      if i :| 0 <= i < |read| && b in BlockerOf(read[i]) && i > 0 {
        assert read[1..][i - 1] == read[i];
      }
      if j :| 0 <= j < |read[1..]| && b in BlockerOf(read[1..][j]) {
        assert read[j + 1] == read[1..][j];
      }
    }
  }

  lemma BlockerOfExactly(dirs: History, inv: ScannedInvocation, b: Blocker)
    requires OnDisk(dirs, inv)
    ensures b in BlockerOf(inv) <==> b.id == inv.id && BlockerOnDisk(dirs, b)
  {
  }

  /** The blockers of a readable history are exactly the markers on disk without a receipt of success, with their fields. */
  lemma BlockersOnDisk(dirs: History, session: Str, b: Blocker)
    requires ScanHistory(dirs, session).Readable?
    ensures b in ScanHistory(dirs, session).report.blocking <==> BlockerOnDisk(dirs, b)
  {
    var read := ScanHistory(dirs, session).report.invocations;
    InvocationsOnDisk(dirs, session);
    Sorting.SortMembers(CompareBlockers, BlockersOf(read));
    BlockersFrom(read, b);
    forall i | 0 <= i < |read| ensures b in BlockerOf(read[i]) <==> b.id == read[i].id && BlockerOnDisk(dirs, b) {
      assert read[i] in read;
      BlockerOfExactly(dirs, read[i], b);
    }
  }

  /** The apply of this directory has no receipt of success. */
  ghost predicate Unfinished(dirs: History, id: Str) {
    && id in dirs && dirs[id].marker.Marker?
    && (dirs[id].receipt.NoReceipt? || (dirs[id].receipt.Received? && !dirs[id].receipt.receipt.succeeded))
  }

  /** The primary blocker is unfinished on disk, and no unfinished apply's marker was written before its marker. */
  lemma PrimaryOnDisk(dirs: History, session: Str, id: Str)
    requires ScanHistory(dirs, session).Readable? && Unfinished(dirs, id)
    ensures ScanHistory(dirs, session).report.blocking != []
    ensures var first := ScanHistory(dirs, session).report.blocking[0].id;
            && Unfinished(dirs, first)
            && !Less(dirs[id].marker.attempt.writtenAt, dirs[first].marker.attempt.writtenAt)
            && (dirs[id].marker.attempt.writtenAt == dirs[first].marker.attempt.writtenAt ==> !Less(id, first))
  {
    var a, blocking := dirs[id].marker.attempt, ScanHistory(dirs, session).report.blocking;
    var b := Blocker(id, a.writtenAt, a.checkpoint, dirs[id].receipt.NoReceipt?);
    BlockersOnDisk(dirs, session, b);
    BlockersOnDisk(dirs, session, blocking[0]);
    assert blocking[0] in blocking;
    PrimaryIsEarliest(dirs, session, b);
    CmpOrder(blocking[0].writtenAt, b.writtenAt);
    CmpOrder(blocking[0].id, b.id);
  }

  predicate AscendingIds(blockers: seq<Blocker>) { forall i, j :: 0 <= i < j < |blockers| ==> Less(blockers[i].id, blockers[j].id) }

  lemma {:induction false} BlockersAscending(read: seq<ScannedInvocation>)
    requires forall i, j :: 0 <= i < j < |read| ==> Less(read[i].id, read[j].id)
    ensures AscendingIds(BlockersOf(read))
  {
    if read != [] {
      var rest := BlockersOf(read[1..]);
      BlockersAscending(read[1..]);
      forall j | 0 <= j < |rest| ensures Less(read[0].id, rest[j].id) {
        BlockersFrom(read[1..], rest[j]);
        assert rest[j] in rest;
        var i :| 0 <= i < |read[1..]| && rest[j] in BlockerOf(read[1..][i]);
        assert read[1..][i] == read[i + 1];
      }
    }
  }

  /** The blockers are listed in the order in which their markers were written, each directory once. */
  lemma BlockersInOrder(dirs: History, session: Str, i: nat, j: nat)
    requires ScanHistory(dirs, session).Readable? && i < j < |ScanHistory(dirs, session).report.blocking|
    ensures var a, b := ScanHistory(dirs, session).report.blocking[i], ScanHistory(dirs, session).report.blocking[j];
            Less(a.writtenAt, b.writtenAt) || (a.writtenAt == b.writtenAt && Less(a.id, b.id))
  {
    InvocationsOnDisk(dirs, session);
    BlockersAscending(ScanHistory(dirs, session).report.invocations);
    SortedInOrder(BlockersOf(ScanHistory(dirs, session).report.invocations), i, j);
  }

  lemma SortedInOrder(found: seq<Blocker>, i: nat, j: nat)
    requires AscendingIds(found) && i < j < |found|
    ensures var a, b := Sorting.Sort(CompareBlockers, found)[i], Sorting.Sort(CompareBlockers, found)[j];
            Less(a.writtenAt, b.writtenAt) || (a.writtenAt == b.writtenAt && Less(a.id, b.id))
  {
    var sorted := Sorting.Sort(CompareBlockers, found);
    ApartById(found);
    Sorting.SortDistinct(CompareBlockers, found);
    Sorting.SortMembers(CompareBlockers, found);
    CompareBlockersPreorder();
    Sorting.SortSorted(CompareBlockers, found);
    assert sorted[i] in sorted && sorted[j] in sorted;
    TwoInOrder(found, sorted[i], sorted[j]);
  }

  lemma TwoInOrder(found: seq<Blocker>, a: Blocker, b: Blocker)
    requires AscendingIds(found) && a in found && b in found && a != b && CompareBlockers(a, b) <= 0
    ensures Less(a.writtenAt, b.writtenAt) || (a.writtenAt == b.writtenAt && Less(a.id, b.id))
  {
    if a.id == b.id {
      SameIdSameBlocker(found, a, b);
    }
    CmpOrder(a.writtenAt, b.writtenAt);
    CmpOrder(a.id, b.id);
  }

  lemma ApartById(found: seq<Blocker>)
    requires AscendingIds(found)
    ensures forall i, j :: 0 <= i < j < |found| ==> found[i] != found[j]
  {
    forall i, j | 0 <= i < j < |found| ensures found[i] != found[j] {
      LessAsymmetric(found[i].id, found[j].id);
    }
  }

  lemma SameIdSameBlocker(found: seq<Blocker>, a: Blocker, b: Blocker)
    requires AscendingIds(found) && a in found && b in found && a.id == b.id
    ensures a == b
  {
    var i :| 0 <= i < |found| && found[i] == a;
    var j :| 0 <= j < |found| && found[j] == b;
    LessAsymmetric(a.id, b.id);
  }

  // ---------------------------------------------------------------- the reported fault

  /** The directory stands at fault, with this kind of fault. */
  ghost predicate AtFault(dirs: History, session: Str, at: Str, kind: FaultKind) {
    && at in dirs && !Sound(dirs[at], at, session)
    && kind == if ValidName(at) then ScanOne(dirs[at], at, session).kind else Inconsistent
  }

  lemma {:induction false} FaultFrom(dirs: History, names: seq<Str>, session: Str) returns (i: nat)
    requires (forall n :: n in names ==> n in dirs) && ReadAll(dirs, names, session).1.Faulty?
    ensures i < |names| && names[i] == ReadAll(dirs, names, session).1.at
    ensures AtFault(dirs, session, names[i], ReadAll(dirs, names, session).1.kind)
    ensures forall j :: 0 <= j < i ==> Sound(dirs[names[j]], names[j], session)
  {
    i := 0;
    assert names[0] in names;
    if Sound(dirs[names[0]], names[0], session) {
      var k := FaultFrom(dirs, names[1..], session);
      i := k + 1;
    }
  }

  /** The fault reported is that of the first directory, by id, that is not sound. */
  lemma FaultIsFirst(dirs: History, session: Str)
    requires ScanHistory(dirs, session).Faulty?
    ensures var scan := ScanHistory(dirs, session);
            AtFault(dirs, session, scan.at, scan.kind) && forall id :: id in dirs && Less(id, scan.at) ==> Sound(dirs[id], id, session)
  {
    var names := SortedKeys.Ordered(dirs.Keys);
    var i := FaultFrom(dirs, names, session);
    forall id | id in dirs && Less(id, names[i]) ensures Sound(dirs[id], id, session) {
      assert id in names;
      var j := PlacedBefore(names, i, id);
    }
  }

  lemma PlacedBefore(names: seq<Str>, i: nat, id: Str) returns (j: nat)
    requires SortedKeys.Ascending(names) && i < |names| && id in names && Less(id, names[i])
    ensures j < i && names[j] == id
  {
    j :| 0 <= j < |names| && names[j] == id;
    LessAsymmetric(id, names[i]);
  }
}
