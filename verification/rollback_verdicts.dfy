/** What a verdict of the gate tells, in terms of its inputs alone. */
module RollbackVerdicts {
  import opened Text
  import opened RollbackHistory
  import opened RollbackReport
  import opened RollbackAdmission

  // ---------------------------------------------------------------- the five rules

  /** The refusal is due to these parameters. */
  ghost predicate Applies(p: LegacyParams, r: Refusal) {
    match r
    case ActiveSessionRefusal(session) => p.active == ActiveSession(p.target) && session == p.target
    case AlreadyApplied(at, checkpoint) => p.existing.Applied? && at == p.existing.writtenAt && checkpoint == p.existing.checkpoint
    case HeadMismatch(expected, current) => expected == p.expectedHead && current == p.currentHead && expected != current
    case UnEndedSession(session) => p.end.Missing? && session == p.target
    case DirtyTree(paths) => p.end.Changed? && paths != [] && paths == Unrelated(p)
  }

  /** The place of a refusal in the D76 order. */
  function Place(r: Refusal): nat {
    match r
    case ActiveSessionRefusal(_) => 0
    case AlreadyApplied(_, _) => 1
    case HeadMismatch(_, _) => 2
    case UnEndedSession(_) => 3
    case DirtyTree(_) => 4
  }

  /** The refusals that `--force` never passes. */
  predicate Hard(r: Refusal) { r.ActiveSessionRefusal? || r.AlreadyApplied? }

  /** A path the session does not account for. */
  predicate Stray(p: LegacyParams, x: Str) {
    p.end.Changed? && x !in p.trackedDirty && x !in p.untracked && x !in p.end.paths
  }

  lemma StrayPaths(p: LegacyParams)
    ensures forall x :: x in Unrelated(p) <==> x in p.currentDirty && Stray(p, x)
  {
  }

  lemma {:induction false} UnexpectedJoin(p: LegacyParams, a: seq<Str>, b: seq<Str>)
    ensures Unexpected(p, a + b) == Unexpected(p, a) + Unexpected(p, b)
  {
    if b == [] {
      assert a + b == a;
    } else {
      var init, last := b[..|b| - 1], b[|b| - 1];
      UnexpectedJoin(p, a, init);
      assert (a + b)[..|a + b| - 1] == a + init && (a + b)[|a + b| - 1] == last;
    }
  }

  /** The stray paths are listed in the order, and as often, as they were dirty: list by list, and one by one. */
  lemma StrayInOrder(p: LegacyParams, a: seq<Str>, x: Str)
    ensures Unrelated(p.(currentDirty := a + [x])) == Unrelated(p.(currentDirty := a)) + if Stray(p, x) then [x] else []
  {
    var q := p.(currentDirty := a + [x]);
    if p.end.Changed? {
      UnexpectedSame(p, q, a + [x]);
      UnexpectedSame(p, p.(currentDirty := a), a);
      UnexpectedJoin(p, a, [x]);
      assert [x][..0] == [];
    }
  }

  lemma {:induction false} UnexpectedSame(p: LegacyParams, q: LegacyParams, paths: seq<Str>)
    requires q == p.(currentDirty := q.currentDirty)
    ensures Unexpected(q, paths) == Unexpected(p, paths)
  {
    if paths != [] {
      UnexpectedSame(p, q, paths[..|paths| - 1]);
    }
  }

  lemma PlaceOfRule(p: LegacyParams, k: nat)
    requires Holds(p, k)
    ensures Place(RefusalAt(p, k)) == k && Applies(p, RefusalAt(p, k))
  {
  }

  lemma RuleOfPlace(p: LegacyParams, r: Refusal)
    requires Applies(p, r)
    ensures Holds(p, Place(r)) && RefusalAt(p, Place(r)) == r
  {
  }

  /** The refusals collected are exactly those due. */
  lemma CollectedExactly(p: LegacyParams, r: Refusal)
    ensures r in Refusals(p, D76_ORDER) <==> Applies(p, r)
  {
    ListedExactly(p, D76_ORDER, r);
    if i :| 0 <= i < |D76_ORDER| && Holds(p, D76_ORDER[i]) && r == RefusalAt(p, D76_ORDER[i]) {
      PlaceOfRule(p, D76_ORDER[i]);
    }
    if Applies(p, r) {
      RuleOfPlace(p, r);
      assert D76_ORDER[Place(r)] == Place(r);
    }
  }

  predicate InPlaceOrder(refusals: seq<Refusal>) { forall i, j :: 0 <= i < j < |refusals| ==> Place(refusals[i]) < Place(refusals[j]) }

  lemma {:induction false} RefusalsAscend(p: LegacyParams, places: seq<nat>)
    requires forall i, j :: 0 <= i < j < |places| ==> places[i] < places[j]
    ensures InPlaceOrder(Refusals(p, places)) && forall r :: r in Refusals(p, places) ==> Place(r) in places
  {
    if places != [] {
      var init, k := places[..|places| - 1], places[|places| - 1];
      RefusalsAscend(p, init);
      if Holds(p, k) {
        PlaceOfRule(p, k);
      }
      forall r | r in Refusals(p, init) ensures Place(r) in places && Place(r) < k {
        var i :| 0 <= i < |init| && init[i] == Place(r);
        assert places[i] == Place(r);
      }
    }
  }

  /** They are collected in D76 order, each once. */
  lemma CollectedInOrder(p: LegacyParams)
    ensures InPlaceOrder(Refusals(p, D76_ORDER))
  {
    RefusalsAscend(p, D76_ORDER);
  }

  // ---------------------------------------------------------------- admitted

  /** What an admitted operation is told: the scan, every refusal that is due, and the facts themselves. */
  lemma AdmittedTells(op: Operation, scan: Scan, p: LegacyParams, force: bool)
    requires DeriveAdmission(op, scan, Loaded(p), force).Admitted? && Consistent(p)
    ensures var v := DeriveAdmission(op, scan, Loaded(p), force);
            && v.scan == scan && v.legacy.Checked? && v.legacy.refusals == Refusals(p, D76_ORDER)
            && v.legacy.outcome == Outcome(p.active == ActiveSession(p.target), p.end.Missing?, !op.DryRun? && force && p.currentHead != p.expectedHead,
                                           p.end.Changed?, Unrelated(p))
  {
    if !op.DryRun? {
      OtherwiseKept(Refusals(p, D76_ORDER), force, Allowed(OutcomeOf(Collected(p), p.currentHead != p.expectedHead && force)));
    }
  }

  lemma {:induction false} OtherwiseKept(refusals: seq<Refusal>, force: bool, otherwise: Policy)
    requires otherwise.Allowed?
    ensures FirstEnforced(refusals, force, otherwise).Allowed? ==> FirstEnforced(refusals, force, otherwise) == otherwise
  {
    if refusals != [] {
      OtherwiseKept(refusals[1..], force, otherwise);
    }
  }

  /** An admitted apply may go over a head mismatch exactly when there is one and force was given; a dry run never. */
  lemma HeadMismatchAllowed(op: Operation, scan: Scan, p: LegacyParams, force: bool)
    requires DeriveAdmission(op, scan, Loaded(p), force).Admitted? && Consistent(p)
    ensures DeriveAdmission(op, scan, Loaded(p), force).legacy.Checked?
    ensures DeriveAdmission(op, scan, Loaded(p), force).legacy.outcome.allowHeadMismatch <==> !op.DryRun? && force && p.currentHead != p.expectedHead
  {
    AdmittedTells(op, scan, p, force);
  }

  /** A verdict without a legacy analysis comes exactly from a dry run over unusable artifacts. */
  lemma FaultedTells(op: Operation, scan: Scan, legacy: LegacyInput, force: bool)
    ensures DeriveAdmission(op, scan, legacy, force) == Admitted(scan, FaultedLegacy) <==>
              op.DryRun? && (legacy.FaultedInput? || !Consistent(legacy.params))
  {
  }

  /** An apply whose history lets it pass fails exactly when an artifact is unusable or names another session. */
  lemma FailsExactly(op: Operation, scan: Scan, legacy: LegacyInput, force: bool)
    requires !op.DryRun? && HistoryAllows(op, scan)
    ensures DeriveAdmission(op, scan, legacy, force) == Failed <==>
            legacy.FaultedInput? || legacy.params.sessionId != legacy.params.target || legacy.params.manifestSessionId != legacy.params.target
            || (legacy.params.existing.Applied? && legacy.params.existing.sessionId != legacy.params.target)
  {
  }

  // ---------------------------------------------------------------- refused

  lemma PlaceKept(i: nat, k: nat)
    requires k < i < 5
    ensures D76_ORDER[..i][k] == k
  {
  }

  lemma NoneBefore(p: LegacyParams, force: bool, i: nat, k: nat)
    requires i < 5 && k < 5 && EnforcedAt(i, force) && NoneEnforced(p, D76_ORDER[..i], force) && Holds(p, k)
    ensures i <= k
  {
    if k < i {
      PlaceKept(i, k);
    }
  }

  /** A legacy refusal is the first one due, under force a hard one, and comes with all that are due. */
  lemma RefusalTells(op: Operation, scan: Scan, p: LegacyParams, force: bool)
    requires DeriveAdmission(op, scan, Loaded(p), force).RefusedByLegacy?
    ensures var v := DeriveAdmission(op, scan, Loaded(p), force);
            && Applies(p, v.primary) && (force ==> Hard(v.primary))
            && (forall r :: Applies(p, r) ==> Place(v.primary) <= Place(r))
            && (forall r :: r in v.all <==> Applies(p, r)) && InPlaceOrder(v.all)
  {
    var v := DeriveAdmission(op, scan, Loaded(p), force);
    var i := LegacyNamesFirst(op, scan, Loaded(p), force);
    assert D76_ORDER[i] == i;
    PlaceOfRule(p, i);
    forall r | Applies(p, r) ensures i <= Place(r) {
      RuleOfPlace(p, r);
      NoneBefore(p, force, i, Place(r));
    }
    forall r ensures r in v.all <==> Applies(p, r) {
      CollectedExactly(p, r);
    }
    CollectedInOrder(p);
  }

  /** The directory holds a selective apply of this session that succeeded. */
  ghost predicate SucceededOnDisk(dirs: History, id: Str) {
    id in dirs && dirs[id].marker.Marker? && dirs[id].receipt.Received? && dirs[id].receipt.receipt.succeeded
  }

  /** A full apply is told of exactly the selective applies that succeeded. */
  lemma SuccessesTold(op: Operation, dirs: History, session: Str, legacy: LegacyInput, force: bool, ids: seq<Str>, id: Str)
    requires DeriveAdmission(op, ScanHistory(dirs, session), legacy, force) == RefusedByHistory(SelectiveApplyAlreadyApplied(ids))
    ensures op.FullApply? && (id in ids <==> SucceededOnDisk(dirs, id))
  {
    IdsTold(op, ScanHistory(dirs, session), legacy, force, ids);
    InvocationsOnDisk(dirs, session);
    SucceededIdsExactly(ScanHistory(dirs, session).report.invocations, id);
    SuccessAmong(dirs, ScanHistory(dirs, session).report.invocations, id);
  }

  lemma IdsTold(op: Operation, scan: Scan, legacy: LegacyInput, force: bool, ids: seq<Str>)
    requires DeriveAdmission(op, scan, legacy, force) == RefusedByHistory(SelectiveApplyAlreadyApplied(ids))
    ensures op.FullApply? && scan.Readable? && ids == SucceededIds(scan.report.invocations)
  {
  }

  lemma SuccessAmong(dirs: History, read: seq<ScannedInvocation>, id: Str)
    requires (forall inv :: inv in read ==> OnDisk(dirs, inv)) && (id in dirs ==> exists i :: 0 <= i < |read| && read[i].id == id)
    ensures (exists i :: 0 <= i < |read| && read[i].id == id && read[i].Finalized? && read[i].succeeded) <==> SucceededOnDisk(dirs, id)
  {
    forall i | 0 <= i < |read| ensures OnDisk(dirs, read[i]) {
      assert read[i] in read;
    }
  }
}
