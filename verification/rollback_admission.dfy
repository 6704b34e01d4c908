/** The admission gate: may this rollback operation begin? */
module RollbackAdmission {
  import opened Text
  import opened RollbackHistory
  import SortedKeys

  datatype Operation = DryRun | SelectiveApply | FullApply

  // ---------------------------------------------------------------- the legacy dimension

  datatype ActiveLock = NoActiveSession | ActiveSession(sessionId: Str)

  datatype ExistingReceipt = NeverApplied | Applied(sessionId: Str, writtenAt: Str, checkpoint: Str)

  datatype EndSnapshot = Missing | Changed(paths: seq<Str>)

  datatype LegacyParams = LegacyParams(
    target: Str, sessionId: Str, manifestSessionId: Str, active: ActiveLock, existing: ExistingReceipt,
    currentHead: Str, expectedHead: Str, end: EndSnapshot,
    trackedDirty: seq<Str>, untracked: seq<Str>, currentDirty: seq<Str>)

  datatype Refusal =
    | ActiveSessionRefusal(sessionId: Str)
    | AlreadyApplied(writtenAt: Str, checkpoint: Str)
    | HeadMismatch(expectedHead: Str, currentHead: Str)
    | UnEndedSession(sessionId: Str)
    | DirtyTree(paths: seq<Str>)

  datatype Analysis = Analysis(isActive: bool, unEnded: bool, headMismatch: bool, dirtyChecked: bool, unrelated: seq<Str>, refusals: seq<Refusal>)

  /** The artifact-consistency guard does not throw. */
  predicate Consistent(p: LegacyParams) {
    p.sessionId == p.target && p.manifestSessionId == p.target && (p.existing.Applied? ==> p.existing.sessionId == p.target)
  }

  predicate Expected(p: LegacyParams, path: Str) {
    path in p.trackedDirty || path in p.untracked || (p.end.Changed? && path in p.end.paths)
  }

  function Unexpected(p: LegacyParams, paths: seq<Str>): (r: seq<Str>)
    ensures forall x :: x in r <==> x in paths && !Expected(p, x)
  {
    if paths == [] then []
    else
      var last := paths[|paths| - 1];
      assert paths == paths[..|paths| - 1] + [last];
      Unexpected(p, paths[..|paths| - 1]) + if Expected(p, last) then [] else [last]
  }

  function Unrelated(p: LegacyParams): seq<Str> {
    if p.end.Missing? then [] else Unexpected(p, p.currentDirty)
  }

  predicate IsActive(p: LegacyParams) { p.active == ActiveSession(p.target) }

  /** The condition of the rule at place `k` of the D76 order. */
  predicate Holds(p: LegacyParams, k: nat) {
    if k == 0 then IsActive(p)
    else if k == 1 then p.existing.Applied?
    else if k == 2 then p.currentHead != p.expectedHead
    else if k == 3 then p.end.Missing?
    else k == 4 && Unrelated(p) != []
  }

  function RefusalAt(p: LegacyParams, k: nat): Refusal
    requires Holds(p, k)
  {
    if k == 0 then ActiveSessionRefusal(p.target)
    else if k == 1 then AlreadyApplied(p.existing.writtenAt, p.existing.checkpoint)
    else if k == 2 then HeadMismatch(p.expectedHead, p.currentHead)
    else if k == 3 then UnEndedSession(p.target)
    else DirtyTree(Unrelated(p))
  }

  function RefusalIfAny(p: LegacyParams, k: nat): seq<Refusal> {
    if Holds(p, k) then [RefusalAt(p, k)] else []
  }

  /** The refusals of the rules at these places. */
  function Refusals(p: LegacyParams, places: seq<nat>): seq<Refusal> {
    if places == [] then [] else Refusals(p, places[..|places| - 1]) + RefusalIfAny(p, places[|places| - 1])
  }

  const D76_ORDER: seq<nat> := [0, 1, 2, 3, 4]

  function Collected(p: LegacyParams): Analysis {
    Analysis(IsActive(p), p.end.Missing?, p.currentHead != p.expectedHead, p.end.Changed?, Unrelated(p), Refusals(p, D76_ORDER))
  }

  lemma NextRefusal(p: LegacyParams, places: seq<nat>, k: nat)
    ensures Refusals(p, places + [k]) == Refusals(p, places) + RefusalIfAny(p, k)
  {
    assert (places + [k])[..|places|] == places;
  }

  /** The two refusals `--force` never bypasses. */
  method ListHardRefusals(p: LegacyParams) returns (refusals: seq<Refusal>)
    ensures refusals == Refusals(p, [0, 1])
  {
    refusals := [];
    if p.active == ActiveSession(p.target) {
      refusals := refusals + [ActiveSessionRefusal(p.target)];
    }
    NextRefusal(p, [], 0);
    if p.existing.Applied? {
      refusals := refusals + [AlreadyApplied(p.existing.writtenAt, p.existing.checkpoint)];
    }
    NextRefusal(p, [0], 1);
    assert [] + [0] == [0] && [0] + [1] == [0, 1];
  }

  method ListRefusals(p: LegacyParams, unrelated: seq<Str>) returns (refusals: seq<Refusal>)
    requires unrelated == Unrelated(p)
    ensures refusals == Refusals(p, D76_ORDER)
  {
    refusals := ListHardRefusals(p);
    ghost var places: seq<nat> := [0, 1];
    NextRefusal(p, places, 2);
    if p.currentHead != p.expectedHead {
      refusals := refusals + [HeadMismatch(p.expectedHead, p.currentHead)];
    }
    places := places + [2];
    NextRefusal(p, places, 3);
    if p.end.Missing? {
      refusals := refusals + [UnEndedSession(p.target)];
    }
    places := places + [3];
    NextRefusal(p, places, 4);
    if unrelated != [] {
      refusals := refusals + [DirtyTree(unrelated)];
    }
    assert places + [4] == D76_ORDER;
  }

  method UnrelatedPaths(p: LegacyParams) returns (unrelated: seq<Str>)
    ensures unrelated == Unrelated(p)
  {
    if p.end.Missing? {
      return [];
    }
    var expected: set<Str> := {};
    for i := 0 to |p.trackedDirty|
      invariant forall x :: x in expected <==> x in p.trackedDirty[..i]
    {
      expected := expected + {p.trackedDirty[i]};
    }
    for i := 0 to |p.untracked|
      invariant forall x :: x in expected <==> x in p.trackedDirty || x in p.untracked[..i]
    {
      expected := expected + {p.untracked[i]};
    }
    for i := 0 to |p.end.paths|
      invariant forall x :: x in expected <==> x in p.trackedDirty || x in p.untracked || x in p.end.paths[..i]
    {
      expected := expected + {p.end.paths[i]};
    }
    unrelated := KeepUnexpected(p, expected);
  }

  method CollectRollbackRefusals(p: LegacyParams) returns (threw: bool, analysis: Analysis)
    ensures threw <==> !Consistent(p)
    ensures !threw ==> analysis == Collected(p)
  {
    var unrelated := UnrelatedPaths(p);
    var refusals := ListRefusals(p, unrelated);
    threw := !Consistent(p);
    analysis := Analysis(p.active == ActiveSession(p.target), p.end.Missing?, p.currentHead != p.expectedHead, p.end.Changed?, unrelated, refusals);
  }

  method KeepUnexpected(p: LegacyParams, expected: set<Str>) returns (unrelated: seq<Str>)
    requires forall x :: x in expected <==> Expected(p, x)
    ensures unrelated == Unexpected(p, p.currentDirty)
  {
    unrelated := [];
    for i := 0 to |p.currentDirty|
      invariant unrelated == Unexpected(p, p.currentDirty[..i])
    {
      assert p.currentDirty[..i + 1][..i] == p.currentDirty[..i];
      if p.currentDirty[i] !in expected {
        unrelated := unrelated + [p.currentDirty[i]];
      }
    }
    assert p.currentDirty[..|p.currentDirty|] == p.currentDirty;
  }

  predicate BypassableByForce(r: Refusal) { r.HeadMismatch? || r.UnEndedSession? || r.DirtyTree? }

  predicate Enforced(r: Refusal, force: bool) { !force || !BypassableByForce(r) }

  /** What an admitted operation is told: the warnings, and whether it may go over a head mismatch. */
  datatype Outcome = Outcome(isActive: bool, unEnded: bool, allowHeadMismatch: bool, dirtyChecked: bool, unrelated: seq<Str>)

  function OutcomeOf(a: Analysis, allowHeadMismatch: bool): Outcome {
    Outcome(a.isActive, a.unEnded, allowHeadMismatch, a.dirtyChecked, a.unrelated)
  }

  datatype Policy = Allowed(outcome: Outcome) | Stopped(refusal: Refusal)

  function FirstEnforced(refusals: seq<Refusal>, force: bool, otherwise: Policy): Policy {
    if refusals == [] then otherwise
    else if Enforced(refusals[0], force) then Stopped(refusals[0])
    else FirstEnforced(refusals[1..], force, otherwise)
  }

  function Evaluated(analysis: Analysis, dryRun: bool, force: bool): Policy {
    if dryRun then Allowed(OutcomeOf(analysis, false))
    else FirstEnforced(analysis.refusals, force, Allowed(OutcomeOf(analysis, analysis.headMismatch && force)))
  }

  method EvaluateRollbackRefusals(analysis: Analysis, dryRun: bool, force: bool) returns (policy: Policy)
    ensures policy == Evaluated(analysis, dryRun, force)
  {
    if dryRun {
      return Allowed(OutcomeOf(analysis, false));
    }
    var otherwise := Allowed(OutcomeOf(analysis, analysis.headMismatch && force));
    assert analysis.refusals[0..] == analysis.refusals;
    for i := 0 to |analysis.refusals|
      invariant FirstEnforced(analysis.refusals[i..], force, otherwise) == FirstEnforced(analysis.refusals, force, otherwise)
    {
      assert analysis.refusals[i..][1..] == analysis.refusals[i + 1..];
      if Enforced(analysis.refusals[i], force) {
        return Stopped(analysis.refusals[i]);
      }
    }
    return otherwise;
  }

  // ---------------------------------------------------------------- the gate

  datatype LegacyInput = Loaded(params: LegacyParams) | FaultedInput

  datatype LegacyState = Checked(refusals: seq<Refusal>, outcome: Outcome) | FaultedLegacy

  datatype HistoryRefusal =
    | HistoryFault(scan: Scan)
    | PriorApplyIncomplete(blocker: Blocker, all: seq<Blocker>)
    | SelectiveApplyAlreadyApplied(ids: seq<Str>)

  datatype Verdict =
    | Admitted(scan: Scan, legacy: LegacyState)
    | RefusedByHistory(reason: HistoryRefusal)
    | RefusedByLegacy(primary: Refusal, all: seq<Refusal>)
    | Failed

  /** Ids of the invocations that finalized as succeeded, in scan order. */
  function SucceededIds(invocations: seq<ScannedInvocation>): seq<Str> {
    if invocations == [] then []
    else
      (if invocations[0].Finalized? && invocations[0].succeeded then [invocations[0].id] else []) + SucceededIds(invocations[1..])
  }

  function DeriveAdmission(op: Operation, scan: Scan, legacy: LegacyInput, force: bool): Verdict {
    var faulted := if op.DryRun? then Admitted(scan, FaultedLegacy) else Failed;
    if !op.DryRun? && scan.Faulty? then RefusedByHistory(HistoryFault(scan))
    else if !op.DryRun? && scan.report.blocking != [] then
      RefusedByHistory(PriorApplyIncomplete(scan.report.blocking[0], scan.report.blocking))
    else if op.FullApply? && SucceededIds(scan.report.invocations) != [] then
      RefusedByHistory(SelectiveApplyAlreadyApplied(SucceededIds(scan.report.invocations)))
    else if legacy.FaultedInput? || !Consistent(legacy.params) then faulted
    else
      var analysis := Collected(legacy.params);
      match Evaluated(analysis, op.DryRun?, force)
      case Stopped(refusal) => RefusedByLegacy(refusal, analysis.refusals)
      case Allowed(outcome) => Admitted(scan, Checked(analysis.refusals, outcome))
  }

  // ---------------------------------------------------------------- what the gate promises

  /** A dry run is admitted whatever is broken. */
  lemma DryRunAlwaysAdmitted(scan: Scan, legacy: LegacyInput, force: bool)
    ensures DeriveAdmission(DryRun, scan, legacy, force).Admitted?
  {
  }

  /** The history dimension lets an apply pass. */
  predicate HistoryAllows(op: Operation, scan: Scan) {
    scan.Readable? && scan.report.blocking == [] && (op.FullApply? ==> SucceededIds(scan.report.invocations) == [])
  }

  /** Refusals of the history dimension see neither `--force` nor the legacy layer. */
  lemma HistoryRefusesAbsolutely(op: Operation, scan: Scan, legacy: LegacyInput, force: bool, legacy': LegacyInput, force': bool)
    ensures DeriveAdmission(op, scan, legacy, force).RefusedByHistory? <==> !op.DryRun? && !HistoryAllows(op, scan)
    ensures DeriveAdmission(op, scan, legacy, force).RefusedByHistory? ==>
              DeriveAdmission(op, scan, legacy', force') == DeriveAdmission(op, scan, legacy, force)
  {
  }

  lemma {:induction false} SucceededIdsExactly(invocations: seq<ScannedInvocation>, id: Str)
    ensures id in SucceededIds(invocations) <==>
              exists i :: 0 <= i < |invocations| && invocations[i].id == id && invocations[i].Finalized? && invocations[i].succeeded
  {
    if invocations != [] {
      SucceededIdsExactly(invocations[1..], id);
      forall i | 0 < i < |invocations| ensures invocations[i] == invocations[1..][i - 1] {
      }
      if id in SucceededIds(invocations[1..]) {
        var i :| 0 <= i < |invocations[1..]| && invocations[1..][i].id == id && invocations[1..][i].Finalized? && invocations[1..][i].succeeded;
        assert invocations[i + 1] == invocations[1..][i];
      }
    }
  }

  /** Which history refusal an apply meets: a fault first, then the earliest blocker, then, for a full apply, a selective success. */
  lemma HistoryRefusalOrder(op: Operation, scan: Scan, legacy: LegacyInput, force: bool)
    requires DeriveAdmission(op, scan, legacy, force).RefusedByHistory?
    ensures match DeriveAdmission(op, scan, legacy, force).reason
            case HistoryFault(fault) => scan.Faulty? && fault == scan
            case PriorApplyIncomplete(blocker, all) => scan.Readable? && all == scan.report.blocking && |all| > 0 && blocker == all[0]
            case SelectiveApplyAlreadyApplied(ids) =>
              && op.FullApply? && scan.Readable? && scan.report.blocking == []
              && ids != [] && forall id :: id in ids ==>
                   exists i :: 0 <= i < |scan.report.invocations| && scan.report.invocations[i].id == id
                               && scan.report.invocations[i].Finalized? && scan.report.invocations[i].succeeded
  {
    if scan.Readable? {
      forall id ensures id in SucceededIds(scan.report.invocations) ==>
        exists i :: 0 <= i < |scan.report.invocations| && scan.report.invocations[i].id == id
                    && scan.report.invocations[i].Finalized? && scan.report.invocations[i].succeeded
      {
        SucceededIdsExactly(scan.report.invocations, id);
      }
    }
  }

  /** What the legacy rules ask of an apply, as a condition on its inputs. */
  ghost predicate LegacyAllows(p: LegacyParams, force: bool) {
    && p.active != ActiveSession(p.target) && p.existing.NeverApplied?
    && (force || (p.currentHead == p.expectedHead && p.end.Changed?
                  && forall x :: x in p.currentDirty ==> x in p.trackedDirty || x in p.untracked || x in p.end.paths))
  }

  /** `--force` bypasses the rules from place 2 on, and no others. */
  predicate EnforcedAt(k: nat, force: bool) { !force || k < 2 }

  ghost predicate NoneEnforced(p: LegacyParams, places: seq<nat>, force: bool) {
    forall i :: 0 <= i < |places| && Holds(p, places[i]) ==> !EnforcedAt(places[i], force)
  }

  /** `r` is the refusal of the first rule, in the order of `places`, that holds and is enforced. */
  ghost predicate FirstAt(p: LegacyParams, places: seq<nat>, force: bool, r: Refusal, i: nat) {
    i < |places| && Holds(p, places[i]) && r == RefusalAt(p, places[i]) && EnforcedAt(places[i], force) && NoneEnforced(p, places[..i], force)
  }

  lemma {:induction false} WalkSplits(a: seq<Refusal>, b: seq<Refusal>, force: bool, otherwise: Policy)
    requires otherwise.Allowed?
    ensures FirstEnforced(a + b, force, otherwise) ==
            if FirstEnforced(a, force, otherwise).Stopped? then FirstEnforced(a, force, otherwise) else FirstEnforced(b, force, otherwise)
  {
    if a == [] {
      assert a + b == b;
    } else {
      assert (a + b)[1..] == a[1..] + b;
      WalkSplits(a[1..], b, force, otherwise);
    }
  }

  lemma OneRule(p: LegacyParams, k: nat, force: bool, otherwise: Policy)
    requires otherwise.Allowed?
    ensures FirstEnforced(RefusalIfAny(p, k), force, otherwise) ==
            if Holds(p, k) && EnforcedAt(k, force) then Stopped(RefusalAt(p, k)) else otherwise
  {
  }

  /** The walk stops at the first rule, in order, that holds and is enforced. */
  lemma {:induction false} WalkStops(p: LegacyParams, places: seq<nat>, force: bool, otherwise: Policy) returns (i: nat)
    requires otherwise.Allowed?
    ensures match FirstEnforced(Refusals(p, places), force, otherwise)
            case Allowed(_) => NoneEnforced(p, places, force)
            case Stopped(r) => FirstAt(p, places, force, r, i)
  {
    i := 0;
    if places != [] {
      var init, k := places[..|places| - 1], places[|places| - 1];
      i := WalkStops(p, init, force, otherwise);
      WalkSplits(Refusals(p, init), RefusalIfAny(p, k), force, otherwise);
      OneRule(p, k, force, otherwise);
      if FirstEnforced(Refusals(p, init), force, otherwise).Stopped? {
        assert init[..i] == places[..i];
      } else {
        i := |init|;
      }
    }
  }

  /** A refusal is listed exactly when the rule at its place holds. */
  lemma {:induction false} ListedExactly(p: LegacyParams, places: seq<nat>, r: Refusal)
    ensures r in Refusals(p, places) <==> exists i :: 0 <= i < |places| && Holds(p, places[i]) && r == RefusalAt(p, places[i])
  {
    if places != [] {
      var init := places[..|places| - 1];
      ListedExactly(p, init, r);
      forall i | 0 <= i < |init| ensures init[i] == places[i] {
      }
    }
  }

  /** Some dirty path was not expected. */
  lemma UnrelatedExactly(p: LegacyParams)
    ensures Unrelated(p) != [] <==> p.end.Changed? && exists x :: x in p.currentDirty && !Expected(p, x)
  {
    FirstOf(Unrelated(p));
    if x :| x in p.currentDirty && !Expected(p, x) {
      assert p.end.Changed? ==> x in Unrelated(p);
    }
  }

  lemma FirstOf(s: seq<Str>)
    ensures s != [] ==> s[0] in s
  {
  }

  lemma LegacyRules(p: LegacyParams, force: bool)
    ensures NoneEnforced(p, D76_ORDER, force) <==> LegacyAllows(p, force)
  {
    UnrelatedExactly(p);
    var places := D76_ORDER;
    assert places[0] == 0 && places[1] == 1 && places[2] == 2 && places[3] == 3 && places[4] == 4;
  }

  /** An apply is admitted exactly when nothing blocks it in the history and every legacy rule holds or is bypassed. */
  lemma AdmittedExactly(op: Operation, scan: Scan, legacy: LegacyInput, force: bool)
    requires !op.DryRun?
    ensures DeriveAdmission(op, scan, legacy, force).Admitted? <==>
              HistoryAllows(op, scan) && legacy.Loaded? && Consistent(legacy.params) && LegacyAllows(legacy.params, force)
  {
    if legacy.Loaded? {
      var p := legacy.params;
      var i := WalkStops(p, D76_ORDER, force, Allowed(OutcomeOf(Collected(p), p.currentHead != p.expectedHead && force)));
      LegacyRules(p, force);
    }
  }

  /** `--force` only enlarges what is admitted. */
  lemma ForceOnlyAdmits(op: Operation, scan: Scan, legacy: LegacyInput)
    ensures DeriveAdmission(op, scan, legacy, false).Admitted? ==> DeriveAdmission(op, scan, legacy, true).Admitted?
  {
    if !op.DryRun? {
      AdmittedExactly(op, scan, legacy, false);
      AdmittedExactly(op, scan, legacy, true);
    }
  }

  /** A legacy refusal names the first rule in D76 order that holds and is not bypassed, and lists every rule that holds. */
  lemma LegacyNamesFirst(op: Operation, scan: Scan, legacy: LegacyInput, force: bool) returns (place: nat)
    requires DeriveAdmission(op, scan, legacy, force).RefusedByLegacy?
    ensures legacy.Loaded? && FirstAt(legacy.params, D76_ORDER, force, DeriveAdmission(op, scan, legacy, force).primary, place)
    ensures DeriveAdmission(op, scan, legacy, force).all == Refusals(legacy.params, D76_ORDER)
  {
    var p := legacy.params;
    place := WalkStops(p, D76_ORDER, force, Allowed(OutcomeOf(Collected(p), p.currentHead != p.expectedHead && force)));
  }

  /** Only an apply fails without a verdict, only when the legacy artifacts are unusable, and never over a history refusal. */
  lemma FailedExactly(op: Operation, scan: Scan, legacy: LegacyInput, force: bool)
    ensures DeriveAdmission(op, scan, legacy, force).Failed? <==>
              !op.DryRun? && HistoryAllows(op, scan) && (legacy.FaultedInput? || !Consistent(legacy.params))
  {
  }

  // ---------------------------------------------------------------- the gate over a history

  lemma {:induction false} NoSucceededIds(dirs: History, names: seq<Str>, session: Str, read: seq<ScannedInvocation>, id: Str)
    requires ReadFrom(dirs, names, session, read)
    ensures id in SucceededIds(read) <==> id in names && id in dirs && Succeeded(dirs[id], id, session)
  {
    if names != [] {
      ReadFromRest(dirs, names, session, read);
      NoSucceededIds(dirs, names[1..], session, read[1..], id);
      InFirstOrRest(names, id);
    }
  }

  /** Admission over a real history: every directory is sound and none blocks; a full apply finds no selective success. */
  lemma AdmittedOverHistory(op: Operation, dirs: History, session: Str, legacy: LegacyInput, force: bool)
    requires !op.DryRun? && DeriveAdmission(op, ScanHistory(dirs, session), legacy, force).Admitted?
    ensures forall id :: id in dirs ==> Sound(dirs[id], id, session) && !Blocks(dirs[id], id, session)
    ensures op.FullApply? ==> forall id :: id in dirs ==> !Succeeded(dirs[id], id, session)
  {
    var scan := ScanHistory(dirs, session);
    AdmittedExactly(op, scan, legacy, force);
    ScanReadable(dirs, session);
    NothingBlocks(dirs, session);
    if op.FullApply? {
      var names := SortedKeys.Ordered(dirs.Keys);
      forall id | id in dirs ensures !Succeeded(dirs[id], id, session) {
        ReadAllMeaning(dirs, names, session);
        NoSucceededIds(dirs, names, session, scan.report.invocations, id);
      }
    }
  }
}
