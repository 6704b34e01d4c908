/** What a blocker does not stop: other sessions, and whatever follows a full apply that crashed. */
module RollbackSessions {
  import opened Text
  import opened RollbackHistory
  import opened RollbackAdmission
  import opened RollbackProtocol

  // ---------------------------------------------------------------- which stops leave a blocker

  /** The stages at which the process's own marker stands without a receipt. */
  predicate MarkerStands(me: Process, h: History)
    requires me.Running?
  {
    me.stage.Marked? || me.stage.Mutating? || me.stage.Owing? || (me.stage.Unsure? && Owns(me, h, me.stage.id))
  }

  lemma StageBlocksExactly(me: Process, h: History, applied: bool)
    requires me.Running? && StageOk(me, h, applied) && !me.stage.AtScan? && !me.stage.Leaving?
    ensures Clear(h, me.session) <==> !MarkerStands(me, h)
  {
    if MarkerStands(me, h) {
      OwnedBlocks(me, h, me.stage.id);
    }
  }

  /**
   * An admitted process that stops leaves its session blocked exactly when its own marker stands without a receipt. So a
   * full apply, which publishes none, never does, not even when it crashes while it overwrites the files.
   */
  lemma StoppingBlocksExactly(run: seq<State>, i: nat, p: Pid, released: bool)
    requires Run(run) && i + 1 < |run| && Runs(run[i], p) && run[i + 1] == Next(run[i], p, Leave(released))
    requires !run[i].procs[p].stage.AtScan? && !run[i].procs[p].stage.Leaving?
    ensures var me := run[i].procs[p];
            && (Clear(HistoryOf(run[i + 1], me.session), me.session) <==> !MarkerStands(me, HistoryOf(run[i], me.session)))
            && (me.op.FullApply? ==> Clear(HistoryOf(run[i + 1], me.session), me.session))
  {
    RunKeepsInv(run, i);
    var me := run[i].procs[p];
    StageBlocksExactly(me, HistoryOf(run[i], me.session), me.session in run[i].applied);
    if me.op.FullApply? {
      FullNeverMarked(me, HistoryOf(run[i], me.session), me.session in run[i].applied);
    }
  }

  lemma FullNeverMarked(me: Process, h: History, applied: bool)
    requires me.Running? && StageOk(me, h, applied) && me.op.FullApply?
    ensures !MarkerStands(me, h)
  {
  }

  // ---------------------------------------------------------------- what marker and receipt say afterwards

  lemma ReceiptBinds(me: Process, h: History, id: Str, applied: bool, succeeded: bool)
    requires me.Running? && me.stage == Owing(id) && StageOk(me, h, applied)
    ensures var dir := HistoryAfter(h, me, WriteReceipt(succeeded))[id];
            ScanOne(dir, id, me.session) == Scanned(Finalized(id, h[id].marker.attempt.writtenAt, me.binding.checkpoint, succeeded))
  {
  }

  /** A receipt finalizes its own marker: from then on the directory is a success or, if the apply failed, still blocks. */
  lemma ReceiptFinalizes(run: seq<State>, i: nat, p: Pid, succeeded: bool)
    requires Run(run) && i + 1 < |run| && Runs(run[i], p) && run[i].procs[p].stage.Owing?
    requires Enabled(run[i], p, WriteReceipt(succeeded)) && run[i + 1] == Next(run[i], p, WriteReceipt(succeeded))
    ensures var session, id := run[i].procs[p].session, run[i].procs[p].stage.id;
            var h := HistoryOf(run[i + 1], session);
            && id in h && (Succeeded(h[id], id, session) <==> succeeded) && (Blocks(h[id], id, session) <==> !succeeded)
            && (succeeded ==> Clear(h, session))
  {
    RunKeepsInv(run, i);
    var me := run[i].procs[p];
    ReceiptBinds(me, HistoryOf(run[i], me.session), me.stage.id, me.session in run[i].applied, succeeded);
  }

  /** A published marker is reported with the time it was written and the checkpoint taken for this apply, and blocks. */
  lemma MarkerReported(me: Process, h: History, id: Str, writtenAt: Str)
    requires me.Running? && me.stage == Reserved(id) && me.binding.sessionId == me.session
    ensures var dir := HistoryAfter(h, me, Publish(writtenAt))[id];
            && ScanOne(dir, id, me.session) == Scanned(Unfinalized(id, writtenAt, me.binding.checkpoint))
            && Blocks(dir, id, me.session) && InspectPublication(dir, id, me.binding).Published?
  {
  }

  // ---------------------------------------------------------------- a session without history

  ghost predicate Waiting(s: State) { !s.locked && forall p :: !Runs(s, p) }

  /** Nothing of the session is on record, and the legacy layer has nothing against an apply of it. */
  ghost predicate Fresh(s: State, session: Str, p: LegacyParams) {
    HistoryOf(s, session) == map[] && session !in s.applied && Consistent(p) && p.target == session && LegacyAllows(p, false)
  }

  ghost function Last(run: seq<State>): State
    requires run != []
  {
    run[|run| - 1]
  }

  lemma EmptyHistoryAdmits(op: Operation, session: Str, p: LegacyParams)
    requires !op.DryRun? && Consistent(p) && LegacyAllows(p, false)
    ensures DeriveAdmission(op, ScanHistory(map[], session), Loaded(p), false).Admitted?
  {
    ScanReadable(map[], session);
    NothingBlocks(map[], session);
    AdmittedExactly(op, ScanHistory(map[], session), Loaded(p), false);
  }

  lemma Acquires(run: seq<State>, q: Pid, op: Operation, binding: Binding) returns (longer: seq<State>)
    requires Run(run) && Waiting(Last(run)) && q !in Last(run).procs
    ensures Run(longer) && longer == run + [Next(Last(run), q, Acquire(op, binding.sessionId, binding))]
  {
    longer := Extended(run, q, Acquire(op, binding.sessionId, binding));
  }

  /** `s` with process `q` holding the lock, and its session's history. */
  ghost function Put(s: State, q: Pid, me: Process, h: History): State
    requires me.Running?
  {
    s.(locked := true, procs := s.procs[q := me], store := s.store[me.session := h])
  }

  lemma PutAgain(s: State, q: Pid, me: Process, h: History, me': Process, h': History)
    requires me.Running? && me'.Running? && me'.session == me.session
    ensures Put(Put(s, q, me, h), q, me', h') == Put(s, q, me', h')
  {
    assert s.procs[q := me][q := me'] == s.procs[q := me'];
    assert s.store[me.session := h][me.session := h'] == s.store[me.session := h'];
  }

  /** A step that leaves the process running puts its new stage and history. */
  lemma MovePuts(s: State, q: Pid, me: Process, h: History, a: Action, stage: Stage, h': History)
    requires me.Running? && !a.Acquire? && !a.RemoveStaleLock? && !a.Leave? && !a.WriteReceipt?
    requires StageAfter(Put(s, q, me, h), me, a) == stage && HistoryAfter(h, me, a) == h'
    ensures Next(Put(s, q, me, h), q, a) == Put(s, q, me.(stage := stage), h')
  {
    PutAgain(s, q, me, h, me.(stage := stage), h');
  }

  ghost function AdmittedState(s: State, q: Pid, op: Operation, binding: Binding): State {
    Put(s, q, Running(op, binding.sessionId, binding, Permitted), map[])
  }

  lemma Decides(s: State, q: Pid, op: Operation, binding: Binding, p: LegacyParams)
    requires !op.DryRun? && Fresh(s, binding.sessionId, p)
    requires s.locked && q in s.procs && s.procs[q] == Running(op, binding.sessionId, binding, AtScan)
    ensures Enabled(s, q, Decide(true, Loaded(p), false)) && Next(s, q, Decide(true, Loaded(p), false)) == AdmittedState(s, q, op, binding)
  {
    EmptyHistoryAdmits(op, binding.sessionId, p);
  }

  /** An apply of a session without history is admitted, whatever the other sessions hold. */
  lemma Admits(run: seq<State>, q: Pid, op: Operation, binding: Binding, p: LegacyParams) returns (longer: seq<State>)
    requires Run(run) && Waiting(Last(run)) && q !in Last(run).procs && !op.DryRun? && Fresh(Last(run), binding.sessionId, p)
    ensures Run(longer) && run <= longer && |longer| == |run| + 2 && Last(longer) == AdmittedState(Last(run), q, op, binding)
  {
    longer := Acquires(run, q, op, binding);
    Decides(Last(longer), q, op, binding, p);
    longer := Extended(longer, q, Decide(true, Loaded(p), false));
  }

  function Applying(binding: Binding, stage: Stage): Process { Running(SelectiveApply, binding.sessionId, binding, stage) }

  function MarkerDir(binding: Binding, id: Str, writtenAt: Str): Invocation {
    Invocation(Marker(MarkerOf(Applying(binding, Reserved(id)), id, writtenAt)), NoReceipt)
  }

  ghost function MutatingState(s: State, q: Pid, binding: Binding, id: Str, writtenAt: Str): State {
    Put(s, q, Applying(binding, Mutating(id)), map[id := MarkerDir(binding, id, writtenAt)])
  }

  lemma SelectiveMutates(run: seq<State>, q: Pid, binding: Binding, p: LegacyParams, id: Str, writtenAt: Str) returns (longer: seq<State>)
    requires Run(run) && Waiting(Last(run)) && q !in Last(run).procs && ValidName(id) && Fresh(Last(run), binding.sessionId, p)
    ensures Run(longer) && run <= longer && Last(longer) == MutatingState(Last(run), q, binding, id, writtenAt)
  {
    var s, marked := Last(run), MarkerDir(binding, id, writtenAt);
    longer := Admits(run, q, SelectiveApply, binding, p);
    longer := Puts(longer, s, q, Applying(binding, Permitted), map[], Reserve(id), Reserved(id), map[id := EMPTY]);
    longer := Puts(longer, s, q, Applying(binding, Reserved(id)), map[id := EMPTY], Publish(writtenAt), Marked(id), map[id := marked]);
    longer := Puts(longer, s, q, Applying(binding, Marked(id)), map[id := marked], BeginMutation, Mutating(id), map[id := marked]);
  }

  lemma Puts(run: seq<State>, s: State, q: Pid, me: Process, h: History, a: Action, stage: Stage, h': History) returns (longer: seq<State>)
    requires Run(run) && me.Running? && Last(run) == Put(s, q, me, h)
    requires a.Reserve? || a.Publish? || a.BeginMutation?
    requires MayDo(me, a, Put(s, q, me, h)) && StageAfter(Put(s, q, me, h), me, a) == stage && HistoryAfter(h, me, a) == h'
    ensures Run(longer) && longer == run + [Put(s, q, me.(stage := stage), h')]
  {
    longer := Extended(run, q, a);
    MovePuts(s, q, me, h, a, stage, h');
  }

  /** The first selective apply of a session can get to mutating, and a crash there blocks the session for good. */
  lemma CrashWhileMutating(binding: Binding, id: Str, writtenAt: Str, p: LegacyParams) returns (run: seq<State>)
    requires ValidName(id) && Consistent(p) && p.target == binding.sessionId && LegacyAllows(p, false)
    ensures Run(run) && |run| > 1 && run[|run| - 2] == MutatingState(START, 0, binding, id, writtenAt) && Mutates(run[|run| - 2], 0)
    ensures Last(run) == run[|run| - 2].(procs := map[0 := Gone]) && Stuck(Last(run), binding.sessionId, id)
  {
    run := SelectiveMutates([START], 0, binding, p, id, writtenAt);
    var n := |run| - 1;
    run := Extended(run, 0, Leave(false));
    StoppingLeavesItBlocked(run, n, 0, Leave(false));
  }

  const START := State(false, map[], map[], {})

  // ---------------------------------------------------------------- other sessions

  /** While one session is blocked for good, an apply of any session without history still gets to mutating. */
  lemma BlockerBindsOneSession(run: seq<State>, blocked: Str, at: Str, q: Pid, binding: Binding, p: LegacyParams, id: Str, writtenAt: Str)
    returns (longer: seq<State>)
    requires Run(run) && Stuck(Last(run), blocked, at)
    requires Waiting(Last(run)) && q !in Last(run).procs && ValidName(id) && Fresh(Last(run), binding.sessionId, p)
    ensures Run(longer) && run <= longer && Mutates(Last(longer), q) && Last(longer).procs[q].session == binding.sessionId != blocked
    ensures Stuck(Last(longer), blocked, at)
  {
    longer := SelectiveMutates(run, q, binding, p, id, writtenAt);
    BlockedForever(longer, |run| - 1, |longer| - 1, blocked, at, HistoryOf(Last(run), blocked)[at]);
  }

  lemma CrashThenUnlock(binding: Binding, id: Str, writtenAt: Str, p: LegacyParams) returns (run: seq<State>)
    requires ValidName(id) && Consistent(p) && p.target == binding.sessionId && LegacyAllows(p, false)
    ensures Run(run) && Waiting(Last(run)) && Last(run).procs.Keys == {0} && Stuck(Last(run), binding.sessionId, id)
    ensures Last(run).applied == {} && forall other :: other != binding.sessionId ==> HistoryOf(Last(run), other) == map[]
  {
    run := CrashWhileMutating(binding, id, writtenAt, p);
    run := Extended(run, 0, RemoveStaleLock);
  }

  /** Such runs exist: one apply crashes while it mutates, and an apply of another session mutates afterwards. */
  lemma TwoSessionsRun(first: Binding, p: LegacyParams, id: Str, second: Binding, p': LegacyParams, id': Str, writtenAt: Str)
    returns (run: seq<State>)
    requires ValidName(id) && Consistent(p) && p.target == first.sessionId && LegacyAllows(p, false)
    requires ValidName(id') && Consistent(p') && p'.target == second.sessionId && LegacyAllows(p', false)
    requires first.sessionId != second.sessionId
    ensures Run(run) && Stuck(Last(run), first.sessionId, id)
    ensures Mutates(Last(run), 1) && Last(run).procs[1].session == second.sessionId
  {
    run := CrashThenUnlock(first, id, writtenAt, p);
    run := BlockerBindsOneSession(run, first.sessionId, id, 1, second, p', id', writtenAt);
  }

  // ---------------------------------------------------------------- a full apply that crashes

  lemma FullApplyCrashes(binding: Binding, p: LegacyParams) returns (run: seq<State>)
    requires Consistent(p) && p.target == binding.sessionId && LegacyAllows(p, false)
    ensures Run(run) && |run| == 6 && Mutates(run[3], 0)
    ensures run[3].procs[0].session == binding.sessionId && 0 in run[4].procs && run[4].procs[0] == Gone
    ensures Waiting(run[5]) && run[5].procs.Keys == {0} && Fresh(run[5], binding.sessionId, p)
  {
    run := Admits([START], 0, FullApply, binding, p);
    run := Extended(run, 0, BeginMutation);
    run := Extended(run, 0, Leave(false));
    run := Extended(run, 0, RemoveStaleLock);
  }

  /** A full apply that crashes while it overwrites leaves no trace in the history: another apply of its session mutates after it. */
  lemma CrashedFullApplyRun(binding: Binding, p: LegacyParams, id: Str, writtenAt: Str) returns (run: seq<State>)
    requires Consistent(p) && p.target == binding.sessionId && LegacyAllows(p, false) && ValidName(id)
    ensures Run(run) && 5 < |run| && Mutates(run[3], 0) && 0 in run[4].procs && run[4].procs[0] == Gone
    ensures Mutates(Last(run), 1) && Last(run).procs[1].session == run[3].procs[0].session == binding.sessionId
  {
    run := FullApplyCrashes(binding, p);
    run := SelectiveMutates(run, 1, binding, p, id, writtenAt);
  }
}
