/**
 * Runs of any number of rollback processes over one repository.
 *
 * Each process takes the mkdir lock, scans the history, asks the gate, and, for an apply, publishes its marker, mutates,
 * writes its receipt and releases the lock. Between any two steps it may crash, and any write may fail.
 */
module RollbackProtocol {
  import opened Text
  import opened RollbackHistory
  import opened RollbackAdmission

  type Pid = nat

  datatype Stage =
    | AtScan                 // holds the lock, has decided nothing
    | Permitted              // the gate admitted it
    | Reserved(id: Str)      // made its directory
    | Marked(id: Str)        // published its marker
    | Unsure(id: Str)        // publication threw
    | Mutating(id: Str)      // the selective transplant is running
    | Owing(id: Str)         // the transplant is over, a receipt is owed
    | Overwriting            // the full restore is running
    | OwingFull              // the full restore is over, its receipt is owed
    | Leaving                // only the release is left

  datatype Process = Running(op: Operation, session: Str, binding: Binding, stage: Stage) | Gone

  /** `store` has each session's `rollbacks/` directory, `applied` the sessions with a full apply receipt. */
  datatype State = State(locked: bool, procs: map<Pid, Process>, store: map<Str, History>, applied: set<Str>)

  datatype Action =
    | Acquire(op: Operation, session: Str, binding: Binding)
    | Decide(readable: bool, legacy: LegacyInput, force: bool)
    | Reserve(id: Str)
    | Publish(writtenAt: Str)
    | PublicationThrows(id: Str)
    | Inspect(readable: bool)
    | BeginMutation
    | EndMutation
    | WriteReceipt(succeeded: bool)
    | SkipReceipt
    | Leave(released: bool)  // a return, a throw or, when the lock stays behind, a crash or a failed release
    | RemoveStaleLock        // by hand, once nothing runs

  const EMPTY := Invocation(NoMarker, NoReceipt)

  predicate Runs(s: State, p: Pid) { p in s.procs && s.procs[p].Running? }

  function HistoryOf(s: State, session: Str): History {
    if session in s.store then s.store[session] else map[]
  }

  function DirAt(h: History, id: Str): Invocation {
    if id in h then h[id] else EMPTY
  }

  /** What the legacy layer loads under the lock agrees with the receipt on disk. */
  predicate Loads(s: State, session: Str, legacy: LegacyInput) {
    legacy.Loaded? && Consistent(legacy.params) ==>
      legacy.params.target == session && (legacy.params.existing.Applied? <==> session in s.applied)
  }

  /** What a running process may do at its stage. */
  predicate MayDo(me: Process, a: Action, s: State)
    requires me.Running?
  {
    match a
    case Acquire(_, _, _) => false
    case RemoveStaleLock => false
    case Decide(_, legacy, _) => me.stage.AtScan? && Loads(s, me.session, legacy)
    case Reserve(id) => me.stage.Permitted? && me.op.SelectiveApply? && ValidName(id) && id !in HistoryOf(s, me.session)
    case Publish(_) => me.stage.Reserved?
    case PublicationThrows(id) =>
      (me.stage.Permitted? && me.op.SelectiveApply? && ValidName(id)) || me.stage == Reserved(id) || me.stage == Marked(id)
    case Inspect(_) => me.stage.Unsure?
    case BeginMutation => me.stage.Marked? || (me.stage.Permitted? && me.op.FullApply?)
    case EndMutation => me.stage.Mutating? || me.stage.Marked? || me.stage.Overwriting?
    case WriteReceipt(_) => me.stage.OwingFull? || (me.stage.Owing? && DirAt(HistoryOf(s, me.session), me.stage.id).receipt.NoReceipt?)
    case SkipReceipt => me.stage.Owing? || me.stage.OwingFull?
    case Leave(_) => true
  }

  ghost predicate Enabled(s: State, p: Pid, a: Action) {
    if a.Acquire? then p !in s.procs && !s.locked && a.binding.sessionId == a.session
    else if a.RemoveStaleLock? then s.locked && forall q :: !Runs(s, q)
    else Runs(s, p) && MayDo(s.procs[p], a, s)
  }

  function MarkerOf(me: Process, id: Str, writtenAt: Str): Attempt
    requires me.Running?
  {
    Attempt(id, me.session, me.binding.contribution, me.binding.checkpoint, me.binding.selection, writtenAt)
  }

  function ReceiptOf(me: Process, id: Str, succeeded: bool): Receipt
    requires me.Running?
  {
    Receipt(true, id, me.session, me.binding.contribution, me.binding.checkpoint, me.binding.selection, succeeded)
  }

  /** The stage a running process reaches. */
  ghost function StageAfter(s: State, me: Process, a: Action): Stage
    requires me.Running?
  {
    var h := HistoryOf(s, me.session);
    match a
    case Decide(readable, legacy, force) =>
      var scan := if readable then ScanHistory(h, me.session) else Faulty(Unreadable, []);
      if !me.op.DryRun? && DeriveAdmission(me.op, scan, legacy, force).Admitted? then Permitted else Leaving
    case Reserve(id) => Reserved(id)
    case Publish(_) => if me.stage.Reserved? then Marked(me.stage.id) else me.stage
    case PublicationThrows(id) => Unsure(id)
    case Inspect(readable) =>
      if readable && me.stage.Unsure? && InspectPublication(DirAt(h, me.stage.id), me.stage.id, me.binding).Published?
      then Owing(me.stage.id) else Leaving
    case BeginMutation => if me.stage.Marked? then Mutating(me.stage.id) else Overwriting
    case EndMutation => if me.stage.Mutating? || me.stage.Marked? then Owing(me.stage.id) else OwingFull
    case _ => Leaving
  }

  /** The session's history after a step of `me`. */
  function HistoryAfter(h: History, me: Process, a: Action): History
    requires me.Running?
  {
    match a
    case Reserve(id) => h[id := EMPTY]
    case Publish(writtenAt) =>
      if me.stage.Reserved? then h[me.stage.id := Invocation(Marker(MarkerOf(me, me.stage.id, writtenAt)), NoReceipt)] else h
    case WriteReceipt(succeeded) =>
      if me.stage.Owing? then h[me.stage.id := Invocation(DirAt(h, me.stage.id).marker, Received(ReceiptOf(me, me.stage.id, succeeded)))] else h
    case _ => h
  }

  ghost function Moved(s: State, p: Pid, a: Action): State
    requires Runs(s, p)
  {
    var me := s.procs[p];
    s.(procs := s.procs[p := me.(stage := StageAfter(s, me, a))],
       store := s.store[me.session := HistoryAfter(HistoryOf(s, me.session), me, a)],
       applied := if a.WriteReceipt? && me.stage.OwingFull? then s.applied + {me.session} else s.applied)
  }

  ghost function Next(s: State, p: Pid, a: Action): State {
    if a.Acquire? then s.(locked := true, procs := s.procs[p := Running(a.op, a.session, a.binding, AtScan)])
    else if a.RemoveStaleLock? then s.(locked := false)
    else if a.Leave? then s.(locked := s.locked && !a.released, procs := s.procs[p := Gone])
    else if Runs(s, p) then Moved(s, p, a)
    else s
  }

  ghost predicate Takes(s: State, p: Pid, a: Action, s': State) { Enabled(s, p, a) && s' == Next(s, p, a) }

  ghost predicate Steps(s: State, s': State) { exists p, a :: Takes(s, p, a, s') }

  // ---------------------------------------------------------------- the invariant

  ghost predicate Clear(h: History, session: Str) { forall id :: id in h ==> !Blocks(h[id], id, session) }

  ghost predicate Only(h: History, session: Str, id: Str) { forall other :: other in h && Blocks(h[other], other, session) ==> other == id }

  ghost predicate NoSuccess(h: History, session: Str) { forall id :: id in h ==> !Succeeded(h[id], id, session) }

  ghost predicate OneBlocker(h: History, session: Str) {
    forall a, b :: a in h && b in h && Blocks(h[a], a, session) && Blocks(h[b], b, session) ==> a == b
  }

  /** The process's own marker stands in directory `id`, with no receipt. */
  predicate Owns(me: Process, h: History, id: Str) {
    me.Running? && id in h && h[id].receipt.NoReceipt? && h[id].marker.Marker? && Describes(h[id].marker.attempt, id, me.binding)
  }

  ghost predicate StageOk(me: Process, h: History, applied: bool)
    requires me.Running?
  {
    && me.binding.sessionId == me.session
    && match me.stage
       case AtScan => true
       case Leaving => true
       case Permitted => !me.op.DryRun? && !applied && Clear(h, me.session) && (me.op.FullApply? ==> NoSuccess(h, me.session))
       case Overwriting => me.op.FullApply? && !applied && Clear(h, me.session) && NoSuccess(h, me.session)
       case OwingFull => me.op.FullApply? && !applied && Clear(h, me.session)
       case Reserved(id) => me.op.SelectiveApply? && !applied && Clear(h, me.session) && id in h && h[id] == EMPTY
       case Marked(id) => me.op.SelectiveApply? && !applied && Only(h, me.session, id) && Owns(me, h, id)
       case Mutating(id) => me.op.SelectiveApply? && !applied && Only(h, me.session, id) && Owns(me, h, id)
       case Owing(id) => me.op.SelectiveApply? && !applied && Only(h, me.session, id) && Owns(me, h, id)
       case Unsure(id) => me.op.SelectiveApply? && !applied && (Clear(h, me.session) || (Only(h, me.session, id) && Owns(me, h, id)))
  }

  ghost predicate Alone(s: State) {
    forall p, q :: Runs(s, p) && Runs(s, q) ==> p == q && s.locked
  }

  ghost predicate Inv(s: State) {
    && Alone(s)
    && (forall session :: session in s.store ==> OneBlocker(s.store[session], session))
    && (forall p :: Runs(s, p) ==> StageOk(s.procs[p], HistoryOf(s, s.procs[p].session), s.procs[p].session in s.applied))
  }

  /** Nothing runs, and no history holds two blockers; what else the histories hold, and the lock, are arbitrary. */
  ghost predicate Initial(s: State) {
    s.procs == map[] && forall session :: session in s.store ==> OneBlocker(s.store[session], session)
  }

  // ---------------------------------------------------------------- one step

  lemma OwnedBlocks(me: Process, h: History, id: Str)
    requires Owns(me, h, id) && me.binding.sessionId == me.session
    ensures Blocks(h[id], id, me.session)
  {
  }

  lemma StageDecides(s: State, me: Process, a: Action)
    requires me.Running? && a.Decide? && Loads(s, me.session, a.legacy) && me.binding.sessionId == me.session
    ensures StageOk(me.(stage := StageAfter(s, me, a)), HistoryOf(s, me.session), me.session in s.applied)
  {
    var h := HistoryOf(s, me.session);
    var scan := if a.readable then ScanHistory(h, me.session) else Faulty(Unreadable, []);
    if !me.op.DryRun? && DeriveAdmission(me.op, scan, a.legacy, a.force).Admitted? {
      AdmittedExactly(me.op, scan, a.legacy, a.force);
      AdmittedOverHistory(me.op, h, me.session, a.legacy, a.force);
    }
  }

  /** A step of a process at a stage that holds leaves it at a stage that holds, and at most one blocker. */
  lemma StageSteps(s: State, p: Pid, a: Action)
    requires Runs(s, p) && Enabled(s, p, a) && !a.Leave? && !a.Acquire? && !a.RemoveStaleLock?
    requires StageOk(s.procs[p], HistoryOf(s, s.procs[p].session), s.procs[p].session in s.applied)
    requires OneBlocker(HistoryOf(s, s.procs[p].session), s.procs[p].session)
    ensures var me, s' := s.procs[p], Next(s, p, a);
            StageOk(s'.procs[p], HistoryOf(s', me.session), me.session in s'.applied) && OneBlocker(HistoryOf(s', me.session), me.session)
  {
    var me := s.procs[p];
    if a.Decide? {
      StageDecides(s, me, a);
    } else if a.Inspect? {
      InspectionAgreesWithScan(DirAt(HistoryOf(s, me.session), me.stage.id), me.stage.id, me.binding);
    }
  }

  lemma StepsKeepInv(s: State, p: Pid, a: Action)
    requires Inv(s) && Enabled(s, p, a)
    ensures Inv(Next(s, p, a))
  {
    if a.Acquire? {
      AcquireKeepsInv(s, p, a);
    } else if a.RemoveStaleLock? || a.Leave? {
      LeaveKeepsInv(s, p, a);
    } else {
      MoveKeepsInv(s, p, a);
    }
  }

  lemma AcquireKeepsInv(s: State, p: Pid, a: Action)
    requires Inv(s) && Enabled(s, p, a) && a.Acquire?
    ensures Inv(Next(s, p, a))
  {
    var s' := Next(s, p, a);
    assert forall q :: Runs(s', q) ==> q == p || Runs(s, q);
    assert forall q :: !Runs(s, q);
  }

  lemma LeaveKeepsInv(s: State, p: Pid, a: Action)
    requires Inv(s) && Enabled(s, p, a) && (a.Leave? || a.RemoveStaleLock?)
    ensures Inv(Next(s, p, a))
  {
    var s' := Next(s, p, a);
    forall q | Runs(s', q) ensures Runs(s, q) && s'.procs[q] == s.procs[q] && (a.Leave? ==> q != p) {
    }
  }

  lemma MoveKeepsInv(s: State, p: Pid, a: Action)
    requires Inv(s) && Enabled(s, p, a) && Runs(s, p) && !a.Acquire? && !a.RemoveStaleLock? && !a.Leave?
    ensures Inv(Next(s, p, a))
  {
    var s' := Next(s, p, a);
    var session := s.procs[p].session;
    assert OneBlocker(HistoryOf(s, session), session);
    StageSteps(s, p, a);
    assert forall q :: Runs(s', q) ==> q == p || Runs(s, q);
    assert s'.store[session] == HistoryOf(s', session);
  }

  // ---------------------------------------------------------------- whole runs

  /** State `i` follows from the state before by one step of one process. */
  ghost predicate StepAt(run: seq<State>, i: nat) { 0 < i < |run| && Steps(run[i - 1], run[i]) }

  ghost predicate Run(run: seq<State>) {
    run != [] && Initial(run[0]) && forall i: nat :: 0 < i < |run| ==> StepAt(run, i)
  }

  lemma StepOf(run: seq<State>, i: nat) returns (p: Pid, a: Action)
    requires Run(run) && i + 1 < |run|
    ensures Takes(run[i], p, a, run[i + 1])
  {
    assert StepAt(run, i + 1);
    p, a :| Takes(run[i], p, a, run[i + 1]);
  }

  lemma InvAtNext(run: seq<State>, i: nat)
    requires Run(run) && i + 1 < |run| && Inv(run[i])
    ensures Inv(run[i + 1])
  {
    var p, a := StepOf(run, i);
    StepsKeepInv(run[i], p, a);
  }

  lemma InvAtStart(run: seq<State>)
    requires Run(run)
    ensures Inv(run[0])
  {
  }

  lemma {:induction false} RunKeepsInv(run: seq<State>, i: nat)
    requires Run(run) && i < |run|
    ensures Inv(run[i])
    decreases i
  {
    if i == 0 {
      InvAtStart(run);
    } else {
      RunKeepsInv(run, i - 1);
      InvAtNext(run, i - 1);
    }
  }

  predicate Mutates(s: State, p: Pid) {
    Runs(s, p) && (s.procs[p].stage.Mutating? || s.procs[p].stage.Overwriting?)
  }

  /** In every state of every run, a session's history holds at most one blocking invocation. */
  lemma NeverTwoBlockers(run: seq<State>, i: nat, session: Str, a: Str, b: Str)
    requires Run(run) && i < |run|
    requires var h := HistoryOf(run[i], session); a in h && b in h && Blocks(h[a], a, session) && Blocks(h[b], b, session)
    ensures a == b
  {
    RunKeepsInv(run, i);
  }

  /** In every state of every run, at most one process mutates, and it holds the lock. */
  lemma OneMutator(run: seq<State>, i: nat, p: Pid, q: Pid)
    requires Run(run) && i < |run| && Mutates(run[i], p) && Mutates(run[i], q)
    ensures p == q && run[i].locked
  {
    RunKeepsInv(run, i);
  }

  /**
   * The state in which a process is about to mutate: nothing in its session's history blocks but, for a selective apply,
   * the marker it has just published; no full apply of the session is on record, and a full apply finds no selective
   * success either.
   */
  ghost predicate ClearToMutate(s: State, me: Process)
    requires me.Running?
  {
    var h := HistoryOf(s, me.session);
    && me.session !in s.applied
    && (me.op.FullApply? ==> Clear(h, me.session) && NoSuccess(h, me.session))
    && (!me.op.FullApply? ==> me.op.SelectiveApply? && me.stage.Marked? && Only(h, me.session, me.stage.id) && Owns(me, h, me.stage.id))
  }

  lemma BeginsByItself(s: State, q: Pid, a: Action, p: Pid)
    requires Enabled(s, q, a) && Mutates(Next(s, q, a), p) && !Mutates(s, p)
    ensures p == q && Runs(s, p) && a.BeginMutation? && Next(s, q, a).procs[p].session == s.procs[p].session
  {
  }

  lemma BeginsClear(s: State, p: Pid)
    requires Inv(s) && Runs(s, p) && Enabled(s, p, BeginMutation)
    ensures ClearToMutate(s, s.procs[p])
  {
  }

  /** No apply begins mutating while a blocker exists: the state before is always clear. */
  lemma MutationBeginsClear(run: seq<State>, i: nat, p: Pid)
    requires Run(run) && i + 1 < |run| && Mutates(run[i + 1], p) && !Mutates(run[i], p)
    ensures Runs(run[i], p) && run[i + 1].procs[p].session == run[i].procs[p].session && ClearToMutate(run[i], run[i].procs[p])
  {
    RunKeepsInv(run, i);
    var q, a := StepOf(run, i);
    BeginsByItself(run[i], q, a, p);
    BeginsClear(run[i], p);
  }

  // ---------------------------------------------------------------- what is never undone

  /** A blocker nobody is working on any more: whoever runs on its session has decided nothing or is leaving. */
  ghost predicate Stuck(s: State, session: Str, id: Str) {
    && id in HistoryOf(s, session) && Blocks(HistoryOf(s, session)[id], id, session)
    && forall p :: Runs(s, p) && s.procs[p].session == session ==> s.procs[p].stage.AtScan? || s.procs[p].stage.Leaving?
  }

  lemma BlockedDecision(s: State, p: Pid, a: Action, session: Str, id: Str)
    requires Enabled(s, p, a) && a.Decide? && Stuck(s, session, id) && s.procs[p].session == session
    ensures StageAfter(s, s.procs[p], a) == Leaving
  {
    var me, h := s.procs[p], HistoryOf(s, session);
    var scan := if a.readable then ScanHistory(h, session) else Faulty(Unreadable, []);
    if !me.op.DryRun? && DeriveAdmission(me.op, scan, a.legacy, a.force).Admitted? {
      AdmittedExactly(me.op, scan, a.legacy, a.force);
      AdmittedOverHistory(me.op, h, session, a.legacy, a.force);
    }
  }

  lemma StuckStays(s: State, p: Pid, a: Action, session: Str, id: Str)
    requires Enabled(s, p, a) && Stuck(s, session, id)
    ensures Stuck(Next(s, p, a), session, id)
    ensures HistoryOf(Next(s, p, a), session)[id] == HistoryOf(s, session)[id]
  {
    if a.Decide? && s.procs[p].session == session {
      BlockedDecision(s, p, a, session, id);
    }
  }

  /** Stuck, with this directory. */
  ghost predicate StuckWith(s: State, session: Str, id: Str, dir: Invocation) {
    Stuck(s, session, id) && HistoryOf(s, session)[id] == dir
  }

  ghost predicate NoMutation(s: State, session: Str) { forall p :: Mutates(s, p) ==> s.procs[p].session != session }

  lemma StuckBarsMutation(s: State, session: Str, id: Str, dir: Invocation)
    requires StuckWith(s, session, id, dir)
    ensures NoMutation(s, session)
  {
  }

  lemma StuckAtNext(run: seq<State>, i: nat, session: Str, id: Str, dir: Invocation)
    requires Run(run) && i + 1 < |run| && StuckWith(run[i], session, id, dir)
    ensures StuckWith(run[i + 1], session, id, dir)
  {
    var p, a := StepOf(run, i);
    StuckStays(run[i], p, a, session, id);
  }

  /** From then on the directory never changes and no apply of the session ever mutates again, in any continuation. */
  lemma {:induction false} BlockedForever(run: seq<State>, i: nat, j: nat, session: Str, id: Str, dir: Invocation)
    requires Run(run) && i <= j < |run| && StuckWith(run[i], session, id, dir)
    ensures StuckWith(run[j], session, id, dir) && NoMutation(run[j], session)
    decreases j
  {
    if i < j {
      BlockedForever(run, i, j - 1, session, id, dir);
      StuckAtNext(run, j - 1, session, id, dir);
    }
    StuckBarsMutation(run[j], session, id, dir);
  }

  lemma LeavingLeavesStuck(s: State, p: Pid, a: Action)
    requires Inv(s) && Enabled(s, p, a) && a.Leave?
    requires s.procs[p].stage.Marked? || s.procs[p].stage.Mutating? || s.procs[p].stage.Owing?
    ensures Stuck(Next(s, p, a), s.procs[p].session, s.procs[p].stage.id)
  {
    var me, s' := s.procs[p], Next(s, p, a);
    OwnedBlocks(me, HistoryOf(s, me.session), me.stage.id);
    assert HistoryOf(s', me.session) == HistoryOf(s, me.session);
    forall q | Runs(s', q) ensures q != p && Runs(s, q) {
    }
  }

  /**
   * A selective apply that stops anywhere between publishing its marker and writing its receipt, by a crash or a throw,
   * whether or not the lock was released, leaves the session blocked for good.
   */
  lemma StoppingLeavesItBlocked(run: seq<State>, i: nat, p: Pid, a: Action)
    requires Run(run) && i + 1 < |run| && Enabled(run[i], p, a) && run[i + 1] == Next(run[i], p, a) && a.Leave?
    requires run[i].procs[p].stage.Marked? || run[i].procs[p].stage.Mutating? || run[i].procs[p].stage.Owing?
    ensures Stuck(run[i + 1], run[i].procs[p].session, run[i].procs[p].stage.id)
  {
    RunKeepsInv(run, i);
    LeavingLeavesStuck(run[i], p, a);
  }

  /** The directory holds a selective apply that succeeded. */
  ghost predicate HoldsSuccess(s: State, session: Str, id: Str, dir: Invocation) {
    id in HistoryOf(s, session) && HistoryOf(s, session)[id] == dir && Succeeded(dir, id, session)
  }

  lemma SuccessStays(s: State, p: Pid, a: Action, s': State, session: Str, id: Str, dir: Invocation)
    requires Inv(s) && Takes(s, p, a, s') && HoldsSuccess(s, session, id, dir)
    ensures HoldsSuccess(s', session, id, dir)
  {
  }

  ghost predicate NoFullMutation(s: State, session: Str) {
    forall p :: Runs(s, p) && s.procs[p].session == session ==> !s.procs[p].stage.Overwriting?
  }

  lemma SuccessBarsOverwriting(s: State, session: Str, id: Str, dir: Invocation)
    requires Inv(s) && HoldsSuccess(s, session, id, dir)
    ensures NoFullMutation(s, session)
  {
  }

  lemma SuccessAtNext(run: seq<State>, i: nat, session: Str, id: Str, dir: Invocation)
    requires Run(run) && i + 1 < |run| && HoldsSuccess(run[i], session, id, dir)
    ensures HoldsSuccess(run[i + 1], session, id, dir)
  {
    RunKeepsInv(run, i);
    var p, a := StepOf(run, i);
    SuccessStays(run[i], p, a, run[i + 1], session, id, dir);
  }

  lemma SuccessBarsAt(run: seq<State>, i: nat, session: Str, id: Str, dir: Invocation)
    requires Run(run) && i < |run| && HoldsSuccess(run[i], session, id, dir)
    ensures NoFullMutation(run[i], session)
  {
    RunKeepsInv(run, i);
    SuccessBarsOverwriting(run[i], session, id, dir);
  }

  /** Once a selective apply has succeeded, no full apply of the session ever mutates. */
  lemma {:induction false} SuccessBarsFullApply(run: seq<State>, i: nat, j: nat, session: Str, id: Str, dir: Invocation)
    requires Run(run) && i <= j < |run| && HoldsSuccess(run[i], session, id, dir)
    ensures HoldsSuccess(run[j], session, id, dir) && NoFullMutation(run[j], session)
    decreases j
  {
    if i < j {
      SuccessBarsFullApply(run, i, j - 1, session, id, dir);
      SuccessAtNext(run, j - 1, session, id, dir);
    }
    SuccessBarsAt(run, j, session, id, dir);
  }

  lemma AppliedStays(s: State, p: Pid, a: Action, s': State, session: Str)
    requires Takes(s, p, a, s') && session in s.applied
    ensures session in s'.applied
  {
  }

  lemma AppliedBarsMutation(s: State, session: Str)
    requires Inv(s) && session in s.applied
    ensures NoMutation(s, session)
  {
  }

  lemma AppliedAtNext(run: seq<State>, i: nat, session: Str)
    requires Run(run) && i + 1 < |run| && session in run[i].applied
    ensures session in run[i + 1].applied
  {
    var p, a := StepOf(run, i);
    AppliedStays(run[i], p, a, run[i + 1], session);
  }

  lemma AppliedBarsAt(run: seq<State>, i: nat, session: Str)
    requires Run(run) && i < |run| && session in run[i].applied
    ensures NoMutation(run[i], session)
  {
    RunKeepsInv(run, i);
    AppliedBarsMutation(run[i], session);
  }

  /** Once a full apply is on record, no apply of the session, selective or full, ever mutates again. */
  lemma {:induction false} FullApplyIsFinal(run: seq<State>, i: nat, j: nat, session: Str)
    requires Run(run) && i <= j < |run| && session in run[i].applied
    ensures session in run[j].applied && NoMutation(run[j], session)
    decreases j
  {
    if i < j {
      FullApplyIsFinal(run, i, j - 1, session);
      AppliedAtNext(run, j - 1, session);
    }
    AppliedBarsAt(run, j, session);
  }

  lemma InspectionAt(s: State, p: Pid)
    requires Inv(s) && Runs(s, p) && s.procs[p].stage.Unsure?
    ensures var me := s.procs[p];
            var h := HistoryOf(s, me.session);
            && (InspectPublication(DirAt(h, me.stage.id), me.stage.id, me.binding).Published? <==> !Clear(h, me.session))
            && Only(h, me.session, me.stage.id)
  {
    var me := s.procs[p];
    InspectionAgreesWithScan(DirAt(HistoryOf(s, me.session), me.stage.id), me.stage.id, me.binding);
  }

  /** After a publication that threw, the inspection of that one directory tells exactly whether anything blocks now. */
  lemma InspectionDecides(run: seq<State>, i: nat, p: Pid)
    requires Run(run) && i < |run| && Runs(run[i], p) && run[i].procs[p].stage.Unsure?
    ensures var me := run[i].procs[p];
            var h := HistoryOf(run[i], me.session);
            && (InspectPublication(DirAt(h, me.stage.id), me.stage.id, me.binding).Published? <==> !Clear(h, me.session))
            && Only(h, me.session, me.stage.id)
  {
    RunKeepsInv(run, i);
    InspectionAt(run[i], p);
  }

  // ---------------------------------------------------------------- runs grow

  lemma Extended(run: seq<State>, p: Pid, a: Action) returns (longer: seq<State>)
    requires Run(run) && Enabled(run[|run| - 1], p, a)
    ensures Run(longer) && longer == run + [Next(run[|run| - 1], p, a)]
  {
    longer := run + [Next(run[|run| - 1], p, a)];
    assert Takes(run[|run| - 1], p, a, longer[|run|]);
    forall i: nat | 0 < i < |longer| ensures StepAt(longer, i) {
      if i < |run| {
        assert StepAt(run, i) && longer[i - 1] == run[i - 1] && longer[i] == run[i];
      }
    }
  }
}
