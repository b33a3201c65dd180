/**
 * The Glacier game-thread executor: the same rendezvous as the UE5 one, without a fast path and without a grace window;
 * the job is a function address with four register arguments, and the answer is the returned register or nothing.
 * The probe and capture rings of the handler are not modelled.
 */
module GlacierGameThread {
  import opened Alignment
  import opened Memory
  import opened OnceCall
  import opened Rendezvous
  import opened Runs

  /** A job is JOB_FN and JOB_A0 to JOB_A3. */
  const WORDS := 5

  /** JOB_RET or FAULTED. */
  const STORES := 1

  /** The queued request; `me` is the worker's thread id. */
  datatype Request = Request(me: Tid, job: seq<int>)

  datatype PublishPc =
    | ResolveTrap | ClearDone | ClearFaulted | ClearClaimed | StoreJob(word: nat) | ClearRet | AddHandler

  datatype ArmPc = ListThreads | ArmOne | AbortShut | Poll | Shut

  datatype TeardownPc = DisarmOne | RemoveHandler | AbortRemoveHandler

  datatype ReportPc = FinalCheck | CheckFaulted | LoadRet

  /** The worker's next access, grouped by the phase of `run_on_game_thread` it belongs to. */
  datatype WorkerPc =
    | Publish(p: PublishPc)
    | SetArmed
    | Arm(a: ArmPc)
    | Teardown(d: TeardownPc)
    | Report(r: ReportPc)
    | Returned(answer: Option<int>)

  /** Worker locals. */
  datatype Worker = Worker(pc: WorkerPc, arms: Arms)

  /** The shared statics: the gate, FAULTED and JOB_RET; and the worker. */
  datatype State = State(gate: Gate<(), CallResult<int>>, faulted: bool, ret: int, worker: Worker)

  /**
   * One scheduler choice. `flag` and `tids` are the environment's answers to the worker's step (an OS call succeeded, a
   * deadline passed, the thread list); `result` is what the guarded engine call produces.
   */
  datatype Action =
    | Work(flag: bool, tids: seq<Tid>)
    | Enter(tid: Tid)
    | Handle(tid: Tid, result: CallResult<int>)

  /** The innermost handler on `t` moves: the gate, the call, and after it the store to JOB_RET or FAULTED. */
  function HandlerStep(s: State, t: Tid, result: CallResult<int>): State
    requires |Stack(s.gate, t)| > 0
  {
    var s' := s.(gate := Step(s.gate, t, STORES, (), result));
    match Top(s.gate, t)
    case Store(_, r) => if r.Ret? then s'.(ret := r.value) else s'.(faulted := true)
    case _ => s'
  }

  /** The worker's locals moved on to `pc`. */
  function Goto(s: State, pc: WorkerPc): State {
    s.(worker := s.worker.(pc := pc))
  }

  /** Resolve the rendezvous, publish the job and install the handler; opening the gate is the next access. */
  function PublishStep(req: Request, s: State, p: PublishPc, flag: bool): State {
    match p
    case ResolveTrap => Goto(s, if flag then Publish(ClearDone) else Returned(None))
    case ClearDone => Goto(s.(gate := s.gate.(done := false)), Publish(ClearFaulted))
    case ClearFaulted => Goto(s.(faulted := false), Publish(ClearClaimed))
    case ClearClaimed => Goto(s.(gate := s.gate.(claimed := false)), Publish(StoreJob(0)))
    case StoreJob(k) =>
      Goto(s.(gate := s.gate.(job := StoreWord(s.gate.job, k, req.job))),
           Publish(if k + 1 < WORDS then StoreJob(k + 1) else ClearRet))
    case ClearRet => Goto(s.(ret := 0), Publish(AddHandler))
    case AddHandler => if flag then Goto(s.(gate := s.gate.(installed := true)), SetArmed) else Goto(s, Returned(None))
  }

  /** Arm every thread but the worker, wait for DONE or the deadline, shut the gate. */
  function ArmStep(req: Request, s: State, a: ArmPc, flag: bool, tids: seq<Tid>): State {
    var w, arms := s.worker, s.worker.arms;
    match a
    case ListThreads => s.(worker := w.(arms := arms.(todo := tids), pc := Arm(ArmOne)))
    case ArmOne =>
      if arms.todo == [] then Goto(s, if arms.armed == [] then Arm(AbortShut) else Arm(Poll))
      else
        var next := ArmNext(s.gate, arms, arms.todo[0] == req.me, flag);
        s.(gate := next.0, worker := w.(arms := next.1))
    case AbortShut => Goto(s.(gate := s.gate.(armed := false)), Teardown(AbortRemoveHandler))
    case Poll => if flag || s.gate.done then Goto(s, Arm(Shut)) else s
    case Shut =>
      s.(gate := s.gate.(armed := false), worker := w.(arms := arms.(todo := arms.armed), pc := Teardown(DisarmOne)))
  }

  /** Disarm every armed thread and drop the handler. */
  function TeardownStep(s: State, d: TeardownPc, flag: bool): State {
    var w := s.worker;
    match d
    case DisarmOne =>
      if w.arms.todo == [] then Goto(s, Teardown(RemoveHandler))
      else
        var next := DisarmNext(s.gate, w.arms, flag);
        s.(gate := next.0, worker := w.(arms := next.1))
    case RemoveHandler => Goto(s.(gate := s.gate.(installed := false)), Report(FinalCheck))
    case AbortRemoveHandler => Goto(s.(gate := s.gate.(installed := false)), Returned(None))
  }

  /** Nothing unless DONE is set and the call did not fault; then the stored register. */
  function ReportStep(s: State, r: ReportPc): State {
    match r
    case FinalCheck => Goto(s, if s.gate.done then Report(CheckFaulted) else Returned(None))
    case CheckFaulted => Goto(s, if s.faulted then Returned(None) else Report(LoadRet))
    case LoadRet => Goto(s, Returned(Some(s.ret)))
  }

  function WorkerStep(req: Request, s: State, flag: bool, tids: seq<Tid>): State {
    match s.worker.pc
    case Publish(p) => PublishStep(req, s, p, flag)
    case SetArmed => Goto(s.(gate := s.gate.(armed := true)), Arm(ListThreads))
    case Arm(a) => ArmStep(req, s, a, flag, tids)
    case Teardown(d) => TeardownStep(s, d, flag)
    case Report(r) => ReportStep(s, r)
    case Returned(_) => s
  }

  predicate Enabled(s: State, a: Action) {
    match a
    case Work(_, _) => !s.worker.pc.Returned?
    case Enter(t) => CanTrap(s.gate, t)
    case Handle(t, _) => |Stack(s.gate, t)| > 0
  }

  function Apply(req: Request, s: State, a: Action): State
    requires Enabled(s, a)
  {
    match a
    case Work(flag, tids) => WorkerStep(req, s, flag, tids)
    case Enter(t) => s.(gate := Trap(s.gate, t))
    case Handle(t, result) => HandlerStep(s, t, result)
  }

  // ---------- runs ----------

  ghost function Sys(req: Request): System<State, Action> {
    System((s: State, a: Action) => Enabled(s, a),
           (s: State, a: Action) => if Enabled(s, a) then Apply(req, s, a) else s)
  }

  /** A run may start with stale flags, stale armed threads and handlers of earlier runs. */
  ghost predicate Start(req: Request, s: State) {
    && !s.gate.armed && !s.gate.installed
    && |req.job| == WORDS == |s.gate.job|
    && req.me !in s.gate.dr0 && Stacked(req.me, s.gate)
    && s.worker.pc == Publish(ResolveTrap) && s.worker.arms.armed == [] && s.worker.arms.failed == {}
    && s.gate.owner == None && s.gate.executions == []
  }

  /** A start with no handler past the ARMED check. */
  ghost predicate Init(req: Request, s: State) {
    Start(req, s) && NonePassed(s.gate)
  }

  // ---------- the inductive invariant ----------

  /** How far publishing has got. */
  function Rank(p: PublishPc): int {
    match p
    case ResolveTrap => 0
    case ClearDone => 1
    case ClearFaulted => 2
    case ClearClaimed => 3
    case StoreJob(_) => 4
    case ClearRet => 5
    case AddHandler => 6
  }

  ghost predicate PublishInv(req: Request, s: State, p: PublishPc) {
    var rank, g := Rank(p), s.gate;
    && |req.job| == WORDS == |g.job|
    && !g.armed && s.worker.arms.armed == [] && req.me !in g.dr0
    && Fresh(req.me, g) && !g.installed
    && (rank >= 2 ==> !g.done)
    && (rank >= 3 ==> !s.faulted)
    && (rank >= 4 ==> !g.claimed)
    && (rank == 4 ==> p.word < WORDS && g.job[..p.word] == req.job[..p.word])
    && (rank >= 5 ==> g.job == req.job)
  }

  /** The owner has stored what the call produced. */
  ghost predicate ResultStored(g: Gate<(), CallResult<int>>) {
    g.done || OwnerFrame(g) == Some(StoreDone)
  }

  predicate Recorded(s: State, result: CallResult<int>) {
    (s.faulted <==> result.Fault?) && (result.Ret? ==> s.ret == result.value)
  }

  /** FAULTED and JOB_RET say what the call produced, once it is stored. */
  ghost predicate CellsInv(s: State) {
    if !ResultStored(s.gate) then !s.faulted
    else
      var es := s.gate.executions;
      es != [] && es[0].finished.Some? && Recorded(s, es[0].finished.value)
  }

  /** Which threads may still have DR0 set. */
  ghost predicate ArmInv(req: Request, s: State) {
    var pc, arms := s.worker.pc, s.worker.arms;
    && req.me !in s.gate.dr0 && req.me !in arms.armed
    && (pc == Arm(AbortShut) || pc == Teardown(AbortRemoveHandler) ==> arms.armed == [])
    && (pc == Teardown(DisarmOne) ==> Disarming(s.gate, arms))
    && (pc == Teardown(RemoveHandler) || pc.Report? || pc.Returned? ==> Disarmed(s.gate, arms))
    && (pc.Report? || pc.Returned? ==> !s.gate.installed)
  }

  ghost predicate ResultInv(s: State) {
    var pc := s.worker.pc;
    && (pc == Report(CheckFaulted) || pc == Report(LoadRet) ==> s.gate.done)
    && (pc == Report(LoadRet) ==> !s.faulted)
    && (pc.Returned? && pc.answer.Some? ==> s.gate.done && !s.faulted && s.ret == pc.answer.value)
  }

  /** What the worker maintains from the opening of the gate on. */
  ghost predicate WorkerInv(req: Request, s: State) {
    (s.gate.armed <==> s.worker.pc.Arm?) && ArmInv(req, s) && ResultInv(s)
  }

  /** From the opening of the gate on, the job stays published and the statics are consistent. */
  ghost predicate OpenInv(req: Request, s: State) {
    |req.job| == WORDS && GateInv(req.me, req.job, s.gate) && CellsInv(s) && WorkerInv(req, s)
  }

  /** The run gave up before publishing anything. */
  ghost predicate NothingPublished(req: Request, s: State) {
    && s.worker.pc == Returned(None) && Fresh(req.me, s.gate) && !s.gate.installed && !s.gate.armed
    && s.worker.arms.armed == [] && |s.gate.job| == WORDS && req.me !in s.gate.dr0
  }

  ghost predicate Inv(req: Request, s: State) {
    if s.worker.pc.Publish? then PublishInv(req, s, s.worker.pc.p) else NothingPublished(req, s) || OpenInv(req, s)
  }

  lemma AddHandlerInv(req: Request, s: State, flag: bool)
    requires s.worker.pc == Publish(AddHandler) && PublishInv(req, s, AddHandler)
    ensures OpenInv(req, PublishStep(req, s, AddHandler, flag))
  {
    var s' := PublishStep(req, s, AddHandler, flag);
    FreshKept(req.me, s.gate, s'.gate);
    InstallInv(req.me, req.job, s'.gate);
  }

  lemma PublishStepInv(req: Request, s: State, p: PublishPc, flag: bool)
    requires s.worker.pc == Publish(p) && PublishInv(req, s, p)
    ensures Inv(req, PublishStep(req, s, p, flag))
  {
    if p.AddHandler? {
      AddHandlerInv(req, s, flag);
    } else {
      FreshKept(req.me, s.gate, PublishStep(req, s, p, flag).gate);
    }
  }

  /** What a worker step leaves alone once the gate has been opened. */
  ghost predicate WorkerKeeps(s: State, s': State) {
    WorkerMove(s.gate, s'.gate) && s'.faulted == s.faulted && s'.ret == s.ret
  }

  lemma ArmStepInv(req: Request, s: State, a: ArmPc, flag: bool, tids: seq<Tid>)
    requires s.worker.pc == Arm(a) && WorkerInv(req, s)
    ensures WorkerInv(req, ArmStep(req, s, a, flag, tids)) && WorkerKeeps(s, ArmStep(req, s, a, flag, tids))
  {
    if a == ArmOne && s.worker.arms.todo != [] {
      ArmNextInv(s.gate, s.worker.arms, s.worker.arms.todo[0] == req.me, flag, req.me);
    }
  }

  lemma TeardownStepInv(req: Request, s: State, d: TeardownPc, flag: bool)
    requires s.worker.pc == Teardown(d) && WorkerInv(req, s)
    ensures WorkerInv(req, TeardownStep(s, d, flag)) && WorkerKeeps(s, TeardownStep(s, d, flag))
  {
    if d == DisarmOne && s.worker.arms.todo != [] {
      DisarmNextInv(s.gate, s.worker.arms, flag);
    }
  }

  lemma OpenStepInv(req: Request, s: State, flag: bool, tids: seq<Tid>)
    requires WorkerInv(req, s) && !s.worker.pc.Publish? && !s.worker.pc.Returned?
    ensures WorkerInv(req, WorkerStep(req, s, flag, tids)) && WorkerKeeps(s, WorkerStep(req, s, flag, tids))
    ensures !WorkerStep(req, s, flag, tids).worker.pc.Publish?
  {
    if s.worker.pc.Arm? {
      ArmStepInv(req, s, s.worker.pc.a, flag, tids);
    } else if s.worker.pc.Teardown? {
      TeardownStepInv(req, s, s.worker.pc.d, flag);
    }
  }

  lemma OpenKept(req: Request, s: State, s': State)
    requires OpenInv(req, s) && WorkerKeeps(s, s') && WorkerInv(req, s')
    ensures OpenInv(req, s')
  {
    WorkerMoveInv(req.me, req.job, s.gate, s'.gate);
    assert forall t :: Stack(s'.gate, t) == Stack(s.gate, t);
  }

  lemma WorkerStepInv(req: Request, s: State, flag: bool, tids: seq<Tid>)
    requires Inv(req, s) && !s.worker.pc.Returned?
    ensures Inv(req, WorkerStep(req, s, flag, tids))
  {
    if s.worker.pc.Publish? {
      PublishStepInv(req, s, s.worker.pc.p, flag);
    } else {
      OpenStepInv(req, s, flag, tids);
      OpenKept(req, s, WorkerStep(req, s, flag, tids));
    }
  }

  /** Across an access by a handler or the engine, the worker's part stays true. */
  ghost predicate OthersKeep(s: State, s': State) {
    && Keeps(s.gate, s'.gate) && s'.worker == s.worker
    && (s.gate.done ==> s'.faulted == s.faulted && s'.ret == s.ret)
  }

  lemma WorkerInvKept(req: Request, s: State, s': State)
    requires WorkerInv(req, s) && OthersKeep(s, s')
    ensures WorkerInv(req, s')
  {
  }

  lemma HandlerKeeps(req: Request, s: State, t: Tid, result: CallResult<int>)
    requires GateInv(req.me, req.job, s.gate) && |Stack(s.gate, t)| > 0
    ensures OthersKeep(s, HandlerStep(s, t, result))
  {
    StepKeeps(req.me, req.job, s.gate, t, STORES, (), result);
    assert FrameInv(req.me, s.gate, t, |Stack(s.gate, t)| - 1);
  }

  /** The owner's accesses keep the statics in step with the call. */
  lemma CallCells(req: Request, s: State, t: Tid, result: CallResult<int>)
    requires GateInv(req.me, req.job, s.gate) && CellsInv(s) && |Stack(s.gate, t)| > 0 && Busy(Top(s.gate, t))
    ensures CellsInv(HandlerStep(s, t, result))
  {
    CallStepOwner(req.me, req.job, s.gate, t, STORES, (), result);
    assert FrameInv(req.me, s.gate, t, |Stack(s.gate, t)| - 1);
  }

  lemma GateCells(req: Request, s: State, t: Tid, result: CallResult<int>)
    requires GateInv(req.me, req.job, s.gate) && CellsInv(s) && |Stack(s.gate, t)| > 0 && !Busy(Top(s.gate, t))
    ensures CellsInv(HandlerStep(s, t, result))
  {
    GateStepOwner(req.me, req.job, s.gate, t);
  }

  /** While the job is being published, no handler gets past the gate. */
  lemma EarlyHandlerInv(req: Request, s: State, t: Tid, result: CallResult<int>)
    requires Inv(req, s) && |Stack(s.gate, t)| > 0
    requires s.worker.pc.Publish? || NothingPublished(req, s)
    ensures Inv(req, HandlerStep(s, t, result))
  {
    assert ThreadOutside(s.gate, t);
    FreshStays(req.me, s.gate, t, STORES, (), result);
  }

  lemma HandlerStepInv(req: Request, s: State, t: Tid, result: CallResult<int>)
    requires Inv(req, s) && |Stack(s.gate, t)| > 0
    ensures Inv(req, HandlerStep(s, t, result))
  {
    if s.worker.pc.Publish? || NothingPublished(req, s) {
      EarlyHandlerInv(req, s, t, result);
    } else {
      StepInv(req.me, req.job, s.gate, t, STORES, (), result);
      if Busy(Top(s.gate, t)) {
        CallCells(req, s, t, result);
      } else {
        GateCells(req, s, t, result);
      }
      HandlerKeeps(req, s, t, result);
      WorkerInvKept(req, s, HandlerStep(s, t, result));
    }
  }

  lemma EnterInv(req: Request, s: State, t: Tid)
    requires Inv(req, s) && Enabled(s, Enter(t))
    ensures Inv(req, Apply(req, s, Enter(t)))
  {
    TrapInv(req.me, req.job, s.gate, t);
    var s' := Apply(req, s, Enter(t));
    if s.gate.owner.Some? {
      var u := s.gate.owner.value;
      assert OwnerBusy(s.gate, u) ==> Stack(s'.gate, u)[0] == Stack(s.gate, u)[0];
    }
    assert OthersKeep(s, s');
    WorkerInvKept(req, s, s');
  }

  lemma ActionInv(req: Request, s: State, a: Action)
    requires Inv(req, s) && Enabled(s, a)
    ensures Inv(req, Apply(req, s, a))
  {
    match a
    case Work(flag, tids) => WorkerStepInv(req, s, flag, tids);
    case Enter(t) => EnterInv(req, s, t);
    case Handle(t, result) => HandlerStepInv(req, s, t, result);
  }

  lemma InvIsInductive(req: Request)
    ensures Inductive(Sys(req), (s: State) => Inv(req, s))
  {
    forall s: State, a: Action | Inv(req, s) && Enabled(s, a) ensures Inv(req, Apply(req, s, a)) {
      ActionInv(req, s, a);
    }
  }

  /** Every step of worker and handlers keeps the invariant. */
  lemma ReachableInvariant(req: Request, s0: State, s: State)
    requires Init(req, s0) && Reaches(Sys(req), s0, s)
    ensures Inv(req, s)
  {
    InvIsInductive(req);
    ReachableInv(Sys(req), (s: State) => Inv(req, s), s0, s);
  }

  // ---------- what every run guarantees ----------

  /**
   * At most one execution, never on the worker's own thread and always of the queued job; `Some(r)` only after that
   * execution completed without a fault and returned `r`; in the end every thread armed in this run is disarmed, ARMED
   * is clear and the handler is gone.
   */
  ghost predicate Honored(req: Request, s: State) {
    var es := s.gate.executions;
    && |es| <= 1
    && (forall e :: e in es ==> e.tid != req.me && e.job == req.job)
    && (forall r :: s.worker.pc == Returned(Some(r)) ==> |es| == 1 && es[0].finished == Some(Ret(r)))
    && (s.worker.pc.Returned? ==> Disarmed(s.gate, s.worker.arms) && !s.gate.armed && !s.gate.installed)
  }

  /** The executor's contract, in every interleaving. */
  lemma ExecutorContract(req: Request, s0: State, s: State)
    requires Init(req, s0) && Reaches(Sys(req), s0, s)
    ensures Honored(req, s)
  {
    ReachableInvariant(req, s0, s);
    forall e | e in s.gate.executions ensures e.tid != req.me && e.job == req.job {
      assert e == s.gate.executions[0];
    }
  }

  // ---------- after ARMED is cleared ----------

  ghost predicate GateShutForGood(s: State) {
    !s.gate.armed && (s.worker.pc.Teardown? || s.worker.pc.Report? || s.worker.pc.Returned?)
  }

  lemma ShutWork(req: Request, s: State, flag: bool, tids: seq<Tid>)
    requires GateShutForGood(s) && !s.worker.pc.Returned?
    ensures var s' := WorkerStep(req, s, flag, tids); GateShutForGood(s') && WorkerKeeps(s, s')
  {
    match s.worker.pc
    case Teardown(d) => assert WorkerStep(req, s, flag, tids) == TeardownStep(s, d, flag);
    case Report(r) => assert WorkerStep(req, s, flag, tids) == ReportStep(s, r);
  }

  lemma ShutMoves(req: Request, s: State, a: Action)
    requires GateShutForGood(s) && Enabled(s, a)
    ensures GateShutForGood(Apply(req, s, a)) && GateMove(s.gate, Apply(req, s, a).gate, STORES)
  {
    match a
    case Work(flag, tids) => ShutWork(req, s, flag, tids);
    case Enter(u) => assert Apply(req, s, a).gate == Trap(s.gate, u);
    case Handle(u, result) =>
      assert Apply(req, s, a).gate == Step(s.gate, u, STORES, (), result);
      assert Step(s.gate, u, STORES, (), result).armed == s.gate.armed;
  }

  const GATE: State -> Gate<(), CallResult<int>> := (s: State) => s.gate

  ghost const SHUT: State -> bool := (s: State) => GateShutForGood(s)

  lemma ShutStays(req: Request)
    ensures StaysShut(Sys(req), GATE, SHUT, STORES)
  {
    forall s: State, a: Action | GateShutForGood(s) && Enabled(s, a)
      ensures GateShutForGood(Apply(req, s, a)) && GateMove(s.gate, Apply(req, s, a).gate, STORES)
    {
      ShutMoves(req, s, a);
    }
  }

  /**
   * Once ARMED is cleared, a thread whose handlers have not passed the gate never starts the job, however many times
   * it traps again: every execution added later belongs to another thread.
   */
  lemma ShutThreadNeverStarts(req: Request, s: State, t: Tid, s': State)
    requires GateShutForGood(s) && ThreadOutside(s.gate, t) && Reaches(Sys(req), s, s')
    ensures ThreadOutside(s'.gate, t)
    ensures OthersOnly(s.gate.executions, s'.gate.executions, t)
  {
    ShutStays(req);
    ShutRun(Sys(req), GATE, SHUT, STORES, s, s', t);
  }

  // ---------- driving one handler ----------

  /** Returned one, where JOB_RET was cleared to zero. */
  const RETURNED_ONE: CallResult<int> -> bool := (r: CallResult<int>) => r == Ret(1)

  /** A handler that nothing stops can be scheduled to the end, with the worker standing still. */
  lemma {:induction false} DriveToDone(req: Request, s: State, t: Tid, calls: bool) returns (s': State)
    requires Driving(s.gate, t, calls, RETURNED_ONE)
    ensures Reaches(Sys(req), s, s') && s'.worker == s.worker && Driven(s'.gate, calls, RETURNED_ONE)
    ensures !s.faulted && (Top(s.gate, t).Store? ==> Top(s.gate, t).result == Ret(1)) ==> !s'.faulted
    decreases StepsToDone(Top(s.gate, t), |s.gate.job|, STORES)
  {
    var next := HandlerStep(s, t, Ret(1));
    DriveStep(s.gate, t, calls, RETURNED_ONE, STORES, (), Ret(1));
    if Driven(next.gate, calls, RETURNED_ONE) {
      s' := next;
      ReachesSelf(Sys(req), s');
    } else {
      s' := DriveToDone(req, next, t, calls);
    }
    ThenReaches(Sys(req), s, Handle(t, Ret(1)), s');
  }

  // ---------- what the answer None means ----------

  ghost predicate CallMayRun(req: Request, s: State) {
    exists s' :: Reaches(Sys(req), s, s') && s'.gate.executions != []
  }

  /** Nobody has claimed the job and nobody waits to. */
  lemma NoneWaitsAt(req: Request, s: State)
    requires Inv(req, s) && s.worker.pc.Returned? && s.gate.owner == None
    requires forall t :: !WaitingInGate(s.gate, t)
    ensures NonePassed(s.gate) && s.gate.executions == []
  {
    if !NothingPublished(req, s) {
      NoneWaits(req.me, req.job, s.gate);
    }
  }

  /** A run that gave up before publishing has neither an owner nor a waiting handler. */
  lemma ClaimantDrivesAt(req: Request, s: State, t: Tid)
    requires Inv(req, s) && s.worker.pc.Returned? && s.gate.executions == []
    requires s.gate.owner == Some(t) || (s.gate.owner == None && WaitingInGate(s.gate, t))
    ensures Driving(s.gate, t, true, RETURNED_ONE)
  {
    if NothingPublished(req, s) {
      FreshWaitsNot(req.me, s.gate, t);
    } else {
      ClaimantDrives(req.me, req.job, s.gate, t, RETURNED_ONE);
    }
  }

  lemma NoneMeaningAt(req: Request, s: State)
    requires Inv(req, s) && s.worker.pc == Returned(None)
    ensures CallMayRun(req, s) <==> s.gate.owner.Some? || exists t :: WaitingInGate(s.gate, t)
  {
    if s.gate.executions != [] {
      ReachesSelf(Sys(req), s);
    } else if t :| s.gate.owner == Some(t) || (s.gate.owner == None && WaitingInGate(s.gate, t)) {
      ClaimantDrivesAt(req, s, t);
      var s' := DriveToDone(req, s, t, true);
    } else {
      assert s.gate.owner == None;
      NoneWaitsAt(req, s);
      ShutStays(req);
      forall s' | Reaches(Sys(req), s, s') ensures s'.gate.executions == [] {
        ShutRunStartsNothing(Sys(req), GATE, SHUT, STORES, s, s');
      }
    }
  }

  /**
   * After a run that answered nothing the queued call has run, or can still run, exactly when a handler has claimed it
   * or is waiting between the ARMED check and the claim. (The server's error says that the call did not run.)
   */
  lemma NoneMeaning(req: Request, s0: State, s: State)
    requires Init(req, s0) && Reaches(Sys(req), s0, s) && s.worker.pc == Returned(None)
    ensures CallMayRun(req, s) <==> s.gate.owner.Some? || exists t :: WaitingInGate(s.gate, t)
  {
    ReachableInvariant(req, s0, s);
    NoneMeaningAt(req, s);
  }

  // ---------- what a run may start with ----------

  lemma WorkReaches(req: Request, s0: State, s: State, flag: bool, tids: seq<Tid>)
    requires Reaches(Sys(req), s0, s) && !s.worker.pc.Returned?
    ensures Reaches(Sys(req), s0, WorkerStep(req, s, flag, tids))
  {
    ReachThen(Sys(req), s0, s, Work(flag, tids));
  }

  /** With ARMED clear, the innermost handler can be moved until it is one that passed the gate. */
  lemma UncoverTop(req: Request, s: State, t: Tid) returns (s': State)
    requires Stacked(req.me, s.gate) && !s.gate.armed && Passed(s.gate, t)
    ensures Reaches(Sys(req), s, s') && s'.worker == s.worker && s'.faulted == s.faulted && SameShared(s.gate, s'.gate)
    ensures |Stack(s'.gate, t)| > 0 && !Outside(Top(s'.gate, t))
    decreases if |Stack(s.gate, t)| == 0 then 0 else if Top(s.gate, t).CheckArmed? then 2
              else if Top(s.gate, t).SelfDisarm? then 1 else 0
  {
    if Outside(Top(s.gate, t)) {
      OutsideLeaves(req.me, s.gate, t);
      s' := UncoverTop(req, HandlerStep(s, t, Fault), t);
      ThenReaches(Sys(req), s, Handle(t, Fault), s');
    } else {
      s' := s;
      ReachesSelf(Sys(req), s);
    }
  }

  /** How many worker steps are left to the answer, if DONE is set already and one thread is to be armed. */
  function PublishCountdown(p: PublishPc): nat {
    match p
    case ClearFaulted => 22
    case ClearClaimed => 21
    case StoreJob(k) => 15 + if k < WORDS then WORDS - k else 0
    case ClearRet => 15
    case AddHandler => 14
    case _ => 23
  }

  function Countdown(pc: WorkerPc, todo: nat): nat {
    match pc
    case Publish(p) => PublishCountdown(p)
    case SetArmed => 13
    case Arm(a) => if a.ListThreads? then 12 else if a.ArmOne? then 10 + Min(todo, 1) else if a.Poll? then 9 else 8
    case Teardown(d) => if d.DisarmOne? then 6 + Min(todo, 1) else 5
    case Report(r) => if r.FinalCheck? then 4 else if r.CheckFaulted? then 3 else 2
    case _ => 0
  }

  /** The environment of the doomed run: every OS call succeeds, and `u` is the only game thread. */
  function DoomedNext(req: Request, s: State, u: Tid): State { WorkerStep(req, s, true, [u]) }

  ghost predicate ArmingOne(a: ArmPc, arms: Arms, u: Tid) {
    match a
    case ListThreads => arms.armed == []
    case ArmOne => (arms.armed == [] && arms.todo == [u]) || (arms.armed == [u] && arms.todo == [])
    case Poll => arms.armed == [u]
    case Shut => arms.armed == [u]
    case AbortShut => false
  }

  /** DONE was set while the job was still being published, and JOB_RET and FAULTED are cleared after that. */
  ghost predicate Doomed(req: Request, s: State, u: Tid) {
    var pc, arms := s.worker.pc, s.worker.arms;
    && u != req.me && s.gate.done && Settled(s.gate, RETURNED_ONE)
    && match pc
       case Publish(p) =>
         && arms.armed == [] && Rank(p) >= 2 && (p.StoreJob? ==> p.word < WORDS)
         && (Rank(p) >= 3 ==> !s.faulted) && (Rank(p) >= 6 ==> s.ret == 0)
       case SetArmed => arms.armed == [] && !s.faulted && s.ret == 0
       case Arm(a) => !s.faulted && s.ret == 0 && ArmingOne(a, arms, u)
       case Teardown(d) => !s.faulted && s.ret == 0 && |arms.todo| <= 1 && (d == DisarmOne || d == RemoveHandler)
       case Report(_) => !s.faulted && s.ret == 0
       case Returned(answer) => answer == Some(0)
  }

  /** The run is doomed still, and closer to its end. */
  ghost predicate DoomGoesOn(req: Request, s: State, s': State, u: Tid) {
    && Doomed(req, s', u)
    && Countdown(s'.worker.pc, |s'.worker.arms.todo|) < Countdown(s.worker.pc, |s.worker.arms.todo|)
  }

  lemma DoomedPublishes(req: Request, s: State, u: Tid)
    requires Doomed(req, s, u) && s.worker.pc.Publish?
    ensures DoomGoesOn(req, s, DoomedNext(req, s, u), u)
  {
  }

  lemma DoomedArms(req: Request, s: State, u: Tid)
    requires Doomed(req, s, u) && s.worker.pc.Arm?
    ensures DoomGoesOn(req, s, DoomedNext(req, s, u), u)
  {
    assert [u][1..] == [] && [] + [u] == [u];
  }

  lemma DoomedStep(req: Request, s: State, u: Tid)
    requires Doomed(req, s, u) && !s.worker.pc.Returned?
    ensures DoomGoesOn(req, s, DoomedNext(req, s, u), u)
  {
    if s.worker.pc.Publish? {
      DoomedPublishes(req, s, u);
    } else if s.worker.pc.Arm? {
      DoomedArms(req, s, u);
    }
  }

  /** The worker then answers with the cleared JOB_RET, though no call, or one that returned one, is on record. */
  lemma {:induction false} DoomedAnswers(req: Request, s: State, u: Tid) returns (s': State)
    requires Doomed(req, s, u)
    ensures Reaches(Sys(req), s, s') && !Honored(req, s')
    decreases Countdown(s.worker.pc, |s.worker.arms.todo|)
  {
    if s.worker.pc.Returned? {
      s' := s;
      ReachesSelf(Sys(req), s);
    } else {
      DoomedStep(req, s, u);
      s' := DoomedAnswers(req, DoomedNext(req, s, u), u);
      ThenReaches(Sys(req), s, Work(true, [u]), s');
    }
  }

  /** DONE is cleared; no handler has moved yet. */
  lemma DoneCleared(req: Request, s0: State) returns (s: State)
    requires Start(req, s0)
    ensures Reaches(Sys(req), s0, s) && s.worker == s0.worker.(pc := Publish(ClearFaulted))
    ensures s.gate == s0.gate.(done := false)
  {
    ReachesSelf(Sys(req), s0);
    WorkReaches(req, s0, s0, true, []);
    var s1 := WorkerStep(req, s0, true, []);
    WorkReaches(req, s0, s1, true, []);
    s := WorkerStep(req, s1, true, []);
  }

  /** Then FAULTED and CLAIMED. */
  lemma ClaimCleared(req: Request, s0: State) returns (s: State)
    requires s0.worker.pc == Publish(ClearFaulted)
    ensures Reaches(Sys(req), s0, s) && s.worker == s0.worker.(pc := Publish(StoreJob(0)))
    ensures s.gate == s0.gate.(claimed := false) && !s.faulted
  {
    ReachesSelf(Sys(req), s0);
    WorkReaches(req, s0, s0, true, []);
    var s1 := WorkerStep(req, s0, true, []);
    WorkReaches(req, s0, s1, true, []);
    s := WorkerStep(req, s1, true, []);
  }

  /** The handler on top of `t` passed the gate; while the job is being published it can run to the end. */
  lemma DriveStale(req: Request, s: State, t: Tid, u: Tid) returns (s': State)
    requires s.worker.pc == Publish(ClearFaulted) && s.worker.arms.armed == [] && u != req.me
    requires s.gate.executions == [] && !s.gate.done && |Stack(s.gate, t)| > 0 && !Outside(Top(s.gate, t))
    ensures Reaches(Sys(req), s, s') && Doomed(req, s', u)
  {
    var top := Top(s.gate, t);
    if top.CheckDone? || top.Claim? || top.Load? {
      var s1 := ClaimCleared(req, s);
      assert Stack(s1.gate, t) == Stack(s.gate, t);
      s' := DriveToDone(req, s1, t, true);
      ReachesTrans(Sys(req), s, s1, s');
    } else {
      s' := DriveToDone(req, s, t, false);
    }
  }

  /** A handler that passed the gate in an earlier run can complete its claim between the worker's stores. */
  lemma StaleHandlerBreaks(req: Request, s0: State, t: Tid) returns (s: State)
    requires Start(req, s0) && Passed(s0.gate, t)
    ensures Reaches(Sys(req), s0, s) && !Honored(req, s)
  {
    var s1 := DoneCleared(req, s0);
    assert forall u :: Stack(s1.gate, u) == Stack(s0.gate, u);
    var s2 := UncoverTop(req, s1, t);
    var s3 := DriveStale(req, s2, t, req.me + 1);
    s := DoomedAnswers(req, s3, req.me + 1);
    ReachesTrans(Sys(req), s0, s1, s2);
    ReachesTrans(Sys(req), s0, s2, s3);
    ReachesTrans(Sys(req), s0, s3, s);
  }

  /**
   * The executor's contract holds over every run, exactly if no handler of an earlier run is past the ARMED check when
   * it starts.
   */
  lemma StartCondition(req: Request, s0: State)
    requires Start(req, s0)
    ensures NonePassed(s0.gate) <==> forall s :: Reaches(Sys(req), s0, s) ==> Honored(req, s)
  {
    if NonePassed(s0.gate) {
      forall s | Reaches(Sys(req), s0, s) ensures Honored(req, s) {
        ExecutorContract(req, s0, s);
      }
    } else {
      var t :| !ThreadOutside(s0.gate, t);
      var s := StaleHandlerBreaks(req, s0, t);
    }
  }

  /** The next run begins: statics, handlers and debug registers are as the last run left them. */
  ghost function NextRun(s: State, req: Request): State {
    s.(gate := s.gate.(owner := None, executions := []), worker := Worker(Publish(ResolveTrap), Arms([], [], {})))
  }

  lemma RunLeavesStart(req: Request, s: State, next: Request)
    requires Inv(req, s) && s.worker.pc.Returned? && next.me == req.me && |next.job| == WORDS
    ensures Start(next, NextRun(s, next))
  {
    var g, g' := s.gate, NextRun(s, next).gate;
    assert forall t :: Stack(g', t) == Stack(g, t);
    if !NothingPublished(req, s) {
      GateIsStacked(req.me, req.job, g);
    }
  }

  /**
   * After a run whose contract held, the next one's does exactly if no handler was left past the ARMED check; by
   * `NoneMeaning` that is where a late handler is, of a run that answered nothing.
   */
  lemma NextRunIsSafe(req: Request, s0: State, s: State, next: Request)
    requires Init(req, s0) && Reaches(Sys(req), s0, s) && s.worker.pc.Returned?
    requires next.me == req.me && |next.job| == WORDS
    ensures Start(next, NextRun(s, next))
    ensures (forall t :: ThreadOutside(s.gate, t))
            <==> forall s' :: Reaches(Sys(next), NextRun(s, next), s') ==> Honored(next, s')
  {
    ReachableInvariant(req, s0, s);
    RunLeavesStart(req, s, next);
    forall t ensures ThreadOutside(NextRun(s, next).gate, t) <==> ThreadOutside(s.gate, t) {
      assert Stack(NextRun(s, next).gate, t) == Stack(s.gate, t);
    }
    StartCondition(next, NextRun(s, next));
  }

  // ---------- refinement ----------

  /** The abstract call a concrete state stands for. */
  ghost function Abstract(s: State): Call<int> {
    var es := s.gate.executions;
    var phase :=
      if es == [] then Idle
      else if es[0].finished == None then Running
      else Finished(es[0].finished.value);
    var answer :=
      match s.worker.pc
      case Returned(Some(r)) => Some(Some(Ret(r)))
      case Returned(None) => Some(None)
      case _ => None;
    Call(phase, answer)
  }

  lemma WorkerStepRefines(req: Request, s: State, flag: bool, tids: seq<Tid>)
    requires Inv(req, s) && !s.worker.pc.Returned?
    ensures Next(Abstract(s), Abstract(WorkerStep(req, s, flag, tids)))
  {
    if !s.worker.pc.Publish? {
      OpenStepInv(req, s, flag, tids);
    }
  }

  lemma HistoryRefines(s: State, s': State)
    requires History(s.gate.executions, s'.gate.executions) && s'.worker == s.worker
    ensures Next(Abstract(s), Abstract(s'))
  {
  }

  lemma HandlerStepRefines(req: Request, s: State, t: Tid, result: CallResult<int>)
    requires Inv(req, s) && |Stack(s.gate, t)| > 0
    ensures Next(Abstract(s), Abstract(HandlerStep(s, t, result)))
  {
    if s.worker.pc.Publish? || NothingPublished(req, s) {
      NonePasses(s.gate, t, STORES, (), result);
    } else {
      StepKeeps(req.me, req.job, s.gate, t, STORES, (), result);
    }
    HistoryRefines(s, HandlerStep(s, t, result));
  }

  /** Each access is one step of the abstract run-at-most-once call, or none. */
  lemma StepRefines(req: Request, s: State, a: Action)
    requires Inv(req, s) && Enabled(s, a)
    ensures Next(Abstract(s), Abstract(Apply(req, s, a)))
  {
    match a
    case Work(flag, tids) => WorkerStepRefines(req, s, flag, tids);
    case Enter(u) => HistoryRefines(s, Apply(req, s, a));
    case Handle(u, result) => HandlerStepRefines(req, s, u, result);
  }

  /** Every run of the executor is a behavior of the abstract call, so the call starts at most once. */
  lemma RunRefines(req: Request, s0: State, acts: seq<Action>)
    requires Init(req, s0) && Valid(Sys(req), s0, acts)
    ensures var run := AbstractRun(Sys(req), (s: State) => Abstract(s), s0, acts);
            Behavior(run) && Starts(run) <= 1 && run[|acts|] == Abstract(Final(Sys(req), s0, acts))
  {
    InvIsInductive(req);
    forall s: State, a: Action | Inv(req, s) && Enabled(s, a)
      ensures Next(Abstract(s), Abstract(Apply(req, s, a)))
    {
      StepRefines(req, s, a);
    }
    RunIsBehavior(Sys(req), (s: State) => Inv(req, s), (s: State) => Abstract(s), s0, acts);
  }
}
