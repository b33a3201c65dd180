/**
 * The UE5 game-thread executor: a worker queues one ProcessEvent call, arms DR0 on game threads, and whichever thread
 * traps first claims the call and runs it. The worker, like every handler, advances one shared access at a time; the
 * engine, the operating system and the clock answer nondeterministically through the parameters of an action.
 */
module GameThread {
  import opened Alignment
  import opened Memory
  import opened OnceCall
  import opened Rendezvous
  import opened Runs

  type Octet = bv8

  const PARMS_CAP := 8192

  /** A job is JOB_PE, JOB_OBJ and JOB_UF. */
  const WORDS := 3

  /** CALL_OK, then GAME_TID. */
  const STORES := 2

  /** The queued request; `input` is the caller's parameter block and `me` the worker's thread id. */
  datatype Request = Request(me: Tid, job: seq<int>, input: seq<Octet>)

  datatype Outcome = Ran(ok: bool) | Timeout | NoThreads | ParmsTooLarge

  /** What a guarded ProcessEvent call leaves: whether it returned without a fault, and the parameter block. */
  datatype Effect = Effect(ok: bool, parms: seq<Octet>)

  datatype PublishPc =
    | CheckSize | ClearDone | ClearClaimed | ClearOk | StoreJob(word: nat) | StoreLen | CopyIn | AddHandler

  datatype FastPc = LoadCached | ArmCached | FastPoll | ColdCheck

  datatype ColdPc = Invalidate | ListThreads | ArmOne | ColdPoll | AbortShut

  datatype GracePc = GraceCheckDone | GraceCheckClaimed | GracePoll | Shut

  datatype TeardownPc = DisarmOne | RemoveHandler | AbortRemoveHandler

  datatype ReportPc = FinalCheck | LoadOk | CopyOut

  /** The worker's next access, grouped by the phase of `run_process_event_on_game_thread` it belongs to. */
  datatype WorkerPc =
    | Publish(p: PublishPc)
    | SetArmed
    | Fast(f: FastPc)
    | Cold(c: ColdPc)
    | Grace(g: GracePc)
    | Teardown(d: TeardownPc)
    | Report(r: ReportPc)
    | Returned(outcome: Outcome)

  /** Worker locals; `buffer` is the caller's block. */
  datatype Worker = Worker(pc: WorkerPc, buffer: seq<Octet>, cached: Tid, arms: Arms, ok: bool)

  /** The shared statics: the gate, CALL_OK, the parameter buffer, JOB_LEN and GAME_TID; and the worker. */
  datatype State = State(
    gate: Gate<seq<Octet>, Effect>, callOk: bool, parms: seq<Octet>, jobLen: int, gameTid: Tid, worker: Worker)

  /**
   * One scheduler choice. `flag` and `tids` are the environment's answers to the worker's step (an OS call succeeded, a
   * deadline passed, the thread list); `ok` is whether the engine call returned without a fault.
   */
  datatype Action =
    | Work(flag: bool, tids: seq<Tid>)
    | Enter(tid: Tid)
    | Handle(tid: Tid, ok: bool)
    | Engine(tid: Tid, parms: seq<Octet>)

  /** The innermost handler on `t` moves: the gate, the call, and after it the stores to CALL_OK and GAME_TID. */
  function HandlerStep(s: State, t: Tid, ok: bool): State
    requires |Stack(s.gate, t)| > 0
  {
    var s' := s.(gate := Step(s.gate, t, STORES, s.parms, Effect(ok, s.parms)));
    match Top(s.gate, t)
    case Store(0, effect) => s'.(callOk := effect.ok)
    case Store(_, _) => s'.(gameTid := t)
    case _ => s'
  }

  /** The worker's locals moved on to `pc`. */
  function Goto(s: State, pc: WorkerPc): State {
    s.(worker := s.worker.(pc := pc))
  }

  /** `dst` with its first bytes replaced by `src` (`dst[..n].copy_from_slice(src)`). */
  function Overwrite(dst: seq<Octet>, src: seq<Octet>): seq<Octet> {
    if |src| <= |dst| then src + dst[|src|..] else dst
  }

  /** Publish the job and install the handler; opening the gate is the next access. */
  function PublishStep(req: Request, s: State, p: PublishPc, flag: bool): State {
    var w := s.worker;
    match p
    case CheckSize => Goto(s, if |w.buffer| > PARMS_CAP then Returned(ParmsTooLarge) else Publish(ClearDone))
    case ClearDone => Goto(s.(gate := s.gate.(done := false)), Publish(ClearClaimed))
    case ClearClaimed => Goto(s.(gate := s.gate.(claimed := false)), Publish(ClearOk))
    case ClearOk => Goto(s.(callOk := false), Publish(StoreJob(0)))
    case StoreJob(k) =>
      Goto(s.(gate := s.gate.(job := StoreWord(s.gate.job, k, req.job))),
           Publish(if k + 1 < WORDS then StoreJob(k + 1) else StoreLen))
    case StoreLen => Goto(s.(jobLen := |w.buffer|), Publish(CopyIn))
    case CopyIn => Goto(s.(parms := Overwrite(s.parms, w.buffer)), Publish(AddHandler))
    case AddHandler =>
      if flag then Goto(s.(gate := s.gate.(installed := true)), SetArmed) else Goto(s, Returned(NoThreads))
  }

  /** Phase 1: arm only the thread that ran the previous call, and wait briefly. */
  function FastStep(req: Request, s: State, f: FastPc, flag: bool): State {
    var w := s.worker;
    match f
    case LoadCached => s.(worker := w.(cached := s.gameTid, pc := Fast(ArmCached)))
    case ArmCached =>
      if w.cached != 0 && w.cached != req.me && flag then
        s.(gate := SetDr0(s.gate, w.cached),
           worker := w.(arms := w.arms.(armed := w.arms.armed + [w.cached]), pc := Fast(FastPoll)))
      else Goto(s, Fast(ColdCheck))
    case FastPoll => if flag || s.gate.done then Goto(s, Fast(ColdCheck)) else s
    case ColdCheck => Goto(s, if s.gate.done then Grace(GraceCheckDone) else Cold(Invalidate))
  }

  /** Phase 2: forget the stale cache, arm every other thread, wait for the deadline. */
  function ColdStep(req: Request, s: State, c: ColdPc, flag: bool, tids: seq<Tid>): State {
    var w, arms := s.worker, s.worker.arms;
    match c
    case Invalidate => Goto(if w.cached != 0 then s.(gameTid := 0) else s, Cold(ListThreads))
    case ListThreads => s.(worker := w.(arms := arms.(todo := tids), pc := Cold(ArmOne)))
    case ArmOne =>
      if arms.todo == [] then Goto(s, if arms.armed == [] then Cold(AbortShut) else Cold(ColdPoll))
      else
        var next := ArmNext(s.gate, arms, arms.todo[0] == req.me || arms.todo[0] in arms.armed, flag);
        s.(gate := next.0, worker := w.(arms := next.1))
    case ColdPoll => if flag || s.gate.done then Goto(s, Grace(GraceCheckDone)) else s
    case AbortShut => Goto(s.(gate := s.gate.(armed := false)), Teardown(AbortRemoveHandler))
  }

  /** A job claimed right at the deadline gets a bounded window to finish; then the gate is shut. */
  function GraceStep(s: State, g: GracePc, flag: bool): State {
    var w := s.worker;
    match g
    case GraceCheckDone => Goto(s, if s.gate.done then Grace(Shut) else Grace(GraceCheckClaimed))
    case GraceCheckClaimed => Goto(s, if s.gate.claimed then Grace(GracePoll) else Grace(Shut))
    case GracePoll => if flag || s.gate.done then Goto(s, Grace(Shut)) else s
    case Shut =>
      s.(gate := s.gate.(armed := false),
         worker := w.(arms := w.arms.(todo := w.arms.armed), pc := Teardown(DisarmOne)))
  }

  /** Disarm every armed thread and drop the handler. */
  function TeardownStep(s: State, d: TeardownPc, flag: bool): State {
    var w := s.worker;
    match d
    case DisarmOne =>
      if w.arms.todo == [] then Goto(s, Teardown(RemoveHandler))
      else
        var next := DisarmNext(s.gate, w.arms, flag);
        s.(gate := next.0, worker := w.(arms := next.1))
    case RemoveHandler => Goto(s.(gate := s.gate.(installed := false)), Report(FinalCheck))
    case AbortRemoveHandler => Goto(s.(gate := s.gate.(installed := false)), Returned(NoThreads))
  }

  /** Read DONE and CALL_OK and copy the out-parameters back. */
  function ReportStep(s: State, r: ReportPc): State {
    var w := s.worker;
    match r
    case FinalCheck => Goto(s, if s.gate.done then Report(LoadOk) else Returned(Timeout))
    case LoadOk =>
      s.(worker := w.(ok := s.callOk, pc := if s.callOk then Report(CopyOut) else Returned(Ran(false))))
    case CopyOut =>
      var n := Min(s.jobLen, |w.buffer|);
      var out := if 0 <= n <= |s.parms| then s.parms[..n] else [];
      s.(worker := w.(buffer := Overwrite(w.buffer, out), pc := Returned(Ran(w.ok))))
  }

  function WorkerStep(req: Request, s: State, flag: bool, tids: seq<Tid>): State {
    match s.worker.pc
    case Publish(p) => PublishStep(req, s, p, flag)
    case SetArmed => Goto(s.(gate := s.gate.(armed := true)), Fast(LoadCached))
    case Fast(f) => FastStep(req, s, f, flag)
    case Cold(c) => ColdStep(req, s, c, flag, tids)
    case Grace(g) => GraceStep(s, g, flag)
    case Teardown(d) => TeardownStep(s, d, flag)
    case Report(r) => ReportStep(s, r)
    case Returned(_) => s
  }

  predicate Enabled(s: State, a: Action) {
    match a
    case Work(_, _) => !s.worker.pc.Returned?
    case Enter(t) => CanTrap(s.gate, t)
    case Handle(t, _) => |Stack(s.gate, t)| > 0
    case Engine(t, parms) => |Stack(s.gate, t)| > 0 && Top(s.gate, t).InCall? && |parms| == PARMS_CAP
  }

  function Apply(req: Request, s: State, a: Action): State
    requires Enabled(s, a)
  {
    match a
    case Work(flag, tids) => WorkerStep(req, s, flag, tids)
    case Enter(t) => s.(gate := Trap(s.gate, t))
    case Handle(t, ok) => HandlerStep(s, t, ok)
    case Engine(_, parms) => s.(parms := parms)
  }

  // ---------- runs ----------

  ghost function Sys(req: Request): System<State, Action> {
    System((s: State, a: Action) => Enabled(s, a),
           (s: State, a: Action) => if Enabled(s, a) then Apply(req, s, a) else s)
  }

  /** A run may start with stale flags, stale armed threads and handlers of earlier runs. */
  ghost predicate Start(req: Request, s: State) {
    && !s.gate.armed && !s.gate.installed && |s.parms| == PARMS_CAP
    && |req.job| == WORDS == |s.gate.job|
    && req.me !in s.gate.dr0 && Stacked(req.me, s.gate)
    && s.worker.pc == Publish(CheckSize) && s.worker.buffer == req.input
    && s.worker.arms.armed == [] && s.worker.arms.failed == {}
    && s.gate.owner == None && s.gate.executions == []
  }

  /** A start with no handler past the ARMED check. */
  ghost predicate Init(req: Request, s: State) {
    Start(req, s) && NonePassed(s.gate)
  }

  // ---------- the inductive invariant ----------

  /** How far publishing has got. */
  function Rank(p: PublishPc): int {
    match p
    case CheckSize => 0
    case ClearDone => 1
    case ClearClaimed => 2
    case ClearOk => 3
    case StoreJob(_) => 4
    case StoreLen => 5
    case CopyIn => 6
    case AddHandler => 7
  }

  ghost predicate PublishInv(req: Request, s: State, p: PublishPc) {
    var rank, g := Rank(p), s.gate;
    && |s.parms| == PARMS_CAP && |req.job| == WORDS == |g.job|
    && !g.armed && s.worker.arms.armed == [] && req.me !in g.dr0
    && s.worker.buffer == req.input
    && Fresh(req.me, g) && !g.installed
    && (rank >= 1 ==> |req.input| <= PARMS_CAP)
    && (rank >= 2 ==> !g.done)
    && (rank >= 3 ==> !g.claimed)
    && (rank == 4 ==> p.word < WORDS && g.job[..p.word] == req.job[..p.word])
    && (rank >= 5 ==> g.job == req.job)
    && (rank >= 6 ==> s.jobLen == |req.input|)
    && (rank == 7 ==> s.parms[..|req.input|] == req.input)
  }

  predicate PastOk(f: Frame<Effect>) {
    f.StoreDone? || (f.Store? && f.step > 0)
  }

  /** The owner has stored CALL_OK. */
  ghost predicate OkStored(g: Gate<seq<Octet>, Effect>) {
    g.done || (OwnerFrame(g).Some? && PastOk(OwnerFrame(g).value))
  }

  /** The parameter buffer carries the caller's input into the call and the call's output out of it. */
  ghost predicate CellsInv(req: Request, s: State) {
    var len, es := |req.input|, s.gate.executions;
    && len <= PARMS_CAP == |s.parms|
    && (es == [] ==> s.parms[..len] == req.input)
    && (es != [] ==>
          && len <= |es[0].input| && es[0].input[..len] == req.input
          && (es[0].finished.Some? ==> es[0].finished.value.parms == s.parms)
          && (es[0].finished.Some? && OkStored(s.gate) ==> es[0].finished.value.ok == s.callOk))
  }

  /** The gate is open. */
  predicate Gated(pc: WorkerPc) { pc.Fast? || pc.Cold? || pc.Grace? }

  predicate NothingArmed(pc: WorkerPc) {
    || pc == SetArmed || pc == Fast(LoadCached) || pc == Fast(ArmCached) || pc == Cold(AbortShut)
    || pc == Teardown(AbortRemoveHandler) || pc == Returned(NoThreads)
  }

  /** Which threads may still have DR0 set. */
  ghost predicate ArmInv(req: Request, s: State) {
    var pc, arms := s.worker.pc, s.worker.arms;
    && req.me !in s.gate.dr0 && req.me !in arms.armed
    && (NothingArmed(pc) ==> arms.armed == [])
    && (pc == Teardown(DisarmOne) ==> Disarming(s.gate, arms))
    && (pc == Teardown(RemoveHandler) || pc.Report? || pc.Returned? ==> Disarmed(s.gate, arms))
    && (pc.Report? || pc.Returned? ==> !s.gate.installed)
  }

  ghost predicate ResultInv(req: Request, s: State) {
    var w := s.worker;
    && (w.pc == Report(LoadOk) || w.pc == Report(CopyOut) ==> s.gate.done)
    && (w.pc == Report(CopyOut) ==> w.ok && s.callOk)
    && (w.pc == Returned(Ran(w.ok)) ==> s.gate.done && s.callOk == w.ok)
    && (w.pc.Returned? && w.pc.outcome.Ran? ==> w.pc.outcome.ok == w.ok)
    && w.buffer == (if w.pc == Returned(Ran(true)) && |req.input| <= |s.parms| then s.parms[..|req.input|]
                    else req.input)
  }

  /** What the worker maintains from the opening of the gate on. */
  ghost predicate WorkerInv(req: Request, s: State) {
    && |req.job| == WORDS && s.jobLen == |req.input| <= |s.parms|
    && (s.gate.armed <==> Gated(s.worker.pc))
    && ArmInv(req, s) && ResultInv(req, s)
  }

  /** From the opening of the gate on, the job stays published and the statics are consistent. */
  ghost predicate OpenInv(req: Request, s: State) {
    GateInv(req.me, req.job, s.gate) && CellsInv(req, s) && WorkerInv(req, s)
  }

  ghost predicate NothingPublished(req: Request, s: State) {
    && Fresh(req.me, s.gate) && s.worker.buffer == req.input && !s.gate.installed && !s.gate.armed
    && |s.parms| == PARMS_CAP && |s.gate.job| == WORDS && req.me !in s.gate.dr0
  }

  ghost predicate Inv(req: Request, s: State) {
    if s.worker.pc.Publish? then PublishInv(req, s, s.worker.pc.p)
    else if s.worker.pc == Returned(ParmsTooLarge) then NothingPublished(req, s)
    else OpenInv(req, s)
  }

  lemma AddHandlerInv(req: Request, s: State, flag: bool)
    requires s.worker.pc == Publish(AddHandler) && PublishInv(req, s, AddHandler)
    ensures OpenInv(req, PublishStep(req, s, AddHandler, flag))
  {
    var s' := PublishStep(req, s, AddHandler, flag);
    FreshKept(req.me, s.gate, s'.gate);
    InstallInv(req.me, req.job, s'.gate);
  }

  lemma PublishStepInv(req: Request, s: State, p: PublishPc, flag: bool)
    requires s.worker.pc == Publish(p) && PublishInv(req, s, p)
    ensures Inv(req, PublishStep(req, s, p, flag))
  {
    if p.AddHandler? {
      AddHandlerInv(req, s, flag);
    } else {
      FreshKept(req.me, s.gate, PublishStep(req, s, p, flag).gate);
    }
  }

  /** What a worker step leaves alone once the gate has been opened. */
  ghost predicate WorkerKeeps(s: State, s': State) {
    WorkerMove(s.gate, s'.gate) && s'.callOk == s.callOk && s'.parms == s.parms && s'.jobLen == s.jobLen
  }

  lemma FastStepInv(req: Request, s: State, f: FastPc, flag: bool)
    requires s.worker.pc == Fast(f) && WorkerInv(req, s)
    ensures WorkerInv(req, FastStep(req, s, f, flag)) && WorkerKeeps(s, FastStep(req, s, f, flag))
  {
  }

  lemma ColdStepInv(req: Request, s: State, c: ColdPc, flag: bool, tids: seq<Tid>)
    requires s.worker.pc == Cold(c) && WorkerInv(req, s)
    ensures WorkerInv(req, ColdStep(req, s, c, flag, tids)) && WorkerKeeps(s, ColdStep(req, s, c, flag, tids))
  {
    var arms := s.worker.arms;
    if c == ArmOne && arms.todo != [] {
      ArmNextInv(s.gate, arms, arms.todo[0] == req.me || arms.todo[0] in arms.armed, flag, req.me);
    }
  }

  lemma GraceStepInv(req: Request, s: State, g: GracePc, flag: bool)
    requires s.worker.pc == Grace(g) && WorkerInv(req, s)
    ensures WorkerInv(req, GraceStep(s, g, flag)) && WorkerKeeps(s, GraceStep(s, g, flag))
  {
  }

  lemma TeardownStepInv(req: Request, s: State, d: TeardownPc, flag: bool)
    requires s.worker.pc == Teardown(d) && WorkerInv(req, s)
    ensures WorkerInv(req, TeardownStep(s, d, flag)) && WorkerKeeps(s, TeardownStep(s, d, flag))
  {
    if d == DisarmOne && s.worker.arms.todo != [] {
      DisarmNextInv(s.gate, s.worker.arms, flag);
    }
  }

  lemma CopyOutInv(req: Request, s: State)
    requires s.worker.pc == Report(CopyOut) && WorkerInv(req, s)
    ensures WorkerInv(req, ReportStep(s, CopyOut)) && WorkerKeeps(s, ReportStep(s, CopyOut))
  {
    assert s.worker.buffer == req.input && Min(s.jobLen, |s.worker.buffer|) == |req.input|;
  }

  lemma ReportStepInv(req: Request, s: State, r: ReportPc)
    requires s.worker.pc == Report(r) && WorkerInv(req, s)
    ensures WorkerInv(req, ReportStep(s, r)) && WorkerKeeps(s, ReportStep(s, r))
  {
    if r == CopyOut {
      CopyOutInv(req, s);
    }
  }

  lemma OpenKept(req: Request, s: State, s': State)
    requires OpenInv(req, s) && WorkerKeeps(s, s') && WorkerInv(req, s')
    ensures OpenInv(req, s')
  {
    WorkerMoveInv(req.me, req.job, s.gate, s'.gate);
    assert forall t :: Stack(s'.gate, t) == Stack(s.gate, t);
  }

  lemma OpenStepInv(req: Request, s: State, flag: bool, tids: seq<Tid>)
    requires WorkerInv(req, s) && !s.worker.pc.Publish? && !s.worker.pc.Returned?
    ensures WorkerInv(req, WorkerStep(req, s, flag, tids)) && WorkerKeeps(s, WorkerStep(req, s, flag, tids))
  {
    match s.worker.pc
    case SetArmed =>
    case Fast(f) => FastStepInv(req, s, f, flag);
    case Cold(c) => ColdStepInv(req, s, c, flag, tids);
    case Grace(g) => GraceStepInv(req, s, g, flag);
    case Teardown(d) => TeardownStepInv(req, s, d, flag);
    case Report(r) => ReportStepInv(req, s, r);
  }

  lemma StaysOpen(req: Request, s: State, flag: bool, tids: seq<Tid>)
    requires !s.worker.pc.Publish? && !s.worker.pc.Returned?
    ensures var pc := WorkerStep(req, s, flag, tids).worker.pc; !pc.Publish? && pc != Returned(ParmsTooLarge)
  {
  }

  lemma WorkerStepInv(req: Request, s: State, flag: bool, tids: seq<Tid>)
    requires Inv(req, s) && !s.worker.pc.Returned?
    ensures Inv(req, WorkerStep(req, s, flag, tids))
  {
    if s.worker.pc.Publish? {
      PublishStepInv(req, s, s.worker.pc.p, flag);
    } else {
      OpenStepInv(req, s, flag, tids);
      StaysOpen(req, s, flag, tids);
      OpenKept(req, s, WorkerStep(req, s, flag, tids));
    }
  }

  /** Across an access by a handler or the engine, the worker's part stays true. */
  ghost predicate OthersKeep(s: State, s': State) {
    && Keeps(s.gate, s'.gate) && s'.worker == s.worker && s'.jobLen == s.jobLen && |s'.parms| == |s.parms|
    && (s.gate.done ==> s'.callOk == s.callOk && s'.parms == s.parms)
  }

  lemma WorkerInvKept(req: Request, s: State, s': State)
    requires WorkerInv(req, s) && OthersKeep(s, s')
    ensures WorkerInv(req, s')
  {
  }

  lemma HandlerKeeps(req: Request, s: State, t: Tid, ok: bool)
    requires GateInv(req.me, req.job, s.gate) && |Stack(s.gate, t)| > 0
    ensures OthersKeep(s, HandlerStep(s, t, ok))
  {
    StepKeeps(req.me, req.job, s.gate, t, STORES, s.parms, Effect(ok, s.parms));
    assert FrameInv(req.me, s.gate, t, |Stack(s.gate, t)| - 1);
  }

  /** The owner's accesses keep the statics in step with the call. */
  lemma CallCells(req: Request, s: State, t: Tid, ok: bool)
    requires GateInv(req.me, req.job, s.gate) && CellsInv(req, s) && |Stack(s.gate, t)| > 0 && Busy(Top(s.gate, t))
    ensures CellsInv(req, HandlerStep(s, t, ok))
  {
    CallStepOwner(req.me, req.job, s.gate, t, STORES, s.parms, Effect(ok, s.parms));
    assert FrameInv(req.me, s.gate, t, |Stack(s.gate, t)| - 1);
    var f, s' := Top(s.gate, t), HandlerStep(s, t, ok);
    assert Top(s'.gate, t) == NextFrame(s.gate, f, STORES, Effect(ok, s.parms));
    assert s'.gate.executions == NextExecutions(s.gate, f, t, s.parms, Effect(ok, s.parms));
  }

  lemma GateCells(req: Request, s: State, t: Tid, ok: bool)
    requires GateInv(req.me, req.job, s.gate) && CellsInv(req, s) && |Stack(s.gate, t)| > 0 && !Busy(Top(s.gate, t))
    ensures CellsInv(req, HandlerStep(s, t, ok))
  {
    GateStepOwner(req.me, req.job, s.gate, t);
  }

  /** While the job is being published, no handler gets past the gate. */
  lemma EarlyHandlerInv(req: Request, s: State, t: Tid, ok: bool)
    requires Inv(req, s) && |Stack(s.gate, t)| > 0
    requires s.worker.pc.Publish? || s.worker.pc == Returned(ParmsTooLarge)
    ensures Inv(req, HandlerStep(s, t, ok))
  {
    assert ThreadOutside(s.gate, t);
    FreshStays(req.me, s.gate, t, STORES, s.parms, Effect(ok, s.parms));
  }

  lemma HandlerStepInv(req: Request, s: State, t: Tid, ok: bool)
    requires Inv(req, s) && |Stack(s.gate, t)| > 0
    ensures Inv(req, HandlerStep(s, t, ok))
  {
    if s.worker.pc.Publish? || s.worker.pc == Returned(ParmsTooLarge) {
      EarlyHandlerInv(req, s, t, ok);
    } else {
      StepInv(req.me, req.job, s.gate, t, STORES, s.parms, Effect(ok, s.parms));
      if Busy(Top(s.gate, t)) {
        CallCells(req, s, t, ok);
      } else {
        GateCells(req, s, t, ok);
      }
      HandlerKeeps(req, s, t, ok);
      WorkerInvKept(req, s, HandlerStep(s, t, ok));
    }
  }

  lemma EnterInv(req: Request, s: State, t: Tid)
    requires Inv(req, s) && Enabled(s, Enter(t))
    ensures Inv(req, Apply(req, s, Enter(t)))
  {
    TrapInv(req.me, req.job, s.gate, t);
    var s' := Apply(req, s, Enter(t));
    if s.gate.owner.Some? {
      var u := s.gate.owner.value;
      assert OwnerBusy(s.gate, u) ==> Stack(s'.gate, u)[0] == Stack(s.gate, u)[0];
    }
    assert OthersKeep(s, s');
    WorkerInvKept(req, s, s');
  }

  /** The engine only runs once the gate is open. */
  lemma EngineRunsOpen(req: Request, s: State, t: Tid)
    requires Inv(req, s) && |Stack(s.gate, t)| > 0 && Top(s.gate, t).InCall?
    ensures OpenInv(req, s) && !s.worker.pc.Publish? && s.worker.pc != Returned(ParmsTooLarge)
  {
    if s.worker.pc.Publish? || s.worker.pc == Returned(ParmsTooLarge) {
      FreshIsOutside(req.me, s.gate, t);
    }
  }

  lemma EngineInv(req: Request, s: State, t: Tid, parms: seq<Octet>)
    requires Inv(req, s) && Enabled(s, Engine(t, parms))
    ensures Inv(req, Apply(req, s, Engine(t, parms)))
  {
    EngineRunsOpen(req, s, t);
    assert FrameInv(req.me, s.gate, t, |Stack(s.gate, t)| - 1);
    WorkerInvKept(req, s, Apply(req, s, Engine(t, parms)));
  }

  lemma ActionInv(req: Request, s: State, a: Action)
    requires Inv(req, s) && Enabled(s, a)
    ensures Inv(req, Apply(req, s, a))
  {
    match a
    case Work(flag, tids) => WorkerStepInv(req, s, flag, tids);
    case Enter(t) => EnterInv(req, s, t);
    case Handle(t, ok) => HandlerStepInv(req, s, t, ok);
    case Engine(t, parms) => EngineInv(req, s, t, parms);
  }

  lemma InvIsInductive(req: Request)
    ensures Inductive(Sys(req), (s: State) => Inv(req, s))
  {
    forall s: State, a: Action | Inv(req, s) && Enabled(s, a) ensures Inv(req, Apply(req, s, a)) {
      ActionInv(req, s, a);
    }
  }

  /** Every step of worker, handlers and engine keeps the invariant. */
  lemma ReachableInvariant(req: Request, s0: State, s: State)
    requires Init(req, s0) && Reaches(Sys(req), s0, s)
    ensures Inv(req, s)
  {
    InvIsInductive(req);
    ReachableInv(Sys(req), (s: State) => Inv(req, s), s0, s);
  }

  // ---------- what every run guarantees ----------

  /**
   * At most one execution, never on the worker's own thread, always of the queued job on the caller's input; `Ran(ok)`
   * only after that execution completed with `ok`; the caller's block becomes the execution's output exactly when `ok`;
   * after teardown every thread armed in this run is disarmed, ARMED is clear and the handler is gone.
   */
  ghost predicate Honored(req: Request, s: State) {
    var es := s.gate.executions;
    && |es| <= 1
    && (forall e :: e in es ==>
          e.tid != req.me && e.job == req.job
          && |req.input| <= |e.input| && e.input[..|req.input|] == req.input)
    && (forall ok :: s.worker.pc == Returned(Ran(ok)) ==>
          && |es| == 1 && es[0].finished.Some? && es[0].finished.value.ok == ok
          && |req.input| <= |es[0].finished.value.parms|
          && s.worker.buffer == if ok then es[0].finished.value.parms[..|req.input|] else req.input)
    && (s.worker.pc.Returned? && !s.worker.pc.outcome.Ran? ==> s.worker.buffer == req.input)
    && (s.worker.pc.Returned? && s.worker.pc != Returned(ParmsTooLarge) ==>
          Disarmed(s.gate, s.worker.arms) && !s.gate.armed && !s.gate.installed)
  }

  /** The executor's contract, in every interleaving. */
  lemma ExecutorContract(req: Request, s0: State, s: State)
    requires Init(req, s0) && Reaches(Sys(req), s0, s)
    ensures Honored(req, s)
  {
    ReachableInvariant(req, s0, s);
    forall e | e in s.gate.executions
      ensures e.tid != req.me && e.job == req.job && |req.input| <= |e.input| && e.input[..|req.input|] == req.input
    {
      assert e == s.gate.executions[0];
    }
  }

  // ---------- after ARMED is cleared ----------

  ghost predicate GateShutForGood(s: State) {
    !s.gate.armed && (s.worker.pc.Teardown? || s.worker.pc.Report? || s.worker.pc.Returned?)
  }

  lemma ShutWork(req: Request, s: State, flag: bool, tids: seq<Tid>)
    requires GateShutForGood(s) && !s.worker.pc.Returned?
    ensures var s' := WorkerStep(req, s, flag, tids); GateShutForGood(s') && WorkerKeeps(s, s')
  {
    match s.worker.pc
    case Teardown(d) => assert WorkerStep(req, s, flag, tids) == TeardownStep(s, d, flag);
    case Report(r) => assert WorkerStep(req, s, flag, tids) == ReportStep(s, r);
  }

  lemma ShutMoves(req: Request, s: State, a: Action)
    requires GateShutForGood(s) && Enabled(s, a)
    ensures GateShutForGood(Apply(req, s, a)) && GateMove(s.gate, Apply(req, s, a).gate, STORES)
  {
    match a
    case Work(flag, tids) => ShutWork(req, s, flag, tids);
    case Enter(u) => assert Apply(req, s, a).gate == Trap(s.gate, u);
    case Handle(u, ok) =>
      assert Apply(req, s, a).gate == Step(s.gate, u, STORES, s.parms, Effect(ok, s.parms));
      assert Step(s.gate, u, STORES, s.parms, Effect(ok, s.parms)).armed == s.gate.armed;
    case Engine(_, _) =>
  }

  const GATE: State -> Gate<seq<Octet>, Effect> := (s: State) => s.gate

  ghost const SHUT: State -> bool := (s: State) => GateShutForGood(s)

  lemma ShutStays(req: Request)
    ensures StaysShut(Sys(req), GATE, SHUT, STORES)
  {
    forall s: State, a: Action | GateShutForGood(s) && Enabled(s, a)
      ensures GateShutForGood(Apply(req, s, a)) && GateMove(s.gate, Apply(req, s, a).gate, STORES)
    {
      ShutMoves(req, s, a);
    }
  }

  /**
   * Once ARMED is cleared, a thread whose handlers have not passed the gate never starts the job, however many times
   * it traps again: every execution added later belongs to another thread.
   */
  lemma ShutThreadNeverStarts(req: Request, s: State, t: Tid, s': State)
    requires GateShutForGood(s) && ThreadOutside(s.gate, t) && Reaches(Sys(req), s, s')
    ensures ThreadOutside(s'.gate, t)
    ensures OthersOnly(s.gate.executions, s'.gate.executions, t)
  {
    ShutStays(req);
    ShutRun(Sys(req), GATE, SHUT, STORES, s, s', t);
  }

  // ---------- driving one handler ----------

  /** Returned without a fault. */
  const SUCCEEDED: Effect -> bool := (e: Effect) => e.ok

  /** A handler that nothing stops can be scheduled to the end, with the worker standing still. */
  lemma {:induction false} DriveToDone(req: Request, s: State, t: Tid, calls: bool) returns (s': State)
    requires Driving(s.gate, t, calls, SUCCEEDED)
    ensures Reaches(Sys(req), s, s') && s'.worker == s.worker && Driven(s'.gate, calls, SUCCEEDED)
    decreases StepsToDone(Top(s.gate, t), |s.gate.job|, STORES)
  {
    var next := HandlerStep(s, t, true);
    DriveStep(s.gate, t, calls, SUCCEEDED, STORES, s.parms, Effect(true, s.parms));
    if Driven(next.gate, calls, SUCCEEDED) {
      s' := next;
      ReachesSelf(Sys(req), s');
    } else {
      s' := DriveToDone(req, next, t, calls);
    }
    ThenReaches(Sys(req), s, Handle(t, true), s');
  }

  // ---------- what Timeout means ----------

  ghost predicate CallMayRun(req: Request, s: State) {
    exists s' :: Reaches(Sys(req), s, s') && s'.gate.executions != []
  }

  lemma TimeoutMeaningAt(req: Request, s: State)
    requires Inv(req, s) && s.worker.pc == Returned(Timeout)
    ensures CallMayRun(req, s) <==> s.gate.claimed || exists t :: WaitingInGate(s.gate, t)
  {
    if s.gate.executions != [] {
      ReachesSelf(Sys(req), s);
    } else if t :| s.gate.owner == Some(t) || (s.gate.owner == None && WaitingInGate(s.gate, t)) {
      ClaimantDrives(req.me, req.job, s.gate, t, SUCCEEDED);
      var s' := DriveToDone(req, s, t, true);
    } else {
      assert s.gate.owner == None;
      NoneWaits(req.me, req.job, s.gate);
      ShutStays(req);
      forall s' | Reaches(Sys(req), s, s') ensures s'.gate.executions == [] {
        ShutRunStartsNothing(Sys(req), GATE, SHUT, STORES, s, s');
      }
    }
  }

  /**
   * After a run that answered `Timeout` the queued call has run, or can still run, exactly when a handler has claimed
   * it or is waiting between the ARMED check and the claim. (The source's comment on `Timeout` says it did not run.)
   */
  lemma TimeoutMeaning(req: Request, s0: State, s: State)
    requires Init(req, s0) && Reaches(Sys(req), s0, s) && s.worker.pc == Returned(Timeout)
    ensures CallMayRun(req, s) <==> s.gate.claimed || exists t :: WaitingInGate(s.gate, t)
  {
    ReachableInvariant(req, s0, s);
    TimeoutMeaningAt(req, s);
  }

  // ---------- what a run may start with ----------

  lemma WorkReaches(req: Request, s0: State, s: State, flag: bool, tids: seq<Tid>)
    requires Reaches(Sys(req), s0, s) && !s.worker.pc.Returned?
    ensures Reaches(Sys(req), s0, WorkerStep(req, s, flag, tids))
  {
    ReachThen(Sys(req), s0, s, Work(flag, tids));
  }

  /** With ARMED clear, the innermost handler can be moved until it is one that passed the gate. */
  lemma UncoverTop(req: Request, s: State, t: Tid) returns (s': State)
    requires Stacked(req.me, s.gate) && !s.gate.armed && Passed(s.gate, t)
    ensures Reaches(Sys(req), s, s') && s'.worker == s.worker && SameShared(s.gate, s'.gate)
    ensures |Stack(s'.gate, t)| > 0 && !Outside(Top(s'.gate, t))
    decreases if |Stack(s.gate, t)| == 0 then 0 else if Top(s.gate, t).CheckArmed? then 2
              else if Top(s.gate, t).SelfDisarm? then 1 else 0
  {
    if Outside(Top(s.gate, t)) {
      OutsideLeaves(req.me, s.gate, t);
      s' := UncoverTop(req, HandlerStep(s, t, true), t);
      ThenReaches(Sys(req), s, Handle(t, true), s');
    } else {
      s' := s;
      ReachesSelf(Sys(req), s);
    }
  }

  /** How many worker steps are left to the answer, if DONE is set already. */
  function PublishCountdown(p: PublishPc): nat {
    match p
    case StoreJob(k) => 16 + if k < WORDS then WORDS - k else 0
    case StoreLen => 16
    case CopyIn => 15
    case AddHandler => 14
    case _ => 20
  }

  function Countdown(pc: WorkerPc): nat {
    match pc
    case Publish(p) => PublishCountdown(p)
    case SetArmed => 13
    case Fast(f) => if f.LoadCached? then 12 else if f.ArmCached? then 11 else 10
    case Grace(g) => if g.GraceCheckDone? then 9 else 8
    case Teardown(d) => if d.DisarmOne? then 7 else 6
    case Report(r) => if r.FinalCheck? then 5 else 4
    case _ => 0
  }

  /**
   * DONE was set while the job was still being published: the worker will find it set without having armed a thread,
   * and CALL_OK cleared.
   */
  ghost predicate Doomed(s: State) {
    var pc := s.worker.pc;
    && s.gate.done && Settled(s.gate, SUCCEEDED) && s.worker.arms.armed == []
    && (pc != Publish(ClearOk) ==> !s.callOk)
    && match pc
       case Publish(p) => Rank(p) >= 3 && (p.StoreJob? ==> p.word < WORDS)
       case SetArmed => true
       case Fast(f) => f != FastPoll
       case Cold(_) => false
       case Grace(g) => g == GraceCheckDone || g == Shut
       case Teardown(d) => (d == DisarmOne && s.worker.arms.todo == []) || d == RemoveHandler
       case Report(r) => r == FinalCheck || r == LoadOk
       case Returned(outcome) => outcome == Ran(false)
  }

  lemma DoomedStep(req: Request, s: State)
    requires Doomed(s) && !s.worker.pc.Returned?
    ensures var s' := WorkerStep(req, s, s.worker.pc == Publish(AddHandler), []);
            Doomed(s') && Countdown(s'.worker.pc) < Countdown(s.worker.pc)
  {
  }

  /** The worker then answers that the call failed, though no call, or one that succeeded, is on record. */
  lemma {:induction false} DoomedAnswers(req: Request, s: State) returns (s': State)
    requires Doomed(s)
    ensures Reaches(Sys(req), s, s') && !Honored(req, s')
    decreases Countdown(s.worker.pc)
  {
    if s.worker.pc.Returned? {
      s' := s;
      ReachesSelf(Sys(req), s);
    } else {
      DoomedStep(req, s);
      s' := DoomedAnswers(req, WorkerStep(req, s, s.worker.pc == Publish(AddHandler), []));
      ThenReaches(Sys(req), s, Work(s.worker.pc == Publish(AddHandler), []), s');
    }
  }

  /** The flags are cleared; no handler has moved yet. */
  lemma FlagsCleared(req: Request, s0: State) returns (s: State)
    requires Start(req, s0) && |req.input| <= PARMS_CAP
    ensures Reaches(Sys(req), s0, s) && s.worker == s0.worker.(pc := Publish(ClearOk))
    ensures s.gate == s0.gate.(done := false, claimed := false)
  {
    ReachesSelf(Sys(req), s0);
    WorkReaches(req, s0, s0, true, []);
    var s1 := WorkerStep(req, s0, true, []);
    WorkReaches(req, s0, s1, true, []);
    var s2 := WorkerStep(req, s1, true, []);
    WorkReaches(req, s0, s2, true, []);
    s := WorkerStep(req, s2, true, []);
  }

  /** A handler that passed the gate in an earlier run can complete its claim between the worker's stores. */
  lemma StaleHandlerBreaks(req: Request, s0: State, t: Tid) returns (s: State)
    requires Start(req, s0) && |req.input| <= PARMS_CAP && Passed(s0.gate, t)
    ensures Reaches(Sys(req), s0, s) && !Honored(req, s)
  {
    var s1 := FlagsCleared(req, s0);
    assert forall u :: Stack(s1.gate, u) == Stack(s0.gate, u);
    var s2 := UncoverTop(req, s1, t);
    var s3 := DriveToDone(req, s2, t, false);
    s := DoomedAnswers(req, s3);
    ReachesTrans(Sys(req), s0, s1, s2);
    ReachesTrans(Sys(req), s0, s2, s3);
    ReachesTrans(Sys(req), s0, s3, s);
  }

  /**
   * The executor's contract holds over every run of a request that fits, exactly if no handler of an earlier run is
   * past the ARMED check when it starts.
   */
  lemma StartCondition(req: Request, s0: State)
    requires Start(req, s0) && |req.input| <= PARMS_CAP
    ensures NonePassed(s0.gate) <==> forall s :: Reaches(Sys(req), s0, s) ==> Honored(req, s)
  {
    if NonePassed(s0.gate) {
      forall s | Reaches(Sys(req), s0, s) ensures Honored(req, s) {
        ExecutorContract(req, s0, s);
      }
    } else {
      var t :| !ThreadOutside(s0.gate, t);
      var s := StaleHandlerBreaks(req, s0, t);
    }
  }

  /** The next run begins: statics, handlers and debug registers are as the last run left them. */
  ghost function NextRun(s: State, req: Request): State {
    s.(gate := s.gate.(owner := None, executions := []),
       worker := Worker(Publish(CheckSize), req.input, 0, Arms([], [], {}), false))
  }

  lemma RunLeavesStart(req: Request, s: State, next: Request)
    requires Inv(req, s) && s.worker.pc.Returned? && next.me == req.me && |next.job| == WORDS
    ensures Start(next, NextRun(s, next))
  {
    var g, g' := s.gate, NextRun(s, next).gate;
    assert forall t :: Stack(g', t) == Stack(g, t);
    if s.worker.pc != Returned(ParmsTooLarge) {
      GateIsStacked(req.me, req.job, g);
    }
  }

  /**
   * After a run whose contract held, the next one's does exactly if no handler was left past the ARMED check; by
   * `TimeoutMeaning` that is where a late handler of a timed-out run is.
   */
  lemma NextRunIsSafe(req: Request, s0: State, s: State, next: Request)
    requires Init(req, s0) && Reaches(Sys(req), s0, s) && s.worker.pc.Returned?
    requires next.me == req.me && |next.job| == WORDS && |next.input| <= PARMS_CAP
    ensures Start(next, NextRun(s, next))
    ensures (forall t :: ThreadOutside(s.gate, t))
            <==> forall s' :: Reaches(Sys(next), NextRun(s, next), s') ==> Honored(next, s')
  {
    ReachableInvariant(req, s0, s);
    RunLeavesStart(req, s, next);
    forall t ensures ThreadOutside(NextRun(s, next).gate, t) <==> ThreadOutside(s.gate, t) {
      assert Stack(NextRun(s, next).gate, t) == Stack(s.gate, t);
    }
    StartCondition(next, NextRun(s, next));
  }

  // ---------- a concrete run ----------

  /** `n` worker steps in which every OS call succeeds, every deadline passes and thread 2 is the only game thread. */
  ghost function WorkN(req: Request, s: State, n: nat): State
    decreases n
  {
    if n == 0 then s else WorkN(req, WorkerStep(req, s, true, [2]), n - 1)
  }

  lemma {:induction false} ReachWorkN(req: Request, s0: State, s: State, n: nat)
    requires Reaches(Sys(req), s0, s) && forall k :: 0 <= k < n ==> !WorkN(req, s, k).worker.pc.Returned?
    ensures Reaches(Sys(req), s0, WorkN(req, s, n))
    decreases n
  {
    if n > 0 {
      assert !WorkN(req, s, 0).worker.pc.Returned?;
      var s1 := WorkerStep(req, s, true, [2]);
      WorkReaches(req, s0, s, true, [2]);
      forall k | 0 <= k < n - 1 ensures !WorkN(req, s1, k).worker.pc.Returned? {
        assert WorkN(req, s, k + 1) == WorkN(req, s1, k);
      }
      ReachWorkN(req, s0, s1, n - 1);
    }
  }

  const DEMO_JOB: seq<int> := [10, 20, 30]
  const DEMO := Request(1, DEMO_JOB, [])

  function DemoAt(
    parms: seq<Octet>, armed: bool, installed: bool, dr0: set<Tid>, stacks: map<Tid, seq<Frame<Effect>>>, pc: WorkerPc,
    armedTids: seq<Tid>, todo: seq<Tid>): State
  {
    State(Gate(armed, false, false, DEMO_JOB, installed, dr0, stacks, None, []), false, parms, 0, 0,
          Worker(pc, [], 0, Arms(armedTids, todo, {}), false))
  }

  function DemoStart(parms: seq<Octet>): State {
    DemoAt(parms, false, false, {}, map[], Publish(CheckSize), [], [])
  }

  lemma DemoStoresJob(parms: seq<Octet>)
    ensures Reaches(Sys(DEMO), DemoStart(parms), DemoAt(parms, false, false, {}, map[], Publish(StoreLen), [], []))
  {
    var s0 := DemoStart(parms);
    ReachesSelf(Sys(DEMO), s0);
    assert forall k :: 0 <= k < 3 ==> StoreWord(DEMO_JOB, k, DEMO_JOB) == DEMO_JOB;
    var s4 := DemoAt(parms, false, false, {}, map[], Publish(StoreJob(0)), [], []);
    assert WorkN(DEMO, s0, 4) == s4;
    ReachWorkN(DEMO, s0, s0, 4);
    assert WorkN(DEMO, s4, 3) == DemoAt(parms, false, false, {}, map[], Publish(StoreLen), [], []);
    ReachWorkN(DEMO, s0, s4, 3);
  }

  lemma DemoPublishes(parms: seq<Octet>)
    ensures Reaches(Sys(DEMO), DemoStart(parms), DemoAt(parms, true, true, {}, map[], Fast(LoadCached), [], []))
  {
    DemoStoresJob(parms);
    var s7 := DemoAt(parms, false, false, {}, map[], Publish(StoreLen), [], []);
    assert [] + parms[0..] == parms;
    assert WorkN(DEMO, s7, 4) == DemoAt(parms, true, true, {}, map[], Fast(LoadCached), [], []);
    ReachWorkN(DEMO, DemoStart(parms), s7, 4);
  }

  lemma DemoArms(parms: seq<Octet>)
    ensures Reaches(Sys(DEMO), DemoStart(parms), DemoAt(parms, true, true, {2}, map[], Cold(ColdPoll), [2], []))
  {
    DemoPublishes(parms);
    var s11 := DemoAt(parms, true, true, {}, map[], Fast(LoadCached), [], []);
    var s14 := DemoAt(parms, true, true, {}, map[], Cold(Invalidate), [], []);
    assert WorkN(DEMO, s11, 3) == s14;
    ReachWorkN(DEMO, DemoStart(parms), s11, 3);
    assert WorkN(DEMO, s14, 4) == DemoAt(parms, true, true, {2}, map[], Cold(ColdPoll), [2], []);
    ReachWorkN(DEMO, DemoStart(parms), s14, 4);
  }

  lemma DemoPassesGate(parms: seq<Octet>)
    ensures Reaches(Sys(DEMO), DemoStart(parms),
                    DemoAt(parms, true, true, {2}, map[2 := [CheckDone]], Cold(ColdPoll), [2], []))
  {
    DemoArms(parms);
    var s18 := DemoAt(parms, true, true, {2}, map[], Cold(ColdPoll), [2], []);
    var s19 := Apply(DEMO, s18, Enter(2));
    ReachThen(Sys(DEMO), DemoStart(parms), s18, Enter(2));
    assert Stack(s18.gate, 2) + [CheckArmed] == [CheckArmed];
    assert s19 == DemoAt(parms, true, true, {2}, map[2 := [CheckArmed]], Cold(ColdPoll), [2], []);
    var s20 := Apply(DEMO, s19, Handle(2, false));
    ReachThen(Sys(DEMO), DemoStart(parms), s19, Handle(2, false));
    assert Stack(s19.gate, 2)[..0] + [CheckDone] == [CheckDone];
    assert s20.gate.stacks == map[2 := [CheckDone]];
  }

  lemma DemoShutsGate(parms: seq<Octet>)
    ensures Reaches(Sys(DEMO), DemoStart(parms),
                    DemoAt(parms, false, true, {2}, map[2 := [CheckDone]], Teardown(DisarmOne), [2], [2]))
  {
    DemoPassesGate(parms);
    var stacks := map[2 := [CheckDone]];
    var s20 := DemoAt(parms, true, true, {2}, stacks, Cold(ColdPoll), [2], []);
    assert WorkN(DEMO, s20, 4) == DemoAt(parms, false, true, {2}, stacks, Teardown(DisarmOne), [2], [2]);
    ReachWorkN(DEMO, DemoStart(parms), s20, 4);
  }

  lemma DemoTimesOut(parms: seq<Octet>)
    ensures Reaches(Sys(DEMO), DemoStart(parms),
                    DemoAt(parms, false, false, {}, map[2 := [CheckDone]], Returned(Timeout), [2], []))
  {
    DemoShutsGate(parms);
    var stacks := map[2 := [CheckDone]];
    var s24 := DemoAt(parms, false, true, {2}, stacks, Teardown(DisarmOne), [2], [2]);
    assert WorkN(DEMO, s24, 4) == DemoAt(parms, false, false, {}, stacks, Returned(Timeout), [2], []);
    ReachWorkN(DEMO, DemoStart(parms), s24, 4);
  }

  /**
   * A concrete run: thread 2 passes the ARMED check, the worker times out and returns, and the call is still to come.
   */
  lemma TimeoutCallCanStillRun(parms: seq<Octet>)
    requires |parms| == PARMS_CAP
    ensures Init(DEMO, DemoStart(parms))
    ensures exists s :: && Reaches(Sys(DEMO), DemoStart(parms), s) && s.worker.pc == Returned(Timeout)
                        && CallMayRun(DEMO, s)
  {
    DemoTimesOut(parms);
    var s := DemoAt(parms, false, false, {}, map[2 := [CheckDone]], Returned(Timeout), [2], []);
    var s' := DriveToDone(DEMO, s, 2, true);
  }

  // ---------- refinement ----------

  function Prefix(b: seq<Octet>, n: nat): seq<Octet> {
    if n <= |b| then b[..n] else b
  }

  /** The abstract call a concrete state stands for. */
  ghost function Abstract(req: Request, s: State): Call<seq<Octet>> {
    var es := s.gate.executions;
    var phase :=
      if es == [] then Idle
      else if es[0].finished == None then Running
      else Finished(if es[0].finished.value.ok then Ret(Prefix(es[0].finished.value.parms, |req.input|)) else Fault);
    var answer :=
      match s.worker.pc
      case Returned(Ran(true)) => Some(Some(Ret(s.worker.buffer)))
      case Returned(Ran(false)) => Some(Some(Fault))
      case Returned(_) => Some(None)
      case _ => None;
    Call(phase, answer)
  }

  /** What the worker answers is what the finished execution left. */
  lemma WorkerAnswers(req: Request, s: State, flag: bool, tids: seq<Tid>)
    requires OpenInv(req, s) && !s.worker.pc.Publish? && !s.worker.pc.Returned?
    ensures var s' := WorkerStep(req, s, flag, tids);
            && s'.gate.executions == s.gate.executions
            && (s'.worker.pc.Returned? && s'.worker.pc.outcome.Ran? ==>
                  && s.gate.executions != [] && s.gate.executions[0].finished == Some(Effect(s.callOk, s.parms))
                  && s'.worker.pc.outcome.ok == s.callOk
                  && (s.callOk ==> s'.worker.buffer == Prefix(s.parms, |req.input|)))
  {
    OpenStepInv(req, s, flag, tids);
  }

  lemma WorkerStepRefines(req: Request, s: State, flag: bool, tids: seq<Tid>)
    requires Inv(req, s) && !s.worker.pc.Returned?
    ensures Next(Abstract(req, s), Abstract(req, WorkerStep(req, s, flag, tids)))
  {
    if !s.worker.pc.Publish? {
      WorkerAnswers(req, s, flag, tids);
    }
  }

  lemma HistoryRefines(req: Request, s: State, s': State)
    requires History(s.gate.executions, s'.gate.executions) && s'.worker == s.worker
    ensures Next(Abstract(req, s), Abstract(req, s'))
  {
  }

  lemma HandlerStepRefines(req: Request, s: State, t: Tid, ok: bool)
    requires Inv(req, s) && |Stack(s.gate, t)| > 0
    ensures Next(Abstract(req, s), Abstract(req, HandlerStep(s, t, ok)))
  {
    if s.worker.pc.Publish? || s.worker.pc == Returned(ParmsTooLarge) {
      NonePasses(s.gate, t, STORES, s.parms, Effect(ok, s.parms));
    } else {
      StepKeeps(req.me, req.job, s.gate, t, STORES, s.parms, Effect(ok, s.parms));
    }
    HistoryRefines(req, s, HandlerStep(s, t, ok));
  }

  /** Each access is one step of the abstract run-at-most-once call, or none. */
  lemma StepRefines(req: Request, s: State, a: Action)
    requires Inv(req, s) && Enabled(s, a)
    ensures Next(Abstract(req, s), Abstract(req, Apply(req, s, a)))
  {
    match a
    case Work(flag, tids) => WorkerStepRefines(req, s, flag, tids);
    case Enter(u) => HistoryRefines(req, s, Apply(req, s, a));
    case Handle(u, ok) => HandlerStepRefines(req, s, u, ok);
    case Engine(_, _) => HistoryRefines(req, s, Apply(req, s, a));
  }

  /** Every run of the executor is a behavior of the abstract call, so the call starts at most once. */
  lemma RunRefines(req: Request, s0: State, acts: seq<Action>)
    requires Init(req, s0) && Valid(Sys(req), s0, acts)
    ensures var run := AbstractRun(Sys(req), (s: State) => Abstract(req, s), s0, acts);
            Behavior(run) && Starts(run) <= 1 && run[|acts|] == Abstract(req, Final(Sys(req), s0, acts))
  {
    InvIsInductive(req);
    forall s: State, a: Action | Inv(req, s) && Enabled(s, a)
      ensures Next(Abstract(req, s), Abstract(req, Apply(req, s, a)))
    {
      StepRefines(req, s, a);
    }
    RunIsBehavior(Sys(req), (s: State) => Inv(req, s), (s: State) => Abstract(req, s), s0, acts);
  }
}
