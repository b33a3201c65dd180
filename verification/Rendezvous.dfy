/**
 * What the two game-thread executors share: the gate in front of one queued job, and the vectored handlers that race
 * for it. Every access to the shared statics is SeqCst, so a run is an interleaving of single accesses, and each
 * handler invocation advances one access at a time.
 */
module Rendezvous {
  import opened Memory
  import opened Runs

  type Tid = int

  /**
   * One handler invocation: its next shared access and the locals it still needs. `Load` reads the next word of the
   * published job, `Store` publishes the result of the call (the executors differ in how many stores that takes).
   */
  datatype Frame<R> =
    | CheckArmed | CheckDone | Claim
    | Load(words: seq<int>) | InCall | Store(step: nat, result: R) | StoreDone
    | SelfDisarm

  /** One execution of the queued call. History only: no branch of an executor reads it. */
  datatype Execution<I, R> = Execution(tid: Tid, job: seq<int>, input: I, finished: Option<R>)

  /**
   * ARMED, CLAIMED, DONE and the words of the published job, whether the vectored handler is installed, the threads
   * whose DR0 is set, and the handler invocations of every thread, innermost last; `owner` (the thread whose claim
   * succeeded) and `executions` are history.
   */
  datatype Gate<I, R> = Gate(
    armed: bool, claimed: bool, done: bool, job: seq<int>, installed: bool, dr0: set<Tid>,
    stacks: map<Tid, seq<Frame<R>>>, owner: Option<Tid>, executions: seq<Execution<I, R>>)

  function Stack<I, R>(g: Gate<I, R>, t: Tid): seq<Frame<R>> {
    if t in g.stacks then g.stacks[t] else []
  }

  function Top<I, R>(g: Gate<I, R>, t: Tid): Frame<R>
    requires |Stack(g, t)| > 0
  {
    Stack(g, t)[|Stack(g, t)| - 1]
  }

  function SetStack<I, R>(g: Gate<I, R>, t: Tid, stack: seq<Frame<R>>): (g': Gate<I, R>)
    ensures Stack(g', t) == stack && forall u :: u != t ==> Stack(g', u) == Stack(g, u)
  {
    g.(stacks := g.stacks[t := stack])
  }

  function SetTop<I, R>(g: Gate<I, R>, t: Tid, f: Frame<R>): Gate<I, R>
    requires |Stack(g, t)| > 0
  {
    SetStack(g, t, Stack(g, t)[..|Stack(g, t)| - 1] + [f])
  }

  /** A thread traps when its DR0 is set and it runs game code: no handler is on it, or the innermost is in the call. */
  predicate CanTrap<I, R>(g: Gate<I, R>, t: Tid) {
    g.installed && t in g.dr0 && (|Stack(g, t)| == 0 || Top(g, t).InCall?)
  }

  function Trap<I, R>(g: Gate<I, R>, t: Tid): Gate<I, R> {
    SetStack(g, t, Stack(g, t) + [CheckArmed])
  }

  /** Between a successful claim and the store of DONE. */
  predicate Busy<R>(f: Frame<R>) {
    f.Load? || f.InCall? || f.Store? || f.StoreDone?
  }

  function FinishLast<I, R>(es: seq<Execution<I, R>>, result: R): seq<Execution<I, R>> {
    if |es| == 0 then es else es[..|es| - 1] + [es[|es| - 1].(finished := Some(result))]
  }

  /** The three-way gate in front of the job, and the self-disarm every handler ends with. */
  function GateStep<I, R>(g: Gate<I, R>, t: Tid): Gate<I, R>
    requires |Stack(g, t)| > 0
  {
    match Top(g, t)
    case CheckArmed => SetTop(g, t, if g.armed then CheckDone else SelfDisarm)
    case CheckDone => SetTop(g, t, if g.done then SelfDisarm else Claim)
    case Claim =>
      if g.claimed then SetTop(g, t, SelfDisarm) else SetTop(g, t, Load([])).(claimed := true, owner := Some(t))
    case SelfDisarm => SetStack(g, t, Stack(g, t)[..|Stack(g, t)| - 1]).(dr0 := g.dr0 - {t})
    case _ => g
  }

  /** The words of the job after one more load. */
  function LoadWord(job: seq<int>, words: seq<int>): seq<int> {
    if |words| < |job| then words + [job[|words|]] else words
  }

  /** The history after an access of the claimed path: a call starts with the last load, and returns. */
  function NextExecutions<I, R>(g: Gate<I, R>, f: Frame<R>, t: Tid, input: I, result: R): seq<Execution<I, R>> {
    match f
    case Load(words) =>
      var loaded := LoadWord(g.job, words);
      if |loaded| < |g.job| then g.executions else g.executions + [Execution(t, loaded, input, None)]
    case InCall => FinishLast(g.executions, result)
    case _ => g.executions
  }

  /** Where the frame goes on the claimed path: load the job, call the engine, publish the result, store DONE. */
  function NextFrame<I, R>(g: Gate<I, R>, f: Frame<R>, stores: nat, result: R): Frame<R> {
    match f
    case Load(words) => if |LoadWord(g.job, words)| < |g.job| then Load(LoadWord(g.job, words)) else InCall
    case InCall => Store(0, result)
    case Store(k, r) => if k + 1 < stores then Store(k + 1, r) else StoreDone
    case StoreDone => SelfDisarm
    case _ => f
  }

  function CallStep<I, R>(g: Gate<I, R>, t: Tid, stores: nat, input: I, result: R): Gate<I, R>
    requires |Stack(g, t)| > 0
  {
    var f := Top(g, t);
    SetTop(g, t, NextFrame(g, f, stores, result))
      .(done := g.done || f.StoreDone?, executions := NextExecutions(g, f, t, input, result))
  }

  /**
   * One shared access of the innermost handler on thread `t`. `stores` is the number of stores that publish a result;
   * `input` is what the engine finds when the call starts and `result` what the call produces when it returns.
   */
  function Step<I, R>(g: Gate<I, R>, t: Tid, stores: nat, input: I, result: R): Gate<I, R>
    requires |Stack(g, t)| > 0
  {
    if Busy(Top(g, t)) then CallStep(g, t, stores, input, result) else GateStep(g, t)
  }

  function SetDr0<I, R>(g: Gate<I, R>, t: Tid): Gate<I, R> {
    g.(dr0 := g.dr0 + {t})
  }

  function ClearDr0<I, R>(g: Gate<I, R>, t: Tid): Gate<I, R> {
    g.(dr0 := g.dr0 - {t})
  }

  /** The static job words after word `k` was stored. */
  function StoreWord(job: seq<int>, k: nat, words: seq<int>): seq<int> {
    if k < |job| && k < |words| then job[k := words[k]] else job
  }

  // ---------- the invariant of the gate ----------

  /** The frame has not read ARMED as set, or is past the job. */
  predicate Outside<R>(f: Frame<R>) {
    f.CheckArmed? || f.SelfDisarm?
  }

  /** The owning frame and the execution history agree on how far the call has got. */
  ghost predicate OwnerInv<I, R>(g: Gate<I, R>, f: Frame<R>) {
    && (f.Load? <==> g.executions == [])
    && (f.Load? ==> |f.words| < |g.job| && f.words == g.job[..|f.words|])
    && (g.executions != [] ==> (f.InCall? <==> g.executions[0].finished == None))
    && (f.Store? ==> g.executions[0].finished == Some(f.result))
  }

  ghost predicate FrameInv<I, R>(me: Tid, g: Gate<I, R>, t: Tid, i: nat)
    requires i < |Stack(g, t)|
  {
    var f := Stack(g, t)[i];
    && t != me
    && (i < |Stack(g, t)| - 1 ==> f.InCall?)
    && (Busy(f) ==> g.claimed && !g.done && g.owner == Some(t) && i == 0 && OwnerInv(g, f))
  }

  /** The owner's outermost frame still has to store DONE. */
  ghost predicate OwnerBusy<I, R>(g: Gate<I, R>, t: Tid) {
    |Stack(g, t)| > 0 && Busy(Stack(g, t)[0])
  }

  ghost predicate CallInv<I, R>(me: Tid, g: Gate<I, R>) {
    && |g.executions| <= 1
    && (g.claimed <==> g.owner.Some?)
    && (g.executions != [] ==>
          var e := g.executions[0]; g.owner == Some(e.tid) && e.tid != me && e.job == g.job)
    && (g.done ==> g.executions != [] && g.executions[0].finished.Some?)
    && (g.owner.Some? && !g.done ==> OwnerBusy(g, g.owner.value))
  }

  /** What holds from the moment the handler is installed on. */
  ghost predicate GateInv<I, R>(me: Tid, job: seq<int>, g: Gate<I, R>) {
    && g.job == job && |job| > 0 && me !in g.dr0 && CallInv(me, g)
    && forall t, i :: 0 <= i < |Stack(g, t)| ==> FrameInv(me, g, t, i)
  }

  ghost predicate ThreadOutside<I, R>(g: Gate<I, R>, t: Tid) {
    forall i :: 0 <= i < |Stack(g, t)| ==> Outside(Stack(g, t)[i])
  }

  /** No handler has passed the ARMED check. */
  ghost predicate NonePassed<I, R>(g: Gate<I, R>) {
    g.owner == None && forall t :: ThreadOutside(g, t)
  }

  /** How handlers can be stacked: none on the worker's own thread, and an interrupted one was in the call. */
  ghost predicate Stacked<I, R>(me: Tid, g: Gate<I, R>) {
    Stack(g, me) == [] && forall t, i :: 0 <= i < |Stack(g, t)| - 1 ==> Stack(g, t)[i].InCall?
  }

  /** Handlers of earlier runs may be in flight, but none has passed the ARMED check. */
  ghost predicate Fresh<I, R>(me: Tid, g: Gate<I, R>) {
    Stacked(me, g) && NonePassed(g) && g.executions == []
  }

  lemma FreshKept<I, R>(me: Tid, g: Gate<I, R>, g': Gate<I, R>)
    requires Fresh(me, g) && g'.stacks == g.stacks && g'.owner == g.owner && g'.executions == g.executions
    ensures Fresh(me, g')
  {
    assert forall t :: Stack(g', t) == Stack(g, t);
    forall t ensures ThreadOutside(g', t) {
      assert ThreadOutside(g, t);
    }
  }

  lemma InstallInv<I, R>(me: Tid, job: seq<int>, g: Gate<I, R>)
    requires Fresh(me, g) && !g.claimed && !g.done && g.job == job && |job| > 0 && me !in g.dr0
    ensures GateInv(me, job, g)
  {
    forall t, i | 0 <= i < |Stack(g, t)| ensures FrameInv(me, g, t, i) {
      assert ThreadOutside(g, t);
    }
  }

  lemma NotTheWorker<I, R>(me: Tid, job: seq<int>, g: Gate<I, R>, t: Tid, i: nat)
    requires GateInv(me, job, g) && i < |Stack(g, t)|
    ensures t != me
  {
    assert FrameInv(me, g, t, i);
  }

  lemma GateIsStacked<I, R>(me: Tid, job: seq<int>, g: Gate<I, R>)
    requires GateInv(me, job, g)
    ensures Stacked(me, g)
  {
    if |Stack(g, me)| > 0 {
      NotTheWorker(me, job, g, me, 0);
    }
    forall t, i | 0 <= i < |Stack(g, t)| - 1 ensures Stack(g, t)[i].InCall? {
      assert FrameInv(me, g, t, i);
    }
  }

  lemma TrapInv<I, R>(me: Tid, job: seq<int>, g: Gate<I, R>, t: Tid)
    requires GateInv(me, job, g) && CanTrap(g, t)
    ensures GateInv(me, job, Trap(g, t))
  {
    var g' := Trap(g, t);
    forall u, i | 0 <= i < |Stack(g', u)| ensures FrameInv(me, g', u, i) {
      if i < |Stack(g, u)| {
        assert FrameInv(me, g, u, i);
      }
    }
  }

  /** The innermost frame of `t`, outside the claimed path, moved on or left and touched nothing but its own DR0. */
  ghost predicate IdleMove<I, R>(g: Gate<I, R>, g': Gate<I, R>, t: Tid)
    requires |Stack(g, t)| > 0
  {
    var below, rest := Stack(g, t)[..|Stack(g, t)| - 1], Stack(g', t);
    && g' == SetStack(g, t, rest).(dr0 := g'.dr0) && g'.dr0 <= g.dr0
    && (rest == below || (|rest| == |below| + 1 && rest[..|below|] == below && !Busy(rest[|below|])))
    && (!g.armed && Outside(Top(g, t)) && |rest| > |below| ==> Outside(rest[|below|]))
  }

  lemma GateStepShape<I, R>(g: Gate<I, R>, t: Tid)
    requires |Stack(g, t)| > 0 && !Busy(Top(g, t)) && (Top(g, t).Claim? ==> g.claimed)
    ensures IdleMove(g, GateStep(g, t), t)
  {
  }

  lemma IdleTopInv<I, R>(me: Tid, job: seq<int>, g: Gate<I, R>, g': Gate<I, R>, t: Tid)
    requires GateInv(me, job, g) && |Stack(g, t)| > 0 && !Busy(Top(g, t)) && IdleMove(g, g', t)
    ensures GateInv(me, job, g')
  {
    var rest := Stack(g', t);
    var top := |Stack(g, t)| - 1;
    assert forall i :: 0 <= i < top ==> rest[i] == Stack(g, t)[i];
    forall u, i | 0 <= i < |Stack(g', u)| ensures FrameInv(me, g', u, i) {
      if u != t || i < top {
        assert FrameInv(me, g, u, i);
      } else {
        assert FrameInv(me, g, t, top);
      }
    }
  }

  /** The claiming compare-exchange: only an outermost frame can win it. */
  lemma ClaimInv<I, R>(me: Tid, job: seq<int>, g: Gate<I, R>, t: Tid)
    requires GateInv(me, job, g) && |Stack(g, t)| > 0 && Top(g, t).Claim? && !g.claimed
    ensures GateInv(me, job, SetTop(g, t, Load([])).(claimed := true, owner := Some(t)))
  {
    var g' := SetTop(g, t, Load([])).(claimed := true, owner := Some(t));
    assert FrameInv(me, g, t, 0) && FrameInv(me, g, t, |Stack(g, t)| - 1);
    assert |Stack(g, t)| == 1;
    forall u, i | 0 <= i < |Stack(g', u)| ensures FrameInv(me, g', u, i) {
      assert FrameInv(me, g, u, i);
    }
  }

  /** A step of the owning frame is harmless when the frame and the execution history agree after it. */
  lemma OwnerTopInv<I, R>(me: Tid, job: seq<int>, g: Gate<I, R>, g': Gate<I, R>, t: Tid, f': Frame<R>)
    requires GateInv(me, job, g) && |Stack(g, t)| > 0 && Busy(Top(g, t))
    requires g' == SetTop(g, t, f').(done := g'.done, executions := g'.executions) && CallInv(me, g')
    requires Busy(f') ==> !g'.done && OwnerInv(g', f')
    ensures GateInv(me, job, g')
  {
    assert FrameInv(me, g, t, |Stack(g, t)| - 1);
    forall u, i | 0 <= i < |Stack(g', u)| ensures FrameInv(me, g', u, i) {
      assert FrameInv(me, g, u, i);
    }
  }

  lemma CallStepInv<I, R>(me: Tid, job: seq<int>, g: Gate<I, R>, t: Tid, stores: nat, input: I, result: R)
    requires GateInv(me, job, g) && |Stack(g, t)| > 0 && Busy(Top(g, t))
    ensures GateInv(me, job, CallStep(g, t, stores, input, result))
  {
    var g' := CallStep(g, t, stores, input, result);
    assert FrameInv(me, g, t, |Stack(g, t)| - 1);
    OwnerTopInv(me, job, g, g', t, Stack(g', t)[|Stack(g, t)| - 1]);
  }

  /** Every access of every handler keeps the invariant. */
  lemma StepInv<I, R>(me: Tid, job: seq<int>, g: Gate<I, R>, t: Tid, stores: nat, input: I, result: R)
    requires GateInv(me, job, g) && |Stack(g, t)| > 0
    ensures GateInv(me, job, Step(g, t, stores, input, result))
  {
    if Busy(Top(g, t)) {
      CallStepInv(me, job, g, t, stores, input, result);
    } else if Top(g, t).Claim? && !g.claimed {
      ClaimInv(me, job, g, t);
    } else {
      GateStepShape(g, t);
      IdleTopInv(me, job, g, GateStep(g, t), t);
    }
  }

  /** From publishing on, the worker only opens and shuts the gate, installs and drops the handler, and sets DR0. */
  ghost predicate WorkerMove<I, R>(g: Gate<I, R>, g': Gate<I, R>) {
    g' == g.(armed := g'.armed, installed := g'.installed, dr0 := g'.dr0)
  }

  lemma WorkerMoveInv<I, R>(me: Tid, job: seq<int>, g: Gate<I, R>, g': Gate<I, R>)
    requires GateInv(me, job, g) && WorkerMove(g, g') && me !in g'.dr0
    ensures GateInv(me, job, g')
  {
    forall t, i | 0 <= i < |Stack(g', t)| ensures FrameInv(me, g', t, i) {
      assert FrameInv(me, g, t, i);
    }
  }

  /** What worker and other handlers may rely on across a handler's access. */
  ghost predicate Keeps<I, R>(g: Gate<I, R>, g': Gate<I, R>) {
    && g'.armed == g.armed && g'.job == g.job && g'.installed == g.installed && g'.dr0 <= g.dr0
    && (g.claimed ==> g'.claimed)
    && (g.done ==> g'.done && g'.executions == g.executions)
  }

  /** The execution history only grows by calls that start, and its one call finishes at most once. */
  ghost predicate History<I, R>(es: seq<Execution<I, R>>, es': seq<Execution<I, R>>) {
    || es' == es
    || (es == [] && |es'| == 1 && es'[0].finished == None)
    || (|es| == 1 && es[0].finished == None && |es'| == 1 && es'[0].finished.Some?
        && es' == [es[0].(finished := es'[0].finished)])
  }

  /** The outermost frame of the thread whose claim succeeded. */
  function OwnerFrame<I, R>(g: Gate<I, R>): Option<Frame<R>> {
    if g.owner.Some? && |Stack(g, g.owner.value)| > 0 then Some(Stack(g, g.owner.value)[0]) else None
  }

  /** Only the owner advances on the claimed path. */
  lemma CallStepOwner<I, R>(me: Tid, job: seq<int>, g: Gate<I, R>, t: Tid, stores: nat, input: I, result: R)
    requires GateInv(me, job, g) && |Stack(g, t)| > 0 && Busy(Top(g, t))
    ensures var g' := CallStep(g, t, stores, input, result);
            && Keeps(g, g') && History(g.executions, g'.executions)
            && !g.done && OwnerFrame(g) == Some(Top(g, t))
            && |Stack(g', t)| > 0 && OwnerFrame(g') == Some(Top(g', t))
  {
    assert FrameInv(me, g, t, |Stack(g, t)| - 1);
  }

  /** A frame outside the claimed path is not the owner's, while the call is in progress. */
  lemma IdleOwner<I, R>(me: Tid, job: seq<int>, g: Gate<I, R>, g': Gate<I, R>, t: Tid)
    requires GateInv(me, job, g) && |Stack(g, t)| > 0 && !Busy(Top(g, t)) && IdleMove(g, g', t)
    ensures Keeps(g, g') && (OwnerFrame(g') == OwnerFrame(g) || g.done)
  {
    if g.owner.Some? && !g.done {
      var u := g.owner.value;
      assert OwnerBusy(g, u);
      if u == t {
        assert Stack(g, t)[0] != Top(g, t);
        assert Stack(g', t)[0] == Stack(g, t)[..|Stack(g, t)| - 1][0];
      }
    }
  }

  lemma ClaimOwner<I, R>(me: Tid, job: seq<int>, g: Gate<I, R>, t: Tid)
    requires GateInv(me, job, g) && |Stack(g, t)| > 0 && Top(g, t).Claim? && !g.claimed
    ensures var g' := GateStep(g, t); Keeps(g, g') && g'.done == g.done && OwnerFrame(g') == Some(Load([]))
  {
    assert FrameInv(me, g, t, 0) && FrameInv(me, g, t, |Stack(g, t)| - 1);
    assert |Stack(g, t)| == 1;
  }

  /** An access of the gate reaches no owner's frame; at most it claims the job. */
  lemma GateStepOwner<I, R>(me: Tid, job: seq<int>, g: Gate<I, R>, t: Tid)
    requires GateInv(me, job, g) && |Stack(g, t)| > 0 && !Busy(Top(g, t))
    ensures var g' := GateStep(g, t);
            && Keeps(g, g') && g'.done == g.done && g'.executions == g.executions
            && (OwnerFrame(g') == OwnerFrame(g) || OwnerFrame(g') == Some(Load([])) || g.done)
  {
    if Top(g, t).Claim? && !g.claimed {
      ClaimOwner(me, job, g, t);
    } else {
      GateStepShape(g, t);
      IdleOwner(me, job, g, GateStep(g, t), t);
    }
  }

  lemma StepKeeps<I, R>(me: Tid, job: seq<int>, g: Gate<I, R>, t: Tid, stores: nat, input: I, result: R)
    requires GateInv(me, job, g) && |Stack(g, t)| > 0
    ensures var g' := Step(g, t, stores, input, result); Keeps(g, g') && History(g.executions, g'.executions)
  {
    if Busy(Top(g, t)) {
      CallStepOwner(me, job, g, t, stores, input, result);
    } else {
      GateStepOwner(me, job, g, t);
    }
  }

  // ---------- after ARMED is cleared ----------

  /** No execution added to `es` belongs to thread `t`. */
  ghost predicate OthersOnly<I, R>(es: seq<Execution<I, R>>, es': seq<Execution<I, R>>, t: Tid) {
    && |es| <= |es'|
    && forall i :: 0 <= i < |es'| ==> if i < |es| then es'[i].tid == es[i].tid else es'[i].tid != t
  }

  /** The claimed path starts executions of its own thread only. */
  lemma CallStepStarts<I, R>(g: Gate<I, R>, u: Tid, stores: nat, input: I, result: R, t: Tid)
    requires |Stack(g, u)| > 0 && u != t
    ensures OthersOnly(g.executions, CallStep(g, u, stores, input, result).executions, t)
  {
  }

  /** With ARMED clear, a thread whose handlers have not passed the gate cannot pass it, whoever moves. */
  lemma GateStaysShut<I, R>(g: Gate<I, R>, t: Tid, u: Tid, stores: nat, input: I, result: R)
    requires !g.armed && ThreadOutside(g, t) && |Stack(g, u)| > 0
    ensures var g' := Step(g, u, stores, input, result);
            && ThreadOutside(g', t)
            && OthersOnly(g.executions, g'.executions, t)
            && (u == t ==> g'.owner == g.owner && g'.executions == g.executions)
  {
    var g' := Step(g, u, stores, input, result);
    if u == t {
      assert Outside(Top(g, t));
      GateStepShape(g, t);
      assert forall i :: 0 <= i < |Stack(g, t)| - 1 ==> Stack(g', t)[i] == Stack(g, t)[i];
    } else {
      assert Stack(g', t) == Stack(g, t);
      CallStepStarts(g, u, stores, input, result, t);
    }
  }

  lemma WorkerStaysOutside<I, R>(g: Gate<I, R>, g': Gate<I, R>, t: Tid)
    requires ThreadOutside(g, t) && WorkerMove(g, g')
    ensures ThreadOutside(g', t) && OthersOnly(g.executions, g'.executions, t)
  {
    assert Stack(g', t) == Stack(g, t);
  }

  lemma TrapStaysOutside<I, R>(g: Gate<I, R>, t: Tid, u: Tid)
    requires ThreadOutside(g, t)
    ensures ThreadOutside(Trap(g, u), t) && OthersOnly(g.executions, Trap(g, u).executions, t)
  {
    assert forall i :: 0 <= i < |Stack(Trap(g, u), t)| ==>
      Stack(Trap(g, u), t)[i] == if i < |Stack(g, t)| then Stack(g, t)[i] else CheckArmed;
  }

  lemma NonePasses<I, R>(g: Gate<I, R>, u: Tid, stores: nat, input: I, result: R)
    requires !g.armed && NonePassed(g) && |Stack(g, u)| > 0
    ensures var g' := Step(g, u, stores, input, result); NonePassed(g') && g'.executions == g.executions
  {
    var g' := Step(g, u, stores, input, result);
    forall t ensures ThreadOutside(g', t) {
      GateStaysShut(g, t, u, stores, input, result);
    }
    GateStaysShut(g, u, u, stores, input, result);
  }

  /** What one action of an executor does to the gate, whoever moves. */
  ghost predicate GateMove<I(!new), R(!new)>(g: Gate<I, R>, g': Gate<I, R>, stores: nat) {
    || WorkerMove(g, g')
    || (exists u :: g' == Trap(g, u))
    || (exists u, input, result :: |Stack(g, u)| > 0 && g' == Step(g, u, stores, input, result))
  }

  lemma MoveStaysOutside<I(!new), R(!new)>(g: Gate<I, R>, g': Gate<I, R>, stores: nat, t: Tid)
    requires !g.armed && ThreadOutside(g, t) && GateMove(g, g', stores)
    ensures ThreadOutside(g', t) && OthersOnly(g.executions, g'.executions, t)
  {
    if WorkerMove(g, g') {
      WorkerStaysOutside(g, g', t);
    } else if u :| g' == Trap(g, u) {
      TrapStaysOutside(g, t, u);
    } else {
      var u, input, result :| |Stack(g, u)| > 0 && g' == Step(g, u, stores, input, result);
      GateStaysShut(g, t, u, stores, input, result);
    }
  }

  lemma MoveNonePasses<I(!new), R(!new)>(g: Gate<I, R>, g': Gate<I, R>, stores: nat)
    requires !g.armed && NonePassed(g) && GateMove(g, g', stores)
    ensures NonePassed(g') && g'.executions == g.executions
  {
    if u, input, result :| |Stack(g, u)| > 0 && g' == Step(g, u, stores, input, result) {
      NonePasses(g, u, stores, input, result);
    } else {
      forall t ensures ThreadOutside(g', t) {
        MoveStaysOutside(g, g', stores, t);
      }
    }
  }

  /** States in which ARMED is clear, and which no action leaves. */
  ghost predicate StaysShut<S(!new), A(!new), I(!new), R(!new)>(
    sys: System<S, A>, gate: S -> Gate<I, R>, shut: S -> bool, stores: nat)
  {
    && Inductive(sys, shut)
    && (forall s :: shut(s) ==> !gate(s).armed)
    && (forall s, a :: shut(s) && sys.enabled(s, a) ==> GateMove(gate(s), gate(sys.apply(s, a)), stores))
  }

  /** From there on, a thread outside the gate stays outside, and every execution added belongs to another thread. */
  lemma ShutRun<S(!new), A(!new), I(!new), R(!new)>(
      sys: System<S, A>, gate: S -> Gate<I, R>, shut: S -> bool, stores: nat, s: S, s': S, t: Tid)
    requires StaysShut(sys, gate, shut, stores) && shut(s) && ThreadOutside(gate(s), t) && Reaches(sys, s, s')
    ensures ThreadOutside(gate(s'), t) && OthersOnly(gate(s).executions, gate(s').executions, t)
  {
    var inv := (x: S) =>
      shut(x) && ThreadOutside(gate(x), t) && OthersOnly(gate(s).executions, gate(x).executions, t);
    forall x: S, a: A | inv(x) && sys.enabled(x, a) ensures inv(sys.apply(x, a)) {
      MoveStaysOutside(gate(x), gate(sys.apply(x, a)), stores, t);
    }
    ReachableInv(sys, inv, s, s');
  }

  /** And if no handler has passed the gate, nothing is executed any more. */
  lemma ShutRunStartsNothing<S(!new), A(!new), I(!new), R(!new)>(
      sys: System<S, A>, gate: S -> Gate<I, R>, shut: S -> bool, stores: nat, s: S, s': S)
    requires StaysShut(sys, gate, shut, stores) && shut(s) && NonePassed(gate(s)) && Reaches(sys, s, s')
    ensures gate(s').executions == gate(s).executions
  {
    var inv := (x: S) => shut(x) && NonePassed(gate(x)) && gate(x).executions == gate(s).executions;
    forall x: S, a: A | inv(x) && sys.enabled(x, a) ensures inv(sys.apply(x, a)) {
      MoveNonePasses(gate(x), gate(sys.apply(x, a)), stores);
    }
    ReachableInv(sys, inv, s, s');
  }

  lemma FreshIsOutside<I, R>(me: Tid, g: Gate<I, R>, t: Tid)
    requires Fresh(me, g) && |Stack(g, t)| > 0
    ensures Outside(Top(g, t)) && |Stack(g, t)| == 1 && t != me
  {
    assert ThreadOutside(g, t) && Outside(Stack(g, t)[0]);
  }

  /** Handlers that have not passed the gate move on without touching it, while ARMED is clear. */
  lemma FreshStays<I, R>(me: Tid, g: Gate<I, R>, t: Tid, stores: nat, input: I, result: R)
    requires Fresh(me, g) && !g.armed && |Stack(g, t)| > 0
    ensures var g' := Step(g, t, stores, input, result);
            Fresh(me, g') && Keeps(g, g') && g'.claimed == g.claimed && g'.done == g.done
  {
    var g' := Step(g, t, stores, input, result);
    FreshIsOutside(me, g, t);
    GateStepShape(g, t);
    NonePasses(g, t, stores, input, result);
    assert |Stack(g', t)| <= 1 && forall u :: u != t ==> Stack(g', u) == Stack(g, u);
  }

  // ---------- driving one handler ----------

  /** Some handler on `t` passed the ARMED check and is not yet past the job. */
  ghost predicate Passed<I, R>(g: Gate<I, R>, t: Tid) { !ThreadOutside(g, t) }

  /** An access outside the claimed path changes nothing that the executors share but the claim and DR0. */
  ghost predicate SameShared<I, R>(g: Gate<I, R>, g': Gate<I, R>) {
    && g' == g.(stacks := g'.stacks, dr0 := g'.dr0) && g'.dr0 <= g.dr0
  }

  /** With ARMED clear, a handler outside the gate leaves in two accesses, and the frame below it was in the call. */
  lemma OutsideLeaves<I, R>(me: Tid, g: Gate<I, R>, t: Tid)
    requires Stacked(me, g) && !g.armed && |Stack(g, t)| > 0 && Outside(Top(g, t)) && Passed(g, t)
    ensures var g' := GateStep(g, t);
            && Stacked(me, g') && SameShared(g, g') && Passed(g', t) && |Stack(g', t)| > 0
            && (Top(g, t).CheckArmed? ==> Top(g', t).SelfDisarm?)
            && (Top(g, t).SelfDisarm? ==> Top(g', t).InCall?)
  {
    var i :| 0 <= i < |Stack(g, t)| && !Outside(Stack(g, t)[i]);
    var g' := GateStep(g, t);
    assert i < |Stack(g, t)| - 1 && t != me;
    assert Stack(g', t)[i] == Stack(g, t)[i];
    assert forall u :: u != t ==> Stack(g', u) == Stack(g, u);
    assert forall k :: 0 <= k < |Stack(g, t)| - 1 ==> Stack(g', t)[k] == Stack(g, t)[k] && Stack(g, t)[k].InCall?;
  }

  /** No call has run, or one has returned a result of the wanted kind. */
  ghost predicate Settled<I, R>(g: Gate<I, R>, good: R -> bool) {
    var es := g.executions;
    es == [] || (|es| == 1 && es[0].finished.Some? && good(es[0].finished.value))
  }

  /**
   * The innermost handler on `t` passed the gate and nothing stops it: the job is unclaimed or its own. If `calls`, it
   * has the call still before it, or its call is on record.
   */
  ghost predicate Driving<I, R>(g: Gate<I, R>, t: Tid, calls: bool, good: R -> bool) {
    && |Stack(g, t)| > 0 && !g.done
    && match Top(g, t)
       case CheckDone => !g.claimed && g.executions == []
       case Claim => !g.claimed && g.executions == []
       case Load(_) => g.executions == []
       case InCall => if g.executions == [] then !calls else |g.executions| == 1
       case Store(_, _) => Settled(g, good) && (calls ==> g.executions != [])
       case StoreDone => Settled(g, good) && (calls ==> g.executions != [])
       case _ => false
  }

  /** DONE is set, and the last call, if one is on record, returned a result of the wanted kind. */
  ghost predicate Driven<I, R>(g: Gate<I, R>, calls: bool, good: R -> bool) {
    g.done && Settled(g, good) && (calls ==> g.executions != [])
  }

  /** Some handler is between the ARMED check and the claiming compare-exchange. */
  ghost predicate WaitingInGate<I, R>(g: Gate<I, R>, t: Tid) {
    |Stack(g, t)| > 0 && (Top(g, t).CheckDone? || Top(g, t).Claim?)
  }

  lemma FreshWaitsNot<I, R>(me: Tid, g: Gate<I, R>, t: Tid)
    requires Fresh(me, g)
    ensures !WaitingInGate(g, t)
  {
    assert ThreadOutside(g, t);
  }

  /** If nobody has claimed the job and nobody is about to, every handler is outside the gate. */
  lemma NoneWaits<I, R>(me: Tid, job: seq<int>, g: Gate<I, R>)
    requires GateInv(me, job, g) && g.owner == None && forall t :: !WaitingInGate(g, t)
    ensures NonePassed(g)
  {
    forall t, i | 0 <= i < |Stack(g, t)| ensures Outside(Stack(g, t)[i]) {
      assert FrameInv(me, g, t, i) && !WaitingInGate(g, t);
    }
  }

  /** Before the call starts, nothing stops the thread that claimed it, or else one that waits in the gate. */
  lemma ClaimantDrives<I, R>(me: Tid, job: seq<int>, g: Gate<I, R>, t: Tid, good: R -> bool)
    requires GateInv(me, job, g) && g.executions == []
    requires g.owner == Some(t) || (g.owner == None && WaitingInGate(g, t))
    ensures Driving(g, t, true, good)
  {
    if g.owner == Some(t) {
      assert OwnerBusy(g, t) && FrameInv(me, g, t, 0) && FrameInv(me, g, t, |Stack(g, t)| - 1);
    }
  }

  /** How many accesses at most separate a handler from its store of DONE. */
  function StepsToDone<R>(f: Frame<R>, words: nat, stores: nat): nat {
    match f
    case CheckDone => words + stores + 7
    case Claim => words + stores + 6
    case Load(loaded) => stores + 4 + if |loaded| < words then words - |loaded| else 1
    case InCall => stores + 3
    case Store(k, _) => 2 + if k < stores then stores - k else 0
    case StoreDone => 1
    case _ => 0
  }

  lemma GateDrive<I, R>(g: Gate<I, R>, t: Tid, calls: bool, good: R -> bool, stores: nat)
    requires Driving(g, t, calls, good) && !Busy(Top(g, t))
    ensures var g' := GateStep(g, t);
            && Driving(g', t, calls, good)
            && StepsToDone(Top(g', t), |g'.job|, stores) < StepsToDone(Top(g, t), |g.job|, stores)
  {
  }

  lemma CallDrive<I, R>(
      g: Gate<I, R>, t: Tid, calls: bool, good: R -> bool, stores: nat, input: I, result: R)
    requires Driving(g, t, calls, good) && Busy(Top(g, t)) && good(result)
    ensures var g' := CallStep(g, t, stores, input, result);
            || Driven(g', calls, good)
            || (&& Driving(g', t, calls, good)
                && StepsToDone(Top(g', t), |g'.job|, stores) < StepsToDone(Top(g, t), |g.job|, stores))
  {
  }

  lemma DriveStep<I, R>(g: Gate<I, R>, t: Tid, calls: bool, good: R -> bool, stores: nat, input: I, result: R)
    requires Driving(g, t, calls, good) && good(result)
    ensures var g' := Step(g, t, stores, input, result);
            || Driven(g', calls, good)
            || (&& Driving(g', t, calls, good)
                && StepsToDone(Top(g', t), |g'.job|, stores) < StepsToDone(Top(g, t), |g.job|, stores))
  {
    if Busy(Top(g, t)) {
      CallDrive(g, t, calls, good, stores, input, result);
    } else {
      GateDrive(g, t, calls, good, stores);
    }
  }

  // ---------- arming and disarming ----------

  /** The worker's lists: the threads armed in this run, those still to be visited, and (history) failed disarms. */
  datatype Arms = Arms(armed: seq<Tid>, todo: seq<Tid>, failed: set<Tid>)

  /** The next thread on the list is armed, unless it is to be skipped or the system refuses. */
  function ArmNext<I, R>(g: Gate<I, R>, arms: Arms, skip: bool, ok: bool): (Gate<I, R>, Arms)
    requires |arms.todo| > 0
  {
    var t := arms.todo[0];
    if skip || !ok then (g, arms.(todo := arms.todo[1..]))
    else (SetDr0(g, t), arms.(armed := arms.armed + [t], todo := arms.todo[1..]))
  }

  lemma ArmNextInv<I, R>(g: Gate<I, R>, arms: Arms, skip: bool, ok: bool, me: Tid)
    requires |arms.todo| > 0 && (arms.todo[0] == me ==> skip) && me !in g.dr0 && me !in arms.armed
    ensures var (g', arms') := ArmNext(g, arms, skip, ok);
            WorkerMove(g, g') && g'.armed == g.armed && me !in g'.dr0 && me !in arms'.armed
  {
  }

  /** The next armed thread on the list is disarmed, unless the system refuses. */
  function DisarmNext<I, R>(g: Gate<I, R>, arms: Arms, ok: bool): (Gate<I, R>, Arms)
    requires |arms.todo| > 0
  {
    var t := arms.todo[0];
    if ok then (ClearDr0(g, t), arms.(todo := arms.todo[1..]))
    else (g, arms.(todo := arms.todo[1..], failed := arms.failed + {t}))
  }

  /** Every thread armed in this run is disarmed, unless its disarm failed. */
  ghost predicate Disarmed<I, R>(g: Gate<I, R>, arms: Arms) {
    forall t :: t in arms.armed ==> t in arms.failed || t !in g.dr0
  }

  /** Every thread armed in this run is still to be visited, or disarmed, or its disarm failed. */
  ghost predicate Disarming<I, R>(g: Gate<I, R>, arms: Arms) {
    forall t :: t in arms.armed ==> t in arms.todo || t in arms.failed || t !in g.dr0
  }

  lemma DisarmNextInv<I, R>(g: Gate<I, R>, arms: Arms, ok: bool)
    requires Disarming(g, arms) && |arms.todo| > 0
    ensures var (g', arms') := DisarmNext(g, arms, ok);
            && Disarming(g', arms') && WorkerMove(g, g') && g'.armed == g.armed && g'.dr0 <= g.dr0
            && arms'.armed == arms.armed
  {
    assert forall t :: t in arms.todo <==> t == arms.todo[0] || t in arms.todo[1..];
  }
}
