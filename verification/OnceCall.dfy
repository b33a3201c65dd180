/**
 * The abstract contract both game-thread executors implement: one queued call that runs at most once, and one answer
 * that reports a result only after that single run produced it.
 */
module OnceCall {
  import opened Memory
  import opened Runs

  /** What a guarded engine call produces: a value, or a caught structured exception. */
  datatype CallResult<T> = Ret(value: T) | Fault

  datatype Phase<T> = Idle | Running | Finished(result: CallResult<T>)

  /** `answer` is `None` until the caller has been answered; `Some(None)` is "no result was obtained". */
  datatype Call<T> = Call(phase: Phase<T>, answer: Option<Option<CallResult<T>>>)

  ghost predicate Start<T>(a: Call<T>, b: Call<T>) {
    a.phase == Idle && b == a.(phase := Running)
  }

  ghost predicate Finish<T(!new)>(a: Call<T>, b: Call<T>) {
    a.phase == Running && b.phase.Finished? && b == a.(phase := b.phase)
  }

  /** A result may be reported only if the call has finished with exactly that result. */
  ghost predicate Answer<T>(a: Call<T>, b: Call<T>) {
    && a.answer == None
    && b.answer.Some?
    && b == a.(answer := b.answer)
    && (b.answer.value.Some? ==> a.phase == Finished(b.answer.value.value))
  }

  ghost predicate Next<T(!new)>(a: Call<T>, b: Call<T>) {
    a == b || Start(a, b) || Finish(a, b) || Answer(a, b)
  }

  ghost predicate Behavior<T(!new)>(run: seq<Call<T>>) {
    && |run| > 0
    && run[0] == Call(Idle, None)
    && forall i :: 0 <= i < |run| - 1 ==> Next(run[i], run[i + 1])
  }

  /** Number of steps of the behavior that start the call. */
  ghost function Starts<T(!new)>(run: seq<Call<T>>): nat {
    if |run| < 2 then 0
    else Starts(run[..|run| - 1]) + if Start(run[|run| - 2], run[|run| - 1]) then 1 else 0
  }

  /** In every behavior the call starts at most once, and a reported result is the result of that one run. */
  lemma {:induction false} RunsAtMostOnce<T(!new)>(run: seq<Call<T>>)
    requires Behavior(run)
    ensures var last := run[|run| - 1];
            && Starts(run) == (if last.phase == Idle then 0 else 1)
            && (last.answer.Some? && last.answer.value.Some? ==> last.phase == Finished(last.answer.value.value))
  {
    if |run| > 1 {
      var init := run[..|run| - 1];
      assert Behavior(init);
      RunsAtMostOnce(init);
      assert Next(run[|run| - 2], run[|run| - 1]);
    }
  }

  /** What a run of an executor looks like, each state being seen as the abstract call it stands for. */
  ghost function AbstractRun<S, A, T>(sys: System<S, A>, abs: S -> Call<T>, s: S, acts: seq<A>): (run: seq<Call<T>>)
    ensures |run| == |acts| + 1
  {
    seq(|acts| + 1, i requires 0 <= i < |acts| + 1 => abs(Trace(sys, s, acts)[i]))
  }

  /**
   * If every action is one step of the abstract call, or none, every run is a behavior, and the call starts at most
   * once.
   */
  lemma RunIsBehavior<S(!new), A(!new), T(!new)>(
      sys: System<S, A>, inv: S -> bool, abs: S -> Call<T>, s: S, acts: seq<A>)
    requires Inductive(sys, inv) && inv(s) && Valid(sys, s, acts) && abs(s) == Call(Idle, None)
    requires forall x, a :: inv(x) && sys.enabled(x, a) ==> Next(abs(x), abs(sys.apply(x, a)))
    ensures Behavior(AbstractRun(sys, abs, s, acts)) && Starts(AbstractRun(sys, abs, s, acts)) <= 1
    ensures AbstractRun(sys, abs, s, acts)[|acts|] == abs(Final(sys, s, acts))
  {
    var run := AbstractRun(sys, abs, s, acts);
    TraceEnds(sys, s, acts);
    forall i | 0 <= i < |acts| ensures Next(run[i], run[i + 1]) {
      TraceSteps(sys, s, acts, i);
      TraceInv(sys, inv, s, acts, i);
    }
    RunsAtMostOnce(run);
  }
}
