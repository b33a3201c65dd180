/** Runs of a transition system, as lists of scheduler choices. */
module Runs {

  /** Which actions a state allows, and the state each leads to. */
  datatype System<!S, !A> = System(enabled: (S, A) -> bool, apply: (S, A) -> S)

  ghost predicate Valid<S, A>(sys: System<S, A>, s: S, acts: seq<A>)
    decreases |acts|
  {
    |acts| == 0 || (sys.enabled(s, acts[0]) && Valid(sys, sys.apply(s, acts[0]), acts[1..]))
  }

  ghost function Final<S, A>(sys: System<S, A>, s: S, acts: seq<A>): S
    decreases |acts|
  {
    if |acts| == 0 then s else Final(sys, sys.apply(s, acts[0]), acts[1..])
  }

  /** All states of a run, from the first to the last. */
  ghost function Trace<S, A>(sys: System<S, A>, s: S, acts: seq<A>): (states: seq<S>)
    ensures |states| == |acts| + 1
    decreases |acts|
  {
    if |acts| == 0 then [s] else [s] + Trace(sys, sys.apply(s, acts[0]), acts[1..])
  }

  ghost predicate Reaches<S, A(!new)>(sys: System<S, A>, s: S, s': S) {
    exists acts :: Valid(sys, s, acts) && Final(sys, s, acts) == s'
  }

  ghost predicate Inductive<S(!new), A(!new)>(sys: System<S, A>, inv: S -> bool) {
    forall s, a :: inv(s) && sys.enabled(s, a) ==> inv(sys.apply(s, a))
  }

  lemma {:induction false} TraceSteps<S, A>(sys: System<S, A>, s: S, acts: seq<A>, i: nat)
    requires Valid(sys, s, acts) && i < |acts|
    ensures var states := Trace(sys, s, acts);
            sys.enabled(states[i], acts[i]) && states[i + 1] == sys.apply(states[i], acts[i])
    decreases |acts|
  {
    var next, rest := sys.apply(s, acts[0]), acts[1..];
    if |rest| > 0 {
      TraceSteps(sys, next, rest, if i == 0 then 0 else i - 1);
    }
  }

  lemma {:induction false} TraceEnds<S, A>(sys: System<S, A>, s: S, acts: seq<A>)
    ensures Trace(sys, s, acts)[0] == s && Trace(sys, s, acts)[|acts|] == Final(sys, s, acts)
    decreases |acts|
  {
    if |acts| > 0 {
      TraceEnds(sys, sys.apply(s, acts[0]), acts[1..]);
    }
  }

  /** What every action keeps holds in every state of a run. */
  lemma {:induction false} TraceInv<S(!new), A(!new)>(
      sys: System<S, A>, inv: S -> bool, s: S, acts: seq<A>, i: nat)
    requires Inductive(sys, inv) && inv(s) && Valid(sys, s, acts) && i <= |acts|
    ensures inv(Trace(sys, s, acts)[i])
    decreases |acts|
  {
    if i > 0 {
      TraceInv(sys, inv, sys.apply(s, acts[0]), acts[1..], i - 1);
    }
  }

  lemma {:induction false} FinalInv<S(!new), A(!new)>(sys: System<S, A>, inv: S -> bool, s: S, acts: seq<A>)
    requires Inductive(sys, inv) && inv(s) && Valid(sys, s, acts)
    ensures inv(Final(sys, s, acts))
    decreases |acts|
  {
    if |acts| > 0 {
      FinalInv(sys, inv, sys.apply(s, acts[0]), acts[1..]);
    }
  }

  lemma ReachesSelf<S, A(!new)>(sys: System<S, A>, s: S)
    ensures Reaches(sys, s, s)
  {
    assert Valid(sys, s, []) && Final(sys, s, []) == s;
  }

  /** An action in front of a run. */
  lemma ThenReaches<S, A(!new)>(sys: System<S, A>, s: S, a: A, s': S)
    requires sys.enabled(s, a) && Reaches(sys, sys.apply(s, a), s')
    ensures Reaches(sys, s, s')
  {
    var acts :| Valid(sys, sys.apply(s, a), acts) && Final(sys, sys.apply(s, a), acts) == s';
    assert ([a] + acts)[1..] == acts;
    assert Valid(sys, s, [a] + acts) && Final(sys, s, [a] + acts) == s';
  }

  lemma {:induction false} RunThenReaches<S, A(!new)>(sys: System<S, A>, s: S, acts: seq<A>, s': S)
    requires Valid(sys, s, acts) && Reaches(sys, Final(sys, s, acts), s')
    ensures Reaches(sys, s, s')
    decreases |acts|
  {
    if |acts| > 0 {
      RunThenReaches(sys, sys.apply(s, acts[0]), acts[1..], s');
      ThenReaches(sys, s, acts[0], s');
    }
  }

  /** Runs can be joined. */
  lemma ReachesTrans<S, A(!new)>(sys: System<S, A>, s: S, mid: S, s': S)
    requires Reaches(sys, s, mid) && Reaches(sys, mid, s')
    ensures Reaches(sys, s, s')
  {
    var acts :| Valid(sys, s, acts) && Final(sys, s, acts) == mid;
    RunThenReaches(sys, s, acts, s');
  }

  /** One more action. */
  lemma ReachThen<S, A(!new)>(sys: System<S, A>, s: S, mid: S, a: A)
    requires Reaches(sys, s, mid) && sys.enabled(mid, a)
    ensures Reaches(sys, s, sys.apply(mid, a))
  {
    ReachesSelf(sys, sys.apply(mid, a));
    ThenReaches(sys, mid, a, sys.apply(mid, a));
    ReachesTrans(sys, s, mid, sys.apply(mid, a));
  }

  /** What every action keeps holds in every reachable state. */
  lemma ReachableInv<S(!new), A(!new)>(sys: System<S, A>, inv: S -> bool, s: S, s': S)
    requires Inductive(sys, inv) && inv(s) && Reaches(sys, s, s')
    ensures inv(s')
  {
    var acts :| Valid(sys, s, acts) && Final(sys, s, acts) == s';
    FinalInv(sys, inv, s, acts);
  }
}
