/**
 * The re-entrancy guard of the ProcessEvent detour, on one thread: calls that arrive while the drain callback runs,
 * calls that the engine makes from inside the original function, and any nesting of the two.
 */
module DetourGuard {

  /**
   * One call of the hooked function: the calls that its drain callback makes if it drains, the calls that the original
   * function makes, and whether draining was enabled when it arrived (another thread may uninstall at any time).
   */
  datatype Call = Call(id: int, enabled: bool, fromDrain: seq<Call>, fromOriginal: seq<Call>)

  datatype Event =
    | Entered(id: int, enabled: bool)
    | DrainBegan(id: int)
    | DrainEnded(id: int)
    | Original(id: int)

  /** How many drains are in progress. */
  function Depth(events: seq<Event>): int {
    if events == [] then 0
    else
      Depth(events[..|events| - 1])
      + match events[|events| - 1]
        case DrainBegan(_) => 1
        case DrainEnded(_) => -1
        case _ => 0
  }

  lemma {:induction false} DepthSum(a: seq<Event>, b: seq<Event>)
    ensures Depth(a + b) == Depth(a) + Depth(b)
  {
    if b == [] {
      assert a + b == a;
    } else {
      DepthSum(a, b[..|b| - 1]);
      assert (a + b)[..|a + b| - 1] == a + b[..|b| - 1];
    }
  }

  /** Which events a call leads to, given whether a drain is in progress when it arrives. */
  function Trace(draining: bool, c: Call): seq<Event>
    decreases c, 1
  {
    [Entered(c.id, c.enabled)] + Drain(draining, c) + [Original(c.id)] + TraceAll(draining, c.fromOriginal)
  }

  function Drain(draining: bool, c: Call): seq<Event>
    decreases c, 0
  {
    if !draining && c.enabled then [DrainBegan(c.id)] + TraceAll(true, c.fromDrain) + [DrainEnded(c.id)] else []
  }

  function TraceAll(draining: bool, cs: seq<Call>): seq<Event>
    decreases cs
  {
    if cs == [] then [] else Trace(draining, cs[0]) + TraceAll(draining, cs[1..])
  }

  // ---------- the detour ----------

  /** The thread-local guard and what happened on the thread so far. */
  class HookedThread {
    var inDrain: bool
    var events: seq<Event>

    constructor ()
      ensures !inDrain && events == []
    {
      inDrain, events := false, [];
    }

    /** `process_event_detour`, after installation has completed. */
    method Detour(c: Call)
      modifies this
      ensures inDrain == old(inDrain)
      ensures events == old(events) + Trace(old(inDrain), c)
      decreases c
    {
      events := events + [Entered(c.id, c.enabled)];
      var wasIn := inDrain;
      inDrain := true;
      if !wasIn && c.enabled {
        events := events + [DrainBegan(c.id)];
        MakeCalls(c.fromDrain);
        events := events + [DrainEnded(c.id)];
      }
      inDrain := wasIn;
      events := events + [Original(c.id)];
      MakeCalls(c.fromOriginal);
    }

    /** The calls that a callback, or the original function, makes one after the other. */
    method MakeCalls(cs: seq<Call>)
      modifies this
      ensures inDrain == old(inDrain)
      ensures events == old(events) + TraceAll(old(inDrain), cs)
      decreases cs
    {
      if cs != [] {
        Detour(cs[0]);
        MakeCalls(cs[1..]);
      }
    }
  }

  // ---------- drains never nest ----------

  /** Along the way there is at most one drain in progress, or none beyond the one in progress already. */
  ghost predicate Bounded(draining: bool, events: seq<Event>) {
    && Depth(events) == 0
    && forall n :: 0 <= n <= |events| ==> 0 <= Depth(events[..n]) <= if draining then 0 else 1
  }

  lemma BoundedSum(draining: bool, a: seq<Event>, b: seq<Event>)
    requires Bounded(draining, a) && Bounded(draining, b)
    ensures Bounded(draining, a + b)
  {
    DepthSum(a, b);
    forall n | 0 <= n <= |a + b| ensures 0 <= Depth((a + b)[..n]) <= if draining then 0 else 1 {
      if n <= |a| {
        assert (a + b)[..n] == a[..n];
      } else {
        assert (a + b)[..n] == a + b[..n - |a|];
        DepthSum(a, b[..n - |a|]);
      }
    }
  }

  lemma BoundedDrain(id: int, inner: seq<Event>)
    requires Bounded(true, inner)
    ensures Bounded(false, [DrainBegan(id)] + inner + [DrainEnded(id)])
  {
    var begun := [DrainBegan(id)] + inner;
    DepthSum([DrainBegan(id)], inner);
    DepthSum(begun, [DrainEnded(id)]);
    forall n | 0 <= n <= |begun| ensures 0 <= Depth(begun[..n]) <= 1 {
      if n > 0 {
        assert begun[..n] == [DrainBegan(id)] + inner[..n - 1];
        DepthSum([DrainBegan(id)], inner[..n - 1]);
      }
    }
    var all := begun + [DrainEnded(id)];
    forall n | 0 <= n <= |all| ensures 0 <= Depth(all[..n]) <= 1 {
      if n <= |begun| {
        assert all[..n] == begun[..n];
      } else {
        assert all[..n] == all;
      }
    }
  }

  lemma {:induction false} TraceBounded(draining: bool, c: Call)
    ensures Bounded(draining, Trace(draining, c))
    decreases c
  {
    var entry, original, rest := [Entered(c.id, c.enabled)], [Original(c.id)], TraceAll(draining, c.fromOriginal);
    var drain := Drain(draining, c);
    TraceAllBounded(draining, c.fromOriginal);
    if !draining && c.enabled {
      TraceAllBounded(true, c.fromDrain);
      BoundedDrain(c.id, TraceAll(true, c.fromDrain));
    }
    BoundedSum(draining, entry, drain);
    BoundedSum(draining, entry + drain, original);
    BoundedSum(draining, entry + drain + original, rest);
  }

  lemma {:induction false} TraceAllBounded(draining: bool, cs: seq<Call>)
    ensures Bounded(draining, TraceAll(draining, cs))
    decreases cs
  {
    if cs != [] {
      TraceBounded(draining, cs[0]);
      TraceAllBounded(draining, cs[1..]);
      BoundedSum(draining, Trace(draining, cs[0]), TraceAll(draining, cs[1..]));
    }
  }

  /** Over any tree of nested calls, drains never nest: at no time is more than one in progress. */
  lemma DrainsNeverNest(c: Call, n: nat)
    requires n <= |Trace(false, c)|
    ensures 0 <= Depth(Trace(false, c)[..n]) <= 1
  {
    TraceBounded(false, c);
  }

  // ---------- every entry reaches the original once ----------

  function Times(events: seq<Event>, e: Event): nat { multiset(events)[e] }

  function Entries(events: seq<Event>, id: int): nat {
    Times(events, Entered(id, true)) + Times(events, Entered(id, false))
  }

  /** The entries of a call and the times it reached the original are equally many. */
  predicate Balanced(events: seq<Event>, id: int) { Times(events, Original(id)) == Entries(events, id) }

  lemma BalancedSum(a: seq<Event>, b: seq<Event>, id: int)
    requires Balanced(a, id) && Balanced(b, id)
    ensures Balanced(a + b, id)
  {
  }

  /** The events of a call around those of its drain. */
  lemma BalancedCall(c: Call, drain: seq<Event>, id: int)
    requires Balanced(drain, id)
    ensures Balanced([Entered(c.id, c.enabled)] + drain + [Original(c.id)], id)
  {
  }

  lemma BalancedDrain(caller: int, inner: seq<Event>, id: int)
    requires Balanced(inner, id)
    ensures Balanced([DrainBegan(caller)] + inner + [DrainEnded(caller)], id)
  {
    assert Balanced([DrainBegan(caller)], id) && Balanced([DrainEnded(caller)], id);
    BalancedSum([DrainBegan(caller)], inner, id);
    BalancedSum([DrainBegan(caller)] + inner, [DrainEnded(caller)], id);
  }

  /** However calls nest, each entry of the detour calls the original exactly once. */
  lemma {:induction false} EntriesReachOriginal(draining: bool, c: Call, id: int)
    ensures Balanced(Trace(draining, c), id)
    decreases c
  {
    var drain := Drain(draining, c);
    if !draining && c.enabled {
      AllReachOriginal(true, c.fromDrain, id);
      BalancedDrain(c.id, TraceAll(true, c.fromDrain), id);
    }
    BalancedCall(c, drain, id);
    AllReachOriginal(draining, c.fromOriginal, id);
    BalancedSum([Entered(c.id, c.enabled)] + drain + [Original(c.id)], TraceAll(draining, c.fromOriginal), id);
  }

  lemma {:induction false} AllReachOriginal(draining: bool, cs: seq<Call>, id: int)
    ensures Balanced(TraceAll(draining, cs), id)
    decreases cs
  {
    if cs != [] {
      EntriesReachOriginal(draining, cs[0], id);
      AllReachOriginal(draining, cs[1..], id);
      BalancedSum(Trace(draining, cs[0]), TraceAll(draining, cs[1..]), id);
    }
  }

  // ---------- which calls drain ----------

  /** An entry at position `k` is followed by its drain. */
  predicate DrainsAt(events: seq<Event>, k: nat) {
    k + 1 < |events| && events[k].Entered? && events[k + 1] == DrainBegan(events[k].id)
  }

  /** A call drains exactly if draining is enabled and no drain is in progress when it arrives. */
  predicate DrainsExactly(draining: bool, events: seq<Event>) {
    forall k: nat | k < |events| && events[k].Entered? ::
      k + 1 < |events| && (DrainsAt(events, k) <==> events[k].enabled && !draining && Depth(events[..k]) == 0)
  }

  lemma DrainsExactlySum(draining: bool, a: seq<Event>, b: seq<Event>)
    requires DrainsExactly(draining, a) && DrainsExactly(draining, b) && Depth(a) == 0
    ensures DrainsExactly(draining, a + b)
  {
    var s := a + b;
    forall k: nat | k < |s| && s[k].Entered?
      ensures k + 1 < |s| && (DrainsAt(s, k) <==> s[k].enabled && !draining && Depth(s[..k]) == 0)
    {
      if k < |a| {
        assert a[k] == s[k] && s[..k] == a[..k];
        assert DrainsAt(a, k) <==> DrainsAt(s, k);
      } else {
        assert b[k - |a|] == s[k] && s[..k] == a + b[..k - |a|];
        assert DrainsAt(b, k - |a|) <==> DrainsAt(s, k);
        DepthSum(a, b[..k - |a|]);
      }
    }
  }

  /** While a drain is in progress no call drains, seen from inside the drain and from outside. */
  lemma DrainsExactlyInside(id: int, inner: seq<Event>)
    requires DrainsExactly(true, inner) && Bounded(true, inner)
    ensures DrainsExactly(false, [DrainBegan(id)] + inner + [DrainEnded(id)])
  {
    var s := [DrainBegan(id)] + inner + [DrainEnded(id)];
    forall k: nat | k < |s| && s[k].Entered?
      ensures k + 1 < |s| && (DrainsAt(s, k) <==> s[k].enabled && Depth(s[..k]) == 0)
    {
      assert inner[k - 1] == s[k] && s[..k] == [DrainBegan(id)] + inner[..k - 1];
      DepthSum([DrainBegan(id)], inner[..k - 1]);
      assert DrainsAt(inner, k - 1) <==> DrainsAt(s, k);
    }
  }

  /** An entry in front of its drain and its original call. */
  lemma DrainsExactlyCall(draining: bool, c: Call, drain: seq<Event>)
    requires DrainsExactly(draining, drain) && Depth(drain) == 0
    requires if !draining && c.enabled then drain != [] && drain[0] == DrainBegan(c.id) else drain == []
    ensures DrainsExactly(draining, [Entered(c.id, c.enabled)] + drain + [Original(c.id)])
    ensures Depth([Entered(c.id, c.enabled)] + drain + [Original(c.id)]) == 0
  {
    var entry, s := [Entered(c.id, c.enabled)], [Entered(c.id, c.enabled)] + drain + [Original(c.id)];
    DepthSum(entry, drain);
    DepthSum(entry + drain, [Original(c.id)]);
    forall k: nat | k < |s| && s[k].Entered?
      ensures k + 1 < |s| && (DrainsAt(s, k) <==> s[k].enabled && !draining && Depth(s[..k]) == 0)
    {
      if k > 0 {
        assert drain[k - 1] == s[k] && s[..k] == entry + drain[..k - 1];
        DepthSum(entry, drain[..k - 1]);
        assert DrainsAt(drain, k - 1) <==> DrainsAt(s, k);
      }
    }
  }

  /** Over any tree of nested calls, exactly those calls drain that are enabled and arrive while no drain is running. */
  lemma {:induction false} TraceDrainsExactly(draining: bool, c: Call)
    ensures DrainsExactly(draining, Trace(draining, c))
    decreases c
  {
    var drain := Drain(draining, c);
    if !draining && c.enabled {
      TraceAllDrainsExactly(true, c.fromDrain);
      TraceAllBounded(true, c.fromDrain);
      BoundedDrain(c.id, TraceAll(true, c.fromDrain));
      DrainsExactlyInside(c.id, TraceAll(true, c.fromDrain));
    }
    DrainsExactlyCall(draining, c, drain);
    TraceAllDrainsExactly(draining, c.fromOriginal);
    DrainsExactlySum(draining, [Entered(c.id, c.enabled)] + drain + [Original(c.id)],
                     TraceAll(draining, c.fromOriginal));
  }

  lemma {:induction false} TraceAllDrainsExactly(draining: bool, cs: seq<Call>)
    ensures DrainsExactly(draining, TraceAll(draining, cs))
    decreases cs
  {
    if cs != [] {
      TraceDrainsExactly(draining, cs[0]);
      TraceBounded(draining, cs[0]);
      TraceAllDrainsExactly(draining, cs[1..]);
      DrainsExactlySum(draining, Trace(draining, cs[0]), TraceAll(draining, cs[1..]));
    }
  }

  /** A call that arrives while the engine is inside an original call, and no drain is running, drains as well. */
  lemma NestedCallDrains() returns (c: Call)
    ensures |c.fromOriginal| == 1
    ensures Trace(false, c) == [Entered(1, true), DrainBegan(1), DrainEnded(1), Original(1),
                                Entered(2, true), DrainBegan(2), DrainEnded(2), Original(2)]
  {
    var inner := Call(2, true, [], []);
    c := Call(1, true, [], [inner]);
    assert TraceAll(false, [inner]) == Trace(false, inner) + TraceAll(false, [inner][1..]);
  }
}
