/**
 * The structural search for ProcessEvent: sampled vtables vote, slot by slot, for the function that occupies the slot,
 * and a pick needs 60 percent of the votes and the right prologue.
 */
module ProcessEventLocate {
  import opened Memory

  const SLOTS := 192

  /** The in-module function that a vtable holds in a slot, if the slot can be read and points into the module. */
  type Targets = (int, nat) -> Option<int>

  /** How many of the vtables hold `addr` in the slot. */
  function Votes(targets: Targets, vtables: seq<int>, slot: nat, addr: int): (n: nat)
    ensures n <= |vtables|
  {
    if vtables == [] then 0
    else
      Votes(targets, vtables[..|vtables| - 1], slot, addr)
      + if targets(vtables[|vtables| - 1], slot) == Some(addr) then 1 else 0
  }

  /** Three fifths of the voters, rounded up. */
  function Need(voters: nat): nat { (voters * 3 + 4) / 5 }

  /** Votes for different functions come from different vtables. */
  lemma {:induction false} VotesShared(targets: Targets, vtables: seq<int>, slot: nat, a: int, b: int)
    requires a != b
    ensures Votes(targets, vtables, slot, a) + Votes(targets, vtables, slot, b) <= |vtables|
  {
    if vtables != [] {
      VotesShared(targets, vtables[..|vtables| - 1], slot, a, b);
    }
  }

  /** At most one function reaches the needed majority in a slot. */
  lemma MajorityUnique(targets: Targets, vtables: seq<int>, slot: nat, a: int, b: int)
    requires vtables != []
    requires Votes(targets, vtables, slot, a) >= Need(|vtables|) && Votes(targets, vtables, slot, b) >= Need(|vtables|)
    ensures a == b
  {
    if a != b {
      VotesShared(targets, vtables, slot, a, b);
    }
  }

  // ---------- one slot ----------

  datatype Tally = Tally(addr: int, count: nat)

  predicate HasEntry(counts: seq<Tally>, addr: int) { exists i :: 0 <= i < |counts| && counts[i].addr == addr }

  /** The tallies are the votes, one entry for each function that got any. */
  ghost predicate Counted(votes: int -> int, counts: seq<Tally>) {
    && (forall i :: 0 <= i < |counts| ==> counts[i].count > 0 && counts[i].count == votes(counts[i].addr))
    && (forall i, j :: 0 <= i < j < |counts| ==> counts[i].addr != counts[j].addr)
    && (forall addr :: votes(addr) > 0 ==> HasEntry(counts, addr))
  }

  ghost function VotesOf(targets: Targets, vtables: seq<int>, slot: nat): int -> int {
    (addr: int) => Votes(targets, vtables, slot, addr)
  }

  /** A further vote for `t`. */
  ghost predicate OneMore(votes: int -> int, votes': int -> int, t: Option<int>) {
    forall addr :: votes'(addr) == votes(addr) + if t == Some(addr) then 1 else 0
  }

  lemma EntryUpdate(counts: seq<Tally>, k: nat, c: nat, addr: int)
    requires k < |counts|
    ensures HasEntry(counts[k := Tally(counts[k].addr, c)], addr) <==> HasEntry(counts, addr)
  {
    var counts' := counts[k := Tally(counts[k].addr, c)];
    assert forall i :: 0 <= i < |counts| ==> counts'[i].addr == counts[i].addr;
  }

  lemma EntryAppend(counts: seq<Tally>, t: Tally, addr: int)
    ensures HasEntry(counts + [t], addr) <==> HasEntry(counts, addr) || addr == t.addr
  {
    var counts' := counts + [t];
    assert counts'[|counts|] == t;
    assert forall i :: 0 <= i < |counts| ==> counts'[i] == counts[i];
  }

  /** The first tally for an address. */
  method Find(counts: seq<Tally>, addr: int) returns (at: Option<nat>)
    ensures match at
            case Some(i) => i < |counts| && counts[i].addr == addr
            case None => forall i :: 0 <= i < |counts| ==> counts[i].addr != addr
  {
    for i := 0 to |counts|
      invariant forall k :: 0 <= k < i ==> counts[k].addr != addr
    {
      if counts[i].addr == addr {
        return Some(i);
      }
    }
    return None;
  }

  /** One more vote, entered where it belongs. */
  method Enter(counts: seq<Tally>, t: int, ghost votes: int -> int, ghost votes': int -> int)
    returns (counts': seq<Tally>)
    requires Counted(votes, counts) && OneMore(votes, votes', Some(t)) && forall addr :: votes(addr) >= 0
    ensures Counted(votes', counts')
  {
    var at := Find(counts, t);
    match at
    case Some(k) =>
      counts' := counts[k := Tally(t, counts[k].count + 1)];
      forall addr ensures HasEntry(counts', addr) <==> HasEntry(counts, addr) {
        EntryUpdate(counts, k, counts[k].count + 1, addr);
      }
    case None =>
      counts' := counts + [Tally(t, 1)];
      assert !HasEntry(counts, t) && votes(t) == 0;
      forall addr ensures HasEntry(counts', addr) <==> HasEntry(counts, addr) || addr == t {
        EntryAppend(counts, Tally(t, 1), addr);
      }
  }

  lemma OneMoreVoter(targets: Targets, vtables: seq<int>, i: nat, slot: nat)
    requires i < |vtables|
    ensures OneMore(VotesOf(targets, vtables[..i], slot), VotesOf(targets, vtables[..i + 1], slot),
                    targets(vtables[i], slot))
  {
    assert vtables[..i + 1][..i] == vtables[..i];
  }

  method CountSlot(targets: Targets, vtables: seq<int>, slot: nat) returns (counts: seq<Tally>)
    ensures Counted(VotesOf(targets, vtables, slot), counts)
  {
    counts := [];
    for i := 0 to |vtables|
      invariant Counted(VotesOf(targets, vtables[..i], slot), counts)
    {
      OneMoreVoter(targets, vtables, i, slot);
      ghost var before, after := VotesOf(targets, vtables[..i], slot), VotesOf(targets, vtables[..i + 1], slot);
      var t := targets(vtables[i], slot);
      if t.Some? {
        counts := Enter(counts, t.value, before, after);
      } else {
        assert forall addr :: after(addr) == before(addr);
      }
    }
    assert vtables[..|vtables|] == vtables;
  }

  /** `max_by_key`: the last of the largest tallies. */
  method LastMax(counts: seq<Tally>) returns (best: Option<Tally>)
    ensures counts == [] <==> best == None
    ensures best.Some? ==> best.value in counts && forall i :: 0 <= i < |counts| ==> counts[i].count <= best.value.count
  {
    best := None;
    for i := 0 to |counts|
      invariant i == 0 <==> best == None
      invariant best.Some? ==> best.value in counts && forall k :: 0 <= k < i ==> counts[k].count <= best.value.count
    {
      if best == None || counts[i].count >= best.value.count {
        best := Some(counts[i]);
      }
    }
  }

  /** The pick of a slot: if any function reaches the needed majority there, it is the one picked. */
  lemma PickIsMajority(targets: Targets, vtables: seq<int>, slot: nat, counts: seq<Tally>, best: Tally, addr: int)
    requires vtables != [] && Counted(VotesOf(targets, vtables, slot), counts)
    requires best in counts && forall i :: 0 <= i < |counts| ==> counts[i].count <= best.count
    requires Votes(targets, vtables, slot, addr) >= Need(|vtables|)
    ensures best == Tally(addr, Votes(targets, vtables, slot, addr))
  {
    var votes := VotesOf(targets, vtables, slot);
    assert votes(addr) > 0 && HasEntry(counts, addr);
    var i :| 0 <= i < |counts| && counts[i].addr == addr;
    assert counts[i].count == votes(addr) && best.count == votes(best.addr);
    MajorityUnique(targets, vtables, slot, addr, best.addr);
  }

  // ---------- all slots ----------

  /** A function with the needed majority in the slot and the right prologue. */
  predicate Qualifies(targets: Targets, vtables: seq<int>, prologue: int -> bool, slot: nat, addr: int) {
    Votes(targets, vtables, slot, addr) >= Need(|vtables|) && prologue(addr)
  }

  /** The best qualified pick below slot `n`: the most votes, and of those the lowest slot. */
  ghost predicate BestBelow(
    targets: Targets, vtables: seq<int>, prologue: int -> bool, n: nat, best: Option<(nat, nat, int)>)
  {
    match best
    case None => forall slot: nat, addr :: slot < n ==> !Qualifies(targets, vtables, prologue, slot, addr)
    case Some((count, at, pick)) =>
      && at < n && Qualifies(targets, vtables, prologue, at, pick) && count == Votes(targets, vtables, at, pick)
      && (forall slot: nat, addr :: slot < n && Qualifies(targets, vtables, prologue, slot, addr) ==>
            Votes(targets, vtables, slot, addr) <= count)
      && (forall slot: nat, addr :: slot < at && Qualifies(targets, vtables, prologue, slot, addr) ==>
            Votes(targets, vtables, slot, addr) < count)
  }

  /** The qualified function of one slot, with its votes. */
  method PickSlot(targets: Targets, vtables: seq<int>, prologue: int -> bool, slot: nat) returns (r: Option<Tally>)
    requires vtables != []
    ensures match r
            case None => forall addr :: !Qualifies(targets, vtables, prologue, slot, addr)
            case Some(t) =>
              && Qualifies(targets, vtables, prologue, slot, t.addr) && t.count == Votes(targets, vtables, slot, t.addr)
              && forall addr :: Qualifies(targets, vtables, prologue, slot, addr) ==> addr == t.addr
  {
    var counts := CountSlot(targets, vtables, slot);
    var best := LastMax(counts);
    forall addr | Votes(targets, vtables, slot, addr) >= Need(|vtables|)
      ensures best == Some(Tally(addr, Votes(targets, vtables, slot, addr)))
    {
      assert VotesOf(targets, vtables, slot)(addr) > 0 && HasEntry(counts, addr);
      PickIsMajority(targets, vtables, slot, counts, best.value, addr);
    }
    if best == None {
      return None;
    }
    assert best.value.count == VotesOf(targets, vtables, slot)(best.value.addr);
    return if best.value.count >= Need(|vtables|) && prologue(best.value.addr) then best else None;
  }

  /**
   * `resolve_process_event`, once the vtables are sampled: an address is returned exactly if there are at least three
   * vtables and some slot has a qualified function, and then it is the one with the most votes in the lowest such slot.
   */
  method ResolveProcessEvent(targets: Targets, vtables: seq<int>, prologue: int -> bool) returns (r: Option<int>)
    ensures |vtables| < 3 ==> r == None
    ensures |vtables| >= 3 ==>
              (r.Some? <==> exists slot: nat, addr :: slot < SLOTS && Qualifies(targets, vtables, prologue, slot, addr))
    ensures r.Some? ==> exists count, at :: BestBelow(targets, vtables, prologue, SLOTS, Some((count, at, r.value)))
  {
    if |vtables| < 3 {
      return None;
    }
    var best: Option<(nat, nat, int)> := None;
    for slot := 0 to SLOTS
      invariant BestBelow(targets, vtables, prologue, slot, best)
    {
      var pick := PickSlot(targets, vtables, prologue, slot);
      if pick.Some? && (best == None || pick.value.count > best.value.0) {
        best := Some((pick.value.count, slot, pick.value.addr));
      }
    }
    return if best == None then None else Some(best.value.2);
  }
}
