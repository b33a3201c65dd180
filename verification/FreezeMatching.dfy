/**
 * Freezing a field of every matching object, tick by tick over changing match lists, and putting the stock values back.
 */
module FreezeMatching {
  import opened CodePatch
  import opened LocalReader
  import opened Memory
  import opened Reflection

  // ---------- which addresses a tick writes ----------

  datatype Match = Match(objAddr: int, classAddr: int, fqn: string)

  /** The fields to freeze: fixed offsets, or one property to be resolved on each match's class. */
  datatype Field = Offsets(offsets: seq<int>) | Property(name: string)

  type Resolver = (int, string) -> Resolution

  function LowerChar(c: char): char {
    if 'A' <= c <= 'Z' then (c as int - 'A' as int + 'a' as int) as char else c
  }

  function Lower(s: string): (r: string)
    ensures |r| == |s|
  {
    seq(|s|, i requires 0 <= i < |s| => LowerChar(s[i]))
  }

  predicate OccursAt(s: string, part: string, i: int) { 0 <= i <= |s| - |part| && s[i..i + |part|] == part }

  predicate Contains(s: string, part: string) { exists i :: 0 <= i <= |s| && OccursAt(s, part, i) }

  /** Every include filter occurs in the name, and no exclude filter does, regardless of case. */
  predicate Kept(m: Match, including: seq<string>, excluding: seq<string>) {
    && (forall n :: n in including ==> Contains(Lower(m.fqn), Lower(n)))
    && (forall n :: n in excluding ==> !Contains(Lower(m.fqn), Lower(n)))
  }

  function Addresses(base: int, offsets: seq<int>): (r: seq<int>)
    ensures |r| == |offsets| && forall i :: 0 <= i < |offsets| ==> r[i] == WrappingAdd(base, offsets[i])
  {
    seq(|offsets|, i requires 0 <= i < |offsets| => WrappingAdd(base, offsets[i]))
  }

  /** The addresses of one match; `None` if its property cannot be resolved. */
  function AddressesOf(m: Match, field: Field, resolve: Resolver): Option<seq<int>> {
    match field
    case Offsets(offsets) => Some(Addresses(m.objAddr, offsets))
    case Property(name) =>
      match resolve(m.classAddr, name)
      case At(offset) => Some(Addresses(m.objAddr, [offset]))
      case _ => None
  }

  /** What a tick writes, in order, and whether it ends with an error; an error stops it at that match. */
  datatype Plan = Plan(targets: seq<int>, failed: bool)

  function PlanOf(
      matches: seq<Match>, field: Field, resolve: Resolver, including: seq<string>, excluding: seq<string>): Plan
  {
    if matches == [] then Plan([], false)
    else
      var m, rest := matches[0], PlanOf(matches[1..], field, resolve, including, excluding);
      if !Kept(m, including, excluding) then rest
      else
        match AddressesOf(m, field, resolve)
        case None => Plan([], true)
        case Some(addrs) => Plan(addrs + rest.targets, rest.failed)
  }

  /** The cached offset, if there is one, is the one that the cached class resolves to. */
  predicate CacheHolds(field: Field, resolve: Resolver, lastClass: int, lastOffset: nat) {
    lastClass != 0 ==> field.Property? && resolve(lastClass, field.name) == At(lastOffset)
  }

  // ---------- one write ----------

  /** Memory, and the bytes that were found at each address before it was first written. */
  datatype Frozen = Frozen(mem: Mem, originals: Registry)

  /** The system's answers to the reads and writes of one tick, address by address. */
  datatype Os = Os(read: int -> bool, write: int -> bool)

  /**
   * Remember what is at the address, unless that was done before or the read fails; then write, whether the read
   * succeeded or not.
   */
  function Touch(s: Frozen, addr: int, payload: seq<byte>, read: bool, write: bool): Frozen {
    var there := Readable(s.mem, addr, |payload|);
    Frozen(
      if there && write then Store(s.mem, addr, payload) else s.mem,
      if addr in s.originals || !there || !read then s.originals
      else s.originals[addr := BytesAt(s.mem, addr, |payload|)])
  }

  function TouchAll(s: Frozen, addrs: seq<int>, payload: seq<byte>, os: Os): Frozen
    decreases |addrs|
  {
    if addrs == [] then s
    else TouchAll(Touch(s, addrs[0], payload, os.read(addrs[0]), os.write(addrs[0])), addrs[1..], payload, os)
  }

  lemma {:induction false} TouchAllSplit(s: Frozen, a: seq<int>, b: seq<int>, payload: seq<byte>, os: Os)
    ensures TouchAll(s, a + b, payload, os) == TouchAll(TouchAll(s, a, payload, os), b, payload, os)
    decreases |a|
  {
    if a == [] {
      assert a + b == b;
    } else {
      assert (a + b)[1..] == a[1..] + b;
      TouchAllSplit(Touch(s, a[0], payload, os.read(a[0]), os.write(a[0])), a[1..], b, payload, os);
    }
  }

  /** The restoring writes that go through. */
  function Restorable(mem: Mem, originals: Registry, allowed: int -> bool): int -> bool {
    (a: int) => a in originals && Readable(mem, a, |originals[a]|) && allowed(a)
  }

  // ---------- the feature ----------

  class Freeze {
    var mem: Mem
    var originals: Registry

    constructor (m: Mem)
      ensures mem == m && originals == map[]
    {
      mem, originals := m, map[];
    }

    ghost function Now(): Frozen
      reads this
    {
      Frozen(mem, originals)
    }

    /** One write of one match. */
    method Stamp(addr: int, payload: seq<byte>, read: bool, write: bool)
      modifies this
      ensures Now() == Touch(old(Now()), addr, payload, read, write)
    {
      var there := Readable(mem, addr, |payload|);
      if addr !in originals {
        if there && read {
          originals := originals[addr := BytesAt(mem, addr, |payload|)];
        }
      }
      if there && write {
        mem := Store(mem, addr, payload);
      }
    }

    method StampAll(addrs: seq<int>, payload: seq<byte>, os: Os)
      modifies this
      ensures Now() == TouchAll(old(Now()), addrs, payload, os)
    {
      for i := 0 to |addrs|
        invariant TouchAll(Now(), addrs[i..], payload, os) == TouchAll(old(Now()), addrs, payload, os)
      {
        assert addrs[i..][1..] == addrs[i + 1..];
        Stamp(addrs[i], payload, os.read(addrs[i]), os.write(addrs[i]));
      }
    }

    /**
     * The addresses of one match, with the offset of the class resolved last at hand. Reusing it never shows: the
     * result is that of resolving the match by itself.
     */
    method Locate(m: Match, field: Field, resolve: Resolver, lastClass: int, lastOffset: nat)
      returns (addrs: Option<seq<int>>, lastClass': int, lastOffset': nat)
      requires CacheHolds(field, resolve, lastClass, lastOffset)
      ensures addrs == AddressesOf(m, field, resolve)
      ensures CacheHolds(field, resolve, lastClass', lastOffset')
    {
      lastClass', lastOffset' := lastClass, lastOffset;
      match field
      case Offsets(offsets) =>
        addrs := Some(Addresses(m.objAddr, offsets));
      case Property(name) =>
        if m.classAddr != lastClass || lastClass == 0 {
          var resolved := resolve(m.classAddr, name);
          if !resolved.At? {
            return None, lastClass', lastOffset';
          }
          lastClass', lastOffset' := m.classAddr, resolved.offset;
        }
        addrs := Some(Addresses(m.objAddr, [lastOffset']));
    }

    /** `write_freeze_for_matching`: one tick. */
    method Tick(matches: seq<Match>, field: Field, resolve: Resolver, including: seq<string>, excluding: seq<string>,
                payload: seq<byte>, os: Os)
      returns (failed: bool)
      modifies this
      ensures var plan := PlanOf(matches, field, resolve, including, excluding);
              failed == plan.failed && Now() == TouchAll(old(Now()), plan.targets, payload, os)
    {
      var lastClass, lastOffset := 0, 0;
      ghost var all := PlanOf(matches, field, resolve, including, excluding);
      ghost var final := TouchAll(Now(), all.targets, payload, os);
      var i := 0;
      while i < |matches|
        invariant 0 <= i <= |matches|
        invariant CacheHolds(field, resolve, lastClass, lastOffset)
        invariant PlanOf(matches[i..], field, resolve, including, excluding).failed == all.failed
        invariant TouchAll(Now(), PlanOf(matches[i..], field, resolve, including, excluding).targets, payload, os)
                  == final
      {
        var m := matches[i];
        ghost var rest := PlanOf(matches[i + 1..], field, resolve, including, excluding);
        assert matches[i..][0] == m && matches[i..][1..] == matches[i + 1..];
        i := i + 1;
        if Kept(m, including, excluding) {
          var addrs;
          addrs, lastClass, lastOffset := Locate(m, field, resolve, lastClass, lastOffset);
          if addrs == None {
            return true;
          }
          TouchAllSplit(Now(), addrs.value, rest.targets, payload, os);
          StampAll(addrs.value, payload, os);
        }
      }
      return false;
    }

    /** `restore`: take the map and write every entry back, in the order the map gives. */
    method Restore(order: seq<int>, allowed: int -> bool)
      requires Drains(order, originals)
      modifies this
      ensures originals == map[]
      ensures mem == WriteBack(old(mem), old(originals), order, Restorable(old(mem), old(originals), allowed))
    {
      var taken := originals;
      originals := map[];
      ghost var restorable := Restorable(mem, taken, allowed);
      for i := 0 to |order|
        invariant originals == map[]
        invariant mem == WriteBack(old(mem), taken, order[..i], restorable)
      {
        assert order[..i + 1][..i] == order[..i] && order[..i + 1][i] == order[i];
        if Readable(mem, order[i], |taken[order[i]]|) && allowed(order[i]) {
          mem := Store(mem, order[i], taken[order[i]]);
        }
      }
      assert order[..|order|] == order;
    }
  }

  // ---------- histories ----------

  /** What happens to memory over time: the game does as it likes, or the feature writes at one address. */
  datatype Act = Game(mem: Mem) | Stamps(addr: int, payload: seq<byte>, read: bool, write: bool)

  function After(start: Mem, acts: seq<Act>): Frozen {
    if acts == [] then Frozen(start, map[])
    else
      var s := After(start, acts[..|acts| - 1]);
      match acts[|acts| - 1]
      case Game(mem) => s.(mem := mem)
      case Stamps(addr, payload, read, write) => Touch(s, addr, payload, read, write)
  }

  /** The act at `k` is the first write at `a` for which the bytes found there were read. */
  ghost predicate FirstTouch(start: Mem, acts: seq<Act>, k: nat, a: int) {
    && k < |acts| && acts[k].Stamps? && acts[k].addr == a && acts[k].read
    && Readable(After(start, acts[..k]).mem, a, |acts[k].payload|)
    && a !in After(start, acts[..k]).originals
  }

  /** Whatever the game does in between, the map holds for each address the bytes found there at its first touch. */
  lemma {:induction false} HoldsFirstTouch(start: Mem, acts: seq<Act>, a: int) returns (k: nat)
    requires a in After(start, acts).originals
    ensures FirstTouch(start, acts, k, a)
    ensures After(start, acts).originals[a] == BytesAt(After(start, acts[..k]).mem, a, |acts[k].payload|)
  {
    var n := |acts| - 1;
    if a in After(start, acts[..n]).originals {
      k := HoldsFirstTouch(start, acts[..n], a);
      assert acts[..n][..k] == acts[..k];
    } else {
      k := n;
    }
  }

  /** Every address that was touched when it could be read is in the map. */
  lemma {:induction false} TouchedAreHeld(start: Mem, acts: seq<Act>, k: nat)
    requires k < |acts| && acts[k].Stamps? && acts[k].read
    requires Readable(After(start, acts[..k]).mem, acts[k].addr, |acts[k].payload|)
    ensures acts[k].addr in After(start, acts).originals
    decreases |acts|
  {
    var n := |acts| - 1;
    if k < n {
      assert acts[..n][..k] == acts[..k];
      TouchedAreHeld(start, acts[..n], k);
    }
  }

  /** An address in the map keeps its bytes, whatever happens. */
  lemma {:induction false} HeldStays(start: Mem, acts: seq<Act>, k: nat, a: int)
    requires k <= |acts| && a in After(start, acts[..k]).originals
    ensures a in After(start, acts).originals
    ensures After(start, acts).originals[a] == After(start, acts[..k]).originals[a]
    decreases |acts|
  {
    if k < |acts| {
      assert acts[..|acts| - 1][..k] == acts[..k];
      HeldStays(start, acts[..|acts| - 1], k, a);
    } else {
      assert acts[..k] == acts;
    }
  }

  /** A tick is a series of writes, so all of the above holds for any number of ticks. */
  function ActsOf(addrs: seq<int>, payload: seq<byte>, os: Os): (acts: seq<Act>)
    ensures |acts| == |addrs|
    ensures forall i :: 0 <= i < |addrs| ==> acts[i] == Stamps(addrs[i], payload, os.read(addrs[i]), os.write(addrs[i]))
  {
    seq(|addrs|, i requires 0 <= i < |addrs| => Stamps(addrs[i], payload, os.read(addrs[i]), os.write(addrs[i])))
  }

  lemma AfterOne(start: Mem, acts: seq<Act>, addr: int, payload: seq<byte>, read: bool, write: bool)
    ensures After(start, acts + [Stamps(addr, payload, read, write)])
            == Touch(After(start, acts), addr, payload, read, write)
  {
    assert (acts + [Stamps(addr, payload, read, write)])[..|acts|] == acts;
  }

  lemma {:induction false} TickIsActs(start: Mem, acts: seq<Act>, addrs: seq<int>, payload: seq<byte>, os: Os)
    ensures After(start, acts + ActsOf(addrs, payload, os)) == TouchAll(After(start, acts), addrs, payload, os)
  {
    if addrs == [] {
      assert acts + ActsOf(addrs, payload, os) == acts;
    } else {
      var n := |addrs| - 1;
      var init, last := addrs[..n], addrs[n];
      TickIsActs(start, acts, init, payload, os);
      assert addrs == init + [last];
      TouchAllSplit(After(start, acts), init, [last], payload, os);
      assert acts + ActsOf(addrs, payload, os)
             == acts + ActsOf(init, payload, os) + [Stamps(last, payload, os.read(last), os.write(last))];
      AfterOne(start, acts + ActsOf(init, payload, os), last, payload, os.read(last), os.write(last));
    }
  }

  // ---------- restoring ----------

  /** Wherever two entries overlap they agree. */
  ghost predicate Consistent(originals: Registry) {
    forall a, b, x :: Covers(originals, a, x) && Covers(originals, b, x) ==> originals[a][x - a] == originals[b][x - b]
  }

  /** Every cell of every entry can be read. */
  ghost predicate AllReadable(mem: Mem, originals: Registry) {
    forall a, x :: Covers(originals, a, x) ==> x in mem
  }

  /** Memory with the held bytes over it. */
  ghost function Overlay(mem: Mem, originals: Registry): (r: Mem)
    ensures r.Keys == mem.Keys
    ensures Consistent(originals) ==> forall a, x :: Covers(originals, a, x) && x in mem ==> r[x] == originals[a][x - a]
    ensures forall x :: x in mem && !Covered(originals, x) ==> r[x] == mem[x]
  {
    map x | x in mem ::
      if Covered(originals, x) then (var a :| Covers(originals, a, x); originals[a][x - a]) else mem[x]
  }

  /** Restoring, in any order, returns every held range to its bytes and leaves all other memory alone. */
  lemma RestoreReturns(mem: Mem, originals: Registry, order: seq<int>)
    requires Consistent(originals) && AllReadable(mem, originals) && Drains(order, originals)
    ensures var r := WriteBack(mem, originals, order, ALWAYS);
            && r.Keys == mem.Keys
            && (forall a, x :: Covers(originals, a, x) ==> r[x] == originals[a][x - a])
            && (forall x :: x in mem && !Covered(originals, x) ==> r[x] == mem[x])
  {
    assert Undoable(Overlay(mem, originals), mem, originals);
    UndoRestores(Overlay(mem, originals), mem, originals, order);
  }

  /** Every order returns every held range to its bytes iff overlapping entries agree. */
  lemma RestoreReturnsIff(mem: Mem, originals: Registry)
    requires AllReadable(mem, originals)
    ensures Consistent(originals) <==>
            forall order, a, x :: Drains(order, originals) && Covers(originals, a, x) ==>
              WriteBack(mem, originals, order, ALWAYS)[x] == originals[a][x - a]
  {
    if Consistent(originals) {
      forall order, a, x | Drains(order, originals) && Covers(originals, a, x)
        ensures WriteBack(mem, originals, order, ALWAYS)[x] == originals[a][x - a]
      {
        RestoreReturns(mem, originals, order);
      }
    } else {
      var a, b, x :| Covers(originals, a, x) && Covers(originals, b, x) && originals[a][x - a] != originals[b][x - b];
      var order := SomeOrder(originals.Keys, b);
      assert Drains(order, originals);
      assert WriteBack(mem, originals, order, ALWAYS)[x] == originals[b][x - b];
    }
  }

  /** The written ranges are pairwise equal or disjoint, and have one length. */
  ghost predicate EqualOrDisjoint(acts: seq<Act>, len: nat) {
    && (forall i :: 0 <= i < |acts| && acts[i].Stamps? ==> |acts[i].payload| == len)
    && (forall i, j :: 0 <= i < |acts| && 0 <= j < |acts| && acts[i].Stamps? && acts[j].Stamps? ==>
          acts[i].addr == acts[j].addr || acts[i].addr + len <= acts[j].addr || acts[j].addr + len <= acts[i].addr)
  }

  /** Two held entries are the same or do not overlap. */
  lemma HeldApart(start: Mem, acts: seq<Act>, len: nat, a: int, b: int)
    requires EqualOrDisjoint(acts, len) && a in After(start, acts).originals && b in After(start, acts).originals
    ensures |After(start, acts).originals[a]| == |After(start, acts).originals[b]| == len
    ensures a == b || a + len <= b || b + len <= a
  {
    var i := HoldsFirstTouch(start, acts, a);
    var j := HoldsFirstTouch(start, acts, b);
    assert acts[i].addr == a && acts[j].addr == b;
  }

  /** With equal or disjoint ranges the held entries do not overlap, so they are consistent. */
  lemma DisjointIsConsistent(start: Mem, acts: seq<Act>, len: nat)
    requires EqualOrDisjoint(acts, len)
    ensures Consistent(After(start, acts).originals)
  {
    var originals := After(start, acts).originals;
    forall a, b, x | Covers(originals, a, x) && Covers(originals, b, x)
      ensures originals[a][x - a] == originals[b][x - b]
    {
      HeldApart(start, acts, len, a, b);
    }
  }

  /** A second restore finds an empty map and writes nothing. */
  lemma SecondRestoreDoesNothing(mem: Mem, order: seq<int>, allowed: int -> bool)
    requires Drains(order, map[])
    ensures WriteBack(mem, map[], order, allowed) == mem
  {
    assert forall i :: 0 <= i < |order| ==> order[i] in order;
  }

  // ---------- exactly what a restore gives back ----------

  /** Only the feature writes, every range can be read at the start, and the ranges are pairwise equal or disjoint. */
  ghost predicate Undisturbed(start: Mem, acts: seq<Act>, len: nat) {
    && EqualOrDisjoint(acts, len)
    && forall i :: 0 <= i < |acts| ==> acts[i].Stamps? && Readable(start, acts[i].addr, len)
  }

  /** Some write at the address was preceded by a snapshot read that succeeded. */
  ghost predicate Looked(acts: seq<Act>, a: int) {
    exists k :: 0 <= k < |acts| && acts[k].Stamps? && acts[k].addr == a && acts[k].read
  }

  /** The write at `k` goes through although no snapshot of its address has been read by then. */
  ghost predicate Blind(acts: seq<Act>, k: nat) {
    && k < |acts| && acts[k].Stamps? && acts[k].write && !acts[k].read
    && !Looked(acts[..k], acts[k].addr)
  }

  /** It is the last such write at its address. */
  ghost predicate LastBlind(acts: seq<Act>, k: nat) {
    Blind(acts, k) && forall j: nat :: k < j && Blind(acts, j) ==> acts[j].addr != acts[k].addr
  }

  lemma LookedAppend(init: seq<Act>, last: Act, a: int)
    ensures Looked(init + [last], a) <==> Looked(init, a) || (last.Stamps? && last.addr == a && last.read)
  {
    var all := init + [last];
    if k :| 0 <= k < |init| && init[k].Stamps? && init[k].addr == a && init[k].read {
      assert all[k] == init[k];
    }
    if last.Stamps? && last.addr == a && last.read {
      assert all[|init|] == last;
    }
  }

  lemma BlindAppend(init: seq<Act>, last: Act, k: nat)
    ensures k < |init| ==> (Blind(init + [last], k) <==> Blind(init, k))
    ensures Blind(init + [last], |init|)
            <==> last.Stamps? && last.write && !last.read && !Looked(init, last.addr)
  {
    var all := init + [last];
    assert all[..|init|] == init;
    if k < |init| {
      assert all[..k] == init[..k] && all[k] == init[k];
    }
  }

  /** The bytes at a range when a snapshot of it was first read, or at the end if none ever was. */
  ghost function FirstSeen(start: Mem, acts: seq<Act>, a: int, len: nat): (seen: seq<byte>)
    requires Readable(start, a, len)
    requires forall i :: 0 <= i < |acts| && acts[i].Stamps? ==> |acts[i].payload| == len
    ensures |seen| == len
  {
    if acts == [] then BytesAt(start, a, len)
    else
      var init, last := acts[..|acts| - 1], acts[|acts| - 1];
      if last.Stamps? && last.addr == a && last.write && !last.read && !Looked(init, a) then last.payload
      else FirstSeen(start, init, a, len)
  }

  /** The last write that went through unseen at an address, or none. */
  lemma {:induction false} SeenIsLastBlind(start: Mem, acts: seq<Act>, a: int, len: nat) returns (k: nat)
    requires Readable(start, a, len)
    requires forall i :: 0 <= i < |acts| && acts[i].Stamps? ==> |acts[i].payload| == len
    ensures k < |acts| ==>
              LastBlind(acts, k) && acts[k].addr == a && FirstSeen(start, acts, a, len) == acts[k].payload
    ensures k >= |acts| ==> FirstSeen(start, acts, a, len) == BytesAt(start, a, len)
    ensures forall j: nat :: Blind(acts, j) && acts[j].addr == a ==> j <= k < |acts|
  {
    k := |acts|;
    if acts != [] {
      var init, last := acts[..|acts| - 1], acts[|acts| - 1];
      assert acts == init + [last];
      forall j: nat ensures j < |init| ==> (Blind(acts, j) <==> Blind(init, j)) {
        BlindAppend(init, last, j);
      }
      BlindAppend(init, last, 0);
      if Blind(acts, |init|) && last.addr == a {
        k := |init|;
      } else {
        var i := SeenIsLastBlind(start, init, a, len);
        if i < |init| {
          k := i;
        }
      }
    }
  }

  lemma LastBlindIsSeen(start: Mem, acts: seq<Act>, k: nat, len: nat)
    requires LastBlind(acts, k) && Readable(start, acts[k].addr, len)
    requires forall i :: 0 <= i < |acts| && acts[i].Stamps? ==> |acts[i].payload| == len
    ensures FirstSeen(start, acts, acts[k].addr, len) == acts[k].payload
  {
    var j := SeenIsLastBlind(start, acts, acts[k].addr, len);
    assert j <= k && k <= j;
  }

  /** A range that is one of those written, or overlaps none of them. */
  ghost predicate Apart(acts: seq<Act>, a: int, len: nat) {
    forall i :: 0 <= i < |acts| && acts[i].Stamps? ==>
      acts[i].addr == a || acts[i].addr + len <= a || a + len <= acts[i].addr
  }

  /** What one more write does to a range. */
  lemma TouchRange(s: Frozen, act: Act, a: int, len: nat)
    requires act.Stamps? && |act.payload| == len && Readable(s.mem, act.addr, len) && Readable(s.mem, a, len)
    requires act.addr == a || act.addr + len <= a || a + len <= act.addr
    ensures var s' := Touch(s, act.addr, act.payload, act.read, act.write);
            && s'.mem.Keys == s.mem.Keys
            && BytesAt(s'.mem, a, len) == (if act.addr == a && act.write then act.payload else BytesAt(s.mem, a, len))
            && (a in s'.originals <==> a in s.originals || (act.addr == a && act.read))
            && (a in s.originals ==> s'.originals[a] == s.originals[a])
            && (a !in s.originals && a in s'.originals ==> s'.originals[a] == BytesAt(s.mem, a, len))
  {
  }

  /** The map holds what was first seen, and where it holds nothing that is still in memory. */
  lemma {:induction false} SeenIs(start: Mem, acts: seq<Act>, len: nat, a: int)
    requires Undisturbed(start, acts, len) && Readable(start, a, len) && Apart(acts, a, len)
    ensures var s := After(start, acts);
            && s.mem.Keys == start.Keys
            && (a in s.originals <==> Looked(acts, a))
            && FirstSeen(start, acts, a, len) == if a in s.originals then s.originals[a] else BytesAt(s.mem, a, len)
  {
    if acts != [] {
      var init, last := acts[..|acts| - 1], acts[|acts| - 1];
      assert acts == init + [last];
      SeenIs(start, init, len, a);
      LookedAppend(init, last, a);
      assert last.Stamps? && |last.payload| == len && Readable(start, last.addr, len);
      TouchRange(After(start, init), last, a, len);
    }
  }

  /** No write reaches a cell outside all ranges. */
  lemma {:induction false} ElsewhereStays(start: Mem, acts: seq<Act>, len: nat, x: int)
    requires Undisturbed(start, acts, len) && x in start
    requires forall i :: 0 <= i < |acts| ==> !(acts[i].addr <= x < acts[i].addr + len)
    ensures x in After(start, acts).mem && After(start, acts).mem[x] == start[x]
  {
    if acts != [] {
      var init, last := acts[..|acts| - 1], acts[|acts| - 1];
      ElsewhereStays(start, init, len, x);
      assert |last.payload| == len;
    }
  }

  /** Held entries are ranges that were written. */
  lemma HeldIsWritten(start: Mem, acts: seq<Act>, len: nat, a: int) returns (k: nat)
    requires Undisturbed(start, acts, len) && a in After(start, acts).originals
    ensures k < |acts| && acts[k].addr == a && |After(start, acts).originals[a]| == len
  {
    k := HoldsFirstTouch(start, acts, a);
  }

  /** Of a written range, an entry covers all cells or none. */
  lemma CoveredRange(start: Mem, acts: seq<Act>, len: nat, i: nat, x: int)
    requires Undisturbed(start, acts, len) && i < |acts| && acts[i].addr <= x < acts[i].addr + len
    ensures var originals := After(start, acts).originals;
            && (acts[i].addr in originals ==> Covers(originals, acts[i].addr, x))
            && (acts[i].addr !in originals ==> !Covered(originals, x))
  {
    var originals := After(start, acts).originals;
    if acts[i].addr in originals {
      var k := HeldIsWritten(start, acts, len, acts[i].addr);
    } else if b :| Covers(originals, b, x) {
      var k := HeldIsWritten(start, acts, len, b);
    }
  }

  /** Every cell held can be read. */
  lemma HeldIsReadable(start: Mem, acts: seq<Act>, len: nat)
    requires Undisturbed(start, acts, len) && After(start, acts).mem.Keys == start.Keys
    ensures AllReadable(After(start, acts).mem, After(start, acts).originals)
  {
    var s := After(start, acts);
    forall a, x | Covers(s.originals, a, x) ensures x in s.mem {
      var k := HeldIsWritten(start, acts, len, a);
      assert Readable(start, acts[k].addr, len);
    }
  }

  lemma {:induction false} KeysStay(start: Mem, acts: seq<Act>, len: nat)
    requires Undisturbed(start, acts, len)
    ensures After(start, acts).mem.Keys == start.Keys
  {
    if acts != [] {
      KeysStay(start, acts[..|acts| - 1], len);
    }
  }

  /** Memory after a restore that is allowed every write. */
  ghost function Restored(s: Frozen, order: seq<int>): (r: Mem)
    requires Drains(order, s.originals)
    ensures r.Keys == s.mem.Keys
  {
    WriteBack(s.mem, s.originals, order, ALWAYS)
  }

  /** What a restore does to one cell. */
  lemma RestoredCell(start: Mem, acts: seq<Act>, len: nat, order: seq<int>, a: int, x: int)
    requires Undisturbed(start, acts, len) && Drains(order, After(start, acts).originals) && x in start
    ensures var s := After(start, acts);
            && s.mem.Keys == Restored(s, order).Keys == start.Keys
            && (Covers(s.originals, a, x) ==> Restored(s, order)[x] == s.originals[a][x - a])
            && (!Covered(s.originals, x) ==> Restored(s, order)[x] == s.mem[x])
  {
    KeysStay(start, acts, len);
    HeldIsReadable(start, acts, len);
    DisjointIsConsistent(start, acts, len);
    RestoreReturns(After(start, acts).mem, After(start, acts).originals, order);
  }

  /** After a restore in any order, a cell of a written range holds what was first seen there. */
  lemma RestoredSeen(start: Mem, acts: seq<Act>, len: nat, order: seq<int>, i: nat, x: int)
    requires Undisturbed(start, acts, len) && Drains(order, After(start, acts).originals)
    requires i < |acts| && acts[i].addr <= x < acts[i].addr + len
    ensures Restored(After(start, acts), order).Keys == start.Keys
    ensures x in start
    ensures Restored(After(start, acts), order)[x] == FirstSeen(start, acts, acts[i].addr, len)[x - acts[i].addr]
  {
    assert Readable(start, acts[i].addr, len);
    RestoredCell(start, acts, len, order, acts[i].addr, x);
    SeenIs(start, acts, len, acts[i].addr);
    CoveredRange(start, acts, len, i, x);
  }

  /** A cell outside all ranges is as it was. */
  lemma RestoredElsewhere(start: Mem, acts: seq<Act>, len: nat, order: seq<int>, x: int)
    requires Undisturbed(start, acts, len) && Drains(order, After(start, acts).originals) && x in start
    requires forall i :: 0 <= i < |acts| ==> !(acts[i].addr <= x < acts[i].addr + len)
    ensures x in Restored(After(start, acts), order) && Restored(After(start, acts), order)[x] == start[x]
  {
    var originals := After(start, acts).originals;
    RestoredCell(start, acts, len, order, 0, x);
    ElsewhereStays(start, acts, len, x);
    if b :| Covers(originals, b, x) {
      var k := HeldIsWritten(start, acts, len, b);
    }
  }

  /** If the start memory is back, every written range was first seen as it was at the start. */
  lemma RestoredWasSeen(start: Mem, acts: seq<Act>, len: nat, order: seq<int>, i: nat)
    requires Undisturbed(start, acts, len) && Drains(order, After(start, acts).originals) && i < |acts|
    requires Restored(After(start, acts), order) == start
    ensures FirstSeen(start, acts, acts[i].addr, len) == BytesAt(start, acts[i].addr, len)
  {
    forall j | 0 <= j < len
      ensures FirstSeen(start, acts, acts[i].addr, len)[j] == BytesAt(start, acts[i].addr, len)[j]
    {
      RestoredSeen(start, acts, len, order, i, acts[i].addr + j);
    }
  }

  /** If every written range was first seen as it was at the start, the start memory is back. */
  lemma SeenIsRestored(start: Mem, acts: seq<Act>, len: nat, order: seq<int>)
    requires Undisturbed(start, acts, len) && Drains(order, After(start, acts).originals)
    requires forall i :: 0 <= i < |acts| ==>
               FirstSeen(start, acts, acts[i].addr, len) == BytesAt(start, acts[i].addr, len)
    ensures Restored(After(start, acts), order) == start
  {
    KeysStay(start, acts, len);
    forall x | x in start ensures Restored(After(start, acts), order)[x] == start[x] {
      if i: nat :| i < |acts| && acts[i].addr <= x < acts[i].addr + len {
        RestoredSeen(start, acts, len, order, i, x);
      } else {
        RestoredElsewhere(start, acts, len, order, x);
      }
    }
  }

  /**
   * At every address the last write that went through before a snapshot was read there, if there is one, wrote the
   * bytes of the start.
   */
  ghost predicate BlindWritesHarmless(start: Mem, acts: seq<Act>, len: nat)
    requires Undisturbed(start, acts, len)
  {
    forall k: nat :: LastBlind(acts, k) ==> acts[k].payload == BytesAt(start, acts[k].addr, len)
  }

  /**
   * Without interference from the game, whatever reads and writes of the ticks the system refuses, a restore in any
   * order gives back the start memory iff the writes that no snapshot preceded are harmless.
   */
  lemma RestoreIff(start: Mem, acts: seq<Act>, len: nat, order: seq<int>)
    requires Undisturbed(start, acts, len) && Drains(order, After(start, acts).originals)
    ensures Restored(After(start, acts), order) == start <==> BlindWritesHarmless(start, acts, len)
  {
    if Restored(After(start, acts), order) == start {
      forall k: nat | LastBlind(acts, k) ensures acts[k].payload == BytesAt(start, acts[k].addr, len) {
        RestoredWasSeen(start, acts, len, order, k);
        LastBlindIsSeen(start, acts, k, len);
      }
    }
    if BlindWritesHarmless(start, acts, len) {
      forall i: nat | i < |acts|
        ensures FirstSeen(start, acts, acts[i].addr, len) == BytesAt(start, acts[i].addr, len)
      {
        var k := SeenIsLastBlind(start, acts, acts[i].addr, len);
      }
      SeenIsRestored(start, acts, len, order);
    }
  }

  /** From any unseen write, the last one at its address. */
  lemma SomeLastBlind(acts: seq<Act>, k: nat) returns (j: nat)
    requires Blind(acts, k)
    ensures LastBlind(acts, j) && acts[j].addr == acts[k].addr
    decreases |acts| - k
  {
    if i: nat :| k < i && Blind(acts, i) && acts[i].addr == acts[k].addr {
      j := SomeLastBlind(acts, i);
    } else {
      j := k;
    }
  }

  /** With one frozen value, that is iff every write that went through unseen found the value there already. */
  lemma RestoreIffOneValue(start: Mem, acts: seq<Act>, value: seq<byte>, order: seq<int>)
    requires Undisturbed(start, acts, |value|) && Drains(order, After(start, acts).originals)
    requires forall i :: 0 <= i < |acts| ==> acts[i].payload == value
    ensures Restored(After(start, acts), order) == start
            <==> forall k: nat :: Blind(acts, k) ==> BytesAt(start, acts[k].addr, |value|) == value
  {
    RestoreIff(start, acts, |value|, order);
    forall k: nat | Blind(acts, k)
      ensures BlindWritesHarmless(start, acts, |value|) ==> BytesAt(start, acts[k].addr, |value|) == value
    {
      var j := SomeLastBlind(acts, k);
    }
  }

  /** Without interference or failed snapshots, restoring after any writes gives the memory before the first one. */
  lemma TicksThenRestore(start: Mem, acts: seq<Act>, len: nat, order: seq<int>)
    requires EqualOrDisjoint(acts, len)
    requires forall i :: 0 <= i < |acts| ==> acts[i].Stamps? && acts[i].read && Readable(start, acts[i].addr, len)
    requires Drains(order, After(start, acts).originals)
    ensures WriteBack(After(start, acts).mem, After(start, acts).originals, order, ALWAYS) == start
  {
    RestoreIff(start, acts, len, order);
  }

  // ---------- whole ticks ----------

  /** What one tick is given. */
  datatype TickInput = TickInput(
    matches: seq<Match>, field: Field, resolve: Resolver, including: seq<string>, excluding: seq<string>,
    payload: seq<byte>, os: Os)

  function Targets(t: TickInput): seq<int> {
    PlanOf(t.matches, t.field, t.resolve, t.including, t.excluding).targets
  }

  /** The state after any number of ticks. */
  function Ticked(s: Frozen, ticks: seq<TickInput>): Frozen {
    if ticks == [] then s
    else
      var t := ticks[|ticks| - 1];
      TouchAll(Ticked(s, ticks[..|ticks| - 1]), Targets(t), t.payload, t.os)
  }

  /** The writes of all ticks, in order. */
  function ActsOfTicks(ticks: seq<TickInput>): seq<Act> {
    if ticks == [] then []
    else
      var t := ticks[|ticks| - 1];
      ActsOfTicks(ticks[..|ticks| - 1]) + ActsOf(Targets(t), t.payload, t.os)
  }

  lemma {:induction false} TicksAreActs(start: Mem, ticks: seq<TickInput>)
    ensures Ticked(Frozen(start, map[]), ticks) == After(start, ActsOfTicks(ticks))
  {
    if ticks != [] {
      var init, t := ticks[..|ticks| - 1], ticks[|ticks| - 1];
      TicksAreActs(start, init);
      TickIsActs(start, ActsOfTicks(init), Targets(t), t.payload, t.os);
    }
  }

  /** Any number of ticks over any match lists, and a restore, give the start memory iff no unseen write does harm. */
  lemma TicksRestoreIff(start: Mem, ticks: seq<TickInput>, len: nat, order: seq<int>)
    requires Undisturbed(start, ActsOfTicks(ticks), len)
    requires Drains(order, Ticked(Frozen(start, map[]), ticks).originals)
    ensures Restored(Ticked(Frozen(start, map[]), ticks), order) == start
            <==> BlindWritesHarmless(start, ActsOfTicks(ticks), len)
  {
    TicksAreActs(start, ticks);
    RestoreIff(start, ActsOfTicks(ticks), len, order);
  }

  /** Every restoring write finds its range readable. */
  lemma AllRestorable(start: Mem, ticks: seq<TickInput>, len: nat)
    requires Undisturbed(start, ActsOfTicks(ticks), len)
    ensures var s := Ticked(Frozen(start, map[]), ticks);
            forall a :: a in s.originals ==> Restorable(s.mem, s.originals, ALWAYS)(a)
  {
    var s := Ticked(Frozen(start, map[]), ticks);
    TicksAreActs(start, ticks);
    KeysStay(start, ActsOfTicks(ticks), len);
    HeldIsReadable(start, ActsOfTicks(ticks), len);
    forall a | a in s.originals ensures Readable(s.mem, a, |s.originals[a]|) {
      forall x | a <= x < a + |s.originals[a]| ensures x in s.mem {
        assert Covers(s.originals, a, x);
      }
    }
  }

  /** The feature over any number of ticks; a tick that fails is followed by the next one all the same. */
  method RunTicks(freeze: Freeze, ticks: seq<TickInput>)
    modifies freeze
    ensures freeze.Now() == Ticked(old(freeze.Now()), ticks)
  {
    for i := 0 to |ticks|
      invariant freeze.Now() == Ticked(old(freeze.Now()), ticks[..i])
    {
      var t := ticks[i];
      assert ticks[..i + 1][..i] == ticks[..i];
      var failed := freeze.Tick(t.matches, t.field, t.resolve, t.including, t.excluding, t.payload, t.os);
    }
    assert ticks[..|ticks|] == ticks;
  }

  /** Freezing for any number of ticks and restoring, with every restoring write allowed. */
  method TicksAndRestore(freeze: Freeze, ticks: seq<TickInput>, len: nat, order: seq<int>)
    requires freeze.originals == map[] && Undisturbed(freeze.mem, ActsOfTicks(ticks), len)
    requires Drains(order, Ticked(freeze.Now(), ticks).originals)
    modifies freeze
    ensures freeze.originals == map[]
    ensures freeze.mem == old(freeze.mem) <==> BlindWritesHarmless(old(freeze.mem), ActsOfTicks(ticks), len)
  {
    ghost var start, acts := freeze.mem, ActsOfTicks(ticks);
    RunTicks(freeze, ticks);
    ghost var s := freeze.Now();
    TicksRestoreIff(start, ticks, len, order);
    AllRestorable(start, ticks, len);
    SameWrites(s.mem, s.originals, order, Restorable(s.mem, s.originals, ALWAYS), ALWAYS);
    freeze.Restore(order, ALWAYS);
  }

  lemma WriteBackTwo(mem: Mem, originals: Registry, a: int, b: int)
    requires a in originals && b in originals
    ensures WriteBack(mem, originals, [a, b], ALWAYS) == Store(Store(mem, a, originals[a]), b, originals[b])
  {
    assert [a, b][..1] == [a] && [a][..0] == [];
    assert WriteBack(mem, originals, [a], ALWAYS) == Store(mem, a, originals[a]);
  }

  lemma OverlapDrains(originals: Registry)
    requires originals.Keys == {0, 1}
    ensures Drains([0, 1], originals) && Drains([1, 0], originals)
  {
    assert forall a :: a in originals <==> a in originals.Keys;
  }

  lemma OverlapForward(mem: Mem)
    requires mem == map[0 := 9, 1 := 9, 2 := 9]
    ensures Store(Store(mem, 0, [1, 2]), 1, [9, 3]) == map[0 := 1, 1 := 9, 2 := 3]
  {
    var mid := Store(mem, 0, [1, 2]);
    assert mid[0] == 1 && mid[2] == 9;
  }

  lemma OverlapBackward(mem: Mem)
    requires mem == map[0 := 9, 1 := 9, 2 := 9]
    ensures Store(Store(mem, 1, [9, 3]), 0, [1, 2]) == map[0 := 1, 1 := 2, 2 := 3]
  {
    var mid := Store(mem, 1, [9, 3]);
    assert mid[2] == 3;
  }

  lemma OverlapRestores(mem: Mem, originals: Registry)
    requires mem == map[0 := 9, 1 := 9, 2 := 9] && originals == map[0 := [1, 2], 1 := [9, 3]]
    ensures Drains([0, 1], originals) && WriteBack(mem, originals, [0, 1], ALWAYS) == map[0 := 1, 1 := 9, 2 := 3]
    ensures Drains([1, 0], originals) && WriteBack(mem, originals, [1, 0], ALWAYS) == map[0 := 1, 1 := 2, 2 := 3]
  {
    OverlapDrains(originals);
    WriteBackTwo(mem, originals, 0, 1);
    WriteBackTwo(mem, originals, 1, 0);
    OverlapForward(mem);
    OverlapBackward(mem);
  }

  lemma OverlapTouches()
    ensures var once := Frozen(map[0 := 9, 1 := 9, 2 := 3], map[0 := [1, 2]]);
            && Touch(Frozen(map[0 := 1, 1 := 2, 2 := 3], map[]), 0, [9, 9], true, true) == once
            && Touch(once, 1, [9, 9], true, true) == Frozen(map[0 := 9, 1 := 9, 2 := 9], map[0 := [1, 2], 1 := [9, 3]])
  {
    var start, mid := map[0 := 1, 1 := 2, 2 := 3], map[0 := 9, 1 := 9, 2 := 3];
    assert BytesAt(start, 0, 2) == [1, 2] && BytesAt(mid, 1, 2) == [9, 3];
    assert Store(start, 0, [9, 9]) == mid && Store(mid, 1, [9, 9]) == map[0 := 9, 1 := 9, 2 := 9];
  }

  /**
   * Two overlapping ranges: the second one's bytes are read after the first was stamped, so the order of the map
   * decides whether restoring brings back the start memory.
   */
  lemma OverlapLosesOriginals() returns (start: Mem, acts: seq<Act>)
    ensures start == map[0 := 1, 1 := 2, 2 := 3]
    ensures acts == [Stamps(0, [9, 9], true, true), Stamps(1, [9, 9], true, true)]
    ensures After(start, acts) == Frozen(map[0 := 9, 1 := 9, 2 := 9], map[0 := [1, 2], 1 := [9, 3]])
    ensures var s := After(start, acts);
            && Drains([0, 1], s.originals)
            && WriteBack(s.mem, s.originals, [0, 1], ALWAYS) == map[0 := 1, 1 := 9, 2 := 3]
            && Drains([1, 0], s.originals) && WriteBack(s.mem, s.originals, [1, 0], ALWAYS) == start
  {
    start := map[0 := 1, 1 := 2, 2 := 3];
    acts := [Stamps(0, [9, 9], true, true), Stamps(1, [9, 9], true, true)];
    OverlapTouches();
    AfterOne(start, [], 0, [9, 9], true, true);
    AfterOne(start, [acts[0]], 1, [9, 9], true, true);
    assert acts == [acts[0]] + [acts[1]] && [acts[0]] == [] + [acts[0]];
    OverlapRestores(After(start, acts).mem, After(start, acts).originals);
  }

  /**
   * A write goes through although the snapshot read failed; the next touch remembers the written bytes, and no restore
   * brings back the byte that was there first.
   */
  lemma FailedSnapshotLosesOriginal() returns (start: Mem, acts: seq<Act>)
    ensures start == map[0 := 1]
    ensures acts == [Stamps(0, [9], false, true), Stamps(0, [9], true, true)]
    ensures After(start, acts) == Frozen(map[0 := 9], map[0 := [9]])
    ensures forall order :: Drains(order, After(start, acts).originals) ==>
              WriteBack(After(start, acts).mem, After(start, acts).originals, order, ALWAYS) != start
  {
    start := map[0 := 1];
    acts := [Stamps(0, [9], false, true), Stamps(0, [9], true, true)];
    var once := Frozen(map[0 := 9], map[]);
    assert Store(start, 0, [9]) == once.mem == Store(once.mem, 0, [9]) && BytesAt(once.mem, 0, 1) == [9];
    assert acts[..1] == [acts[0]] && acts[..1][..0] == [];
    assert After(start, acts[..1]) == once;
    var s := Frozen(map[0 := 9], map[0 := [9]]);
    forall order | Drains(order, s.originals) ensures WriteBack(s.mem, s.originals, order, ALWAYS) != start {
      LoneEntryStays(s.mem, 0, 9, order);
    }
  }
}
