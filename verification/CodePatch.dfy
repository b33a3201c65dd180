/**
 * Code patches with a registry of the bytes they replaced, and what writing the registry back over memory restores.
 */
module CodePatch {
  import opened LocalReader
  import opened Memory

  /** `addr -> original bytes` of the patches applied so far. */
  type Registry = map<int, seq<byte>>

  datatype Response =
    | WriteOk
    | EmptyReplacement
    | LengthMismatch
    | ReadFailed
    | OriginalMismatch
    | WriteFailed

  /** What `code_patch` answers. */
  function PatchAnswer(mem: Mem, addr: int, original: seq<byte>, patched: seq<byte>, allowed: bool): Response {
    if patched == [] then EmptyReplacement
    else if |original| != |patched| then LengthMismatch
    else if !CanRead(mem, addr, |patched|) then ReadFailed
    else if BytesAt(mem, addr, |patched|) != original then OriginalMismatch
    else if !CanWrite(mem, addr, |patched|, allowed) then WriteFailed
    else WriteOk
  }

  /** What `restore_patch` answers. */
  function RestoreAnswer(mem: Mem, addr: int, original: seq<byte>, allowed: bool): Response {
    if CanWrite(mem, addr, |original|, allowed) then WriteOk else WriteFailed
  }

  // ---------- what can be undone ----------

  predicate Covers(reg: Registry, a: int, x: int) { a in reg && a <= x < a + |reg[a]| }

  ghost predicate Covered(reg: Registry, x: int) { exists a :: Covers(reg, a, x) }

  /** Memory has the cells it started with, and every registered cell is one of them. */
  ghost predicate Sane(start: Mem, mem: Mem, reg: Registry) {
    mem.Keys == start.Keys && forall a, x :: Covers(reg, a, x) ==> x in start
  }

  /** Every registered byte is the byte the session started with, and every other cell still holds its start byte. */
  ghost predicate Undoable(start: Mem, mem: Mem, reg: Registry) {
    && Sane(start, mem, reg)
    && (forall a, x :: Covers(reg, a, x) ==> reg[a][x - a] == start[x])
    && (forall x :: x in mem && !Covered(reg, x) ==> mem[x] == start[x])
  }

  /** The registered bytes written back in the given order, leaving out the writes that the system refuses. */
  function WriteBack(mem: Mem, reg: Registry, order: seq<int>, allowed: int -> bool): (r: Mem)
    requires forall a :: a in order ==> a in reg
    ensures r.Keys == mem.Keys
  {
    if order == [] then mem
    else
      var a := order[|order| - 1];
      var before := WriteBack(mem, reg, order[..|order| - 1], allowed);
      if allowed(a) then Store(before, a, reg[a]) else before
  }

  /** An order in which a hash map may hand out its entries: each key once. */
  ghost predicate Drains(order: seq<int>, reg: Registry) {
    && (forall a :: a in order <==> a in reg)
    && (forall i, j :: 0 <= i < j < |order| ==> order[i] != order[j])
  }

  const ALWAYS: int -> bool := (a: int) => true

  /** Some write that goes through reaches the cell. */
  predicate Reached(reg: Registry, order: seq<int>, allowed: int -> bool, x: int) {
    exists a :: a in order && allowed(a) && Covers(reg, a, x)
  }

  lemma ReachedAppend(reg: Registry, init: seq<int>, last: int, allowed: int -> bool, x: int)
    ensures Reached(reg, init + [last], allowed, x)
            <==> Reached(reg, init, allowed, x) || (allowed(last) && Covers(reg, last, x))
  {
    assert forall a :: a in init + [last] <==> a in init || a == last;
    if allowed(last) && Covers(reg, last, x) {
      assert last in init + [last];
    }
    if a :| a in init && allowed(a) && Covers(reg, a, x) {
      assert a in init + [last];
    }
  }

  /** If all entries agree on a cell's byte, a cell that some write reached holds it, and any other is as it was. */
  lemma {:induction false} WriteBackAt(
      mem: Mem, reg: Registry, order: seq<int>, allowed: int -> bool, x: int, b: byte)
    requires x in mem && forall a :: a in order ==> a in reg
    requires forall a :: Covers(reg, a, x) ==> reg[a][x - a] == b
    ensures WriteBack(mem, reg, order, allowed)[x] == if Reached(reg, order, allowed, x) then b else mem[x]
  {
    if order != [] {
      var init, last := order[..|order| - 1], order[|order| - 1];
      assert order == init + [last];
      WriteBackAt(mem, reg, init, allowed, x, b);
      ReachedAppend(reg, init, last, allowed, x);
    }
  }

  /** A cell that some write reached holds its start byte again; every other cell is as it was. */
  lemma WriteBackCell(start: Mem, mem: Mem, reg: Registry, order: seq<int>, allowed: int -> bool, x: int)
    requires Undoable(start, mem, reg) && x in mem && forall a :: a in order ==> a in reg
    ensures WriteBack(mem, reg, order, allowed)[x] == if Reached(reg, order, allowed, x) then start[x] else mem[x]
  {
    WriteBackAt(mem, reg, order, allowed, x, start[x]);
  }

  /** From an undoable state, any order of writing back, with no write refused, gives the start memory. */
  lemma UndoRestores(start: Mem, mem: Mem, reg: Registry, order: seq<int>)
    requires Undoable(start, mem, reg) && Drains(order, reg)
    ensures WriteBack(mem, reg, order, ALWAYS) == start
  {
    forall x | x in mem ensures WriteBack(mem, reg, order, ALWAYS)[x] == start[x] {
      WriteBackCell(start, mem, reg, order, ALWAYS, x);
      if Covered(reg, x) {
        var a :| Covers(reg, a, x);
        assert a in order && ALWAYS(a);
      }
    }
  }

  /** Every key can be the one that is handed out last. */
  lemma {:induction false} SomeOrder(keys: set<int>, last: int) returns (order: seq<int>)
    requires last in keys
    ensures order != [] && order[|order| - 1] == last
    ensures forall a :: a in order <==> a in keys
    ensures forall i, j :: 0 <= i < j < |order| ==> order[i] != order[j]
    decreases keys
  {
    order := [last];
    if other :| other in keys && other != last {
      var rest := SomeOrder(keys - {other}, last);
      order := [other] + rest;
      forall i, j | 0 <= i < j < |order| ensures order[i] != order[j] {
        if i == 0 {
          assert rest[j - 1] in rest;
        }
      }
    }
  }

  lemma {:induction false} UncoveredStays(mem: Mem, reg: Registry, order: seq<int>, x: int)
    requires x in mem && !Covered(reg, x) && forall a :: a in order ==> a in reg
    ensures WriteBack(mem, reg, order, ALWAYS)[x] == mem[x]
  {
    if order != [] {
      var a := order[|order| - 1];
      assert !Covers(reg, a, x);
      UncoveredStays(mem, reg, order[..|order| - 1], x);
    }
  }

  lemma AnyOrder(reg: Registry) returns (order: seq<int>)
    ensures Drains(order, reg)
  {
    order := [];
    if a :| a in reg {
      order := SomeOrder(reg.Keys, a);
    }
  }

  /**
   * If every order gives the start memory, then the state is undoable: the invariant is no stronger than it must be.
   */
  lemma OnlyUndoableRestores(start: Mem, mem: Mem, reg: Registry)
    requires Sane(start, mem, reg)
    requires forall order :: Drains(order, reg) ==> WriteBack(mem, reg, order, ALWAYS) == start
    ensures Undoable(start, mem, reg)
  {
    forall a, x | Covers(reg, a, x) ensures reg[a][x - a] == start[x] {
      var order := SomeOrder(reg.Keys, a);
      assert Drains(order, reg);
      assert WriteBack(mem, reg, order, ALWAYS)[x] == reg[a][x - a];
    }
    forall x | x in mem && !Covered(reg, x) ensures mem[x] == start[x] {
      var order := AnyOrder(reg);
      UncoveredStays(mem, reg, order, x);
    }
  }

  /** Writing the registry back restores the start memory in every drain order iff the state is undoable. */
  lemma UndoableIff(start: Mem, mem: Mem, reg: Registry)
    requires Sane(start, mem, reg)
    ensures Undoable(start, mem, reg)
            <==> forall order :: Drains(order, reg) ==> WriteBack(mem, reg, order, ALWAYS) == start
  {
    if Undoable(start, mem, reg) {
      forall order | Drains(order, reg) ensures WriteBack(mem, reg, order, ALWAYS) == start {
        UndoRestores(start, mem, reg, order);
      }
    } else if forall order :: Drains(order, reg) ==> WriteBack(mem, reg, order, ALWAYS) == start {
      OnlyUndoableRestores(start, mem, reg);
    }
  }

  // ---------- which calls keep the state undoable ----------

  ghost predicate CoveredByOther(reg: Registry, addr: int, x: int) { exists a :: a != addr && Covers(reg, a, x) }

  /**
   * The bytes to be replaced are, wherever a live patch covers them, the bytes that patch registered; and where an
   * older entry at the same address reaches further than the new one, some other entry covers the cell or it is
   * restored.
   */
  ghost predicate PatchKeeps(mem: Mem, reg: Registry, addr: int, original: seq<byte>)
    requires forall a, x :: Covers(reg, a, x) ==> x in mem
  {
    && (forall a, x :: Covers(reg, a, x) && addr <= x < addr + |original| ==> reg[a][x - a] == original[x - addr])
    && (forall x :: Covers(reg, addr, x) && x >= addr + |original| ==>
                      CoveredByOther(reg, addr, x) || mem[x] == reg[addr][x - addr])
  }

  /** What the entry at `addr` says about a cell, or else memory itself. */
  ghost function Recorded(mem: Mem, reg: Registry, addr: int, x: int): byte
    requires x in mem
  {
    if Covers(reg, addr, x) then reg[addr][x - addr] else mem[x]
  }

  /**
   * On the cells that no other entry covers, the bytes given equal what the entry at this address registered, or what
   * memory holds if there is no such entry; and where that entry reaches further, the cell is restored already.
   */
  ghost predicate RestoreKeeps(mem: Mem, reg: Registry, addr: int, original: seq<byte>)
    requires forall x :: addr <= x < addr + |original| ==> x in mem
    requires forall a, x :: Covers(reg, a, x) ==> x in mem
  {
    && (forall x :: addr <= x < addr + |original| && !CoveredByOther(reg, addr, x) ==>
                      original[x - addr] == Recorded(mem, reg, addr, x))
    && (forall x :: Covers(reg, addr, x) && x >= addr + |original| && !CoveredByOther(reg, addr, x) ==>
                      mem[x] == reg[addr][x - addr])
  }

  lemma RegisteredCells(reg: Registry, addr: int, original: seq<byte>, x: int)
    ensures Covered(reg[addr := original], x) <==> addr <= x < addr + |original| || CoveredByOther(reg, addr, x)
    ensures Covered(reg - {addr}, x) <==> CoveredByOther(reg, addr, x)
    ensures Covered(reg, x) <==> Covers(reg, addr, x) || CoveredByOther(reg, addr, x)
  {
    var added, removed := reg[addr := original], reg - {addr};
    if addr <= x < addr + |original| {
      assert Covers(added, addr, x);
    }
    if a :| a != addr && Covers(reg, a, x) {
      assert Covers(added, a, x) && Covers(removed, a, x);
    }
    if a :| Covers(added, a, x) {
      assert a != addr ==> Covers(reg, a, x);
    }
    if a :| Covers(removed, a, x) {
      assert a != addr && Covers(reg, a, x);
    }
  }

  lemma PatchKept(start: Mem, mem: Mem, reg: Registry, addr: int, original: seq<byte>, patched: seq<byte>)
    requires Undoable(start, mem, reg) && |patched| == |original|
    requires Readable(mem, addr, |original|) && BytesAt(mem, addr, |original|) == original
    requires PatchKeeps(mem, reg, addr, original)
    ensures Undoable(start, Store(mem, addr, patched), reg[addr := original])
  {
    var mem', reg' := Store(mem, addr, patched), reg[addr := original];
    forall a, x | Covers(reg', a, x) ensures x in start && reg'[a][x - a] == start[x] {
      if a == addr {
        assert original[x - addr] == mem[x];
        if b :| Covers(reg, b, x) {
        }
      } else {
        assert Covers(reg, a, x);
      }
    }
    forall x | x in mem' && !Covered(reg', x) ensures mem'[x] == start[x] {
      RegisteredCells(reg, addr, original, x);
      if Covers(reg, addr, x) {
      }
    }
  }

  lemma PatchGuard(start: Mem, mem: Mem, reg: Registry, addr: int, original: seq<byte>, patched: seq<byte>)
    requires Undoable(start, mem, reg) && |patched| == |original|
    requires Readable(mem, addr, |original|) && BytesAt(mem, addr, |original|) == original
    requires Undoable(start, Store(mem, addr, patched), reg[addr := original])
    ensures PatchKeeps(mem, reg, addr, original)
  {
    var mem', reg' := Store(mem, addr, patched), reg[addr := original];
    forall a, x | Covers(reg, a, x) && addr <= x < addr + |original| ensures reg[a][x - a] == original[x - addr] {
      assert Covers(reg', addr, x);
    }
    forall x | Covers(reg, addr, x) && x >= addr + |original|
      ensures CoveredByOther(reg, addr, x) || mem[x] == reg[addr][x - addr]
    {
      RegisteredCells(reg, addr, original, x);
    }
  }

  /** A patch that was applied leaves the session undoable iff the guard above held before the call. */
  lemma PatchStep(start: Mem, mem: Mem, reg: Registry, addr: int, original: seq<byte>, patched: seq<byte>)
    requires Undoable(start, mem, reg)
    requires |patched| == |original| && Readable(mem, addr, |original|) && BytesAt(mem, addr, |original|) == original
    ensures Sane(start, Store(mem, addr, patched), reg[addr := original])
    ensures Undoable(start, Store(mem, addr, patched), reg[addr := original]) <==> PatchKeeps(mem, reg, addr, original)
  {
    var mem', reg' := Store(mem, addr, patched), reg[addr := original];
    forall a, x | Covers(reg', a, x) ensures x in start {
      assert a != addr ==> Covers(reg, a, x);
    }
    if PatchKeeps(mem, reg, addr, original) {
      PatchKept(start, mem, reg, addr, original, patched);
    } else if Undoable(start, mem', reg') {
      PatchGuard(start, mem, reg, addr, original, patched);
    }
  }

  lemma RestoreGuard(start: Mem, mem: Mem, reg: Registry, addr: int, original: seq<byte>)
    requires Undoable(start, mem, reg) && Readable(mem, addr, |original|)
    requires Undoable(start, Store(mem, addr, original), reg - {addr})
    ensures RestoreKeeps(mem, reg, addr, original)
  {
    var mem', reg' := Store(mem, addr, original), reg - {addr};
    forall x | x in mem && !CoveredByOther(reg, addr, x) ensures mem'[x] == Recorded(mem, reg, addr, x) {
      RegisteredCells(reg, addr, original, x);
      assert mem'[x] == start[x];
    }
  }

  /** A restore that was carried out leaves the session undoable iff the guard above held before the call. */
  lemma RestoreStep(start: Mem, mem: Mem, reg: Registry, addr: int, original: seq<byte>)
    requires Undoable(start, mem, reg) && Readable(mem, addr, |original|)
    ensures Sane(start, Store(mem, addr, original), reg - {addr})
    ensures Undoable(start, Store(mem, addr, original), reg - {addr}) <==> RestoreKeeps(mem, reg, addr, original)
  {
    var mem', reg' := Store(mem, addr, original), reg - {addr};
    forall a, x | Covers(reg', a, x) ensures Covers(reg, a, x) && reg'[a][x - a] == start[x] {
      assert Covers(reg, a, x);
    }
    if RestoreKeeps(mem, reg, addr, original) {
      forall x | x in mem' && !Covered(reg', x) ensures mem'[x] == start[x] {
        RegisteredCells(reg, addr, original, x);
      }
    } else if Undoable(start, mem', reg') {
      RestoreGuard(start, mem, reg, addr, original);
    }
  }

  /** Every cell that is written is covered by a live patch, or holds the byte already. */
  ghost predicate WriteKeeps(mem: Mem, reg: Registry, addr: int, bytes: seq<byte>) {
    forall x :: x in mem && addr <= x < addr + |bytes| ==> Covered(reg, x) || bytes[x - addr] == mem[x]
  }

  /** A raw write, past the registry, leaves the session undoable iff the guard above held before it. */
  lemma WriteStep(start: Mem, mem: Mem, reg: Registry, addr: int, bytes: seq<byte>)
    requires Undoable(start, mem, reg)
    ensures Sane(start, Store(mem, addr, bytes), reg)
    ensures Undoable(start, Store(mem, addr, bytes), reg) <==> WriteKeeps(mem, reg, addr, bytes)
  {
    var mem' := Store(mem, addr, bytes);
    if Undoable(start, mem', reg) {
      forall x | x in mem && addr <= x < addr + |bytes| ensures Covered(reg, x) || bytes[x - addr] == mem[x] {
        assert x in mem' && mem'[x] == bytes[x - addr];
      }
    }
  }

  lemma HasElement(keys: set<int>)
    requires keys != {}
    ensures exists a :: a in keys
  {
    assert (forall a :: a !in keys) ==> keys == {};
  }

  // ---------- the patcher ----------

  /** Every registered patch was written once, so its cells can be read. */
  ghost predicate Written(mem: Mem, reg: Registry) {
    forall a :: a in reg ==> reg[a] != [] && CanRead(mem, a, |reg[a]|)
  }

  /** The writes of a drain that go through. */
  function GoesThrough(mem: Mem, reg: Registry, allowed: int -> bool): int -> bool {
    (a: int) => a in reg && CanWrite(mem, a, |reg[a]|, allowed(a))
  }

  lemma {:induction false} SameWrites(mem: Mem, reg: Registry, order: seq<int>, f: int -> bool, g: int -> bool)
    requires forall a :: a in order ==> a in reg && f(a) == g(a)
    ensures WriteBack(mem, reg, order, f) == WriteBack(mem, reg, order, g)
  {
    if order != [] {
      SameWrites(mem, reg, order[..|order| - 1], f, g);
    }
  }

  /** The process's code memory and the registry of applied patches. */
  class Patcher {
    var mem: Mem
    var registry: Registry

    ghost predicate Valid()
      reads this
    {
      Written(mem, registry)
    }

    constructor (m: Mem)
      ensures Valid() && mem == m && registry == map[] && Undoable(m, mem, registry)
    {
      mem, registry := m, map[];
    }

    /** Write under a protection change; refused writes leave memory alone. */
    method WriteBytesAt(addr: int, bytes: seq<byte>, allowed: bool) returns (ok: bool)
      modifies this`mem
      ensures ok == CanWrite(old(mem), addr, |bytes|, allowed)
      ensures mem == if ok then Store(old(mem), addr, bytes) else old(mem)
    {
      if bytes == [] {
        assert Store(mem, addr, bytes) == mem;
        return true;
      }
      if !allowed || !CanRead(mem, addr, |bytes|) {
        return false;
      }
      mem := Store(mem, addr, bytes);
      return true;
    }

    /** Overwrite `addr` with `replacement` after checking that it holds `original`. */
    method Apply(addr: int, original: seq<byte>, replacement: seq<byte>, allowed: bool) returns (r: Response)
      modifies this`mem
      ensures r == PatchAnswer(old(mem), addr, original, replacement, allowed)
      ensures mem == if r == WriteOk then Store(old(mem), addr, replacement) else old(mem)
    {
      if replacement == [] {
        return EmptyReplacement;
      }
      if |original| != |replacement| {
        return LengthMismatch;
      }
      if !CanRead(mem, addr, |replacement|) {
        return ReadFailed;
      }
      var actual := BytesAt(mem, addr, |replacement|);
      if actual != original {
        return OriginalMismatch;
      }
      var ok := WriteBytesAt(addr, replacement, allowed);
      return if ok then WriteOk else WriteFailed;
    }

    /**
     * A patch that is refused changes nothing, and one is applied only over the bytes that it names. From an undoable
     * state, the result is undoable exactly under the guard.
     */
    method CodePatch(addr: int, original: seq<byte>, patched: seq<byte>, allowed: bool, ghost start: Mem)
      returns (r: Response)
      requires Valid()
      modifies this
      ensures Valid()
      ensures r == PatchAnswer(old(mem), addr, original, patched, allowed)
      ensures r != WriteOk ==> mem == old(mem) && registry == old(registry)
      ensures r == WriteOk ==>
                && mem == Store(old(mem), addr, patched)
                && registry == old(registry)[addr := original]
      ensures r == WriteOk && old(Undoable(start, mem, registry)) ==>
                (Undoable(start, mem, registry) <==> old(PatchKeeps(mem, registry, addr, original)))
    {
      r := Apply(addr, original, patched, allowed);
      if r == WriteOk {
        registry := registry[addr := original];
        if old(Undoable(start, mem, registry)) {
          PatchStep(start, old(mem), old(registry), addr, original, patched);
        }
      }
    }

    /** Restore with the bytes the client gives, which need not be the registered ones. */
    method RestorePatch(addr: int, original: seq<byte>, allowed: bool, ghost start: Mem) returns (r: Response)
      requires Valid()
      modifies this
      ensures Valid()
      ensures r == RestoreAnswer(old(mem), addr, original, allowed)
      ensures r != WriteOk ==> mem == old(mem) && registry == old(registry)
      ensures r == WriteOk ==> mem == Store(old(mem), addr, original) && registry == old(registry) - {addr}
      ensures r == WriteOk && old(Undoable(start, mem, registry)) ==>
                (Undoable(start, mem, registry) <==> old(RestoreKeeps(mem, registry, addr, original)))
    {
      var ok := WriteBytesAt(addr, original, allowed);
      if !ok {
        return WriteFailed;
      }
      registry := registry - {addr};
      if old(Undoable(start, mem, registry)) {
        RestoreStep(start, old(mem), old(registry), addr, original);
      }
      return WriteOk;
    }

    /** A write from elsewhere in the process, which does not know of the registry. */
    method RawWrite(addr: int, bytes: seq<byte>, ghost start: Mem)
      requires Valid()
      modifies this`mem
      ensures Valid() && mem == Store(old(mem), addr, bytes)
      ensures old(Undoable(start, mem, registry)) ==>
                (Undoable(start, mem, registry) <==> old(WriteKeeps(mem, registry, addr, bytes)))
    {
      if Undoable(start, mem, registry) {
        WriteStep(start, mem, registry, addr, bytes);
      }
      mem := Store(mem, addr, bytes);
    }

    /** The order in which the map hands out its entries: any order. */
    method DrainOrder() returns (order: seq<int>)
      ensures Drains(order, registry)
    {
      order := [];
      var keys := registry.Keys;
      while keys != {}
        invariant keys <= registry.Keys
        invariant forall a :: a in order <==> a in registry.Keys - keys
        invariant forall i, j :: 0 <= i < j < |order| ==> order[i] != order[j]
        decreases |keys|
      {
        HasElement(keys);
        var a :| a in keys;
        keys := keys - {a};
        order := order + [a];
      }
    }

    /**
     * Drain the registry in the order the map gives and write every entry back. The registry ends empty; the cells that
     * a write reached hold their start bytes; and if no write is refused, memory is the start memory.
     */
    method RestoreAll(order: seq<int>, allowed: int -> bool, ghost start: Mem)
      requires Valid() && Drains(order, registry)
      modifies this
      ensures Valid() && registry == map[]
      ensures mem == WriteBack(old(mem), old(registry), order, GoesThrough(old(mem), old(registry), allowed))
      ensures old(Undoable(start, mem, registry)) && (forall a :: a in order ==> allowed(a)) ==> mem == start
    {
      var patches := registry;
      registry := map[];
      ghost var through := GoesThrough(mem, patches, allowed);
      for i := 0 to |order|
        invariant registry == map[]
        invariant mem == WriteBack(old(mem), patches, order[..i], through)
      {
        assert order[..i + 1][..i] == order[..i] && order[..i + 1][i] == order[i];
        var ok := WriteBytesAt(order[i], patches[order[i]], allowed(order[i]));
      }
      assert order[..|order|] == order;
      if old(Undoable(start, mem, registry)) && (forall a :: a in order ==> allowed(a)) {
        SameWrites(old(mem), patches, order, through, ALWAYS);
        UndoRestores(start, old(mem), patches, order);
      }
    }
  }

  // ---------- whole sessions ----------

  /** The calls of a session, each with the system's answer to its write; and raw writes that went through. */
  datatype Op =
    | Patch(addr: int, original: seq<byte>, patched: seq<byte>, allowed: bool)
    | Restore(addr: int, original: seq<byte>, allowed: bool)
    | Write(addr: int, bytes: seq<byte>)

  datatype State = State(mem: Mem, reg: Registry)

  /** The state after one call, as the methods above say. */
  function Step(s: State, op: Op): State {
    match op
    case Patch(a, original, patched, allowed) =>
      if PatchAnswer(s.mem, a, original, patched, allowed) == WriteOk
      then State(Store(s.mem, a, patched), s.reg[a := original]) else s
    case Restore(a, original, allowed) =>
      if CanWrite(s.mem, a, |original|, allowed) then State(Store(s.mem, a, original), s.reg - {a}) else s
    case Write(a, bytes) => s.(mem := Store(s.mem, a, bytes))
  }

  function Steps(s: State, ops: seq<Op>): State {
    if ops == [] then s else Step(Steps(s, ops[..|ops| - 1]), ops[|ops| - 1])
  }

  lemma {:induction false} StepsAppend(s: State, a: seq<Op>, b: seq<Op>)
    ensures Steps(s, a + b) == Steps(Steps(s, a), b)
  {
    if b == [] {
      assert a + b == a;
    } else {
      assert (a + b)[..|a + b| - 1] == a + b[..|b| - 1];
      StepsAppend(s, a, b[..|b| - 1]);
    }
  }

  function Session(start: Mem, ops: seq<Op>): State { Steps(State(start, map[]), ops) }

  lemma {:induction false} SessionSane(start: Mem, ops: seq<Op>)
    ensures Sane(start, Session(start, ops).mem, Session(start, ops).reg)
  {
    if ops != [] {
      SessionSane(start, ops[..|ops| - 1]);
      var s, op := Session(start, ops[..|ops| - 1]), ops[|ops| - 1];
      forall a, x | Covers(Step(s, op).reg, a, x) ensures x in start {
        assert a != op.addr ==> Covers(s.reg, a, x);
      }
    }
  }

  /** The guard of a call that takes effect. */
  ghost predicate Guarded(s: State, op: Op)
    requires Sane(s.mem, s.mem, s.reg)
  {
    match op
    case Patch(a, original, patched, allowed) =>
      PatchAnswer(s.mem, a, original, patched, allowed) == WriteOk ==> PatchKeeps(s.mem, s.reg, a, original)
    case Restore(a, original, allowed) =>
      CanWrite(s.mem, a, |original|, allowed) ==> RestoreKeeps(s.mem, s.reg, a, original)
    case Write(a, bytes) => WriteKeeps(s.mem, s.reg, a, bytes)
  }

  /** A call keeps the session undoable iff its guard holds (a call that is refused keeps it anyway). */
  lemma StepKeeps(start: Mem, s: State, op: Op)
    requires Undoable(start, s.mem, s.reg)
    ensures Undoable(start, Step(s, op).mem, Step(s, op).reg) <==> Guarded(s, op)
  {
    match op
    case Patch(a, original, patched, allowed) =>
      if PatchAnswer(s.mem, a, original, patched, allowed) == WriteOk {
        PatchStep(start, s.mem, s.reg, a, original, patched);
      }
    case Restore(a, original, allowed) =>
      if CanWrite(s.mem, a, |original|, allowed) {
        RestoreStep(start, s.mem, s.reg, a, original);
      }
    case Write(a, bytes) => WriteStep(start, s.mem, s.reg, a, bytes);
  }

  ghost predicate AllGuarded(start: Mem, ops: seq<Op>) {
    ops == []
    || (var init := ops[..|ops| - 1];
        SessionSane(start, init);
        AllGuarded(start, init) && Guarded(Session(start, init), ops[|ops| - 1]))
  }

  lemma {:induction false} SessionUndoable(start: Mem, ops: seq<Op>)
    requires AllGuarded(start, ops)
    ensures Undoable(start, Session(start, ops).mem, Session(start, ops).reg)
  {
    if ops != [] {
      SessionUndoable(start, ops[..|ops| - 1]);
      StepKeeps(start, Session(start, ops[..|ops| - 1]), ops[|ops| - 1]);
    }
  }

  /**
   * Over any session whose calls are all guarded, `restore_all` at the end brings back the memory the session started
   * with, in whatever order the registry is drained.
   */
  lemma SessionRestores(start: Mem, ops: seq<Op>, order: seq<int>)
    requires AllGuarded(start, ops) && Drains(order, Session(start, ops).reg)
    ensures WriteBack(Session(start, ops).mem, Session(start, ops).reg, order, ALWAYS) == start
  {
    SessionUndoable(start, ops);
    UndoRestores(start, Session(start, ops).mem, Session(start, ops).reg, order);
  }

  // ---------- the discipline of the two clients ----------

  /** Nothing live overlaps the patched range; in particular the address is not registered. */
  lemma FreshPatchKeeps(mem: Mem, reg: Registry, addr: int, original: seq<byte>)
    requires forall a, x :: Covers(reg, a, x) ==> x in mem
    requires addr !in reg && forall a, x :: Covers(reg, a, x) ==> !(addr <= x < addr + |original|)
    ensures PatchKeeps(mem, reg, addr, original)
  {
    forall x ensures !Covers(reg, addr, x) {
    }
  }

  /** A restore with the registered bytes keeps the session undoable, whatever else is patched. */
  lemma RegisteredRestoreKeeps(mem: Mem, reg: Registry, addr: int)
    requires addr in reg && Readable(mem, addr, |reg[addr]|)
    requires forall a, x :: Covers(reg, a, x) ==> x in mem
    ensures RestoreKeeps(mem, reg, addr, reg[addr])
  {
    forall x | addr <= x < addr + |reg[addr]| ensures reg[addr][x - addr] == Recorded(mem, reg, addr, x) {
      assert Covers(reg, addr, x);
    }
  }

  /** A patch over nothing that is live; a restore of what is registered; a raw write of live patches only. */
  ghost predicate Disciplined(s: State, op: Op) {
    match op
    case Patch(a, original, patched, allowed) =>
      PatchAnswer(s.mem, a, original, patched, allowed) == WriteOk ==>
        a !in s.reg && forall x :: a <= x < a + |original| ==> !Covered(s.reg, x)
    case Restore(a, original, allowed) =>
      CanWrite(s.mem, a, |original|, allowed) ==> a in s.reg && original == s.reg[a]
    case Write(a, bytes) => forall x :: x in s.mem && a <= x < a + |bytes| ==> Covered(s.reg, x)
  }

  ghost predicate AllDisciplined(start: Mem, ops: seq<Op>) {
    forall k :: 0 <= k < |ops| ==> Disciplined(Session(start, ops[..k]), ops[k])
  }

  lemma DisciplinedIsGuarded(s: State, op: Op)
    requires Sane(s.mem, s.mem, s.reg) && Disciplined(s, op)
    ensures Guarded(s, op)
  {
    match op
    case Patch(a, original, patched, allowed) =>
      if PatchAnswer(s.mem, a, original, patched, allowed) == WriteOk {
        forall b, x | Covers(s.reg, b, x) ensures !(a <= x < a + |original|) {
          assert Covered(s.reg, x);
        }
        FreshPatchKeeps(s.mem, s.reg, a, original);
      }
    case Restore(a, original, allowed) =>
      if CanWrite(s.mem, a, |original|, allowed) {
        RegisteredRestoreKeeps(s.mem, s.reg, a);
      }
    case Write(_, _) =>
  }

  lemma {:induction false} DisciplinedSession(start: Mem, ops: seq<Op>)
    requires AllDisciplined(start, ops)
    ensures AllGuarded(start, ops)
  {
    if ops != [] {
      var init, last := ops[..|ops| - 1], |ops| - 1;
      forall k | 0 <= k < |init| ensures Disciplined(Session(start, init[..k]), init[k]) {
        assert init[..k] == ops[..k];
      }
      DisciplinedSession(start, init);
      SessionSane(start, init);
      assert Disciplined(Session(start, ops[..last]), ops[last]);
      DisciplinedIsGuarded(Session(start, init), ops[last]);
    }
  }

  /**
   * Over any session in which no patch overlaps a live one, restores use the registered bytes and raw writes reach code
   * only where it is patched, `restore_all` at the end brings back the memory the session started with, in whatever
   * order the registry is drained.
   */
  lemma DisciplinedSessionRestores(start: Mem, ops: seq<Op>, order: seq<int>)
    requires AllDisciplined(start, ops) && Drains(order, Session(start, ops).reg)
    ensures WriteBack(Session(start, ops).mem, Session(start, ops).reg, order, ALWAYS) == start
  {
    DisciplinedSession(start, ops);
    SessionRestores(start, ops, order);
  }

  /** Whatever the order, writing back an entry that is alone leaves its bytes. */
  lemma LoneEntryStays(mem: Mem, addr: int, b: byte, order: seq<int>)
    requires addr in mem && Drains(order, map[addr := [b]])
    ensures WriteBack(mem, map[addr := [b]], order, ALWAYS)[addr] == b
  {
    assert addr in order;
    assert order[|order| - 1] in order;
  }

  lemma RepatchSession(start: Mem, ops: seq<Op>)
    requires start == map[0x10000 := 1]
    requires ops == [Patch(0x10000, [1], [2], true), Patch(0x10000, [2], [3], true)]
    ensures Session(start, ops) == State(map[0x10000 := 3], map[0x10000 := [2]])
  {
    var once := State(map[0x10000 := 2], map[0x10000 := [1]]);
    assert BytesAt(start, 0x10000, 1) == [1] && BytesAt(once.mem, 0x10000, 1) == [2];
    assert Store(start, 0x10000, [2]) == once.mem && Store(once.mem, 0x10000, [3]) == map[0x10000 := 3];
    assert ops[..1] == [ops[0]] && ops[..1][..0] == [];
    assert Steps(State(start, map[]), ops[..1][..0]) == State(start, map[]);
    assert Session(start, ops[..1]) == Step(State(start, map[]), ops[0]) == once;
  }

  /** Patching a patched address again registers the first patch as the original; no drain restores the start. */
  lemma RepatchLosesOriginal() returns (start: Mem, ops: seq<Op>)
    ensures start == map[0x10000 := 1]
    ensures ops == [Patch(0x10000, [1], [2], true), Patch(0x10000, [2], [3], true)]
    ensures Session(start, ops) == State(map[0x10000 := 3], map[0x10000 := [2]])
    ensures forall order :: Drains(order, Session(start, ops).reg) ==>
              WriteBack(Session(start, ops).mem, Session(start, ops).reg, order, ALWAYS) != start
  {
    start := map[0x10000 := 1];
    ops := [Patch(0x10000, [1], [2], true), Patch(0x10000, [2], [3], true)];
    RepatchSession(start, ops);
    var end := State(map[0x10000 := 3], map[0x10000 := [2]]);
    forall order | Drains(order, end.reg) ensures WriteBack(end.mem, end.reg, order, ALWAYS) != start {
      LoneEntryStays(end.mem, 0x10000, 2, order);
    }
  }
}
