/**
 * The guarded freeze: a client thread that starts, stops and queries freezes, and a thread that re-stamps every active
 * freeze on each pass, in any interleaving, while the game changes memory as it likes.
 */
module FreezeThread {
  import opened Floats
  import opened LocalReader
  import opened Memory

  /** What a freeze was started with; `decode` reads four bytes as an f32. */
  datatype Config = Config(
    box: int, writeOffset: int, source: Option<int>, bytes: seq<byte>, width: nat,
    guardMin: Float, guardMax: Float, decode: seq<byte> -> Float)

  function Target(c: Config): int { WrappingAdd(c.box, c.writeOffset) }

  /** The write target holds a finite value within the guard. */
  predicate Plausible(mem: Mem, c: Config) {
    match Read(mem, Target(c), 4)
    case None => false
    case Some(b) => c.decode(b).Finite? && AtMost(c.guardMin, c.decode(b)) && AtMost(c.decode(b), c.guardMax)
  }

  /** The bytes to stamp: a live copy of the source field, or the constant; `None` if the source cannot be read. */
  function Stamp(mem: Mem, c: Config): Option<seq<byte>> {
    if c.source == None then Some(c.bytes) else Read(mem, WrappingAdd(c.box, c.source.value), c.width)
  }

  /** History: `made` counts the slot's writes to memory, and `late` those of them since it was stopped. */
  datatype Slot = Slot(
    handle: int, config: Config, writes: int, skipped: int, ticks: int, active: bool, made: int, late: int)

  /**
   * Where the freeze thread is with the slot it visits; `atRead` is memory as the guard read it. The counters are
   * raised in an access of their own, after the write or the skip.
   */
  datatype Visit =
    | Between
    | Ticked(id: int)
    | Passed(id: int, atRead: Mem)
    | Ready(id: int, atRead: Mem, bytes: seq<byte>)
    | Done(id: int, wrote: bool)

  /** Where the client thread is; it holds the registry lock from the first load of a query to the last. */
  datatype Client =
    | Free
    | Found(id: int)
    | LoadedWrites(id: int, writes: int)
    | LoadedSkipped(id: int, writes: int, skipped: int)

  datatype Reply = Stats(id: int, writes: int, skipped: int, ticks: int) | Unknown(handle: int)

  /**
   * `slots` are all freezes ever started; `registry` lists those that the lock protects, and `todo` those that the
   * freeze thread has still to visit on this pass.
   */
  datatype State = State(
    mem: Mem, slots: seq<Slot>, registry: seq<int>, nextHandle: int,
    todo: seq<int>, visit: Visit, client: Client, replies: seq<Reply>)

  const U32 := 0x1_0000_0000

  ghost predicate Start(s: State) {
    && s.slots == [] && s.registry == [] && s.nextHandle == 1
    && s.todo == [] && s.visit == Between && s.client == Free && s.replies == []
  }

  function Active(slots: seq<Slot>, ids: seq<int>): (r: seq<int>) {
    if ids == [] then []
    else
      var rest := Active(slots, ids[..|ids| - 1]);
      var id := ids[|ids| - 1];
      if 0 <= id < |slots| && slots[id].active then rest + [id] else rest
  }

  /** The first registered slot with a handle. */
  function Lookup(slots: seq<Slot>, ids: seq<int>, handle: int): Option<int> {
    if ids == [] then None
    else if 0 <= ids[0] < |slots| && slots[ids[0]].handle == handle then Some(ids[0])
    else Lookup(slots, ids[1..], handle)
  }

  // ---------- steps ----------

  /** The game writes, frees and allocates memory as it likes. */
  ghost predicate GameStep(s: State, s': State) { s' == s.(mem := s'.mem) }

  /** `start_freeze` with a supported width. */
  ghost predicate StartStep(s: State, s': State, c: Config) {
    && s.client == Free && 1 <= c.width <= 8
    && s' == s.(slots := s.slots + [Slot(s.nextHandle, c, 0, 0, 0, true, 0, 0)],
                registry := s.registry + [|s.slots|],
                nextHandle := (s.nextHandle + 1) % U32)
  }

  function Stopped(slots: seq<Slot>, ids: seq<int>, handle: int): (r: seq<Slot>)
    ensures |r| == |slots|
    ensures forall i :: 0 <= i < |slots| ==>
              r[i] == if i in ids && slots[i].handle == handle then slots[i].(active := false) else slots[i]
  {
    seq(|slots|, i requires 0 <= i < |slots| =>
      if i in ids && slots[i].handle == handle then slots[i].(active := false) else slots[i])
  }

  ghost predicate StopStep(s: State, s': State, handle: int) {
    s.client == Free && s' == s.(slots := Stopped(s.slots, s.registry, handle))
  }

  ghost predicate FindStep(s: State, s': State, handle: int) {
    && s.client == Free
    && match Lookup(s.slots, s.registry, handle)
       case None => s' == s.(replies := s.replies + [Unknown(handle)])
       case Some(id) => s' == s.(client := Found(id))
  }

  predicate IsSlot(s: State, id: int) { 0 <= id < |s.slots| }

  ghost predicate LoadWritesStep(s: State, s': State) {
    && s.client.Found? && IsSlot(s, s.client.id)
    && s' == s.(client := LoadedWrites(s.client.id, s.slots[s.client.id].writes))
  }

  ghost predicate LoadSkippedStep(s: State, s': State) {
    && s.client.LoadedWrites? && IsSlot(s, s.client.id)
    && s' == s.(client := LoadedSkipped(s.client.id, s.client.writes, s.slots[s.client.id].skipped))
  }

  ghost predicate LoadTicksStep(s: State, s': State) {
    && s.client.LoadedSkipped? && IsSlot(s, s.client.id)
    && s' == s.(client := Free,
                replies := s.replies + [Stats(s.client.id, s.client.writes, s.client.skipped,
                                              s.slots[s.client.id].ticks)])
  }

  /** A new pass: under the lock, drop the stopped slots and remember the others. */
  ghost predicate SnapshotStep(s: State, s': State) {
    && s.client == Free && s.visit == Between && s.todo == []
    && var kept := Active(s.slots, s.registry);
    && s' == s.(registry := kept, todo := kept)
  }

  function Put(s: State, id: int, slot: Slot, visit: Visit): State
    requires IsSlot(s, id)
  {
    s.(slots := s.slots[id := slot], visit := visit)
  }

  ghost predicate TickStep(s: State, s': State) {
    && s.visit == Between && s.todo != [] && IsSlot(s, s.todo[0])
    && var id := s.todo[0];
    && s' == Put(s.(todo := s.todo[1..]), id, s.slots[id].(ticks := s.slots[id].ticks + 1), Ticked(id))
  }

  /** The guard: read the write target, and skip the slot unless it holds a plausible value. */
  ghost predicate GuardStep(s: State, s': State) {
    && s.visit.Ticked? && IsSlot(s, s.visit.id)
    && var id := s.visit.id;
    && s' == s.(visit := if Plausible(s.mem, s.slots[id].config) then Passed(id, s.mem) else Done(id, false))
  }

  ghost predicate StampStep(s: State, s': State) {
    && s.visit.Passed? && IsSlot(s, s.visit.id)
    && var id := s.visit.id;
    && var stamp := Stamp(s.mem, s.slots[id].config);
    && s' == s.(visit := if stamp.Some? then Ready(id, s.visit.atRead, stamp.value) else Done(id, false))
  }

  /** The write to memory; the counters do not show it yet. */
  ghost predicate WriteStep(s: State, s': State, allowed: bool) {
    && s.visit.Ready? && IsSlot(s, s.visit.id)
    && var id, slot := s.visit.id, s.slots[s.visit.id];
    && var target, bytes := Target(slot.config), s.visit.bytes;
    && s' == if CanWrite(s.mem, target, |bytes|, allowed)
             then Put(s.(mem := Store(s.mem, target, bytes)), id,
                      slot.(made := slot.made + 1, late := if slot.active then 0 else slot.late + 1), Done(id, true))
             else s.(visit := Done(id, false))
  }

  /** The counter of writes or that of skips is raised, and the visit is over. */
  ghost predicate CountStep(s: State, s': State) {
    && s.visit.Done? && IsSlot(s, s.visit.id)
    && var id, slot := s.visit.id, s.slots[s.visit.id];
    && s' == Put(s, id, if s.visit.wrote then slot.(writes := slot.writes + 1) else slot.(skipped := slot.skipped + 1),
                 Between)
  }

  ghost predicate ClientStep(s: State, s': State) {
    || (exists c :: StartStep(s, s', c))
    || (exists h :: StopStep(s, s', h))
    || (exists h :: FindStep(s, s', h))
    || LoadWritesStep(s, s')
    || LoadSkippedStep(s, s')
    || LoadTicksStep(s, s')
  }

  ghost predicate ThreadStep(s: State, s': State) {
    || SnapshotStep(s, s')
    || TickStep(s, s')
    || GuardStep(s, s')
    || StampStep(s, s')
    || (exists allowed :: WriteStep(s, s', allowed))
    || CountStep(s, s')
  }

  ghost predicate Next(s: State, s': State) { GameStep(s, s') || ClientStep(s, s') || ThreadStep(s, s') }

  ghost predicate StepsTo(run: seq<State>, k: nat) { 0 < k < |run| && Next(run[k - 1], run[k]) }

  ghost predicate Run(run: seq<State>) {
    && run != [] && Start(run[0])
    && forall k: nat | 0 < k < |run| :: StepsTo(run, k)
  }

  // ---------- invariant ----------

  predicate Visiting(s: State, id: int) {
    match s.visit
    case Between => false
    case Ticked(i) => i == id
    case Passed(i, _) => i == id
    case Ready(i, _, _) => i == id
    case Done(i, _) => i == id
  }

  /** The visit at the slot may still come to its write. */
  predicate BeforeWrite(s: State, id: int) { Visiting(s, id) && !s.visit.Done? }

  /** This pass may still write the slot. */
  predicate MayWrite(s: State, id: int) { id in s.todo || BeforeWrite(s, id) }

  /** The rest of this pass will come to the slot, or is at it. */
  predicate Pending(s: State, id: int) { id in s.todo || Visiting(s, id) }

  predicate Distinct(ids: seq<int>) { forall i, j :: 0 <= i < j < |ids| ==> ids[i] != ids[j] }

  /** The lists hold each slot at most once, and a slot under visit is not to be visited again on this pass. */
  predicate ListsInv(s: State) {
    && (forall id :: id in s.registry ==> IsSlot(s, id))
    && (forall id :: id in s.todo ==> IsSlot(s, id) && !Visiting(s, id))
    && (s.visit != Between ==> IsSlot(s, s.visit.id))
    && Distinct(s.registry) && Distinct(s.todo)
    && s.nextHandle == (|s.slots| + 1) % U32
    && (forall id :: 0 <= id < |s.slots| && s.slots[id].active ==> id in s.registry)
  }

  /**
   * A visit has ticked once, and counted one write or one skip when it is over; the counted writes are those made, but
   * for one that is made and not yet counted.
   */
  predicate CountsInv(s: State, id: int, slot: Slot) {
    && 0 <= slot.writes && 0 <= slot.skipped
    && slot.ticks == slot.writes + slot.skipped + (if Visiting(s, id) then 1 else 0)
    && slot.made == slot.writes + (if s.visit == Done(id, true) then 1 else 0)
    && slot.handle == (id + 1) % U32
  }

  /** A stopped slot has written once since, or may still write once on this pass, but not both. */
  predicate LateInv(s: State, id: int, slot: Slot) {
    if slot.active then slot.late == 0 else 0 <= slot.late && slot.late + (if MayWrite(s, id) then 1 else 0) <= 1
  }

  predicate SlotsInv(s: State) {
    forall id :: 0 <= id < |s.slots| ==> CountsInv(s, id, s.slots[id]) && LateInv(s, id, s.slots[id])
  }

  /** Past the guard, the memory that the guard read was plausible. */
  predicate GuardInv(s: State) {
    && (s.visit.Passed? ==> IsSlot(s, s.visit.id) && Plausible(s.visit.atRead, s.slots[s.visit.id].config))
    && (s.visit.Ready? ==> IsSlot(s, s.visit.id) && Plausible(s.visit.atRead, s.slots[s.visit.id].config))
  }

  /** The counters loaded so far are no larger than the counters are now. */
  predicate ClientInv(s: State) {
    match s.client
    case Free => true
    case Found(id) => IsSlot(s, id)
    case LoadedWrites(id, w) => IsSlot(s, id) && w <= s.slots[id].writes
    case LoadedSkipped(id, w, k) => IsSlot(s, id) && w <= s.slots[id].made && w + k <= s.slots[id].ticks
  }

  /** No reply counts more than was ticked, or more writes than were made. */
  predicate RepliesInv(s: State) {
    forall r :: r in s.replies && r.Stats? ==>
      IsSlot(s, r.id) && r.writes + r.skipped <= r.ticks && r.writes <= s.slots[r.id].made
  }

  predicate Inv(s: State) { ListsInv(s) && SlotsInv(s) && GuardInv(s) && ClientInv(s) && RepliesInv(s) }

  lemma {:induction false} ActiveExact(slots: seq<Slot>, ids: seq<int>)
    requires Distinct(ids)
    ensures Distinct(Active(slots, ids))
    ensures forall id :: id in Active(slots, ids) <==> id in ids && 0 <= id < |slots| && slots[id].active
  {
    if ids != [] {
      var init, last := ids[..|ids| - 1], ids[|ids| - 1];
      ActiveExact(slots, init);
      assert forall id :: id in ids <==> id in init || id == last;
      assert last !in init;
    }
  }

  lemma {:induction false} LookupFinds(slots: seq<Slot>, ids: seq<int>, handle: int)
    ensures match Lookup(slots, ids, handle)
            case None => forall id :: id in ids && 0 <= id < |slots| ==> slots[id].handle != handle
            case Some(id) => id in ids && 0 <= id < |slots| && slots[id].handle == handle
  {
    if ids != [] {
      LookupFinds(slots, ids[1..], handle);
    }
  }

  lemma StartStepInv(s: State, s': State, c: Config)
    requires Inv(s) && StartStep(s, s', c)
    ensures Inv(s')
  {
    var n := |s.slots|;
    assert n !in s.registry && n !in s.todo && !Visiting(s, n);
    assert s'.slots[n] == Slot(s.nextHandle, c, 0, 0, 0, true, 0, 0) && s'.registry[|s.registry|] == n;
    assert forall id :: 0 <= id < n ==> s'.slots[id] == s.slots[id];
    assert forall id :: Visiting(s', id) == Visiting(s, id) && MayWrite(s', id) == MayWrite(s, id);
  }

  lemma StopStepInv(s: State, s': State, handle: int)
    requires Inv(s) && StopStep(s, s', handle)
    ensures Inv(s')
  {
    forall id | 0 <= id < |s.slots| ensures CountsInv(s', id, s'.slots[id]) && LateInv(s', id, s'.slots[id]) {
      assert CountsInv(s, id, s.slots[id]) && LateInv(s, id, s.slots[id]);
    }
  }

  lemma FindStepInv(s: State, s': State, handle: int)
    requires Inv(s) && FindStep(s, s', handle)
    ensures Inv(s')
  {
    LookupFinds(s.slots, s.registry, handle);
  }

  lemma LoadStepInv(s: State, s': State)
    requires Inv(s) && (LoadWritesStep(s, s') || LoadSkippedStep(s, s') || LoadTicksStep(s, s'))
    ensures Inv(s')
  {
  }

  lemma SnapshotStepInv(s: State, s': State)
    requires Inv(s) && SnapshotStep(s, s')
    ensures Inv(s')
  {
    ActiveExact(s.slots, s.registry);
  }

  lemma TickStepInv(s: State, s': State)
    requires Inv(s) && TickStep(s, s')
    ensures Inv(s')
  {
    var head, rest := s.todo[0], s.todo[1..];
    assert forall id :: id in s.todo <==> id == head || id in rest;
    assert head !in rest;
    assert s'.slots == s.slots[head := s'.slots[head]] && s'.visit == Ticked(head) && s'.todo == rest;
    assert forall id :: id != head ==> (Visiting(s', id) <==> Visiting(s, id));
    assert forall id :: Pending(s', id) <==> Pending(s, id);
  }

  lemma GuardStepInv(s: State, s': State)
    requires Inv(s) && (GuardStep(s, s') || StampStep(s, s'))
    ensures Inv(s')
  {
    assert forall id :: (Visiting(s', id) <==> Visiting(s, id)) && (MayWrite(s', id) ==> MayWrite(s, id));
  }

  lemma WriteStepInv(s: State, s': State, allowed: bool)
    requires Inv(s) && WriteStep(s, s', allowed)
    ensures Inv(s')
  {
    assert forall id :: (Visiting(s', id) <==> Visiting(s, id)) && (MayWrite(s', id) ==> MayWrite(s, id));
  }

  lemma CountStepInv(s: State, s': State)
    requires Inv(s) && CountStep(s, s')
    ensures Inv(s')
  {
    assert forall id :: MayWrite(s', id) <==> MayWrite(s, id);
  }

  lemma ClientStepInv(s: State, s': State)
    requires Inv(s) && ClientStep(s, s')
    ensures Inv(s')
  {
    if c :| StartStep(s, s', c) {
      StartStepInv(s, s', c);
    } else if h :| StopStep(s, s', h) {
      StopStepInv(s, s', h);
    } else if h :| FindStep(s, s', h) {
      FindStepInv(s, s', h);
    } else {
      LoadStepInv(s, s');
    }
  }

  lemma ThreadStepInv(s: State, s': State)
    requires Inv(s) && ThreadStep(s, s')
    ensures Inv(s')
  {
    if allowed :| WriteStep(s, s', allowed) {
      WriteStepInv(s, s', allowed);
    } else if SnapshotStep(s, s') {
      SnapshotStepInv(s, s');
    } else if TickStep(s, s') {
      TickStepInv(s, s');
    } else if CountStep(s, s') {
      CountStepInv(s, s');
    } else {
      GuardStepInv(s, s');
    }
  }

  lemma GameStepInv(s: State, s': State)
    requires Inv(s) && GameStep(s, s')
    ensures Inv(s')
  {
  }

  lemma StepInv(s: State, s': State)
    requires Inv(s) && Next(s, s')
    ensures Inv(s')
  {
    if ClientStep(s, s') {
      ClientStepInv(s, s');
    } else if ThreadStep(s, s') {
      ThreadStepInv(s, s');
    } else {
      GameStepInv(s, s');
    }
  }

  lemma {:induction false} RunInv(run: seq<State>, k: nat)
    requires Run(run) && k < |run|
    ensures Inv(run[k])
  {
    if k > 0 {
      RunInv(run, k - 1);
      assert StepsTo(run, k);
      StepInv(run[k - 1], run[k]);
    }
  }

  // ---------- results ----------

  /**
   * Every reply satisfies `writes + skipped <= ticks` and counts only writes that were made; between visits the
   * counters of a slot balance exactly, and its counted writes are those made.
   */
  lemma StatsAreConsistent(run: seq<State>, k: nat)
    requires Run(run) && k < |run|
    ensures forall r :: r in run[k].replies && r.Stats? ==>
              IsSlot(run[k], r.id) && r.writes + r.skipped <= r.ticks && r.writes <= run[k].slots[r.id].made
    ensures forall id :: 0 <= id < |run[k].slots| && !Visiting(run[k], id) ==>
              && run[k].slots[id].ticks == run[k].slots[id].writes + run[k].slots[id].skipped
              && run[k].slots[id].writes == run[k].slots[id].made
  {
    RunInv(run, k);
    forall id | 0 <= id < |run[k].slots| && !Visiting(run[k], id)
      ensures run[k].slots[id].ticks == run[k].slots[id].writes + run[k].slots[id].skipped
      ensures run[k].slots[id].writes == run[k].slots[id].made
    {
      assert CountsInv(run[k], id, run[k].slots[id]);
    }
  }

  /** Whether the freeze thread is past the guard with this slot, having read `mem`. */
  predicate PastGuard(s: State, id: int, mem: Mem) {
    match s.visit
    case Passed(i, m) => i == id && m == mem
    case Ready(i, m, _) => i == id && m == mem
    case _ => false
  }

  /** The client changes neither memory nor the visit, and no slot's counters. */
  lemma ClientKeepsVisit(s: State, s': State)
    requires ClientStep(s, s')
    ensures s'.mem == s.mem && s'.visit == s.visit && s'.todo == s.todo && |s.slots| <= |s'.slots|
    ensures forall id :: 0 <= id < |s.slots| ==>
              s'.slots[id].writes == s.slots[id].writes && s'.slots[id].late == s.slots[id].late
  {
    if c :| StartStep(s, s', c) {
    } else if h :| StopStep(s, s', h) {
    } else if h :| FindStep(s, s', h) {
    }
  }

  lemma PastGuardStep(s: State, s': State, id: int, mem: Mem)
    requires Next(s, s') && PastGuard(s', id, mem)
    ensures PastGuard(s, id, mem) || (GuardStep(s, s') && s.visit == Ticked(id) && s.mem == mem)
  {
    if ClientStep(s, s') {
      ClientKeepsVisit(s, s');
    }
  }

  /** One step back from a state past the guard: past it already, or at the read of a plausible value. */
  lemma PastGuardBack(run: seq<State>, k: nat, id: int, mem: Mem)
    requires Run(run) && 0 < k < |run| && PastGuard(run[k], id, mem) && !PastGuard(run[k - 1], id, mem)
    ensures GuardStep(run[k - 1], run[k]) && run[k - 1].visit == Ticked(id) && run[k - 1].mem == mem
  {
    assert StepsTo(run, k);
    PastGuardStep(run[k - 1], run[k], id, mem);
  }

  /** The last state before `k` that is not past the guard. */
  lemma {:induction false} LastBefore(run: seq<State>, k: nat, id: int, mem: Mem) returns (j: nat)
    requires k < |run| && PastGuard(run[k], id, mem) && !PastGuard(run[0], id, mem)
    ensures j < k && !PastGuard(run[j], id, mem) && forall i :: j < i <= k ==> PastGuard(run[i], id, mem)
  {
    if PastGuard(run[k - 1], id, mem) {
      j := LastBefore(run, k - 1, id, mem);
    } else {
      j := k - 1;
    }
  }

  /** Past the guard, some earlier step of the same visit read a plausible value in memory as it was then. */
  lemma GuardWasRead(run: seq<State>, k: nat, id: int, mem: Mem) returns (j: nat)
    requires Run(run) && k < |run| && PastGuard(run[k], id, mem)
    ensures j < k && GuardStep(run[j], run[j + 1]) && run[j].visit == Ticked(id) && run[j].mem == mem
    ensures IsSlot(run[k], id) && Plausible(mem, run[k].slots[id].config)
    ensures forall i :: j < i <= k ==> PastGuard(run[i], id, mem)
  {
    RunInv(run, k);
    j := LastBefore(run, k, id, mem);
    PastGuardBack(run, j + 1, id, mem);
  }

  /** Only the write of a slot past the guard changes memory, and only the bytes at that slot's target. */
  lemma OnlyWritesChangeMemory(s: State, s': State)
    requires (ClientStep(s, s') || ThreadStep(s, s')) && s'.mem != s.mem
    ensures s.visit.Ready? && IsSlot(s, s.visit.id) && IsSlot(s', s.visit.id)
    ensures s'.mem == Store(s.mem, Target(s.slots[s.visit.id].config), s.visit.bytes)
    ensures s'.visit == Done(s.visit.id, true) && s'.slots[s.visit.id].made == s.slots[s.visit.id].made + 1
  {
    if ClientStep(s, s') {
      ClientKeepsVisit(s, s');
    }
  }

  /**
   * If the freezes change memory, then by the bytes of one slot at its target, and the guard of that slot held in the
   * memory that the same visit read.
   */
  lemma MemoryChangesUnderGuard(run: seq<State>, k: nat) returns (id: int, j: nat)
    requires Run(run) && k + 1 < |run|
    requires ClientStep(run[k], run[k + 1]) || ThreadStep(run[k], run[k + 1])
    requires run[k + 1].mem != run[k].mem
    ensures run[k].visit.Ready? && run[k].visit.id == id && IsSlot(run[k], id)
    ensures run[k + 1].mem == Store(run[k].mem, Target(run[k].slots[id].config), run[k].visit.bytes)
    ensures j < k && GuardStep(run[j], run[j + 1]) && Plausible(run[j].mem, run[k].slots[id].config)
    ensures forall i :: j < i <= k ==> PastGuard(run[i], id, run[j].mem)
  {
    RunInv(run, k);
    OnlyWritesChangeMemory(run[k], run[k + 1]);
    id := run[k].visit.id;
    j := GuardWasRead(run, k, id, run[k].visit.atRead);
  }

  /** Once `stop_freeze` returns, every slot with the handle is inactive. */
  lemma StopStops(s: State, s': State, handle: int)
    requires Inv(s) && StopStep(s, s', handle)
    ensures forall id :: 0 <= id < |s'.slots| && s'.slots[id].handle == handle ==> !s'.slots[id].active
  {
  }

  /** The late writes of a slot, with the one that this pass may still make. */
  function Budget(s: State, id: int): int
    requires IsSlot(s, id)
  {
    s.slots[id].late + if MayWrite(s, id) then 1 else 0
  }

  /** The same for its counter. */
  function CountBudget(s: State, id: int): int
    requires IsSlot(s, id)
  {
    s.slots[id].writes + if Pending(s, id) then 1 else 0
  }

  ghost predicate BudgetsShrink(s: State, s': State, id: int)
    requires IsSlot(s, id)
  {
    && IsSlot(s', id) && !s'.slots[id].active
    && Budget(s', id) <= Budget(s, id) && CountBudget(s', id) <= CountBudget(s, id)
  }

  lemma ClientKeepsStopped(s: State, s': State, id: int)
    requires ClientStep(s, s') && IsSlot(s, id) && !s.slots[id].active
    ensures IsSlot(s', id) && !s'.slots[id].active
  {
    if c :| StartStep(s, s', c) {
    } else if h :| StopStep(s, s', h) {
    } else if h :| FindStep(s, s', h) {
    }
  }

  /** The client and the game leave the budget of a stopped slot as it is. */
  lemma ClientKeepsBudget(s: State, s': State, id: int)
    requires Inv(s) && (ClientStep(s, s') || GameStep(s, s')) && IsSlot(s, id) && !s.slots[id].active
    ensures BudgetsShrink(s, s', id)
  {
    if ClientStep(s, s') {
      ClientKeepsVisit(s, s');
      ClientKeepsStopped(s, s', id);
    }
  }

  /** The freeze thread only ever uses it up. */
  lemma ThreadKeepsBudget(s: State, s': State, id: int)
    requires Inv(s) && ThreadStep(s, s') && IsSlot(s, id) && !s.slots[id].active
    ensures BudgetsShrink(s, s', id)
  {
    if SnapshotStep(s, s') {
      ActiveExact(s.slots, s.registry);
    } else if TickStep(s, s') {
      assert s.todo == [s.todo[0]] + s.todo[1..];
    } else {
      assert s'.todo == s.todo;
    }
  }

  /** The writes that a stopped slot has made or may still make never grow. */
  lemma StoppedBudget(s: State, s': State, id: int)
    requires Inv(s) && Next(s, s') && IsSlot(s, id) && !s.slots[id].active
    ensures BudgetsShrink(s, s', id)
  {
    if ThreadStep(s, s') {
      ThreadKeepsBudget(s, s', id);
    } else {
      ClientKeepsBudget(s, s', id);
    }
  }

  lemma BudgetsShrinkOn(s0: State, s: State, s': State, id: int)
    requires IsSlot(s0, id) && BudgetsShrink(s0, s, id) && BudgetsShrink(s, s', id)
    ensures BudgetsShrink(s0, s', id)
  {
  }

  lemma {:induction false} BudgetsNeverGrow(run: seq<State>, j: nat, k: nat, id: int)
    requires Run(run) && j <= k < |run| && IsSlot(run[j], id) && !run[j].slots[id].active
    ensures BudgetsShrink(run[j], run[k], id)
  {
    if j < k {
      BudgetsNeverGrow(run, j, k - 1, id);
      RunInv(run, k - 1);
      assert StepsTo(run, k);
      StoppedBudget(run[k - 1], run[k], id);
      BudgetsShrinkOn(run[j], run[k - 1], run[k], id);
    }
  }

  lemma StoppedIsLateOnce(s: State, id: int)
    requires Inv(s) && IsSlot(s, id) && !s.slots[id].active
    ensures s.slots[id].late <= 1
  {
    assert LateInv(s, id, s.slots[id]);
  }

  /**
   * A slot writes memory at most once after it was stopped, and not at all if the current pass is past its write; its
   * counter may still take up one write that was made.
   */
  lemma AtMostOneLateWrite(run: seq<State>, j: nat, k: nat, id: int)
    requires Run(run) && j <= k < |run| && IsSlot(run[j], id) && !run[j].slots[id].active
    ensures IsSlot(run[k], id) && !run[k].slots[id].active && run[k].slots[id].late <= 1
    ensures run[k].slots[id].late <= run[j].slots[id].late + if MayWrite(run[j], id) then 1 else 0
    ensures run[k].slots[id].writes <= run[j].slots[id].writes + if Pending(run[j], id) then 1 else 0
  {
    BudgetsNeverGrow(run, j, k, id);
    RunInv(run, k);
    StoppedIsLateOnce(run[k], id);
  }

  /** Handles identify freezes exactly as long as no more were started than there are 32-bit numbers. */
  lemma HandlesIdentify(s: State)
    requires Inv(s)
    ensures |s.slots| <= U32 <==>
            forall i, j :: 0 <= i < j < |s.slots| ==> s.slots[i].handle != s.slots[j].handle
  {
    if |s.slots| <= U32 {
      forall i, j | 0 <= i < j < |s.slots| ensures s.slots[i].handle != s.slots[j].handle {
        assert CountsInv(s, i, s.slots[i]) && CountsInv(s, j, s.slots[j]);
      }
    } else {
      assert CountsInv(s, 0, s.slots[0]) && CountsInv(s, U32, s.slots[U32]);
      assert s.slots[0].handle == s.slots[U32].handle;
    }
  }
}
