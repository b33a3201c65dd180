/**
 * Writes to a field that is reached through a chain of live objects. Memory belongs to a running game, so every access
 * sees memory as it is at that moment: `views(t)` is memory at the `t`-th access.
 */
module DerefWrite {
  import opened LocalReader
  import opened Memory
  import opened Reflection

  const MAX_ADDR := U64 - 1

  function SaturatingAdd(a: int, b: int): int { if a + b > MAX_ADDR then MAX_ADDR else a + b }

  /** One step of the chain: the property to resolve on the object's class, and an offset inside it. */
  datatype DerefStep = DerefStep(property: string, innerOffset: int)

  /** What resolution found before: the object, its class, the field's slot, the chain behind it and mirrored fields. */
  datatype Cache = Cache(obj: int, class_: int, primary: int, derefs: seq<DerefStep>, companions: seq<int>)

  /** The world the feature runs in: memory over time, the main module, and what the engine answers at a given time. */
  datatype World = World(
    views: nat -> Mem,
    moduleBase: nat,
    moduleSize: nat,
    classOffset: nat,
    resolve: (nat, int, string) -> Resolution,
    reresolve: nat -> Option<Cache>,
    allowed: nat -> bool)

  datatype FeatureError =
    ReadFailed | NullPointer | NotLive | ResolveFailed | PropertyMissing | WriteFailed | BadValue | NotResolved

  /** `read_pointer` at time `t`. */
  function ReadPointer(w: World, t: nat, addr: int): Option<int> {
    PointerAt(w.views(t), addr)
  }

  predicate InModule(w: World, p: int) { w.moduleBase <= p < SaturatingAdd(w.moduleBase, w.moduleSize) }

  predicate PlausibleObject(obj: int) { obj >= 0x10000 && obj % 8 == 0 }

  /** `is_live_uobject` at time `t`: the object's first word points into the main module. */
  predicate IsLive(w: World, t: nat, obj: int) {
    && PlausibleObject(obj)
    && ReadPointer(w, t, obj).Some?
    && InModule(w, ReadPointer(w, t, obj).value)
  }

  // ---------- the chain ----------

  /** Where the next hop starts: the property's address in the object, moved by the inner offset. */
  function NextSlot(obj: int, offset: nat, step: DerefStep): int {
    WrappingAdd(SaturatingAdd(obj, offset), step.innerOffset)
  }

  /** One hop from time `t`: it takes three reads, of the slot, of the object's first word and of its class. */
  function Hop(w: World, t: nat, slot: int, step: DerefStep): Result<int, FeatureError> {
    match ReadPointer(w, t, slot)
    case None => Err(ReadFailed)
    case Some(obj) =>
      if obj == 0 then Err(NullPointer)
      else if !IsLive(w, t + 1, obj) then Err(NotLive)
      else
        match ReadPointer(w, t + 2, SaturatingAdd(obj, w.classOffset))
        case None => Err(ReadFailed)
        case Some(class_) =>
          match w.resolve(t + 2, class_, step.property)
          case Failed => Err(ResolveFailed)
          case Missing => Err(PropertyMissing)
          case At(offset) => Ok(NextSlot(obj, offset, step))
  }

  /** The whole chain, hop by hop. */
  function Walk(w: World, t: nat, slot: int, steps: seq<DerefStep>): Result<int, FeatureError>
    decreases |steps|
  {
    if steps == [] then Ok(slot)
    else
      match Hop(w, t, slot, steps[0])
      case Err(e) => Err(e)
      case Ok(next) => Walk(w, t + 3, next, steps[1..])
  }

  /** The object behind a slot was, when it was looked at, a live object whose class has the property at `offset`. */
  ghost predicate LiveHop(w: World, t: nat, slot: int, obj: int, offset: nat, step: DerefStep) {
    && ReadPointer(w, t, slot) == Some(obj)
    && obj != 0 && obj % 8 == 0 && obj >= 0x10000
    && (exists vtable :: ReadPointer(w, t + 1, obj) == Some(vtable) && InModule(w, vtable))
    && (exists class_ :: ReadPointer(w, t + 2, SaturatingAdd(obj, w.classOffset)) == Some(class_)
                         && w.resolve(t + 2, class_, step.property) == At(offset))
  }

  /** Objects and offsets, one for each step, that lead from `slot` to `end` through live objects only. */
  ghost predicate LiveChain(
    w: World, t: nat, slot: int, steps: seq<DerefStep>, objs: seq<int>, offsets: seq<nat>, end: int)
    decreases |steps|
  {
    && |objs| == |offsets| == |steps|
    && if steps == [] then slot == end
       else
         && LiveHop(w, t, slot, objs[0], offsets[0], steps[0])
         && LiveChain(w, t + 3, NextSlot(objs[0], offsets[0], steps[0]), steps[1..], objs[1..], offsets[1..], end)
  }

  ghost predicate ChainOf(w: World, t: nat, slot: int, steps: seq<DerefStep>, chain: (seq<int>, seq<nat>), end: int) {
    LiveChain(w, t, slot, steps, chain.0, chain.1, end)
  }

  /** Some live objects lead from `slot` to `end`. */
  ghost predicate LeadsTo(w: World, t: nat, slot: int, steps: seq<DerefStep>, end: int) {
    exists chain: (seq<int>, seq<nat>) :: ChainOf(w, t, slot, steps, chain, end)
  }

  lemma {:induction false} WalkIsLive(w: World, t: nat, slot: int, steps: seq<DerefStep>)
    returns (objs: seq<int>, offsets: seq<nat>)
    requires Walk(w, t, slot, steps).Ok?
    ensures LiveChain(w, t, slot, steps, objs, offsets, Walk(w, t, slot, steps).value)
    decreases |steps|
  {
    objs, offsets := [], [];
    if steps != [] {
      var obj := ReadPointer(w, t, slot).value;
      var class_ := ReadPointer(w, t + 2, SaturatingAdd(obj, w.classOffset)).value;
      var offset := w.resolve(t + 2, class_, steps[0].property).offset;
      var moreObjs, moreOffsets := WalkIsLive(w, t + 3, NextSlot(obj, offset, steps[0]), steps[1..]);
      objs, offsets := [obj] + moreObjs, [offset] + moreOffsets;
      assert LiveHop(w, t, slot, obj, offset, steps[0]);
      assert objs[1..] == moreObjs && offsets[1..] == moreOffsets;
    }
  }

  lemma {:induction false} LiveIsWalk(
      w: World, t: nat, slot: int, steps: seq<DerefStep>, objs: seq<int>, offsets: seq<nat>, end: int)
    requires LiveChain(w, t, slot, steps, objs, offsets, end)
    ensures Walk(w, t, slot, steps) == Ok(end)
    decreases |steps|
  {
    if steps != [] {
      LiveIsWalk(w, t + 3, NextSlot(objs[0], offsets[0], steps[0]), steps[1..], objs[1..], offsets[1..], end);
    }
  }

  /** The chain leads to an address exactly if live objects lead there, for chains of any length. */
  lemma WalkIffLive(w: World, t: nat, slot: int, steps: seq<DerefStep>, end: int)
    ensures Walk(w, t, slot, steps) == Ok(end) <==> LeadsTo(w, t, slot, steps, end)
  {
    if Walk(w, t, slot, steps) == Ok(end) {
      var objs, offsets := WalkIsLive(w, t, slot, steps);
      assert ChainOf(w, t, slot, steps, (objs, offsets), end);
    }
    if chain: (seq<int>, seq<nat>) :| ChainOf(w, t, slot, steps, chain, end) {
      LiveIsWalk(w, t, slot, steps, chain.0, chain.1, end);
    }
  }

  // ---------- the feature ----------

  /** A write that the target accepted, and when. */
  datatype Write = Write(addr: int, bytes: seq<byte>, time: nat)

  /** The same bytes went to the first `n` of the addresses, in order, and nothing else was written. */
  predicate Mirrored(before: seq<Write>, after: seq<Write>, addrs: seq<int>, bytes: seq<byte>, n: int) {
    && 0 <= n <= |addrs| && |after| == |before| + n && before <= after
    && forall i :: 0 <= i < n ==> after[|before| + i].addr == addrs[i] && after[|before| + i].bytes == bytes
  }

  class Feature {
    const w: World
    const offset: Option<int>
    var cache: Option<Cache>
    var clock: nat
    var writes: seq<Write>

    constructor (world: World, off: Option<int>)
      ensures w == world && offset == off && cache == None && writes == []
    {
      w, offset, cache, clock, writes := world, off, None, 0, [];
    }

    method Read(addr: int) returns (r: Option<int>)
      modifies this`clock
      ensures clock == old(clock) + 1 && r == ReadPointer(w, old(clock), addr)
    {
      r := ReadPointer(w, clock, addr);
      clock := clock + 1;
    }

    method IsLiveNow(obj: int) returns (live: bool)
      modifies this`clock
      ensures clock == old(clock) + if PlausibleObject(obj) then 1 else 0
      ensures live == IsLive(w, old(clock), obj)
    {
      if obj < 0x10000 || obj % 8 != 0 {
        return false;
      }
      var vtable := Read(obj);
      return vtable.Some? && InModule(w, vtable.value);
    }

    /** One hop, at whatever time it is. */
    method Step(slot: int, step: DerefStep) returns (r: Result<int, FeatureError>)
      modifies this`clock
      ensures r == Hop(w, old(clock), slot, step)
      ensures old(clock) <= clock && (r.Ok? ==> clock == old(clock) + 3)
    {
      var obj := Read(slot);
      if obj == None {
        return Err(ReadFailed);
      }
      if obj.value == 0 {
        return Err(NullPointer);
      }
      var live := IsLiveNow(obj.value);
      if !live {
        return Err(NotLive);
      }
      var class_ := Read(SaturatingAdd(obj.value, w.classOffset));
      if class_ == None {
        return Err(ReadFailed);
      }
      match w.resolve(clock - 1, class_.value, step.property)
      case Failed =>
        return Err(ResolveFailed);
      case Missing =>
        return Err(PropertyMissing);
      case At(o) =>
        return Ok(NextSlot(obj.value, o, step));
    }

    /** The walk's result, moved by the signature's own offset. */
    ghost function Target(t: nat, root: int, steps: seq<DerefStep>): Result<int, FeatureError> {
      match Walk(w, t, root, steps)
      case Err(e) => Err(e)
      case Ok(addr) => Ok(if offset.Some? then WrappingAdd(addr, offset.value) else addr)
    }

    /** `resolve_deref_addr` */
    method ResolveDerefAddr(root: int, steps: seq<DerefStep>) returns (r: Result<int, FeatureError>)
      modifies this`clock
      ensures r == Target(old(clock), root, steps) && old(clock) <= clock
    {
      var slot := root;
      ghost var whole := Walk(w, clock, root, steps);
      for i := 0 to |steps|
        invariant Walk(w, clock, slot, steps[i..]) == whole && old(clock) <= clock
      {
        assert steps[i..][0] == steps[i] && steps[i..][1..] == steps[i + 1..];
        var next := Step(slot, steps[i]);
        if next.Err? {
          return Err(next.error);
        }
        slot := next.value;
      }
      return Ok(if offset.Some? then WrappingAdd(slot, offset.value) else slot);
    }

    /**
     * `ensure_reflection_fresh`: the cached slot is trusted only if the cached object is live and still of the cached
     * class; otherwise everything is resolved anew.
     */
    method EnsureFresh() returns (r: Result<int, FeatureError>, ghost t: nat)
      modifies this`clock, this`cache
      ensures r.Ok? ==> cache.Some? && r.value == cache.value.primary
      ensures r.Ok? ==>
                || (cache == old(cache)
                    && IsLive(w, old(clock), cache.value.obj)
                    && ReadPointer(w, old(clock) + 1, SaturatingAdd(cache.value.obj, w.classOffset))
                       == Some(cache.value.class_))
                || (old(clock) <= t <= clock && w.reresolve(t) == cache)
      ensures r.Err? ==> cache == old(cache)
      ensures old(clock) <= clock
    {
      if cache.Some? {
        var c := cache.value;
        var live := IsLiveNow(c.obj);
        if live {
          var class_ := Read(SaturatingAdd(c.obj, w.classOffset));
          if class_ == Some(c.class_) {
            return Ok(c.primary), clock;
          }
        }
      }
      var found := w.reresolve(clock);
      if found == None {
        return Err(NotResolved), clock;
      }
      cache := found;
      return Ok(found.value.primary), clock;
    }

    method WriteBytes(addr: int, bytes: seq<byte>) returns (ok: bool)
      modifies this`clock, this`writes
      ensures writes == if ok then old(writes) + [Write(addr, bytes, old(clock))] else old(writes)
    {
      ok := w.allowed(clock);
      if ok {
        writes := writes + [Write(addr, bytes, clock)];
      }
      clock := clock + 1;
    }

    /** Several fields, one after the other, up to the first that cannot be written. */
    method WriteEach(addrs: seq<int>, bytes: seq<byte>) returns (ok: bool, ghost n: nat)
      modifies this`clock, this`writes
      ensures Mirrored(old(writes), writes, addrs, bytes, n) && (ok <==> n == |addrs|)
    {
      n := 0;
      for i := 0 to |addrs|
        invariant n == i && Mirrored(old(writes), writes, addrs, bytes, n)
      {
        ok := WriteBytes(addrs[i], bytes);
        if !ok {
          return;
        }
        n := n + 1;
      }
      ok := true;
    }

    /**
     * The reflection write: with a chain, either an error and nothing written, or exactly the value's bytes, once, at
     * the address that the chain led to at some time during the call. Without one, the primary field and then the
     * mirrored ones, up to the first that cannot be written.
     */
    method WriteValue(value: Option<seq<byte>>)
      returns (r: Result<(), FeatureError>, ghost t: nat, ghost addr: int, ghost end: nat, ghost n: nat)
      modifies this
      ensures value == None ==> r.Err? && writes == old(writes)
      ensures r.Ok? ==> cache.Some? && value.Some?
      ensures r.Ok? && cache.value.derefs != [] ==>
                && old(clock) <= t
                && Target(t, cache.value.primary, cache.value.derefs) == Ok(addr)
                && writes == old(writes) + [Write(addr, value.value, end)]
      ensures r.Err? && (cache == None || cache.value.derefs != []) ==> writes == old(writes)
      ensures value.Some? && cache.Some? && cache.value.derefs == [] ==>
                && Mirrored(old(writes), writes, [cache.value.primary] + cache.value.companions, value.value, n)
                && (r.Ok? <==> n == 1 + |cache.value.companions|)
    {
      t, addr, end, n := clock, 0, clock, 0;
      if value == None {
        r := Err(BadValue);
        return;
      }
      var primary, _ := EnsureFresh();
      if primary.Err? {
        r := Err(primary.error);
        return;
      }
      var c := cache.value;
      if c.derefs != [] {
        t := clock;
        var target := ResolveDerefAddr(primary.value, c.derefs);
        if target.Err? {
          r := Err(target.error);
          return;
        }
        addr, end := target.value, clock;
        var ok := WriteBytes(target.value, value.value);
        r := if ok then Ok(()) else Err(WriteFailed);
      } else {
        var ok;
        ok, n := WriteEach([primary.value] + c.companions, value.value);
        r := if ok then Ok(()) else Err(WriteFailed);
      }
    }
  }
}
