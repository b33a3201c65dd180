/**
 * Binding a feature to the one heap value that passes its validators, checking a bound address again, and following
 * pointer chains.
 */
module HeapBind {
  import opened Floats
  import opened LocalReader
  import opened Memory

  /** A field near the candidate, decoded as `kind`, must lie within the band; `decode` may refuse the bytes. */
  datatype Validator = Validator(
    kind: int, size: nat, relativeOffset: int, min: Option<Float>, max: Option<Float>,
    decode: seq<byte> -> Option<Float>)

  // ---------- the band ----------

  /** `band_contains` */
  predicate BandContains(v: Float, min: Option<Float>, max: Option<Float>) {
    if (min.Some? || max.Some?) && v == NaN then false
    else if min.Some? && Less(v, min.value) then false
    else if max.Some? && Less(max.value, v) then false
    else true
  }

  /** The value is at or between the bounds that there are. */
  predicate Within(v: Float, min: Option<Float>, max: Option<Float>) {
    (min.Some? ==> AtMost(min.value, v)) && (max.Some? ==> AtMost(v, max.value))
  }

  /**
   * The band check is the comparison with the bounds, for every value, precisely if no bound is itself not a number.
   */
  lemma BandIsWithin(min: Option<Float>, max: Option<Float>)
    ensures min != Some(NaN) && max != Some(NaN)
            <==> forall v :: BandContains(v, min, max) <==> Within(v, min, max)
  {
    forall v ensures min != Some(NaN) && max != Some(NaN) ==> (BandContains(v, min, max) <==> Within(v, min, max)) {
      if min.Some? {
        LessOrAtMost(min.value, v);
      }
      if max.Some? {
        LessOrAtMost(v, max.value);
      }
    }
    if min == Some(NaN) {
      var v := if max.Some? && max.value != NaN then max.value else Finite(0.0);
      assert BandContains(v, min, max) && !Within(v, min, max);
    } else if max == Some(NaN) {
      var v := if min.Some? then min.value else Finite(0.0);
      assert BandContains(v, min, max) && !Within(v, min, max);
    }
  }

  // ---------- validators ----------

  /** `validator_passes`: an unreadable field fails the candidate, a field that cannot be decoded is an error. */
  function ValidatorPasses(mem: Mem, candidate: int, v: Validator): Result<bool, ()> {
    var probe := WrappingAdd(candidate, v.relativeOffset);
    if !Readable(mem, probe, v.size) then Ok(false)
    else
      match v.decode(BytesAt(mem, probe, v.size))
      case None => Err(())
      case Some(value) => Ok(BandContains(value, v.min, v.max))
  }

  /** All validators in order: the first that does not pass decides. */
  function Judge(mem: Mem, candidate: int, validators: seq<Validator>): Result<bool, ()> {
    if validators == [] then Ok(true)
    else
      match ValidatorPasses(mem, candidate, validators[0])
      case Ok(true) => Judge(mem, candidate, validators[1..])
      case other => other
  }

  lemma {:induction false} JudgeMeans(mem: Mem, candidate: int, validators: seq<Validator>)
    ensures Judge(mem, candidate, validators) == Ok(true)
            <==> forall v :: v in validators ==> ValidatorPasses(mem, candidate, v) == Ok(true)
  {
    if validators != [] {
      JudgeMeans(mem, candidate, validators[1..]);
      assert forall v :: v in validators <==> v == validators[0] || v in validators[1..];
    }
  }

  /**
   * What the signature says: the scanned value's kind is 64 bits wide or not, and which of the other mechanisms it
   * uses.
   */
  datatype Spec = Spec(wide: bool, fieldOffset: int, legacy: Option<Validator>, validators: seq<Validator>,
                       usesReflection: bool, freezesMatching: bool, playsMontages: bool)

  /** `all_validators`: the legacy validator, if any, before the others. */
  function AllValidators(spec: Spec): seq<Validator> {
    (if spec.legacy.Some? then [spec.legacy.value] else []) + spec.validators
  }

  datatype BindError = UnsupportedKind | NoHits | DecodeFailed | NoSurvivor | Ambiguous(count: nat)

  function Candidate(spec: Spec, hit: int): int { WrappingAdd(hit, spec.fieldOffset) }

  /** Whether the candidate of a hit passes. */
  ghost function Passes(mem: Mem, spec: Spec): int -> bool {
    (hit: int) => Judge(mem, Candidate(spec, hit), AllValidators(spec)) == Ok(true)
  }

  /** The hits below `n` that pass. */
  ghost function Picked(hits: seq<int>, passes: int -> bool, n: nat): seq<int>
    requires n <= |hits|
  {
    if n == 0 then [] else Picked(hits, passes, n - 1) + if passes(hits[n - 1]) then [hits[n - 1]] else []
  }

  /** `validator_passes` for all validators of one candidate. */
  method JudgeCandidate(mem: Mem, candidate: int, validators: seq<Validator>) returns (r: Result<bool, ()>)
    ensures r == Judge(mem, candidate, validators)
  {
    ghost var whole := Judge(mem, candidate, validators);
    for i := 0 to |validators|
      invariant Judge(mem, candidate, validators[i..]) == whole
    {
      assert validators[i..][0] == validators[i] && validators[i..][1..] == validators[i + 1..];
      var one := ValidatorPasses(mem, candidate, validators[i]);
      if one != Ok(true) {
        return one;
      }
    }
    return Ok(true);
  }

  /** What the validators say about the candidate of each hit. */
  ghost function Verdicts(mem: Mem, spec: Spec): int -> Result<bool, ()> {
    (h: int) => Judge(mem, Candidate(spec, h), AllValidators(spec))
  }

  /** The verdict on the candidate of one hit; `verdicts` names those of all. */
  method JudgeHit(mem: Mem, spec: Spec, h: int, validators: seq<Validator>, ghost verdicts: int -> Result<bool, ()>)
    returns (r: Result<bool, ()>)
    requires validators == AllValidators(spec) && verdicts(h) == Verdicts(mem, spec)(h)
    ensures r == verdicts(h)
  {
    r := JudgeCandidate(mem, Candidate(spec, h), validators);
  }

  /** The candidates of the hits that pass, in order; an error as soon as a field cannot be decoded. */
  method Survivors(
      mem: Mem, spec: Spec, hits: seq<int>, ghost passes: int -> bool, ghost verdicts: int -> Result<bool, ()>)
    returns (r: Result<seq<int>, ()>, ghost picked: seq<int>)
    requires forall h {:trigger verdicts(h)} :: verdicts(h) == Verdicts(mem, spec)(h)
    requires forall h :: passes(h) <==> verdicts(h) == Ok(true)
    ensures r.Ok? ==> && picked == Picked(hits, passes, |hits|) && |r.value| == |picked|
                      && forall k :: 0 <= k < |picked| ==> r.value[k] == Candidate(spec, picked[k])
    ensures r.Ok? ==> forall h :: h in hits ==> verdicts(h).Ok?
    ensures r.Err? ==> exists h :: h in hits && verdicts(h).Err?
  {
    var validators := AllValidators(spec);
    var survivors := [];
    picked := [];
    for i := 0 to |hits|
      invariant picked == Picked(hits, passes, i) && |survivors| == |picked|
      invariant forall k :: 0 <= k < |picked| ==> survivors[k] == Candidate(spec, picked[k])
      invariant forall k :: 0 <= k < i ==> verdicts(hits[k]).Ok?
    {
      var verdict := JudgeHit(mem, spec, hits[i], validators, verdicts);
      if verdict.Err? {
        assert hits[i] in hits;
        return Err(()), picked;
      }
      if verdict.value {
        survivors := survivors + [Candidate(spec, hits[i])];
        picked := picked + [hits[i]];
      }
    }
    r := Ok(survivors);
  }

  /** `resolve_via_heap_scan`, once the scan has delivered its hits; `hit` is the one whose candidate is bound. */
  method ResolveViaHeapScan(mem: Mem, spec: Spec, hits: seq<int>) returns (r: Result<int, BindError>, ghost hit: int)
    ensures r.Ok? ==> && spec.wide && Picked(hits, Passes(mem, spec), |hits|) == [hit]
                      && r.value == Candidate(spec, hit)
    ensures r.Ok? ==> forall h :: h in hits ==> Judge(mem, Candidate(spec, h), AllValidators(spec)).Ok?
    ensures r.Err? ==>
              || !spec.wide
              || (exists h :: h in hits && Judge(mem, Candidate(spec, h), AllValidators(spec)).Err?)
              || |Picked(hits, Passes(mem, spec), |hits|)| != 1
    ensures r.Err? && r.error.Ambiguous? ==> r.error.count == |Picked(hits, Passes(mem, spec), |hits|)| > 1
  {
    hit := 0;
    if !spec.wide {
      r := Err(UnsupportedKind);
      return;
    }
    if hits == [] {
      r := Err(NoHits);
      return;
    }
    ghost var picked;
    var found;
    found, picked := Survivors(mem, spec, hits, Passes(mem, spec), Verdicts(mem, spec));
    if found.Err? {
      r := Err(DecodeFailed);
      return;
    }
    var survivors := found.value;
    if |survivors| == 0 {
      r := Err(NoSurvivor);
    } else if |survivors| == 1 {
      hit := picked[0];
      r := Ok(survivors[0]);
    } else {
      r := Err(Ambiguous(|survivors|));
    }
  }

  /** A feature that resolves afresh before each use; no check of an old address is worth anything. */
  predicate AlwaysResolves(spec: Spec) { spec.usesReflection || spec.freezesMatching || spec.playsMontages }

  /** What `quick_check` answers for an address. */
  function QuickAnswer(mem: Mem, spec: Spec, addr: int): bool {
    !AlwaysResolves(spec) && Judge(mem, addr, AllValidators(spec)) == Ok(true)
  }

  /** `quick_check` of a heap-scan feature. */
  method QuickCheck(mem: Mem, spec: Spec, addr: int) returns (ok: bool)
    ensures ok == QuickAnswer(mem, spec, addr)
    ensures ok <==> !spec.usesReflection && !spec.freezesMatching && !spec.playsMontages
                    && forall v :: v in AllValidators(spec) ==> ValidatorPasses(mem, addr, v) == Ok(true)
  {
    JudgeMeans(mem, addr, AllValidators(spec));
    if spec.usesReflection || spec.freezesMatching || spec.playsMontages {
      return false;
    }
    var verdict := JudgeCandidate(mem, addr, AllValidators(spec));
    return verdict == Ok(true);
  }

  /** Exactly one hit, counted by position, passes: the one at `i`. */
  ghost predicate OnlyAt(hits: seq<int>, passes: int -> bool, n: nat, i: nat)
    requires n <= |hits|
  {
    i < n && forall k :: 0 <= k < n ==> (passes(hits[k]) <==> k == i)
  }

  lemma {:induction false} NothingPicked(hits: seq<int>, passes: int -> bool, n: nat)
    requires n <= |hits|
    ensures Picked(hits, passes, n) == [] <==> forall k :: 0 <= k < n ==> !passes(hits[k])
  {
    if n > 0 {
      NothingPicked(hits, passes, n - 1);
    }
  }

  /** If one hit is picked, it is the only one that passes. */
  lemma {:induction false} PickedIsOnly(hits: seq<int>, passes: int -> bool, n: nat, h: int) returns (i: nat)
    requires n <= |hits| && Picked(hits, passes, n) == [h]
    ensures OnlyAt(hits, passes, n, i) && hits[i] == h
  {
    var init := Picked(hits, passes, n - 1);
    NothingPicked(hits, passes, n - 1);
    if passes(hits[n - 1]) {
      assert Picked(hits, passes, n) == init + [hits[n - 1]];
      assert |init| == 0 && init == [];
      assert (init + [hits[n - 1]])[0] == hits[n - 1];
      i := n - 1;
    } else {
      assert Picked(hits, passes, n) == init;
      i := PickedIsOnly(hits, passes, n - 1, h);
    }
  }

  /** If only one hit passes, it is the one picked. */
  lemma {:induction false} OnlyIsPicked(hits: seq<int>, passes: int -> bool, n: nat, i: nat)
    requires n <= |hits| && OnlyAt(hits, passes, n, i)
    ensures Picked(hits, passes, n) == [hits[i]]
  {
    if i == n - 1 {
      NothingPicked(hits, passes, n - 1);
    } else {
      OnlyIsPicked(hits, passes, n - 1, i);
    }
  }

  /**
   * A bound address is the candidate of the only passing hit, and `quick_check` in the same memory accepts it, unless
   * the feature resolves afresh each time anyway.
   */
  lemma BoundIsAccepted(mem: Mem, spec: Spec, hits: seq<int>, hit: int)
    requires Picked(hits, Passes(mem, spec), |hits|) == [hit]
    ensures exists i: nat :: OnlyAt(hits, Passes(mem, spec), |hits|, i) && hits[i] == hit
    ensures QuickAnswer(mem, spec, Candidate(spec, hit)) <==> !AlwaysResolves(spec)
    ensures forall v :: v in AllValidators(spec) ==> ValidatorPasses(mem, Candidate(spec, hit), v) == Ok(true)
  {
    var i := PickedIsOnly(hits, Passes(mem, spec), |hits|, hit);
    assert Passes(mem, spec)(hits[i]);
    JudgeMeans(mem, Candidate(spec, hit), AllValidators(spec));
  }

  // ---------- pointer chains ----------

  datatype Hop = Hop(deref: bool, offset: int)

  /** Following the hops: a dereferencing hop reads first, every hop adds its offset with 64-bit wrap-around. */
  function Follow(mem: Mem, addr: int, hops: seq<Hop>): Option<int>
    decreases |hops|
  {
    if hops == [] then Some(addr)
    else
      var at := if hops[0].deref then PointerAt(mem, addr) else Some(addr);
      match at
      case None => None
      case Some(p) => Follow(mem, WrappingAdd(p, hops[0].offset), hops[1..])
  }

  /** `apply_chain` of the feature engine, which reads all eight bytes or fails. */
  method ApplyChain(mem: Mem, start: int, hops: seq<Hop>) returns (r: Option<int>)
    ensures r == Follow(mem, start, hops)
  {
    var addr := start;
    for i := 0 to |hops|
      invariant Follow(mem, addr, hops[i..]) == Follow(mem, start, hops)
    {
      assert hops[i..][0] == hops[i] && hops[i..][1..] == hops[i + 1..];
      if hops[i].deref {
        if !Readable(mem, addr, 8) {
          return None;
        }
        addr := LeValue(BytesAt(mem, addr, 8));
      }
      addr := WrappingAdd(addr, hops[i].offset);
    }
    return Some(addr);
  }

  /** How many bytes a read of eight may deliver: all that can be read from the address on. */
  function Delivered(mem: Mem, addr: int, n: nat): (got: nat)
    ensures got <= n && Readable(mem, addr, got)
    ensures got < n ==> addr + got !in mem
    decreases n
  {
    if n == 0 || addr !in mem then 0 else 1 + Delivered(mem, addr + 1, n - 1)
  }

  /** `walk_chain` of the pointer search, whose reads may be short and are refused then. */
  method WalkChain(mem: Mem, anchor: int, hops: seq<Hop>) returns (r: Option<int>)
    ensures r == Follow(mem, anchor, hops)
  {
    var current := anchor;
    for i := 0 to |hops|
      invariant Follow(mem, current, hops[i..]) == Follow(mem, anchor, hops)
    {
      assert hops[i..][0] == hops[i] && hops[i..][1..] == hops[i + 1..];
      if hops[i].deref {
        var got := Delivered(mem, current, 8);
        if got < 8 {
          return None;
        }
        current := LeValue(BytesAt(mem, current, 8));
      }
      current := WrappingAdd(current, hops[i].offset);
    }
    return Some(current);
  }

  /** A chain in two parts is followed part by part. */
  lemma {:induction false} FollowSplit(mem: Mem, addr: int, a: seq<Hop>, b: seq<Hop>)
    ensures Follow(mem, addr, a + b)
            == match Follow(mem, addr, a) case None => None case Some(p) => Follow(mem, p, b)
    decreases |a|
  {
    if a == [] {
      assert a + b == b;
    } else {
      assert (a + b)[0] == a[0] && (a + b)[1..] == a[1..] + b;
      var at := if a[0].deref then PointerAt(mem, addr) else Some(addr);
      if at.Some? {
        FollowSplit(mem, WrappingAdd(at.value, a[0].offset), a[1..], b);
      }
    }
  }
}
