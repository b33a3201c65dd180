/**
 * The parallel heap scan for one u64 value: what each worker reports for its region, against the list of all aligned
 * matches, and the sorted result over all regions.
 */
module HeapScan {
  import opened Alignment
  import opened Memory
  import opened Sorting

  const CHUNK := 4 * 1024 * 1024

  const PAST_U64 := 0x1_0000_0000_0000_0000

  type Select = int -> bool

  /** The addresses that hold the needle. */
  ghost function Holding(mem: Mem, needle: nat): Select { (p: int) => PointerAt(mem, p) == Some(needle) }

  // ---------- lists of selected addresses ----------

  ghost function Visit(f: Select, p: int): seq<int> { if f(p) then [p] else [] }

  /** The addresses of `[lo, hi)` that `f` admits, in increasing order. */
  ghost function Filter(f: Select, lo: int, hi: int): seq<int>
    decreases hi - lo
  {
    if hi <= lo then [] else Filter(f, lo, hi - 1) + Visit(f, hi - 1)
  }

  lemma {:induction false} FilterSplit(f: Select, lo: int, mid: int, hi: int)
    requires lo <= mid <= hi
    ensures Filter(f, lo, hi) == Filter(f, lo, mid) + Filter(f, mid, hi)
    decreases hi - mid
  {
    if mid < hi {
      FilterSplit(f, lo, mid, hi - 1);
    }
  }

  lemma {:induction false} FilterAgree(f: Select, g: Select, lo: int, hi: int)
    requires forall p :: lo <= p < hi ==> f(p) == g(p)
    ensures Filter(f, lo, hi) == Filter(g, lo, hi)
    decreases hi - lo
  {
    if lo < hi {
      FilterAgree(f, g, lo, hi - 1);
    }
  }

  lemma {:induction false} FilterNothing(f: Select, lo: int, hi: int)
    requires forall p :: lo <= p < hi ==> !f(p)
    ensures Filter(f, lo, hi) == []
    decreases hi - lo
  {
    if lo < hi {
      FilterNothing(f, lo, hi - 1);
    }
  }

  /** Every selected address of the range is listed once, and nothing else is. */
  lemma {:induction false} FilterCounts(f: Select, lo: int, hi: int, p: int)
    ensures multiset(Filter(f, lo, hi))[p] == if lo <= p < hi && f(p) then 1 else 0
    decreases hi - lo
  {
    if lo < hi {
      FilterCounts(f, lo, hi - 1, p);
      MultisetOfSum(Filter(f, lo, hi - 1), Visit(f, hi - 1), p);
      assert multiset(Visit(f, hi - 1))[p] == if p == hi - 1 && f(p) then 1 else 0;
    }
  }

  lemma FilterMembers(f: Select, lo: int, hi: int, p: int)
    ensures p in Filter(f, lo, hi) <==> lo <= p < hi && f(p)
  {
    FilterCounts(f, lo, hi, p);
    assert p in Filter(f, lo, hi) <==> p in multiset(Filter(f, lo, hi));
  }

  /** The naive scan selects every aligned address that holds the needle. */
  ghost function OnGrid(holds: Select, align: int): Select
    requires align >= 1
  {
    (p: int) => Aligned(p, align) && holds(p)
  }

  /**
   * What the loop over one chunk selects: every `align`-th address from the chunk's start on, whether the start is
   * aligned or not; the fast loop, for alignment 8, takes them all, the other loop only the aligned ones.
   */
  ghost function FromStart(holds: Select, align: int, start: int): Select
    requires align >= 1
  {
    (p: int) => Aligned(p - start, align) && (align == 8 || Aligned(p, align)) && holds(p)
  }

  predicate Within(r: Region, p: int) { r.base <= p && p + 8 <= r.base + r.size }

  /** The naive list of a region's matches. */
  ghost function NaiveHits(holds: Select, align: int, r: Region): seq<int>
    requires align >= 1
  {
    Filter(OnGrid(holds, align), r.base, r.base + r.size - 7)
  }

  // ---------- one worker, one region ----------

  function ChunkAt(r: Region, off: int): int
    requires 0 <= off < r.size
  {
    Min(r.size - off, CHUNK)
  }

  /** Forward progress: the last seven bytes of a chunk are read again, unless the region ends there. */
  function Advance(r: Region, off: int): (a: int)
    requires 0 <= off < r.size
    ensures 1 <= a <= r.size - off
  {
    var n := ChunkAt(r, off);
    if n < r.size - off then n - 7 else n
  }

  /** What the loop over one chunk of `n` bytes at `at` reports. */
  ghost function ChunkHits(holds: Select, align: int, at: int, n: int): seq<int>
    requires align >= 1
  {
    Filter(FromStart(holds, align, at), at, at + n - 7)
  }

  /** What the worker reports from offset `off` on; it gives up at the first chunk it cannot read. */
  ghost function ChunkedHits(holds: Select, reader: Reader, align: int, r: Region, off: int): seq<int>
    requires align >= 1 && off >= 0
    decreases r.size - off
  {
    if off >= r.size || reader(r.base + off, ChunkAt(r, off)) == None then []
    else
      ChunkHits(holds, align, r.base + off, ChunkAt(r, off))
      + ChunkedHits(holds, reader, align, r, off + Advance(r, off))
  }

  /** What a loop that visits every `align`-th address of a chunk of `n` bytes reports from index `i` on. */
  ghost function Visits(f: Select, align: int, at: int, i: nat, n: nat): seq<int>
    requires align >= 1
    decreases n - i
  {
    if i + 8 > n then [] else Visit(f, at + i) + Visits(f, align, at, i + align, n)
  }

  /** Between one visited address and the next, nothing is selected. */
  lemma Gap(f: Select, g: Select, align: int, at: int, i: int)
    requires align >= 1 && Aligned(i, align)
    requires forall p :: g(p) <==> Aligned(p - at, align) && f(p)
    ensures g(at + i) <==> f(at + i)
    ensures forall p :: at + i < p < at + i + align ==> !g(p)
  {
    assert at + i - at == i;
    forall p | at + i < p < at + i + align ensures !g(p) {
      BetweenMultiples(i, align, p - at);
    }
  }

  /** Skipping a gap skips nothing that is selected. */
  lemma SkipGap(g: Select, lo: int, next: int, hi: int)
    requires lo <= next && forall q :: lo <= q < next ==> !g(q)
    ensures Filter(g, lo, hi) == Filter(g, next, hi)
  {
    if next <= hi {
      FilterNothing(g, lo, next);
      FilterSplit(g, lo, next, hi);
    } else {
      FilterNothing(g, lo, hi);
    }
  }

  /** Visiting one address and stepping over the gap behind it, nothing that is selected is passed over. */
  lemma Stride(f: Select, g: Select, p: int, next: int, hi: int)
    requires p < next && p < hi && (g(p) <==> f(p))
    requires forall q :: p < q < next ==> !g(q)
    ensures Filter(g, p, hi) == Visit(f, p) + Filter(g, next, hi)
  {
    assert Filter(g, p, p + 1) == Visit(f, p);
    FilterSplit(g, p, p + 1, hi);
    SkipGap(g, p + 1, next, hi);
  }

  lemma {:induction false} VisitsAreHits(f: Select, g: Select, align: int, at: int, i: nat, n: nat)
    requires align >= 1 && Aligned(i, align)
    requires forall p :: g(p) <==> Aligned(p - at, align) && f(p)
    ensures Visits(f, align, at, i, n) == Filter(g, at + i, at + n - 7)
    decreases n - i
  {
    if i + 8 <= n {
      Gap(f, g, align, at, i);
      Stride(f, g, at + i, at + i + align, at + n - 7);
      NextAligned(i, align);
      VisitsAreHits(f, g, align, at, i + align, n);
    }
  }

  /** The u64 that a chunk holds at index `i`. */
  function U64At(chunk: seq<byte>, i: nat): nat
    requires i + 8 <= |chunk|
  {
    LeValue(chunk[i..i + 8])
  }

  /** Where the needle is, as one delivered chunk shows it. */
  ghost predicate Shows(chunk: seq<byte>, at: int, needle: nat, holds: Select) {
    forall i: nat | i + 8 <= |chunk| :: holds(at + i) <==> U64At(chunk, i) == needle
  }

  /** Every chunk that is delivered shows where the needle is. */
  ghost predicate Sees(reader: Reader, needle: nat, holds: Select) {
    forall a, n :: reader(a, n).Some? ==> |reader(a, n).value| == n && Shows(reader(a, n).value, a, needle, holds)
  }

  lemma HonestReaderSees(reader: Reader, mem: Mem, needle: nat)
    requires Honest(reader, mem)
    ensures Sees(reader, needle, Holding(mem, needle))
  {
    forall a, n, i: nat | reader(a, n).Some? && i + 8 <= n
      ensures Holding(mem, needle)(a + i) <==> U64At(reader(a, n).value, i) == needle
    {
      assert reader(a, n).value[i..i + 8] == BytesAt(mem, a + i, 8);
    }
  }

  /** Comparing eight bytes with the needle's bytes and comparing the values they spell are the same test. */
  lemma BytesOrValue(b: seq<byte>, needle: nat)
    requires needle < PAST_U64 && |b| == 8
    ensures b == LeBytes(needle, 8) <==> LeValue(b) == needle
  {
    assert Pow256(8) == PAST_U64;
    LeRoundTrip(needle, 8);
    LeBytesOfValue(b);
  }

  /** One more visited address, added to what was reported before. */
  lemma VisitOne(f: Select, align: int, at: int, i: nat, n: nat, local: seq<int>)
    requires align >= 1 && i + 8 <= n
    ensures local + Visits(f, align, at, i, n)
            == (if f(at + i) then local + [at + i] else local) + Visits(f, align, at, i + align, n)
  {
  }

  /** The fast loop, for alignment 8: every eighth address of the chunk, compared as bytes. */
  method ScanChunkFast(chunk: seq<byte>, at: int, needle: nat, local: seq<int>, ghost f: Select)
    returns (local': seq<int>)
    requires needle < PAST_U64 && Shows(chunk, at, needle, f)
    ensures local' == local + Visits(f, 8, at, 0, |chunk|)
  {
    local' := local;
    var needleBytes := LeBytes(needle, 8);
    var i := 0;
    while i + 8 <= |chunk|
      invariant 0 <= i
      invariant local' + Visits(f, 8, at, i, |chunk|) == local + Visits(f, 8, at, 0, |chunk|)
    {
      BytesOrValue(chunk[i..i + 8], needle);
      assert f(at + i) <==> U64At(chunk, i) == needle;
      VisitOne(f, 8, at, i, |chunk|, local');
      if chunk[i..i + 8] == needleBytes {
        local' := local' + [at + i];
      }
      i := i + 8;
    }
  }

  /** The checking loop, for the other alignments: every `align`-th address, if it is aligned, compared as a value. */
  method ScanChunkAligned(
      chunk: seq<byte>, at: int, needle: nat, align: int, local: seq<int>, ghost holds: Select)
    returns (local': seq<int>)
    requires align >= 1 && Shows(chunk, at, needle, holds)
    ensures local' == local + Visits(OnGrid(holds, align), align, at, 0, |chunk|)
  {
    local' := local;
    ghost var f := OnGrid(holds, align);
    var i := 0;
    while i + 8 <= |chunk|
      invariant 0 <= i
      invariant local' + Visits(f, align, at, i, |chunk|) == local + Visits(f, align, at, 0, |chunk|)
    {
      VisitOne(f, align, at, i, |chunk|, local');
      assert f(at + i) <==> Aligned(at + i, align) && U64At(chunk, i) == needle;
      if Aligned(at + i, align) {
        var v := U64At(chunk, i);
        if v == needle {
          local' := local' + [at + i];
        }
      }
      i := i + align;
    }
  }

  /** The fast loop's visits are the chunk's hits. */
  lemma FastVisits(holds: Select, at: int, n: nat)
    ensures Visits(holds, 8, at, 0, n) == ChunkHits(holds, 8, at, n)
  {
    VisitsAreHits(holds, FromStart(holds, 8, at), 8, at, 0, n);
  }

  /** The checking loop's visits are the chunk's hits. */
  lemma AlignedVisits(holds: Select, align: int, at: int, n: nat)
    requires align >= 1 && align != 8
    ensures Visits(OnGrid(holds, align), align, at, 0, n) == ChunkHits(holds, align, at, n)
  {
    var f, g := OnGrid(holds, align), FromStart(holds, align, at);
    forall p ensures g(p) <==> Aligned(p - at, align) && f(p) {
    }
    MultipleOf(0, align);
    VisitsAreHits(f, g, align, at, 0, n);
  }

  /** One chunk that was read, by whichever loop the alignment calls for. */
  method ScanChunk(chunk: seq<byte>, at: int, needle: nat, align: int, local: seq<int>, ghost holds: Select)
    returns (local': seq<int>)
    requires align >= 1 && needle < PAST_U64 && Shows(chunk, at, needle, holds)
    ensures local' == local + ChunkHits(holds, align, at, |chunk|)
  {
    if align == 8 {
      local' := ScanChunkFast(chunk, at, needle, local, holds);
      FastVisits(holds, at, |chunk|);
    } else {
      local' := ScanChunkAligned(chunk, at, needle, align, local, holds);
      AlignedVisits(holds, align, at, |chunk|);
    }
  }

  /** The advances that the worker adds to the shared counter from offset `off` on. */
  function Advanced(reader: Reader, r: Region, off: int): nat
    requires off >= 0
    decreases r.size - off
  {
    if off >= r.size || reader(r.base + off, ChunkAt(r, off)) == None then 0
    else Advance(r, off) + Advanced(reader, r, off + Advance(r, off))
  }

  /** The chunk at `off`, appended to what was found before, leaves the rest of the region's report to come. */
  lemma NextChunk(holds: Select, reader: Reader, align: int, r: Region, off: int, local: seq<int>)
    requires align >= 1 && 0 <= off < r.size && reader(r.base + off, ChunkAt(r, off)) != None
    ensures local + ChunkedHits(holds, reader, align, r, off)
            == local + ChunkHits(holds, align, r.base + off, ChunkAt(r, off))
               + ChunkedHits(holds, reader, align, r, off + Advance(r, off))
    ensures Advanced(reader, r, off) == Advance(r, off) + Advanced(reader, r, off + Advance(r, off))
  {
  }

  /** A worker never accounts for more than its region, and for exactly its region if all of it can be read. */
  lemma {:induction false} AdvancesSumToSize(reader: Reader, r: Region, off: int)
    requires 0 <= off <= r.size
    ensures Advanced(reader, r, off) <= r.size - off
    ensures FullyReadable(reader, r) ==> Advanced(reader, r, off) == r.size - off
    decreases r.size - off
  {
    if off < r.size {
      AdvancesSumToSize(reader, r, off + Advance(r, off));
    }
  }

  lemma SeesChunk(reader: Reader, needle: nat, holds: Select, a: int, n: nat)
    requires Sees(reader, needle, holds) && reader(a, n).Some?
    ensures |reader(a, n).value| == n && Shows(reader(a, n).value, a, needle, holds)
  {
  }

  /** One round of the worker's loop: `None` if the chunk cannot be read, else the step forward. */
  method ScanNext(reader: Reader, r: Region, off: int, needle: nat, align: int, local: seq<int>, ghost holds: Select)
    returns (local': seq<int>, step: Option<nat>)
    requires Sees(reader, needle, holds) && align >= 1 && needle < PAST_U64 && 0 <= off < r.size
    ensures step == None ==>
              local' == local && ChunkedHits(holds, reader, align, r, off) == [] && Advanced(reader, r, off) == 0
    ensures step.Some? ==> && step.value >= 1
                           && local' + ChunkedHits(holds, reader, align, r, off + step.value)
                              == local + ChunkedHits(holds, reader, align, r, off)
                           && step.value + Advanced(reader, r, off + step.value) == Advanced(reader, r, off)
  {
    local' := local;
    var n := ChunkAt(r, off);
    var chunk := reader(r.base + off, n);
    if chunk == None {
      return local, None;
    }
    NextChunk(holds, reader, align, r, off, local);
    SeesChunk(reader, needle, holds, r.base + off, n);
    local' := ScanChunk(chunk.value, r.base + off, needle, align, local, holds);
    step := Some(Advance(r, off));
  }

  /** One worker: its report, and the sum of the advances it adds to the shared counter. */
  method ScanRegion(reader: Reader, r: Region, needle: nat, align: int, ghost holds: Select)
    returns (local: seq<int>, advanced: nat)
    requires Sees(reader, needle, holds) && align >= 1 && needle < PAST_U64
    ensures local == ChunkedHits(holds, reader, align, r, 0)
    ensures advanced == Advanced(reader, r, 0)
  {
    local, advanced := [], 0;
    ghost var all, sum := ChunkedHits(holds, reader, align, r, 0), Advanced(reader, r, 0);
    var off := 0;
    while off < r.size
      invariant 0 <= off
      invariant local + ChunkedHits(holds, reader, align, r, off) == all
      invariant advanced + Advanced(reader, r, off) == sum
      decreases r.size - off
    {
      var step;
      local, step := ScanNext(reader, r, off, needle, align, local, holds);
      if step == None {
        break;
      }
      advanced := advanced + step.value;
      off := off + step.value;
    }
  }

  /** Whatever can be read, a reported address really holds the needle and lies inside the region. */
  lemma {:induction false} HitsAreReal(holds: Select, reader: Reader, align: int, r: Region, off: int, p: int)
    requires align >= 1 && off >= 0 && p in ChunkedHits(holds, reader, align, r, off)
    ensures holds(p) && r.base + off <= p && p + 8 <= r.base + r.size
    decreases r.size - off
  {
    var at := r.base + off;
    FilterMembers(FromStart(holds, align, at), at, at + ChunkAt(r, off) - 7, p);
    if p !in ChunkHits(holds, align, at, ChunkAt(r, off)) {
      HitsAreReal(holds, reader, align, r, off + Advance(r, off), p);
    }
  }

  // ---------- when the chunked scan is the naive scan ----------

  /** The chunk starts on the grid, or (with the checking loop) holds no grid address, or no address at all. */
  predicate FaithfulChunk(align: int, at: int, n: int)
    requires align >= 1
  {
    n < 8 || Aligned(at, align) || (align != 8 && ToAligned(at, align) + 8 > n)
  }

  /** Every chunk of the region is faithful, from offset `off` on. */
  predicate Faithful(r: Region, align: int, off: int)
    requires align >= 1 && off >= 0
    decreases r.size - off
  {
    off >= r.size
    || (FaithfulChunk(align, r.base + off, ChunkAt(r, off)) && Faithful(r, align, off + Advance(r, off)))
  }

  lemma SumAligned(a: int, b: int, n: int)
    requires n >= 1 && Aligned(a, n)
    ensures Aligned(a + b, n) <==> Aligned(b, n)
  {
    RemainderIs(a + b, n, a / n + b / n, b % n);
  }

  lemma FaithfulChunkAgrees(holds: Select, align: int, at: int, n: int)
    requires align >= 1 && FaithfulChunk(align, at, n)
    ensures ChunkHits(holds, align, at, n) == Filter(OnGrid(holds, align), at, at + n - 7)
  {
    forall p | at <= p < at + n - 7 ensures FromStart(holds, align, at)(p) == OnGrid(holds, align)(p) {
      if Aligned(at, align) {
        SumAligned(at, p - at, align);
        assert at + (p - at) == p;
      }
    }
    FilterAgree(FromStart(holds, align, at), OnGrid(holds, align), at, at + n - 7);
  }

  /** Over a readable region whose chunks are faithful, the worker reports the naive list. */
  lemma {:induction false} FaithfulAgrees(holds: Select, reader: Reader, align: int, r: Region, off: int)
    requires align >= 1 && off >= 0 && FullyReadable(reader, r) && Faithful(r, align, off)
    ensures ChunkedHits(holds, reader, align, r, off) == Filter(OnGrid(holds, align), r.base + off, r.base + r.size - 7)
    decreases r.size - off
  {
    if off < r.size {
      var at, n := r.base + off, ChunkAt(r, off);
      FaithfulChunkAgrees(holds, align, at, n);
      FaithfulAgrees(holds, reader, align, r, off + Advance(r, off));
      if n < r.size - off {
        FilterSplit(OnGrid(holds, align), at, at + n - 7, r.base + r.size - 7);
      }
    }
  }

  /** What one chunk's list holds. */
  lemma ChunkMembers(holds: Select, align: int, at: int, n: int, p: int)
    requires align >= 1
    ensures p in ChunkHits(holds, align, at, n) <==> at <= p < at + n - 7 && FromStart(holds, align, at)(p)
  {
    FilterMembers(FromStart(holds, align, at), at, at + n - 7, p);
  }

  /** An address reported from `off` on is reported by the chunk there or by a later one. */
  lemma FirstOrLater(holds: Select, reader: Reader, align: int, r: Region, off: int, p: int)
    requires align >= 1 && 0 <= off < r.size && reader(r.base + off, ChunkAt(r, off)) != None
    ensures p in ChunkedHits(holds, reader, align, r, off)
            <==> p in ChunkHits(holds, align, r.base + off, ChunkAt(r, off))
                 || p in ChunkedHits(holds, reader, align, r, off + Advance(r, off))
  {
  }

  /** A chunk full of needles that starts off the grid reports an address off the grid, or misses one on it. */
  lemma UnfaithfulWitness(holds: Select, align: int, at: int, n: int) returns (w: int)
    requires align >= 1 && !FaithfulChunk(align, at, n)
    requires forall p :: at <= p < at + n - 7 ==> holds(p)
    ensures at <= w < at + n - 7 && (w in ChunkHits(holds, align, at, n) <==> !Aligned(w, align))
  {
    if align == 8 {
      w := at;
      MultipleOf(0, 8);
      assert Aligned(at - at, 8) && holds(at);
    } else {
      var d := ToAligned(at, align);
      w := at + d;
      BetweenMultiples(0, align, d);
      assert w - at == d;
    }
    ChunkMembers(holds, align, at, n, w);
  }

  /** So does a region full of needles that has such a chunk. */
  lemma {:induction false} UnfaithfulDiffers(holds: Select, reader: Reader, align: int, r: Region, off: int)
    returns (w: int)
    requires align >= 1 && off >= 0 && FullyReadable(reader, r) && !Faithful(r, align, off)
    requires forall p :: r.base <= p && p + 8 <= r.base + r.size ==> holds(p)
    ensures r.base + off <= w < r.base + r.size - 7
    ensures w in ChunkedHits(holds, reader, align, r, off) <==> !Aligned(w, align)
    decreases r.size - off
  {
    var at, n, next := r.base + off, ChunkAt(r, off), off + Advance(r, off);
    if FaithfulChunk(align, at, n) {
      w := UnfaithfulDiffers(holds, reader, align, r, next);
      ChunkMembers(holds, align, at, n, w);
    } else {
      w := UnfaithfulWitness(holds, align, at, n);
      if w in ChunkedHits(holds, reader, align, r, next) {
        HitsAreReal(holds, reader, align, r, next, w);
      }
    }
    FirstOrLater(holds, reader, align, r, off, w);
  }

  /** The reader that delivers whatever is in memory. */
  function AllReader(mem: Mem): Reader {
    (a: int, n: nat) => if Readable(mem, a, n) then Some(BytesAt(mem, a, n)) else None
  }

  lemma AllReaderReads(mem: Mem, r: Region)
    requires Readable(mem, r.base, r.size)
    ensures Honest(AllReader(mem), mem) && FullyReadable(AllReader(mem), r)
  {
  }

  lemma NaiveMembers(holds: Select, align: int, r: Region, p: int)
    requires align >= 1
    ensures p in NaiveHits(holds, align, r) <==> Within(r, p) && OnGrid(holds, align)(p)
  {
    FilterMembers(OnGrid(holds, align), r.base, r.base + r.size - 7, p);
  }

  lemma NeedlesShow(holds: Select, reader: Reader, align: int, r: Region)
    requires align >= 1 && FullyReadable(reader, r) && !Faithful(r, align, 0)
    requires forall p :: r.base <= p && p + 8 <= r.base + r.size ==> holds(p)
    ensures ChunkedHits(holds, reader, align, r, 0) != NaiveHits(holds, align, r)
  {
    var w := UnfaithfulDiffers(holds, reader, align, r, 0);
    NaiveMembers(holds, align, r, w);
  }

  /** The worker's report on `r` is the naive list of its matches. */
  ghost predicate Naively(mem: Mem, needle: nat, reader: Reader, align: int, r: Region)
    requires align >= 1
  {
    ChunkedHits(Holding(mem, needle), reader, align, r, 0) == NaiveHits(Holding(mem, needle), align, r)
  }

  /**
   * The regions and alignments for which the worker reports exactly the naive list, whatever the memory holds: those
   * whose chunk starts all fall on the grid, unless such a chunk holds no grid address for the checking loop to miss.
   */
  lemma ChunkedIsNaive(r: Region, align: int)
    requires align >= 1
    ensures Faithful(r, align, 0) <==>
            forall mem, needle, reader | Honest(reader, mem) && FullyReadable(reader, r) ::
              Naively(mem, needle, reader, align, r)
  {
    if Faithful(r, align, 0) {
      forall mem, needle, reader | Honest(reader, mem) && FullyReadable(reader, r)
        ensures Naively(mem, needle, reader, align, r)
      {
        FaithfulAgrees(Holding(mem, needle), reader, align, r, 0);
      }
    } else {
      var mem := ZeroMemory(r);
      AllReaderReads(mem, r);
      forall p | r.base <= p && p + 8 <= r.base + r.size ensures Holding(mem, 0)(p) {
        ZeroMemoryHolds(r, p);
      }
      NeedlesShow(Holding(mem, 0), AllReader(mem), align, r);
      assert !Naively(mem, 0, AllReader(mem), align, r);
    }
  }

  /** Every byte offset is on the grid of alignment 1. */
  lemma {:induction false} AlignmentOneFaithful(r: Region, off: int)
    requires off >= 0
    ensures Faithful(r, 1, off)
    decreases r.size - off
  {
    if off < r.size {
      AlignmentOneFaithful(r, off + Advance(r, off));
    }
  }

  /** The default alignment: on a region that starts on the grid the scan is the naive one iff one chunk spans it. */
  lemma AlignmentEightFaithful(r: Region)
    requires Aligned(r.base, 8)
    ensures Faithful(r, 8, 0) <==> r.size <= CHUNK
  {
    if r.size > CHUNK {
      var next := Advance(r, 0);
      assert next == CHUNK - 7 && next < r.size && ChunkAt(r, next) >= 8;
      assert CHUNK - 7 == 8 * 524287 + 1;
      assert !Aligned(r.base + next, 8);
      assert !FaithfulChunk(8, r.base + next, ChunkAt(r, next));
    }
  }

  /** A region of at most one chunk that starts on the grid is scanned naively, for any alignment. */
  lemma OneChunkFaithful(r: Region, align: int)
    requires align >= 1 && Aligned(r.base, align) && r.size <= CHUNK
    ensures Faithful(r, align, 0)
  {
  }

  // ---------- all regions, sorted ----------

  /** The workers' reports, one after the other. */
  ghost function AllChunked(holds: Select, reader: Reader, align: int, regions: seq<Region>): seq<int>
    requires align >= 1
  {
    if regions == [] then []
    else
      AllChunked(holds, reader, align, regions[..|regions| - 1])
      + ChunkedHits(holds, reader, align, regions[|regions| - 1], 0)
  }

  predicate Disjoint(regions: seq<Region>) {
    forall i, j :: 0 <= i < j < |regions| ==>
      || regions[i].base + regions[i].size <= regions[j].base
      || regions[j].base + regions[j].size <= regions[i].base
  }

  predicate InSome(regions: seq<Region>, p: int) { exists r :: r in regions && Within(r, p) }

  /** An aligned address of some region that holds the needle. */
  ghost predicate IsMatch(holds: Select, align: int, regions: seq<Region>, p: int)
    requires align >= 1
  {
    OnGrid(holds, align)(p) && InSome(regions, p)
  }

  lemma OneRegionOnly(init: seq<Region>, last: Region, p: int)
    requires Disjoint(init + [last])
    ensures InSome(init + [last], p) <==> InSome(init, p) || Within(last, p)
    ensures !(InSome(init, p) && Within(last, p))
    ensures Disjoint(init)
  {
    var all := init + [last];
    assert all[|init|] == last;
    assert forall i :: 0 <= i < |init| ==> all[i] == init[i];
    if r :| r in init && Within(r, p) {
      var i :| 0 <= i < |init| && init[i] == r;
      assert all[i] == r && r in all;
    }
    assert forall r :: r in all <==> r in init || r == last;
  }

  /** The naive lists of all regions. */
  ghost function AllNaive(holds: Select, align: int, regions: seq<Region>): seq<int>
    requires align >= 1
  {
    if regions == [] then []
    else AllNaive(holds, align, regions[..|regions| - 1]) + NaiveHits(holds, align, regions[|regions| - 1])
  }

  lemma {:induction false} AllFaithful(holds: Select, reader: Reader, align: int, regions: seq<Region>)
    requires align >= 1
    requires forall r :: r in regions ==> FullyReadable(reader, r) && Faithful(r, align, 0)
    ensures AllChunked(holds, reader, align, regions) == AllNaive(holds, align, regions)
  {
    if regions != [] {
      var last := regions[|regions| - 1];
      assert last in regions;
      AllFaithful(holds, reader, align, regions[..|regions| - 1]);
      FaithfulAgrees(holds, reader, align, last, 0);
      assert ChunkedHits(holds, reader, align, last, 0) == NaiveHits(holds, align, last);
    }
  }

  lemma NaiveCounts(holds: Select, align: int, r: Region, p: int)
    requires align >= 1
    ensures multiset(NaiveHits(holds, align, r))[p] == if OnGrid(holds, align)(p) && Within(r, p) then 1 else 0
  {
    FilterCounts(OnGrid(holds, align), r.base, r.base + r.size - 7, p);
  }

  /** Every match is listed for exactly one region, exactly once; nothing else is listed. */
  lemma {:induction false} AllNaiveCounts(holds: Select, align: int, regions: seq<Region>, p: int)
    requires align >= 1 && Disjoint(regions)
    ensures multiset(AllNaive(holds, align, regions))[p] == if IsMatch(holds, align, regions, p) then 1 else 0
  {
    if regions != [] {
      var init, last := regions[..|regions| - 1], regions[|regions| - 1];
      assert regions == init + [last];
      OneRegionOnly(init, last, p);
      AllNaiveCounts(holds, align, init, p);
      NaiveCounts(holds, align, last, p);
      MultisetOfSum(AllNaive(holds, align, init), NaiveHits(holds, align, last), p);
    }
  }

  /**
   * Over disjoint, readable regions with faithful chunks, the sorted result is the list of all aligned matches, in
   * strictly increasing order, so nothing is missed or repeated across chunks and workers.
   */
  lemma SortedHitsExact(holds: Select, reader: Reader, align: int, regions: seq<Region>, hits: seq<int>)
    requires align >= 1 && Disjoint(regions)
    requires forall r :: r in regions ==> FullyReadable(reader, r) && Faithful(r, align, 0)
    requires Ascending(hits) && multiset(hits) == multiset(AllChunked(holds, reader, align, regions))
    ensures StrictlyIncreasing(hits)
    ensures forall p :: p in hits <==> IsMatch(holds, align, regions, p)
  {
    AllFaithful(holds, reader, align, regions);
    forall p
      ensures multiset(hits)[p] <= 1
      ensures p in hits <==> IsMatch(holds, align, regions, p)
    {
      AllNaiveCounts(holds, align, regions, p);
      assert p in hits <==> p in multiset(hits);
    }
    NoRepeats(hits);
  }

  /** At alignment 1 the scan is complete over any disjoint, readable regions, of whatever size and start. */
  lemma ByteScanExact(holds: Select, reader: Reader, regions: seq<Region>, hits: seq<int>)
    requires Disjoint(regions) && forall r :: r in regions ==> FullyReadable(reader, r)
    requires Ascending(hits) && multiset(hits) == multiset(AllChunked(holds, reader, 1, regions))
    ensures StrictlyIncreasing(hits)
    ensures forall p :: p in hits <==> holds(p) && InSome(regions, p)
  {
    forall r | r in regions ensures Faithful(r, 1, 0) {
      AlignmentOneFaithful(r, 0);
    }
    SortedHitsExact(holds, reader, 1, regions, hits);
    forall p ensures IsMatch(holds, 1, regions, p)
                     <==> holds(p) && InSome(regions, p)
    {
      assert Aligned(p, 1);
    }
  }

  /** Whatever can be read, in whatever regions, memory really holds the needle at a reported address. */
  lemma {:induction false} AllHitsAreReal(
      mem: Mem, needle: nat, reader: Reader, align: int, regions: seq<Region>, p: int)
    requires align >= 1 && p in AllChunked(Holding(mem, needle), reader, align, regions)
    ensures PointerAt(mem, p) == Some(needle) && InSome(regions, p)
  {
    var init, last := regions[..|regions| - 1], regions[|regions| - 1];
    if p in ChunkedHits(Holding(mem, needle), reader, align, last, 0) {
      HitsAreReal(Holding(mem, needle), reader, align, last, 0, p);
      assert last in regions && Within(last, p);
    } else {
      AllHitsAreReal(mem, needle, reader, align, init, p);
      var r :| r in init && Within(r, p);
      assert r in regions;
    }
  }

  /** The reports of all workers, one after the other. */
  method ScanRegions(reader: Reader, regions: seq<Region>, needle: nat, align: int, ghost holds: Select)
    returns (hits: seq<int>)
    requires Sees(reader, needle, holds) && align >= 1 && needle < PAST_U64
    ensures hits == AllChunked(holds, reader, align, regions)
  {
    hits := [];
    for k := 0 to |regions|
      invariant hits == AllChunked(holds, reader, align, regions[..k])
    {
      var local, advanced := ScanRegion(reader, regions[k], needle, align, holds);
      assert regions[..k + 1][..k] == regions[..k];
      hits := hits + local;
    }
    assert regions[..|regions|] == regions;
  }

  /**
   * `scan_rw_for_u64`, without the progress calls: every worker's report, in address order. Whatever can be read, each
   * reported address holds the needle; over disjoint, readable regions with faithful chunks exactly the aligned ones
   * that hold it are reported, once each.
   */
  method ScanRwForU64(reader: Reader, regions: seq<Region>, needle: nat, alignment: nat, ghost mem: Mem)
    returns (hits: seq<int>)
    requires Honest(reader, mem) && needle < PAST_U64
    ensures Ascending(hits)
    ensures multiset(hits) == multiset(AllChunked(Holding(mem, needle), reader, Max(alignment, 1), regions))
    ensures forall p :: p in hits ==> PointerAt(mem, p) == Some(needle) && InSome(regions, p)
    ensures Disjoint(regions) && (forall r :: r in regions ==>
                                    FullyReadable(reader, r) && Faithful(r, Max(alignment, 1), 0)) ==>
              && StrictlyIncreasing(hits)
              && forall p :: p in hits <==> IsMatch(Holding(mem, needle), Max(alignment, 1), regions, p)
  {
    var align := Max(alignment, 1);
    ghost var holds := Holding(mem, needle);
    HonestReaderSees(reader, mem, needle);
    var reported := ScanRegions(reader, regions, needle, align, holds);
    hits := Sort(reported);
    forall p | p in hits ensures PointerAt(mem, p) == Some(needle) && InSome(regions, p) {
      assert p in multiset(reported);
      AllHitsAreReal(mem, needle, reader, align, regions, p);
    }
    if Disjoint(regions) && forall r :: r in regions ==> FullyReadable(reader, r) && Faithful(r, align, 0) {
      SortedHitsExact(holds, reader, align, regions, hits);
    }
  }
}
