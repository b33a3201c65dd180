/**
 * Chunked pointer search over the read-write regions of a process, against one pass over each whole region.
 */
module PointerScan {
  import opened Alignment
  import opened Memory

  datatype Candidate = Candidate(sourceAddr: int, value: int, trailingOffset: int)

  /** What is searched for: aligned addresses whose value lies in `[lower, upper]`. */
  datatype Query = Query(alignment: int, lower: int, upper: int)

  /** `ReadProcessMemory`: the number of bytes delivered for a request, or failure. */
  type Os = (int, nat) -> Option<nat>

  /** Delivered bytes are readable bytes, at least one and no more than asked for. */
  ghost predicate Honest(os: Os, mem: Mem) {
    forall a, n :: os(a, n).Some? ==> 1 <= os(a, n).value <= n && Readable(mem, a, os(a, n).value)
  }

  /** Every read inside the region delivers all that was asked for. */
  ghost predicate FullyReadable(os: Os, mem: Mem, r: Region) {
    && Readable(mem, r.base, r.size)
    && forall a, n :: r.base <= a && n > 0 && a + n <= r.base + r.size ==> os(a, n) == Some(n)
  }

  function Found(q: Query, p: int, v: int): Candidate { Candidate(p, v, q.upper - v) }

  /** The address is aligned and really holds a value in the window. */
  ghost predicate Matches(mem: Mem, q: Query, p: int)
    requires q.alignment >= 1
  {
    Aligned(p, q.alignment) && PointerAt(mem, p).Some? && q.lower <= PointerAt(mem, p).value <= q.upper
  }

  ghost function MatchAt(mem: Mem, q: Query, p: int): seq<Candidate>
    requires q.alignment >= 1
  {
    if Matches(mem, q, p) then [Found(q, p, PointerAt(mem, p).value)] else []
  }

  // ---------- one pass over a range of positions ----------

  /** Candidates at positions `[lo, hi)`, in address order. */
  ghost function Hits(mem: Mem, q: Query, lo: int, hi: int): seq<Candidate>
    requires q.alignment >= 1
    decreases hi - lo
  {
    if hi <= lo then [] else Hits(mem, q, lo, hi - 1) + MatchAt(mem, q, hi - 1)
  }

  /** The whole-region scan: every position at which eight bytes fit. */
  ghost function RegionHits(mem: Mem, q: Query, r: Region): seq<Candidate>
    requires q.alignment >= 1
  {
    Hits(mem, q, r.base, r.base + r.size - 7)
  }

  lemma {:induction false} HitsSplit(mem: Mem, q: Query, lo: int, mid: int, hi: int)
    requires q.alignment >= 1
    requires lo <= mid <= hi
    ensures Hits(mem, q, lo, hi) == Hits(mem, q, lo, mid) + Hits(mem, q, mid, hi)
    decreases hi - mid
  {
    if mid < hi {
      HitsSplit(mem, q, lo, mid, hi - 1);
    }
  }

  /** A stretch without an aligned position contributes nothing. */
  lemma {:induction false} NoHits(mem: Mem, q: Query, lo: int, hi: int)
    requires q.alignment >= 1
    requires forall p :: lo <= p < hi ==> !Aligned(p, q.alignment)
    ensures Hits(mem, q, lo, hi) == []
    decreases hi - lo
  {
    if lo < hi {
      NoHits(mem, q, lo, hi - 1);
    }
  }

  /** A reported candidate is a match, with its value and its distance below the target. */
  ghost predicate Genuine(mem: Mem, q: Query, c: Candidate)
    requires q.alignment >= 1
  {
    Matches(mem, q, c.sourceAddr) && c == Found(q, c.sourceAddr, PointerAt(mem, c.sourceAddr).value)
  }

  /** The matching positions of `[lo, hi)`, each once, in increasing address order. */
  ghost predicate ExactlyTheMatches(mem: Mem, q: Query, lo: int, hi: int, hits: seq<Candidate>)
    requires q.alignment >= 1
  {
    && (forall c :: c in hits ==> lo <= c.sourceAddr < hi && Genuine(mem, q, c))
    && (forall p :: lo <= p < hi && Matches(mem, q, p) ==> Found(q, p, PointerAt(mem, p).value) in hits)
    && (forall i, j :: 0 <= i < j < |hits| ==> hits[i].sourceAddr < hits[j].sourceAddr)
  }

  lemma ExactPlusOne(mem: Mem, q: Query, lo: int, hi: int, init: seq<Candidate>)
    requires q.alignment >= 1 && lo < hi && ExactlyTheMatches(mem, q, lo, hi - 1, init)
    ensures ExactlyTheMatches(mem, q, lo, hi, init + MatchAt(mem, q, hi - 1))
  {
    if Matches(mem, q, hi - 1) {
      var last := Found(q, hi - 1, PointerAt(mem, hi - 1).value);
      assert MatchAt(mem, q, hi - 1) == [last] && Genuine(mem, q, last);
      assert forall c :: c in init + [last] <==> c in init || c == last;
    } else {
      assert init + MatchAt(mem, q, hi - 1) == init;
    }
  }

  lemma {:induction false} HitsExact(mem: Mem, q: Query, lo: int, hi: int)
    requires q.alignment >= 1
    ensures ExactlyTheMatches(mem, q, lo, hi, Hits(mem, q, lo, hi))
    decreases hi - lo
  {
    if lo < hi {
      HitsExact(mem, q, lo, hi - 1);
      ExactPlusOne(mem, q, lo, hi, Hits(mem, q, lo, hi - 1));
    }
  }

  // ---------- the chunked scan ----------

  /** What the chunked scan of a readable region reports from offset `off` on. */
  ghost function ChunkedHits(mem: Mem, q: Query, r: Region, chunk: nat, off: int): seq<Candidate>
    requires q.alignment >= 1 && chunk >= 1 && off >= 0
    decreases r.size - off
  {
    if off >= r.size then []
    else
      var n := Min(chunk, r.size - off);
      if n < 8 then []
      else
        var at := r.base + off;
        Hits(mem, q, at, at + n - 7) + ChunkedHits(mem, q, r, chunk, off + Max(n - 7, q.alignment))
  }

  /** Striding from one aligned position to the next, no farther than `end`, passes over that one match only. */
  lemma Stride(mem: Mem, q: Query, base: int, at: int, end: int)
    requires q.alignment >= 1 && Aligned(at, q.alignment) && base <= at < end
    ensures Hits(mem, q, base, Min(at + q.alignment, end)) == Hits(mem, q, base, at) + MatchAt(mem, q, at)
    ensures Aligned(at + q.alignment, q.alignment)
  {
    var next := Min(at + q.alignment, end);
    forall p | at < p < next ensures !Aligned(p, q.alignment) {
      BetweenMultiples(at, q.alignment, p);
    }
    NoHits(mem, q, at + 1, next);
    HitsSplit(mem, q, base, at + 1, next);
    NextAligned(at, q.alignment);
  }

  /** What a chunk holds at an aligned index decides whether that position matches. */
  lemma ChunkValue(mem: Mem, chunk: seq<byte>, base: int, i: nat, q: Query)
    requires Readable(mem, base, |chunk|) && chunk == BytesAt(mem, base, |chunk|) && i + 8 <= |chunk|
    requires q.alignment >= 1 && Aligned(base + i, q.alignment)
    ensures var v := LeValue(chunk[i..i + 8]);
            MatchAt(mem, q, base + i) == if v >= q.lower && v <= q.upper then [Found(q, base + i, v)] else []
  {
    assert chunk[i..i + 8] == BytesAt(mem, base + i, 8);
    assert PointerAt(mem, base + i) == Some(LeValue(chunk[i..i + 8]));
  }

  /** One visited position, added to what was reported up to it. */
  lemma VisitAligned(
      mem: Mem, chunk: seq<byte>, base: int, i: nat, q: Query, out: seq<Candidate>, before: seq<Candidate>)
    requires Readable(mem, base, |chunk|) && chunk == BytesAt(mem, base, |chunk|) && i + 8 <= |chunk|
    requires q.alignment >= 1 && Aligned(base + i, q.alignment)
    requires before == out + Hits(mem, q, base, base + i)
    ensures Aligned(base + i + q.alignment, q.alignment)
    ensures var v, next := LeValue(chunk[i..i + 8]), Min(base + i + q.alignment, base + |chunk| - 7);
            before + (if v >= q.lower && v <= q.upper then [Found(q, base + i, v)] else [])
            == out + Hits(mem, q, base, next)
  {
    ChunkValue(mem, chunk, base, i, q);
    Stride(mem, q, base, base + i, base + |chunk| - 7);
  }

  /** Before the first aligned position there is nothing to report. */
  lemma FirstAligned(mem: Mem, q: Query, base: int, end: int)
    requires q.alignment >= 1
    ensures Hits(mem, q, base, Min(base + ToAligned(base, q.alignment), end)) == []
    ensures Aligned(base + ToAligned(base, q.alignment), q.alignment)
  {
    NoHits(mem, q, base, Min(base + ToAligned(base, q.alignment), end));
  }

  /** `scan_chunk_for_pointers`: stride through one delivered chunk from its first aligned address. */
  method ScanChunk(ghost mem: Mem, chunk: seq<byte>, chunkBase: int, q: Query, out: seq<Candidate>)
    returns (out': seq<Candidate>)
    requires q.alignment >= 1 && Readable(mem, chunkBase, |chunk|) && chunk == BytesAt(mem, chunkBase, |chunk|)
    ensures out' == out + Hits(mem, q, chunkBase, chunkBase + |chunk| - 7)
  {
    out' := out;
    if |chunk| < 8 {
      return;
    }
    var i := ToAligned(chunkBase, q.alignment);
    ghost var end := chunkBase + |chunk| - 7;
    FirstAligned(mem, q, chunkBase, end);
    while i + 8 <= |chunk|
      invariant 0 <= i && Aligned(chunkBase + i, q.alignment)
      invariant out' == out + Hits(mem, q, chunkBase, Min(chunkBase + i, end))
    {
      VisitAligned(mem, chunk, chunkBase, i, q, out, out');
      assert chunkBase + i + q.alignment == chunkBase + (i + q.alignment);
      var v := LeValue(chunk[i..i + 8]);
      if v >= q.lower && v <= q.upper {
        out' := out' + [Found(q, chunkBase + i, v)];
      }
      i := i + q.alignment;
    }
  }

  ghost predicate AllGenuine(mem: Mem, q: Query, hits: seq<Candidate>)
    requires q.alignment >= 1
  {
    forall c :: c in hits ==> Genuine(mem, q, c)
  }

  /** One chunk, and what the later ones report. */
  lemma ChunkThenRest(mem: Mem, q: Query, r: Region, chunk: nat, off: int, n: int)
    requires q.alignment >= 1 && chunk >= 1 && 0 <= off < r.size && n == Min(chunk, r.size - off)
    ensures ChunkedHits(mem, q, r, chunk, off)
            == if n < 8 then []
               else Hits(mem, q, r.base + off, r.base + off + n - 7)
                    + ChunkedHits(mem, q, r, chunk, off + Max(n - 7, q.alignment))
  {
  }

  /** What was reported before a chunk, the chunk's own report and what is left make up the whole report. */
  lemma ReportAdvances(
      mem: Mem, q: Query, r: Region, chunk: nat, off: int, out: seq<Candidate>, all: seq<Candidate>)
    requires q.alignment >= 1 && chunk >= 1 && 0 <= off < r.size
    requires out + ChunkedHits(mem, q, r, chunk, off) == all
    ensures var n := Min(chunk, r.size - off);
            if n < 8 then out == all
            else (out + Hits(mem, q, r.base + off, r.base + off + n - 7))
                 + ChunkedHits(mem, q, r, chunk, off + Max(n - 7, q.alignment)) == all
  {
    ChunkThenRest(mem, q, r, chunk, off, Min(chunk, r.size - off));
  }

  lemma AllGenuineAppend(mem: Mem, q: Query, hits: seq<Candidate>, lo: int, hi: int)
    requires q.alignment >= 1 && AllGenuine(mem, q, hits)
    ensures AllGenuine(mem, q, hits + Hits(mem, q, lo, hi))
  {
    HitsExact(mem, q, lo, hi);
  }

  /** One chunk of a region: the step to the next one, or 0 if the scan of the region ends here. */
  method ScanNext(mem: Mem, os: Os, r: Region, q: Query, chunkBytes: nat, off: int, out: seq<Candidate>)
    returns (out': seq<Candidate>, step: nat)
    requires Honest(os, mem) && q.alignment >= 1 && chunkBytes >= 1 && 0 <= off < r.size
    requires AllGenuine(mem, q, out)
    ensures AllGenuine(mem, q, out')
    ensures FullyReadable(os, mem, r) ==>
              var n := Min(chunkBytes, r.size - off);
              if n < 8 then out' == out && step == 0
              else out' == out + Hits(mem, q, r.base + off, r.base + off + n - 7) && step == Max(n - 7, q.alignment)
  {
    var want := Min(chunkBytes, r.size - off);
    var chunkBase := r.base + off;
    var got := os(chunkBase, want);
    if got == None {
      return out, 0;
    }
    var n := got.value;
    if n < 8 {
      return out, 0;
    }
    AllGenuineAppend(mem, q, out, chunkBase, chunkBase + n - 7);
    out' := ScanChunk(mem, BytesAt(mem, chunkBase, n), chunkBase, q, out);
    step := Max(n - 7, q.alignment);
  }

  /** The scan of one region. */
  method ScanRegion(mem: Mem, os: Os, r: Region, q: Query, chunkBytes: nat, out: seq<Candidate>)
    returns (out': seq<Candidate>)
    requires Honest(os, mem) && q.alignment >= 1 && chunkBytes >= 1
    requires AllGenuine(mem, q, out)
    ensures AllGenuine(mem, q, out')
    ensures FullyReadable(os, mem, r) ==> out' == out + ChunkedHits(mem, q, r, chunkBytes, 0)
  {
    out' := out;
    var off := 0;
    ghost var full := FullyReadable(os, mem, r);
    ghost var all := out + ChunkedHits(mem, q, r, chunkBytes, 0);
    while off < r.size
      invariant 0 <= off
      invariant AllGenuine(mem, q, out')
      invariant full ==> out' + ChunkedHits(mem, q, r, chunkBytes, off) == all
      decreases r.size - off
    {
      ghost var before, at := out', off;
      var step;
      out', step := ScanNext(mem, os, r, q, chunkBytes, off, out');
      if full {
        ReportAdvances(mem, q, r, chunkBytes, at, before, all);
      }
      if step == 0 {
        return;
      }
      off := off + step;
    }
  }

  /** The chunked scans of all regions, one after the other. */
  ghost function AllChunked(mem: Mem, q: Query, regions: seq<Region>, chunk: nat): seq<Candidate>
    requires q.alignment >= 1 && chunk >= 1
  {
    if regions == [] then []
    else AllChunked(mem, q, regions[..|regions| - 1], chunk) + ChunkedHits(mem, q, regions[|regions| - 1], chunk, 0)
  }

  // ---------- when chunking is invisible ----------

  /** The first aligned position of the region fits the chunk, or the region has no aligned position at all. */
  predicate Covers(r: Region, alignment: int, chunk: nat)
    requires alignment >= 1
  {
    var first := ToAligned(r.base, alignment);
    first + 8 <= chunk || r.size < first + 8
  }

  /** Between the last position of a chunk that holds an aligned one and the next step, nothing is aligned. */
  lemma NothingBetween(mem: Mem, q: Query, at: int, first: int, mid: int, next: int)
    requires q.alignment >= 1 && at <= first < mid && Aligned(first, q.alignment) && next <= at + q.alignment
    ensures Hits(mem, q, mid, next) == []
  {
    forall p | mid <= p < next ensures !Aligned(p, q.alignment) {
      BetweenMultiples(first, q.alignment, p);
    }
    NoHits(mem, q, mid, next);
  }

  /** A chunk that reaches the end, or holds its first aligned position `first`, may be followed by a step of `step`. */
  lemma CoverStep(mem: Mem, q: Query, at: int, first: int, n: int, step: int, end: int)
    requires q.alignment >= 1 && n >= 8 && at + n - 7 <= end && step == Max(n - 7, q.alignment)
    requires at + n - 7 == end || (at <= first <= at + n - 8 && Aligned(first, q.alignment))
    ensures Hits(mem, q, at, at + n - 7) + Hits(mem, q, at + step, end) == Hits(mem, q, at, end)
  {
    var mid := at + n - 7;
    if mid < end && step > n - 7 {
      var next := Min(at + step, end);
      NothingBetween(mem, q, at, first, mid, next);
      HitsSplit(mem, q, mid, next, end);
    }
    HitsSplit(mem, q, at, mid, end);
  }

  /** Either chunks abut, or the scan is at the region's phase, or past its last position. */
  predicate InPhase(r: Region, alignment: int, chunk: nat, off: int)
    requires alignment >= 1
  {
    || chunk - 7 >= alignment
    || off >= r.size - 7
    || ToAligned(r.base + off, alignment) == ToAligned(r.base, alignment)
  }

  lemma StaysInPhase(r: Region, alignment: int, chunk: nat, off: int)
    requires alignment >= 1 && chunk >= 8 && 0 <= off < r.size && InPhase(r, alignment, chunk, off)
    ensures InPhase(r, alignment, chunk, off + Max(Min(chunk, r.size - off) - 7, alignment))
  {
    SamePhase(r.base + off, alignment);
    assert r.base + off + alignment == r.base + (off + alignment);
  }

  lemma ChunkHoldsFirst(r: Region, alignment: int, chunk: nat, off: int)
    requires alignment >= 1 && ToAligned(r.base, alignment) + 8 <= chunk
    requires 0 <= off && off + 8 <= r.size && InPhase(r, alignment, chunk, off)
    ensures chunk >= r.size - off || ToAligned(r.base + off, alignment) + 8 <= chunk
  {
  }

  /** One covering chunk at `off`: what the chunk and the rest hold is all there is. */
  lemma CoverOne(mem: Mem, q: Query, r: Region, chunk: nat, off: int, n: int, next: int)
    requires q.alignment >= 1 && 0 <= off && off + 8 <= r.size
    requires ToAligned(r.base, q.alignment) + 8 <= chunk && InPhase(r, q.alignment, chunk, off)
    requires n == Min(chunk, r.size - off) && next == off + Max(n - 7, q.alignment)
    ensures Hits(mem, q, r.base + off, r.base + off + n - 7) + Hits(mem, q, r.base + next, r.base + r.size - 7)
            == Hits(mem, q, r.base + off, r.base + r.size - 7)
  {
    ChunkHoldsFirst(r, q.alignment, chunk, off);
    var at := r.base + off;
    CoverStep(mem, q, at, at + ToAligned(at, q.alignment), n, next - off, r.base + r.size - 7);
  }

  /** From an offset that keeps the region's phase, or with chunks that abut, nothing aligned is skipped. */
  lemma {:induction false} ChunksCover(mem: Mem, q: Query, r: Region, chunk: nat, off: int)
    requires q.alignment >= 1 && chunk >= 1 && off >= 0
    requires ToAligned(r.base, q.alignment) + 8 <= chunk && InPhase(r, q.alignment, chunk, off)
    ensures ChunkedHits(mem, q, r, chunk, off) == Hits(mem, q, r.base + off, r.base + r.size - 7)
    decreases r.size - off
  {
    if off + 8 <= r.size {
      var n := Min(chunk, r.size - off);
      var next := off + Max(n - 7, q.alignment);
      StaysInPhase(r, q.alignment, chunk, off);
      ChunksCover(mem, q, r, chunk, next);
      ChunkThenRest(mem, q, r, chunk, off, n);
      CoverOne(mem, q, r, chunk, off, n, next);
    }
  }

  /** No chunk sees an aligned position: there is none, or each chunk ends before its first one. */
  lemma {:induction false} ChunksMiss(mem: Mem, q: Query, r: Region, chunk: nat, off: int)
    requires q.alignment >= 1 && chunk >= 1 && off >= 0
    requires || r.size < ToAligned(r.base, q.alignment) + 8
             || (&& chunk < ToAligned(r.base, q.alignment) + 8
                 && ToAligned(r.base + off, q.alignment) == ToAligned(r.base, q.alignment))
    ensures ChunkedHits(mem, q, r, chunk, off) == []
    decreases r.size - off
  {
    if off < r.size && Min(chunk, r.size - off) >= 8 {
      var n := Min(chunk, r.size - off);
      var at := r.base + off;
      NoHits(mem, q, at, at + n - 7);
      SamePhase(at, q.alignment);
      ChunksMiss(mem, q, r, chunk, off + Max(n - 7, q.alignment));
    }
  }

  /** Chunked and whole-region scan agree on a region that the chunk covers. */
  lemma CoveredChunksAgree(mem: Mem, q: Query, r: Region, chunk: nat)
    requires q.alignment >= 1 && chunk >= 1 && Covers(r, q.alignment, chunk)
    ensures ChunkedHits(mem, q, r, chunk, 0) == RegionHits(mem, q, r)
  {
    var first := ToAligned(r.base, q.alignment);
    if first + 8 <= chunk {
      ChunksCover(mem, q, r, chunk, 0);
    } else {
      ChunksMiss(mem, q, r, chunk, 0);
      NoHits(mem, q, r.base, r.base + r.size - 7);
    }
  }

  /** In memory full of zeros, a search for 0 loses the first aligned address of an uncovered region. */
  lemma UncoveredRegionLoses(r: Region, alignment: int, chunk: nat) returns (q: Query)
    requires alignment >= 1 && chunk >= 1 && !Covers(r, alignment, chunk)
    ensures q.alignment == alignment
    ensures ChunkedHits(ZeroMemory(r), q, r, chunk, 0) != RegionHits(ZeroMemory(r), q, r)
  {
    q := Query(alignment, 0, 0);
    ChunksMiss(ZeroMemory(r), q, r, chunk, 0);
    var p := r.base + ToAligned(r.base, alignment);
    ZeroMemoryHolds(r, p);
    HitsExact(ZeroMemory(r), q, r.base, r.base + r.size - 7);
  }

  /**
   * The chunk size and alignment for which chunking never loses, adds or reorders a candidate, whatever the memory
   * holds: exactly those where the region's first aligned u64 fits the first chunk, or the region has none.
   */
  lemma ChunkingInvisible(r: Region, alignment: int, chunk: nat)
    requires alignment >= 1 && chunk >= 1
    ensures Covers(r, alignment, chunk) <==>
            forall mem: Mem, q: Query | q.alignment == alignment ::
              ChunkedHits(mem, q, r, chunk, 0) == RegionHits(mem, q, r)
  {
    if Covers(r, alignment, chunk) {
      forall mem: Mem, q: Query | q.alignment == alignment
        ensures ChunkedHits(mem, q, r, chunk, 0) == RegionHits(mem, q, r)
      {
        CoveredChunksAgree(mem, q, r, chunk);
      }
    } else {
      var q := UncoveredRegionLoses(r, alignment, chunk);
    }
  }

  /** A chunk of at least `alignment + 7` bytes covers every region. */
  lemma LargeChunksCover(r: Region, alignment: int, chunk: nat)
    requires alignment >= 1 && chunk >= alignment + 7
    ensures Covers(r, alignment, chunk)
  {
  }

  /** The whole-region scans of all regions. */
  ghost function AllHits(mem: Mem, q: Query, regions: seq<Region>): seq<Candidate>
    requires q.alignment >= 1
  {
    if regions == [] then []
    else AllHits(mem, q, regions[..|regions| - 1]) + RegionHits(mem, q, regions[|regions| - 1])
  }

  lemma {:induction false} AllChunkedAgree(mem: Mem, q: Query, regions: seq<Region>, chunk: nat)
    requires q.alignment >= 1 && chunk >= 1
    requires forall r :: r in regions ==> Covers(r, q.alignment, chunk)
    ensures AllChunked(mem, q, regions, chunk) == AllHits(mem, q, regions)
  {
    if regions != [] {
      AllChunkedAgree(mem, q, regions[..|regions| - 1], chunk);
      CoveredChunksAgree(mem, q, regions[|regions| - 1], chunk);
    }
  }

  const DEFAULT_CHUNK := 256 * 1024

  function QueryOf(target: nat, maxOffset: nat, alignment: nat): Query {
    Query(Max(alignment, 1), Max(target - maxOffset, 0), target)
  }

  function ChunkOf(chunkBytes: nat): nat { if chunkBytes == 0 then DEFAULT_CHUNK else chunkBytes }

  /**
   * `scan_for_pointers_to`: genuine candidates always; over readable regions, exactly the chunked scans in order, and
   * with a chunk that covers every region, exactly the whole-region scans.
   */
  method ScanForPointersTo(
      mem: Mem, os: Os, regions: seq<Region>, target: nat, maxOffset: nat, alignment: nat, chunkBytes: nat)
    returns (out: seq<Candidate>)
    requires Honest(os, mem)
    ensures AllGenuine(mem, QueryOf(target, maxOffset, alignment), out)
    ensures (forall r :: r in regions ==> FullyReadable(os, mem, r)) ==>
              out == AllChunked(mem, QueryOf(target, maxOffset, alignment), regions, ChunkOf(chunkBytes))
    ensures (forall r :: r in regions ==>
               FullyReadable(os, mem, r) && Covers(r, Max(alignment, 1), ChunkOf(chunkBytes))) ==>
              out == AllHits(mem, QueryOf(target, maxOffset, alignment), regions)
  {
    var q := QueryOf(target, maxOffset, alignment);
    var chunk := ChunkOf(chunkBytes);
    out := [];
    ghost var full := forall r :: r in regions ==> FullyReadable(os, mem, r);
    for k := 0 to |regions|
      invariant AllGenuine(mem, q, out)
      invariant full ==> out == AllChunked(mem, q, regions[..k], chunk)
    {
      out := ScanRegion(mem, os, regions[k], q, chunk, out);
      assert regions[..k + 1][..k] == regions[..k];
    }
    assert regions[..|regions|] == regions;
    if forall r :: r in regions ==> Covers(r, q.alignment, chunk) {
      AllChunkedAgree(mem, q, regions, chunk);
    }
  }
}
