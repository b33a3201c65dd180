/**
 * The in-process scan of one range: 4 MiB windows, and for a window that cannot be read as a whole its pages one by
 * one.
 */
module RangeScan {
  import opened Alignment
  import opened HeapScan
  import opened LocalReader
  import opened Memory

  const WINDOW := 4 * 1024 * 1024

  const PAGE := 4096

  /** Pages are readable or unreadable as a whole. */
  ghost predicate PageGranular(mem: Mem) {
    forall x, y :: x in mem && x / PAGE == y / PAGE ==> y in mem
  }

  /** The range lies where the local reader looks at all. */
  predicate InUserSpace(base: int, len: nat) { 0x10000 <= base && base + len <= 0x8000_0000_0000 }

  lemma SpanShows(mem: Mem, at: int, n: nat, needle: nat)
    requires Readable(mem, at, n)
    ensures Shows(BytesAt(mem, at, n), at, needle, Holding(mem, needle))
  {
    var span := BytesAt(mem, at, n);
    forall i: nat | i + 8 <= n ensures Holding(mem, needle)(at + i) <==> U64At(span, i) == needle {
      assert span[i..i + 8] == BytesAt(mem, at + i, 8);
    }
  }

  /** `search_span`: every `align`-th address from the span's start on, whether the start is aligned or not. */
  method SearchSpan(at: int, span: seq<byte>, needle: nat, align: int, hits: seq<int>, ghost holds: Select)
    returns (hits': seq<int>)
    requires align >= 1 && needle < PAST_U64 && Shows(span, at, needle, holds)
    ensures hits' == hits + Visits(holds, align, at, 0, |span|)
  {
    hits' := hits;
    var needleBytes := LeBytes(needle, 8);
    var i := 0;
    while i + 8 <= |span|
      invariant 0 <= i
      invariant hits' + Visits(holds, align, at, i, |span|) == hits + Visits(holds, align, at, 0, |span|)
    {
      BytesOrValue(span[i..i + 8], needle);
      assert holds(at + i) <==> U64At(span, i) == needle;
      VisitOne(holds, align, at, i, |span|, hits');
      if span[i..i + 8] == needleBytes {
        hits' := hits' + [at + i];
      }
      i := i + align;
    }
  }

  // ---------- what the scan reports ----------

  /** What is reported for one piece of memory, given its start and length. */
  type Piece = (int, nat) -> seq<int>

  /** The reports for the pieces that a range is cut into, from offset `off` on. */
  ghost function Cut(piece: Piece, unit: nat, base: int, len: nat, off: nat): seq<int>
    requires unit > 0
    decreases len - off
  {
    if off >= len then []
    else
      var n := Min(len - off, unit);
      piece(base + off, n) + Cut(piece, unit, base, len, off + n)
  }

  /** A page that can be read is searched by itself; one that cannot be read is passed over. */
  ghost function PagePiece(mem: Mem, holds: Select, align: int): Piece
    requires align >= 1
  {
    (at: int, n: nat) => if CanRead(mem, at, n) then Visits(holds, align, at, 0, n) else []
  }

  /** A window that can be read is searched as a whole, another page by page. */
  ghost function WindowPiece(mem: Mem, holds: Select, align: int): Piece
    requires align >= 1
  {
    (at: int, n: nat) =>
      if CanRead(mem, at, n) then Visits(holds, align, at, 0, n) else Cut(PagePiece(mem, holds, align), PAGE, at, n, 0)
  }

  ghost function RangeHits(mem: Mem, holds: Select, align: int, base: int, len: nat): seq<int>
    requires align >= 1
  {
    Cut(WindowPiece(mem, holds, align), WINDOW, base, len, 0)
  }

  /** One piece after the hits found before; the rest is still to come. */
  lemma NextPiece(piece: Piece, unit: nat, base: int, len: nat, off: nat, hits: seq<int>)
    requires unit > 0 && off < len
    ensures hits + Cut(piece, unit, base, len, off)
            == (hits + piece(base + off, Min(len - off, unit)))
               + Cut(piece, unit, base, len, off + Min(len - off, unit))
  {
  }

  /** One page of the fallback; a page that cannot be read is passed over. */
  method ScanPage(mem: Mem, at: int, n: nat, needle: nat, align: int, hits: seq<int>, ghost piece: Piece)
    returns (hits': seq<int>)
    requires align >= 1 && needle < PAST_U64 && n > 0
    requires piece(at, n) == PagePiece(mem, Holding(mem, needle), align)(at, n)
    ensures hits' == hits + piece(at, n)
  {
    hits' := hits;
    if CanRead(mem, at, n) {
      SpanShows(mem, at, n, needle);
      hits' := SearchSpan(at, BytesAt(mem, at, n), needle, align, hits, Holding(mem, needle));
    }
  }

  /** The page-by-page fallback for one window; `piece` names what a page reports. */
  method ScanPages(mem: Mem, at: int, want: nat, needle: nat, align: int, hits: seq<int>, ghost piece: Piece)
    returns (hits': seq<int>)
    requires align >= 1 && needle < PAST_U64
    requires forall a, n {:trigger PagePiece(mem, Holding(mem, needle), align)(a, n)} ::
               piece(a, n) == PagePiece(mem, Holding(mem, needle), align)(a, n)
    ensures hits' == hits + Cut(piece, PAGE, at, want, 0)
  {
    hits' := hits;
    ghost var all := hits + Cut(piece, PAGE, at, want, 0);
    var p := 0;
    while p < want
      invariant 0 <= p
      invariant hits' + Cut(piece, PAGE, at, want, p) == all
      decreases want - p
    {
      var n := Min(want - p, PAGE);
      NextPiece(piece, PAGE, at, want, p, hits');
      hits' := ScanPage(mem, at + p, n, needle, align, hits', piece);
      p := p + n;
    }
  }

  /** One window: as a whole if it can be read, else page by page. */
  method ScanWindow(mem: Mem, at: int, want: nat, needle: nat, align: int, hits: seq<int>, ghost piece: Piece)
    returns (hits': seq<int>)
    requires align >= 1 && needle < PAST_U64 && want > 0
    requires piece(at, want) == WindowPiece(mem, Holding(mem, needle), align)(at, want)
    ensures hits' == hits + piece(at, want)
  {
    if CanRead(mem, at, want) {
      SpanShows(mem, at, want, needle);
      hits' := SearchSpan(at, BytesAt(mem, at, want), needle, align, hits, Holding(mem, needle));
    } else {
      hits' := ScanPages(mem, at, want, needle, align, hits, PagePiece(mem, Holding(mem, needle), align));
    }
  }

  /** The loop over the windows; `piece` names what a window reports. */
  method ScanWindows(mem: Mem, base: int, len: nat, needle: nat, align: int, hits: seq<int>, ghost piece: Piece)
    returns (hits': seq<int>)
    requires align >= 1 && needle < PAST_U64
    requires forall at, n {:trigger WindowPiece(mem, Holding(mem, needle), align)(at, n)} ::
               piece(at, n) == WindowPiece(mem, Holding(mem, needle), align)(at, n)
    ensures hits' == hits + Cut(piece, WINDOW, base, len, 0)
  {
    hits' := hits;
    ghost var all := hits + Cut(piece, WINDOW, base, len, 0);
    var off := 0;
    while off < len
      invariant 0 <= off
      invariant hits' + Cut(piece, WINDOW, base, len, off) == all
      decreases len - off
    {
      var want := Min(len - off, WINDOW);
      NextPiece(piece, WINDOW, base, len, off, hits');
      hits' := ScanWindow(mem, base + off, want, needle, align, hits', piece);
      off := off + want;
    }
  }

  /** `scan_range`. */
  method ScanRange(mem: Mem, base: int, len: nat, needle: nat, align: int, hits: seq<int>) returns (hits': seq<int>)
    requires align >= 1 && needle < PAST_U64
    ensures hits' == hits + RangeHits(mem, Holding(mem, needle), align, base, len)
  {
    hits' := ScanWindows(mem, base, len, needle, align, hits, WindowPiece(mem, Holding(mem, needle), align));
  }

  // ---------- exactness ----------

  /** The alignments that `search_span` is written for. */
  predicate PageGrid(align: int) { align >= 1 && align % 8 == 0 && PAGE % align == 0 }

  lemma MulAssoc(a: int, b: int, c: int)
    ensures a * (b * c) == (a * b) * c
  {
  }

  predicate OnPage(x: int) { x % PAGE == 0 }

  /** The page grid is a grid of every such alignment. */
  lemma PagesOnGrid(align: int, at: int)
    requires align >= 1 && PAGE % align == 0 && OnPage(at)
    ensures Aligned(at, align)
  {
    var k, m := PAGE / align, at / PAGE;
    assert PAGE == k * align && at == m * PAGE;
    assert at == (m * k) * align by {
      MulAssoc(m, k, align);
    }
    MultipleOf(m * k, align);
  }

  lemma GridIsEights(align: int, q: int)
    requires align >= 1 && align % 8 == 0
    ensures Aligned(q, align) ==> q % 8 == 0
  {
    if Aligned(q, align) {
      MulAssoc(q / align, align / 8, 8);
      assert q == (q / align * (align / 8)) * 8;
    }
  }

  /** A span that starts on the grid reports exactly its grid addresses that hold the needle. */
  lemma SpanExact(holds: Select, align: int, at: int, n: nat)
    requires align >= 1 && Aligned(at, align)
    ensures Visits(holds, align, at, 0, n) == Filter(OnGrid(holds, align), at, at + n - 7)
  {
    MultipleOf(0, align);
    forall p ensures OnGrid(holds, align)(p) <==> Aligned(p - at, align) && holds(p) {
      SumAligned(at, p - at, align);
      assert at + (p - at) == p;
    }
    VisitsAreHits(holds, OnGrid(holds, align), align, at, 0, n);
  }

  predicate IsEight(q: int) { q % 8 == 0 }

  lemma OnPageSum(a: int, b: int)
    requires OnPage(a) && OnPage(b)
    ensures OnPage(a + b) && IsEight(a + b)
  {
    var j, k := a / PAGE, b / PAGE;
    RemainderIs(a + b, PAGE, j + k, 0);
    RemainderIs(a + b, 8, 512 * (j + k), 0);
  }

  /** Only multiples of 8 are wanted. */
  ghost predicate EightsOnly(g: Select) { forall q {:trigger IsEight(q)} :: g(q) ==> IsEight(q) }

  /** Spans that meet where nothing wanted straddles report together what one pass would. */
  lemma GlueGap(g: Select, lo: int, mid: int, hi: int)
    requires lo <= mid - 7 <= hi && forall q :: mid - 7 <= q < mid ==> !g(q)
    ensures Filter(g, lo, mid - 7) + Filter(g, mid, hi) == Filter(g, lo, hi)
  {
    FilterSplit(g, lo, mid - 7, hi);
    SkipGap(g, mid - 7, mid, hi);
  }

  /** Spans that meet at a multiple of 8 do. */
  lemma Glue(g: Select, lo: int, mid: int, hi: int)
    requires EightsOnly(g) && IsEight(mid) && lo <= mid - 7 <= hi
    ensures Filter(g, lo, mid - 7) + Filter(g, mid, hi) == Filter(g, lo, hi)
  {
    forall q | mid - 7 <= q < mid ensures !g(q) {
      assert !IsEight(q);
    }
    GlueGap(g, lo, mid, hi);
  }

  /** Every piece that begins on a page reports exactly the wanted addresses that fit into it. */
  ghost predicate PiecesExact(piece: Piece, unit: nat, g: Select) {
    forall at, n: nat :: OnPage(at) && 0 < n <= unit && InUserSpace(at, n) ==> piece(at, n) == Filter(g, at, at + n - 7)
  }

  lemma PieceExact(piece: Piece, unit: nat, g: Select, base: int, len: nat, off: nat, n: nat)
    requires PiecesExact(piece, unit, g) && OnPage(base) && OnPage(off) && InUserSpace(base, len)
    requires 0 < n <= unit && off + n <= len
    ensures piece(base + off, n) == Filter(g, base + off, base + (off + n) - 7)
  {
    OnPageSum(base, off);
  }

  /** If one piece and the rest of the cut are exact, so is the cut. */
  lemma CutGlue(piece: Piece, unit: nat, g: Select, base: int, len: nat, off: nat, next: nat)
    requires unit >= 8 && next == off + unit < len && EightsOnly(g) && IsEight(base + next)
    requires piece(base + off, unit) == Filter(g, base + off, base + next - 7)
    requires Cut(piece, unit, base, len, next) == Filter(g, base + next, base + len - 7)
    ensures Cut(piece, unit, base, len, off) == Filter(g, base + off, base + len - 7)
  {
    Glue(g, base + off, base + next, base + len - 7);
  }

  lemma {:induction false} CutExact(piece: Piece, unit: nat, g: Select, base: int, len: nat, off: nat)
    requires unit >= 8 && OnPage(unit) && EightsOnly(g) && PiecesExact(piece, unit, g)
    requires OnPage(base) && OnPage(off) && InUserSpace(base, len)
    ensures Cut(piece, unit, base, len, off) == Filter(g, base + off, base + len - 7)
    decreases len - off
  {
    if off + unit < len {
      var next := off + unit;
      OnPageSum(off, unit);
      OnPageSum(base, next);
      CutExact(piece, unit, g, base, len, next);
      PieceExact(piece, unit, g, base, len, off, unit);
      CutGlue(piece, unit, g, base, len, off, next);
    } else if off < len {
      PieceExact(piece, unit, g, base, len, off, len - off);
      assert Cut(piece, unit, base, len, len) == [];
    }
  }

  /** Nothing is wanted in a page that cannot be read. */
  lemma UnreadablePage(mem: Mem, g: Select, at: int, n: nat)
    requires PageGranular(mem) && forall q :: g(q) ==> q in mem
    requires OnPage(at) && 0 < n <= PAGE && LooksReadable(at) && !CanRead(mem, at, n)
    ensures Filter(g, at, at + n - 7) == []
  {
    var x :| at <= x < at + n && x !in mem;
    forall p | at <= p < at + n - 7 ensures !g(p) {
      assert p / PAGE == x / PAGE;
      assert p !in mem;
    }
    FilterNothing(g, at, at + n - 7);
  }

  lemma PagePiecesExact(mem: Mem, needle: nat, align: int)
    requires PageGranular(mem) && PageGrid(align)
    ensures PiecesExact(PagePiece(mem, Holding(mem, needle), align), PAGE, OnGrid(Holding(mem, needle), align))
  {
    var holds := Holding(mem, needle);
    var g := OnGrid(holds, align);
    forall at, n: nat | OnPage(at) && 0 < n <= PAGE && InUserSpace(at, n)
      ensures PagePiece(mem, holds, align)(at, n) == Filter(g, at, at + n - 7)
    {
      if CanRead(mem, at, n) {
        PagesOnGrid(align, at);
        SpanExact(holds, align, at, n);
      } else {
        UnreadablePage(mem, g, at, n);
      }
    }
  }

  lemma GridEightsOnly(holds: Select, align: int)
    requires align >= 1 && align % 8 == 0
    ensures EightsOnly(OnGrid(holds, align))
  {
    forall q ensures OnGrid(holds, align)(q) ==> IsEight(q) {
      GridIsEights(align, q);
    }
  }

  lemma WindowPiecesExact(mem: Mem, needle: nat, align: int)
    requires PageGranular(mem) && PageGrid(align)
    ensures PiecesExact(WindowPiece(mem, Holding(mem, needle), align), WINDOW, OnGrid(Holding(mem, needle), align))
  {
    var holds := Holding(mem, needle);
    var g := OnGrid(holds, align);
    PagePiecesExact(mem, needle, align);
    GridEightsOnly(holds, align);
    forall at, n: nat | OnPage(at) && 0 < n <= WINDOW && InUserSpace(at, n)
      ensures WindowPiece(mem, holds, align)(at, n) == Filter(g, at, at + n - 7)
    {
      if CanRead(mem, at, n) {
        PagesOnGrid(align, at);
        SpanExact(holds, align, at, n);
      } else {
        CutExact(PagePiece(mem, holds, align), PAGE, g, at, n, 0);
      }
    }
  }

  /** The naive list: the aligned addresses of the range that hold the needle in readable memory, in order. */
  ghost function NaiveRange(mem: Mem, needle: nat, align: int, base: int, len: nat): seq<int>
    requires align >= 1
  {
    Filter(OnGrid(Holding(mem, needle), align), base, base + len - 7)
  }

  /** On the page grid the scan reports, once each and in order, exactly the aligned matches in readable pages. */
  lemma RangeExact(mem: Mem, needle: nat, align: int, base: int, len: nat)
    requires PageGranular(mem) && PageGrid(align) && OnPage(base) && InUserSpace(base, len)
    ensures RangeHits(mem, Holding(mem, needle), align, base, len) == NaiveRange(mem, needle, align, base, len)
  {
    var holds := Holding(mem, needle);
    var piece, g := WindowPiece(mem, holds, align), OnGrid(holds, align);
    assert PiecesExact(piece, WINDOW, g) by {
      WindowPiecesExact(mem, needle, align);
    }
    assert EightsOnly(g) by {
      GridEightsOnly(holds, align);
    }
    CutExact(piece, WINDOW, g, base, len, 0);
  }

  // ---------- other alignments ----------

  lemma {:induction false} VisitsBounds(f: Select, align: int, at: int, i: nat, n: nat, x: int)
    requires align >= 1 && x in Visits(f, align, at, i, n)
    ensures at + i <= x && x + 8 <= at + n
    decreases n - i
  {
    if x !in Visit(f, at + i) {
      VisitsBounds(f, align, at, i + align, n, x);
    }
  }

  /** Whatever is reported is reported for one of the pieces. */
  lemma {:induction false} CutMembers(piece: Piece, unit: nat, base: int, len: nat, off: nat, x: int) returns (k: nat)
    requires unit > 0 && OnPage(unit) && OnPage(off) && x in Cut(piece, unit, base, len, off)
    ensures off <= k < len && OnPage(k) && x in piece(base + k, Min(len - k, unit))
    decreases len - off
  {
    var n := Min(len - off, unit);
    if x in piece(base + off, n) {
      k := off;
    } else {
      assert x in Cut(piece, unit, base, len, off + n);
      assert off + n < len;
      OnPageSum(off, unit);
      k := CutMembers(piece, unit, base, len, off + unit, x);
    }
  }

  lemma PageStartHit(mem: Mem, holds: Select, align: int, at: int)
    requires align >= 1 && holds(at) && LooksReadable(at) && Readable(mem, at, PAGE)
    ensures at in PagePiece(mem, holds, align)(at, PAGE)
  {
    assert Visits(holds, align, at, 0, PAGE) == Visit(holds, at) + Visits(holds, align, at, align, PAGE);
  }

  /**
   * Two pages, and nothing readable behind them: the window cannot be read, so both pages are scanned by themselves.
   */
  lemma TwoPages(mem: Mem, holds: Select, align: int, base: int, len: nat)
    requires align >= 1 && InUserSpace(base, len) && len > 2 * PAGE
    requires Readable(mem, base, 2 * PAGE) && base + 2 * PAGE !in mem && holds(base) && holds(base + PAGE)
    ensures base in RangeHits(mem, holds, align, base, len) && base + PAGE in RangeHits(mem, holds, align, base, len)
  {
    var want, piece := Min(len, WINDOW), PagePiece(mem, holds, align);
    assert WindowPiece(mem, holds, align)(base, want) == Cut(piece, PAGE, base, want, 0);
    PageStartHit(mem, holds, align, base);
    PageStartHit(mem, holds, align, base + PAGE);
    NextPiece(piece, PAGE, base, want, 0, []);
    NextPiece(piece, PAGE, base, want, PAGE, []);
    NextPiece(WindowPiece(mem, holds, align), WINDOW, base, len, 0, []);
  }

  lemma FirstPageOnly(k: nat)
    requires OnPage(k) && k < PAGE
    ensures k == 0
  {
  }

  lemma PagePieceBounds(mem: Mem, holds: Select, align: int, at: int, n: nat, x: int)
    requires align >= 1 && x in PagePiece(mem, holds, align)(at, n)
    ensures at <= x && x + 8 <= at + n
  {
    VisitsBounds(holds, align, at, 0, n, x);
  }

  /** A match that reaches from the first page of a window into the second is not reported page by page. */
  lemma PageStraddle(mem: Mem, holds: Select, align: int, base: int, want: nat, x: int)
    requires align >= 1 && base <= x < base + PAGE < x + 8
    ensures x !in Cut(PagePiece(mem, holds, align), PAGE, base, want, 0)
  {
    if x in Cut(PagePiece(mem, holds, align), PAGE, base, want, 0) {
      var p := CutMembers(PagePiece(mem, holds, align), PAGE, base, want, 0, x);
      PagePieceBounds(mem, holds, align, base + p, Min(want - p, PAGE), x);
      FirstPageOnly(p);
    }
  }

  lemma WindowPieceFrom(mem: Mem, holds: Select, align: int, at: int, want: nat, x: int)
    requires align >= 1 && x in WindowPiece(mem, holds, align)(at, want)
    ensures at <= x
  {
    if CanRead(mem, at, want) {
      VisitsBounds(holds, align, at, 0, want, x);
    } else {
      var p := CutMembers(PagePiece(mem, holds, align), PAGE, at, want, 0, x);
      PagePieceBounds(mem, holds, align, at + p, Min(want - p, PAGE), x);
    }
  }

  lemma WindowStraddle(mem: Mem, holds: Select, align: int, base: int, want: nat, x: int)
    requires align >= 1 && want > 2 * PAGE && base + 2 * PAGE !in mem
    requires base <= x < base + PAGE < x + 8
    ensures x !in WindowPiece(mem, holds, align)(base, want)
  {
    PageStraddle(mem, holds, align, base, want, x);
  }

  lemma FirstPieceOnly(piece: Piece, base: int, len: nat, x: int)
    requires forall at, n :: x in piece(at, n) ==> at <= x
    requires base <= x < base + PAGE && x !in piece(base, Min(len, WINDOW))
    ensures x !in Cut(piece, WINDOW, base, len, 0)
  {
    if x in Cut(piece, WINDOW, base, len, 0) {
      var k := CutMembers(piece, WINDOW, base, len, 0, x);
      FirstPageOnly(k);
    }
  }

  lemma TwoPagesStraddle(mem: Mem, holds: Select, align: int, base: int, len: nat, x: int)
    requires align >= 1 && len > 2 * PAGE && base + 2 * PAGE !in mem
    requires base <= x < base + PAGE < x + 8
    ensures x !in RangeHits(mem, holds, align, base, len)
  {
    var piece := WindowPiece(mem, holds, align);
    WindowStraddle(mem, holds, align, base, Min(len, WINDOW), x);
    forall at, n | x in piece(at, n) ensures at <= x {
      WindowPieceFrom(mem, holds, align, at, n, x);
    }
    FirstPieceOnly(piece, base, len, x);
  }

  /** A report that is off the grid. */
  lemma ReportOff(holds: Select, align: int, base: int, len: nat, hits: seq<int>, w: int)
    requires align >= 1 && w in hits && !Aligned(w, align)
    ensures hits != Filter(OnGrid(holds, align), base, base + len - 7)
  {
    FilterMembers(OnGrid(holds, align), base, base + len - 7, w);
  }

  /** If one page start is on the grid of an alignment that does not divide the page size, the next is not. */
  lemma NextPageOff(align: int, base: int)
    requires align >= 1 && PAGE % align != 0 && Aligned(base, align)
    ensures !Aligned(base + PAGE, align)
  {
    assert !Aligned(PAGE, align);
    SumAligned(base, PAGE, align);
  }

  /** An alignment that does not divide the page size: some page start is off its grid, yet reported. */
  lemma OffGridReport(holds: Select, align: int, base: int, len: nat, hits: seq<int>)
    requires align >= 1 && PAGE % align != 0 && base in hits && base + PAGE in hits
    ensures hits != Filter(OnGrid(holds, align), base, base + len - 7)
  {
    if Aligned(base, align) {
      NextPageOff(align, base);
      ReportOff(holds, align, base, len, hits, base + PAGE);
    } else {
      ReportOff(holds, align, base, len, hits, base);
    }
  }

  /** An alignment of 1, 2 or 4: the last grid address of a page reaches into the next page, and is missed. */
  lemma StraddleMissed(holds: Select, align: int, base: int, len: nat, w: int, hits: seq<int>)
    requires align >= 1 && PAGE % align == 0 && align < 8 && OnPage(base) && len > 2 * PAGE
    requires w == base + PAGE - align && holds(w) && w !in hits
    ensures hits != Filter(OnGrid(holds, align), base, base + len - 7)
  {
    OnPageSum(base, PAGE);
    PagesOnGrid(align, base + PAGE);
    MultipleOf(-1, align);
    SumAligned(base + PAGE, -align, align);
    assert base + PAGE + -align == w;
    FilterMembers(OnGrid(holds, align), base, base + len - 7, w);
  }

  lemma HalveProduct(a: nat, k: nat)
    requires k % 2 == 0
    ensures a * k == 2 * (a * (k / 2))
  {
  }

  lemma OddTimesOdd(a: nat, k: nat)
    requires a % 2 == 1 && (a * k) % 2 == 0
    ensures k % 2 == 0
  {
    assert a * k == 2 * (a / 2 * k) + k;
  }

  function Pow2(n: nat): nat { if n == 0 then 1 else 2 * Pow2(n - 1) }

  /** An odd factor of a power of two is 1. */
  lemma {:induction false} OddFactor(a: nat, k: nat, n: nat)
    requires a % 2 == 1 && a * k == Pow2(n)
    ensures a == 1
  {
    if n == 0 {
      assert a > 1 && k >= 1 ==> a * k > 1;
    } else {
      OddTimesOdd(a, k);
      HalveProduct(a, k);
      OddFactor(a, k / 2, n - 1);
    }
  }

  lemma SmallHalf(half: nat, k: nat)
    requires half * k == Pow2(11) == 2048 && Pow2(10) == 1024 && half % 4 != 0
    ensures half < 4
  {
    if half % 2 == 1 {
      OddFactor(half, k, 11);
    } else {
      HalveProduct(k, half);
      OddFactor(half / 2, k, 10);
    }
  }

  lemma SmallFactor(align: nat, k: nat)
    requires align * k == Pow2(12) == 4096 && Pow2(11) == 2048 && Pow2(10) == 1024 && align % 8 != 0
    ensures align < 8
  {
    if align % 2 == 1 {
      OddFactor(align, k, 12);
    } else {
      HalveProduct(k, align);
      SmallHalf(align / 2, k);
    }
  }

  lemma PageIsPow2()
    ensures PAGE == Pow2(12) && 2048 == Pow2(11) && 1024 == Pow2(10)
  {
  }

  /** A divisor of the page size that is not a multiple of 8 is 1, 2 or 4. */
  lemma SmallDivisor(align: int)
    requires align >= 1 && PAGE % align == 0 && align % 8 != 0
    ensures align < 8
  {
    PageIsPow2();
    SmallFactor(align, PAGE / align);
  }

  lemma StraddleDiffers(mem: Mem, holds: Select, align: int, base: int, len: nat, w: int)
    requires align >= 1 && PAGE % align == 0 && align < 8 && OnPage(base) && InUserSpace(base, len)
    requires len > 2 * PAGE && base + 2 * PAGE !in mem && w == base + PAGE - align && holds(w)
    ensures RangeHits(mem, holds, align, base, len) != Filter(OnGrid(holds, align), base, base + len - 7)
  {
    TwoPagesStraddle(mem, holds, align, base, len, w);
    StraddleMissed(holds, align, base, len, w, RangeHits(mem, holds, align, base, len));
  }

  /** Off the page grid, two readable pages before an unreadable one show a wrong report or a missed match. */
  lemma OffGridDiffers(mem: Mem, holds: Select, align: int, base: int, len: nat)
    requires align >= 1 && !PageGrid(align) && OnPage(base) && InUserSpace(base, len) && len > 2 * PAGE
    requires Readable(mem, base, 2 * PAGE) && base + 2 * PAGE !in mem
    requires forall p :: base <= p && p + 8 <= base + 2 * PAGE ==> holds(p)
    ensures RangeHits(mem, holds, align, base, len) != Filter(OnGrid(holds, align), base, base + len - 7)
  {
    if PAGE % align != 0 {
      TwoPages(mem, holds, align, base, len);
      OffGridReport(holds, align, base, len, RangeHits(mem, holds, align, base, len));
    } else {
      SmallDivisor(align);
      StraddleDiffers(mem, holds, align, base, len, base + PAGE - align);
    }
  }

  lemma PagesOfZeros(base: nat, pages: nat)
    requires OnPage(base)
    ensures PageGranular(ZeroMemory(Region(base, pages * PAGE)))
  {
    var b := base / PAGE;
    assert base == PAGE * b;
  }

  lemma OffGridExample(align: int, base: int, len: nat)
    requires align >= 1 && !PageGrid(align) && OnPage(base) && InUserSpace(base, len) && len > 2 * PAGE
    ensures var mem := ZeroMemory(Region(base, 2 * PAGE));
            && PageGranular(mem)
            && RangeHits(mem, Holding(mem, 0), align, base, len) != NaiveRange(mem, 0, align, base, len)
  {
    var r := Region(base, 2 * PAGE);
    var mem := ZeroMemory(r);
    forall p | base <= p && p + 8 <= base + 2 * PAGE ensures Holding(mem, 0)(p) {
      ZeroMemoryHolds(r, p);
    }
    PagesOfZeros(base, 2);
    OffGridDiffers(mem, Holding(mem, 0), align, base, len);
  }

  /**
   * For a page-aligned range of more than two pages, the scan is exact whatever can be read and whatever memory holds,
   * precisely for the alignments that are multiples of 8 and divide the page size.
   */
  lemma ExactOnPageGridOnly(align: int, base: int, len: nat)
    requires align >= 1 && OnPage(base) && InUserSpace(base, len) && len > 2 * PAGE
    ensures PageGrid(align) <==>
            forall mem, needle | PageGranular(mem) ::
              RangeHits(mem, Holding(mem, needle), align, base, len) == NaiveRange(mem, needle, align, base, len)
  {
    if PageGrid(align) {
      forall mem, needle | PageGranular(mem)
        ensures RangeHits(mem, Holding(mem, needle), align, base, len) == NaiveRange(mem, needle, align, base, len)
      {
        RangeExact(mem, needle, align, base, len);
      }
    } else {
      OffGridExample(align, base, len);
    }
  }

  // ---------- short ranges ----------

  /** A range of one window. */
  lemma OneWindow(mem: Mem, holds: Select, align: int, base: int, len: nat)
    requires align >= 1 && 0 < len <= WINDOW
    ensures RangeHits(mem, holds, align, base, len) == WindowPiece(mem, holds, align)(base, len)
  {
    NextPiece(WindowPiece(mem, holds, align), WINDOW, base, len, 0, []);
    assert Cut(WindowPiece(mem, holds, align), WINDOW, base, len, len) == [];
  }

  /** A piece too short for a value. */
  lemma TooShort(mem: Mem, holds: Select, align: int, at: int, n: nat)
    requires align >= 1 && n < 8
    ensures PagePiece(mem, holds, align)(at, n) == [] == Filter(OnGrid(holds, align), at, at + n - 7)
  {
    FilterNothing(OnGrid(holds, align), at, at + n - 7);
  }

  /** A page that starts on the grid, or is too short for a value, is searched exactly. */
  lemma PageExact(mem: Mem, needle: nat, align: int, at: int, n: nat)
    requires PageGranular(mem) && align >= 1 && OnPage(at) && 0 < n <= PAGE && InUserSpace(at, n)
    requires n < 8 || Aligned(at, align)
    ensures PagePiece(mem, Holding(mem, needle), align)(at, n)
            == Filter(OnGrid(Holding(mem, needle), align), at, at + n - 7)
  {
    if n < 8 {
      TooShort(mem, Holding(mem, needle), align, at, n);
    } else if CanRead(mem, at, n) {
      SpanExact(Holding(mem, needle), align, at, n);
    } else {
      UnreadablePage(mem, OnGrid(Holding(mem, needle), align), at, n);
    }
  }

  /** If two pages cannot be read together, nothing that straddles them is a match. */
  lemma NoStraddler(mem: Mem, needle: nat, base: int, len: nat, q: int)
    requires PageGranular(mem) && OnPage(base) && PAGE < len <= 2 * PAGE && !Readable(mem, base, len)
    requires base + PAGE - 7 <= q < base + PAGE
    ensures !Holding(mem, needle)(q)
  {
    var x :| base <= x < base + len && x !in mem;
    var y := if x < base + PAGE then base + PAGE - 1 else base + PAGE;
    assert x / PAGE == y / PAGE;
    assert y !in mem;
  }

  /** A range of two pages, page by page. */
  lemma CutTwo(piece: Piece, base: int, len: nat)
    requires PAGE < len <= 2 * PAGE
    ensures Cut(piece, PAGE, base, len, 0) == piece(base, PAGE) + piece(base + PAGE, len - PAGE)
  {
    NextPiece(piece, PAGE, base, len, 0, []);
    NextPiece(piece, PAGE, base, len, PAGE, []);
    assert Cut(piece, PAGE, base, len, len) == [];
  }

  lemma TwoPagesGlue(mem: Mem, needle: nat, align: int, base: int, len: nat)
    requires PageGranular(mem) && align >= 1 && OnPage(base)
    requires PAGE < len <= 2 * PAGE && !Readable(mem, base, len)
    ensures var g := OnGrid(Holding(mem, needle), align);
            Filter(g, base, base + PAGE - 7) + Filter(g, base + PAGE, base + len - 7) == Filter(g, base, base + len - 7)
  {
    var g, mid := OnGrid(Holding(mem, needle), align), base + PAGE;
    forall q | mid - 7 <= q < mid ensures !g(q) {
      NoStraddler(mem, needle, base, len, q);
    }
    GlueGap(g, base, mid, base + len - 7);
  }

  /** What two pages that cannot be read together report. */
  lemma TwoPieces(mem: Mem, needle: nat, align: int, base: int, len: nat)
    requires PageGranular(mem) && align >= 1 && OnPage(base) && InUserSpace(base, len)
    requires PAGE < len <= 2 * PAGE && !CanRead(mem, base, len)
    requires Aligned(base, align) && (len < PAGE + 8 || Aligned(base + PAGE, align))
    ensures Cut(PagePiece(mem, Holding(mem, needle), align), PAGE, base, len, 0)
            == NaiveRange(mem, needle, align, base, len)
  {
    OnPageSum(base, PAGE);
    PageExact(mem, needle, align, base, PAGE);
    PageExact(mem, needle, align, base + PAGE, len - PAGE);
    TwoPagesGlue(mem, needle, align, base, len);
    CutTwo(PagePiece(mem, Holding(mem, needle), align), base, len);
  }

  /** The alignments for which the scan of a page-aligned range is exact, by the length of the range. */
  predicate ExactAlignment(align: int, base: int, len: nat) {
    align >= 1 &&
    if len < 8 then true
    else if len < PAGE + 8 then Aligned(base, align)
    else if len <= 2 * PAGE then PAGE % align == 0
    else PageGrid(align)
  }

  lemma ShortExact(mem: Mem, needle: nat, align: int, base: int, len: nat)
    requires PageGranular(mem) && OnPage(base) && InUserSpace(base, len)
    requires 0 < len <= 2 * PAGE && ExactAlignment(align, base, len)
    ensures WindowPiece(mem, Holding(mem, needle), align)(base, len) == NaiveRange(mem, needle, align, base, len)
  {
    var holds := Holding(mem, needle);
    var piece := PagePiece(mem, holds, align);
    if len >= PAGE + 8 {
      OnPageSum(base, PAGE);
      PagesOnGrid(align, base);
      PagesOnGrid(align, base + PAGE);
    }
    if len <= PAGE {
      PageExact(mem, needle, align, base, len);
      NextPiece(piece, PAGE, base, len, 0, []);
      assert Cut(piece, PAGE, base, len, len) == [];
    } else if CanRead(mem, base, len) {
      SpanExact(holds, align, base, len);
    } else {
      TwoPieces(mem, needle, align, base, len);
    }
  }

  /** The range starts off the grid: with zeros in memory its start is reported all the same. */
  lemma OffGridStart(align: int, base: nat, len: nat)
    requires align >= 1 && OnPage(base) && InUserSpace(base, len) && 8 <= len <= 2 * PAGE && !Aligned(base, align)
    ensures var mem := ZeroMemory(Region(base, 2 * PAGE));
            && PageGranular(mem)
            && RangeHits(mem, Holding(mem, 0), align, base, len) != NaiveRange(mem, 0, align, base, len)
  {
    var r := Region(base, 2 * PAGE);
    var mem := ZeroMemory(r);
    PagesOfZeros(base, 2);
    ZeroMemoryHolds(r, base);
    OneWindow(mem, Holding(mem, 0), align, base, len);
    assert CanRead(mem, base, len);
    assert Visits(Holding(mem, 0), align, base, 0, len)
           == Visit(Holding(mem, 0), base) + Visits(Holding(mem, 0), align, base, align, len);
    ReportOff(Holding(mem, 0), align, base, len, RangeHits(mem, Holding(mem, 0), align, base, len), base);
  }

  /** If the first of two pages cannot be read, what the start of the second one holds is reported. */
  lemma SecondPageHit(mem: Mem, holds: Select, align: int, base: int, len: nat)
    requires align >= 1 && InUserSpace(base, len) && PAGE + 8 <= len <= 2 * PAGE
    requires base !in mem && Readable(mem, base + PAGE, len - PAGE) && holds(base + PAGE)
    ensures base + PAGE in RangeHits(mem, holds, align, base, len)
  {
    var at, n := base + PAGE, len - PAGE;
    assert Visits(holds, align, at, 0, n) == Visit(holds, at) + Visits(holds, align, at, align, n);
    assert at in PagePiece(mem, holds, align)(at, n);
    CutTwo(PagePiece(mem, holds, align), base, len);
    OneWindow(mem, holds, align, base, len);
  }

  /** Only the second page can be read, and it starts off the grid. */
  lemma OffGridPage(align: int, base: nat, len: nat)
    requires align >= 1 && OnPage(base) && InUserSpace(base, len) && PAGE + 8 <= len <= 2 * PAGE
    requires Aligned(base, align) && PAGE % align != 0
    ensures var mem := ZeroMemory(Region(base + PAGE, PAGE));
            && PageGranular(mem)
            && RangeHits(mem, Holding(mem, 0), align, base, len) != NaiveRange(mem, 0, align, base, len)
  {
    var r, at := Region(base + PAGE, PAGE), base + PAGE;
    var mem := ZeroMemory(r);
    OnPageSum(base, PAGE);
    PagesOfZeros(at, 1);
    ZeroMemoryHolds(r, at);
    NextPageOff(align, base);
    SecondPageHit(mem, Holding(mem, 0), align, base, len);
    ReportOff(Holding(mem, 0), align, base, len, RangeHits(mem, Holding(mem, 0), align, base, len), at);
  }

  lemma RangeExactFor(mem: Mem, needle: nat, align: int, base: int, len: nat)
    requires PageGranular(mem) && OnPage(base) && InUserSpace(base, len) && ExactAlignment(align, base, len)
    ensures RangeHits(mem, Holding(mem, needle), align, base, len) == NaiveRange(mem, needle, align, base, len)
  {
    if len == 0 {
      FilterNothing(OnGrid(Holding(mem, needle), align), base, base - 7);
    } else if len <= 2 * PAGE {
      OneWindow(mem, Holding(mem, needle), align, base, len);
      ShortExact(mem, needle, align, base, len);
    } else {
      RangeExact(mem, needle, align, base, len);
    }
  }

  /**
   * For every page-aligned range, the alignments for which the scan is exact whatever can be read and whatever memory
   * holds.
   */
  lemma ExactIff(align: int, base: int, len: nat)
    requires align >= 1 && OnPage(base) && InUserSpace(base, len)
    ensures ExactAlignment(align, base, len) <==>
            forall mem, needle | PageGranular(mem) ::
              RangeHits(mem, Holding(mem, needle), align, base, len) == NaiveRange(mem, needle, align, base, len)
  {
    if ExactAlignment(align, base, len) {
      forall mem, needle | PageGranular(mem)
        ensures RangeHits(mem, Holding(mem, needle), align, base, len) == NaiveRange(mem, needle, align, base, len)
      {
        RangeExactFor(mem, needle, align, base, len);
      }
    } else if len > 2 * PAGE {
      OffGridExample(align, base, len);
    } else if !Aligned(base, align) {
      OffGridStart(align, base, len);
    } else {
      OffGridPage(align, base, len);
    }
  }
}
