/**
 * The search of a module image for a NUL-terminated name, window by window, where windows that cannot be read are
 * skipped.
 */
module TypeStringSearch {
  import opened Alignment
  import opened Memory

  const CHUNK := 0x10_0000

  /** The needle begins at index `i` of the haystack. */
  predicate FoundAt(hay: seq<byte>, needle: seq<byte>, i: int) {
    0 <= i && i + |needle| <= |hay| && hay[i..i + |needle|] == needle
  }

  /** `find_subslice`: the first occurrence, or none. */
  method FindSubslice(hay: seq<byte>, needle: seq<byte>) returns (r: Option<nat>)
    ensures needle == [] ==> r == None
    ensures needle != [] ==>
              match r
              case Some(i) => FoundAt(hay, needle, i) && forall k :: 0 <= k < i ==> !FoundAt(hay, needle, k)
              case None => forall k :: 0 <= k < |hay| ==> !FoundAt(hay, needle, k)
  {
    if needle == [] || |hay| < |needle| {
      return None;
    }
    var first := needle[0];
    var lastStart := |hay| - |needle|;
    var i := 0;
    while i <= lastStart
      invariant 0 <= i <= lastStart + 1
      invariant forall k :: 0 <= k < i ==> !FoundAt(hay, needle, k)
    {
      if hay[i] == first && hay[i..i + |needle|] == needle {
        return Some(i);
      }
      i := i + 1;
    }
    return None;
  }

  /** The image holds the needle at offset `p`. */
  ghost predicate Occurs(mem: Mem, image: Region, needle: seq<byte>, p: int) {
    && 0 <= p && p + |needle| <= image.size
    && Readable(mem, image.base + p, |needle|)
    && BytesAt(mem, image.base + p, |needle|) == needle
  }

  /** The length of the window at `off`: one chunk and the needle's length beyond it, cut off at the image's end. */
  function WindowLength(image: Region, needle: seq<byte>, off: nat): nat
    requires off <= image.size
  {
    Min(off + CHUNK + |needle|, image.size) - off
  }

  /** The window in which an occurrence at `p` begins. */
  function WindowOf(p: nat): nat { p / CHUNK * CHUNK }

  /** The read of that window failed. */
  ghost predicate Skipped(reader: Reader, image: Region, needle: seq<byte>, p: nat)
    requires p < image.size
  {
    reader(image.base + WindowOf(p), WindowLength(image, needle, WindowOf(p))) == None
  }

  lemma WindowBounds(p: nat, off: nat)
    requires off % CHUNK == 0 && off <= p < off + CHUNK
    ensures WindowOf(p) == off
  {
  }

  /** Inside a window that was read, the haystack and the image agree on where the needle is. */
  lemma WindowShows(mem: Mem, image: Region, needle: seq<byte>, off: nat, n: nat, i: nat)
    requires off + n <= image.size && i + |needle| <= n && Readable(mem, image.base + off, n)
    ensures FoundAt(BytesAt(mem, image.base + off, n), needle, i) <==> Occurs(mem, image, needle, off + i)
  {
    assert BytesAt(mem, image.base + off, n)[i..i + |needle|] == BytesAt(mem, image.base + off + i, |needle|);
    assert image.base + off + i == image.base + (off + i);
  }

  /** Every occurrence that begins in the chunk is found in its window. */
  lemma WindowComplete(mem: Mem, image: Region, needle: seq<byte>, off: nat)
    requires off < image.size && Readable(mem, image.base + off, WindowLength(image, needle, off))
    ensures forall p :: off <= p < off + CHUNK && Occurs(mem, image, needle, p) ==>
              FoundAt(BytesAt(mem, image.base + off, WindowLength(image, needle, off)), needle, p - off)
  {
    var n := WindowLength(image, needle, off);
    forall p | off <= p < off + CHUNK && Occurs(mem, image, needle, p)
      ensures FoundAt(BytesAt(mem, image.base + off, n), needle, p - off)
    {
      WindowShows(mem, image, needle, off, n, p - off);
    }
  }

  /** One window: its first occurrence, or none that begins in its chunk. */
  method SearchWindow(ghost mem: Mem, reader: Reader, image: Region, needle: seq<byte>, off: nat)
    returns (r: Option<nat>)
    requires Honest(reader, mem) && needle != [] && off < image.size && off % CHUNK == 0
    ensures r.Some? ==> off <= r.value <= off + CHUNK && Occurs(mem, image, needle, r.value)
    ensures forall p :: off <= p < off + CHUNK && (r.Some? ==> p < r.value) && Occurs(mem, image, needle, p) ==>
              Skipped(reader, image, needle, p)
  {
    var n := WindowLength(image, needle, off);
    var buf := reader(image.base + off, n);
    if buf == None {
      forall p | off <= p < off + CHUNK && Occurs(mem, image, needle, p) ensures Skipped(reader, image, needle, p) {
        WindowBounds(p, off);
      }
      return None;
    }
    var found := FindSubslice(buf.value, needle);
    WindowComplete(mem, image, needle, off);
    if found.Some? {
      WindowShows(mem, image, needle, off, n, found.value);
      r := Some(off + found.value);
    } else {
      r := None;
    }
  }

  /** In a fully readable image no window is skipped, so the windowed search is the search of the whole image. */
  lemma NothingSkipped(reader: Reader, image: Region, needle: seq<byte>, p: nat)
    requires p < image.size && FullyReadable(reader, image)
    ensures !Skipped(reader, image, needle, p)
  {
    var off := WindowOf(p);
    assert off <= p < off + CHUNK;
    assert reader(image.base + off, WindowLength(image, needle, off)).Some?;
  }

  /** The leftmost occurrence, or none if there is none. */
  ghost predicate Leftmost(mem: Mem, image: Region, needle: seq<byte>, r: Option<nat>) {
    match r
    case None => forall p :: !Occurs(mem, image, needle, p)
    case Some(va) =>
      && image.base <= va && Occurs(mem, image, needle, va - image.base)
      && forall p :: Occurs(mem, image, needle, p) ==> va - image.base <= p
  }

  /** In a fully readable image the windowed search is the search of the whole image. */
  lemma WholeImageSearch(mem: Mem, reader: Reader, image: Region, needle: seq<byte>, r: Option<nat>)
    requires needle != []
    requires r.Some? ==> image.base <= r.value && Occurs(mem, image, needle, r.value - image.base)
    requires forall p :: 0 <= p && Occurs(mem, image, needle, p) && (r.Some? ==> p < r.value - image.base) ==>
               Skipped(reader, image, needle, p)
    ensures FullyReadable(reader, image) ==> Leftmost(mem, image, needle, r)
  {
    if FullyReadable(reader, image) {
      forall p | Occurs(mem, image, needle, p) ensures r.Some? && r.value - image.base <= p {
        NothingSkipped(reader, image, needle, p);
      }
    }
  }

  /**
   * `find_type_string`: a real occurrence such that every earlier one begins in a window whose read failed, or none if
   * all occurrences do. In a fully readable image that is the leftmost occurrence, or none if there is none.
   */
  method FindTypeString(ghost mem: Mem, reader: Reader, image: Region, name: seq<byte>) returns (r: Option<nat>)
    requires Honest(reader, mem)
    ensures r.Some? ==> image.base <= r.value && Occurs(mem, image, name + [0], r.value - image.base)
    ensures forall p :: 0 <= p && Occurs(mem, image, name + [0], p) && (r.Some? ==> p < r.value - image.base) ==>
              Skipped(reader, image, name + [0], p)
    ensures FullyReadable(reader, image) ==> Leftmost(mem, image, name + [0], r)
  {
    var needle := name + [0];
    var off := 0;
    while off < image.size
      invariant 0 <= off && off % CHUNK == 0
      invariant forall p :: 0 <= p < off && Occurs(mem, image, needle, p) ==> Skipped(reader, image, needle, p)
      decreases image.size - off
    {
      var found := SearchWindow(mem, reader, image, needle, off);
      if found.Some? {
        r := Some(image.base + found.value);
        WholeImageSearch(mem, reader, image, needle, r);
        return;
      }
      off := off + CHUNK;
    }
    r := None;
    WholeImageSearch(mem, reader, image, needle, r);
  }
}
