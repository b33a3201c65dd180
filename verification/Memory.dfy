/** Byte-addressed target memory, as every scanner, patcher and writer of the repository sees it. */
module Memory {

  newtype byte = b: int | 0 <= b < 0x100

  datatype Option<+T> = None | Some(value: T)

  datatype Result<+T, +E> = Ok(value: T) | Err(error: E)

  /** The readable bytes of the target: an address outside the domain cannot be read. */
  type Mem = map<int, byte>

  /** A range read is all-or-nothing: it succeeds iff every byte of the range is readable. */
  predicate Readable(mem: Mem, addr: int, len: nat) {
    forall x :: addr <= x < addr + len ==> x in mem
  }

  /** The bytes at `[addr, addr + len)`. */
  function BytesAt(mem: Mem, addr: int, len: nat): (r: seq<byte>)
    requires forall x :: addr <= x < addr + len ==> x in mem
    ensures |r| == len
    ensures forall i :: 0 <= i < len ==> r[i] == mem[addr + i]
  {
    seq(len, i requires 0 <= i < len => mem[addr + i])
  }

  /** Memory after `bytes` were stored at `addr`; the set of readable addresses does not change. */
  function Store(mem: Mem, addr: int, bytes: seq<byte>): (r: Mem)
    ensures r.Keys == mem.Keys
    ensures forall x :: x in mem ==> r[x] == if addr <= x < addr + |bytes| then bytes[x - addr] else mem[x]
  {
    map x | x in mem :: if addr <= x < addr + |bytes| then bytes[x - addr] else mem[x]
  }

  /** Little-endian value of a byte string (u32/u64 `from_le_bytes`). */
  function LeValue(b: seq<byte>): (v: nat) {
    if b == [] then 0 else b[0] as nat + 0x100 * LeValue(b[1..])
  }

  /** The `n` little-endian bytes of `v` (u32/u64 `to_le_bytes`, reduced modulo 256^n). */
  function LeBytes(v: nat, n: nat): (b: seq<byte>)
    ensures |b| == n
  {
    if n == 0 then [] else [(v % 0x100) as byte] + LeBytes(v / 0x100, n - 1)
  }

  function Pow256(n: nat): (p: nat)
    ensures p > 0
  {
    if n == 0 then 1 else 0x100 * Pow256(n - 1)
  }

  /** `from_le_bytes` undoes `to_le_bytes` on every value of the width. */
  lemma {:induction false} LeRoundTrip(v: nat, n: nat)
    requires v < Pow256(n)
    ensures LeValue(LeBytes(v, n)) == v
  {
    if n != 0 {
      assert v / 0x100 < Pow256(n - 1);
      LeRoundTrip(v / 0x100, n - 1);
      assert LeBytes(v, n)[1..] == LeBytes(v / 0x100, n - 1);
    }
  }

  /** `to_le_bytes` undoes `from_le_bytes`, so comparing byte strings and comparing values agree. */
  lemma {:induction false} LeBytesOfValue(b: seq<byte>)
    ensures LeBytes(LeValue(b), |b|) == b
  {
    if b != [] {
      LeBytesOfValue(b[1..]);
      assert LeValue(b) % 0x100 == b[0] as nat && LeValue(b) / 0x100 == LeValue(b[1..]);
    }
  }

  /** A block of the target's address space. */
  datatype Region = Region(base: nat, size: nat)

  /** The u64 stored at `p`, if all its eight bytes are readable. */
  function PointerAt(mem: Mem, p: int): Option<nat> {
    if Readable(mem, p, 8) then Some(LeValue(BytesAt(mem, p, 8))) else None
  }

  /** A region full of zeros. */
  ghost function ZeroMemory(r: Region): (mem: Mem)
    ensures Readable(mem, r.base, r.size)
    ensures forall x :: x in mem <==> r.base <= x < r.base + r.size
    ensures forall x :: x in mem ==> mem[x] == 0
    decreases r.size
  {
    if r.size == 0 then map[] else ZeroMemory(Region(r.base, r.size - 1))[r.base + r.size - 1 := 0]
  }

  lemma {:induction false} ZerosAreZero(b: seq<byte>)
    requires forall i :: 0 <= i < |b| ==> b[i] == 0
    ensures LeValue(b) == 0
  {
    if b != [] {
      ZerosAreZero(b[1..]);
    }
  }

  lemma ZeroMemoryHolds(r: Region, p: int)
    requires r.base <= p && p + 8 <= r.base + r.size
    ensures PointerAt(ZeroMemory(r), p) == Some(0)
  {
    ZerosAreZero(BytesAt(ZeroMemory(r), p, 8));
  }

  /** What `read_bytes(addr, len)` delivers, if it succeeds; the target's memory stands still during a scan. */
  type Reader = (int, nat) -> Option<seq<byte>>

  /** A read that succeeds delivers every byte asked for, as it is in memory. */
  ghost predicate Honest(reader: Reader, mem: Mem) {
    forall a, n :: reader(a, n).Some? ==> Readable(mem, a, n) && reader(a, n).value == BytesAt(mem, a, n)
  }

  ghost predicate FullyReadable(reader: Reader, r: Region) {
    forall a, n :: r.base <= a && n > 0 && a + n <= r.base + r.size ==> reader(a, n).Some?
  }
}
