/** The fault-isolated reads and writes of the in-process DLLs. */
module LocalReader {
  import opened Memory

  const U64 := 0x1_0000_0000_0000_0000

  /** `wrapping_add` on addresses; a negative offset counts as its two's complement. */
  function WrappingAdd(addr: int, offset: int): int { (addr + offset) % U64 }

  /** The addresses that are accepted at all: not the first pages, not the kernel half. */
  predicate LooksReadable(addr: int) { 0x10000 <= addr < 0x8000_0000_0000 }

  /** Whether `len` bytes at `addr` can be read; a range is read as a whole or not at all. */
  predicate CanRead(mem: Mem, addr: int, len: nat) {
    len == 0 || (LooksReadable(addr) && Readable(mem, addr, len))
  }

  /** Whether a write goes through; `allowed` is the operating system's answer. */
  predicate CanWrite(mem: Mem, addr: int, len: nat, allowed: bool) {
    len == 0 || (allowed && CanRead(mem, addr, len))
  }

  function Read(mem: Mem, addr: int, len: nat): Option<seq<byte>> {
    if len == 0 then Some([]) else if CanRead(mem, addr, len) then Some(BytesAt(mem, addr, len)) else None
  }
}
