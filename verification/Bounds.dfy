/** The address check of a load or store on each host width, against the unbounded
    address of section 4.4.7 of the WebAssembly Core Specification 2.0. */
module Bounds {
  import opened Words

  const PAGE_SIZE := 0x1_0000

  /** The most pages a memory may have on a host with `usize` values below `limit`. */
  function MaxPages(limit: nat): (pages: nat)
    requires 0 < limit
  {
    var repr := (limit - 1) / PAGE_SIZE;
    if 0x1_0000 > repr then repr else 0x1_0000
  }

  /** On a 32-bit host one page is given up, so every length is a 32-bit number; a 64-bit
      host allows the full 2^32 bytes. */
  lemma PageLimits(pages: nat)
    ensures pages <= MaxPages(W32) ==> pages * PAGE_SIZE < W32
    ensures pages <= MaxPages(W64) <==> pages * PAGE_SIZE <= W32
  {
  }

  /** The access is out of bounds in unbounded arithmetic. */
  predicate OutOfRange(len: nat, ea: nat, size: nat) {
    ea + size > len
  }

  /** 64-bit hosts: an offset below 2^48 plus a 32-bit address cannot wrap a register. */
  method Check64(len: nat, offset: nat, addr: Half, size: nat) returns (trap: bool, ea: nat)
    requires len <= W32 && offset < W48 && size <= 8
    ensures trap == OutOfRange(len, offset + addr, size) && ea == offset + addr
  {
    ea := (offset + addr) % W64;
    var end := (ea + size) % W64;
    trap := end > len;
  }

  /** RV32 has no carry flag: a sum that wrapped is below either addend. Both sums are
      checked; the length test alone would admit a wrapped address. */
  method CheckSltu(len: nat, offset: Half, addr: Half, size: nat) returns (trap: bool, ea: Half)
    requires len < W32 && size <= 8
    ensures trap == OutOfRange(len, offset + addr, size)
    ensures !trap ==> ea == offset + addr
  {
    ea := (offset + addr) % W32;
    if ea < addr { return true, ea; }
    var t4: Half := (ea + size) % W32;
    if t4 < ea { return true, ea; }
    trap := len < t4;
  }

  /** `adds` and its carry flag. */
  function Adds(x: Half, y: Half): (r: (Half, bool)) {
    ((x + y) % W32, x + y >= W32)
  }

  /** arm32: the carry flag of both additions. */
  method CheckCarry(len: nat, offset: Half, addr: Half, size: nat) returns (trap: bool, ea: Half)
    requires len < W32 && size <= 8
    ensures trap == OutOfRange(len, offset + addr, size)
    ensures !trap ==> ea == offset + addr
  {
    var (t2, carry) := Adds(offset, addr);
    ea := t2;
    if carry { return true, ea; }
    var (t3, carry2) := Adds(t2, size);
    if carry2 { return true, ea; }
    trap := t3 > len;
  }

  /** Dropping the carry checks admits exactly the accesses whose sum wraps to an
      in-bounds address. */
  lemma CarriesAreNeeded(len: nat, offset: Half, addr: Half, size: nat)
    requires len < W32 && size <= 8
    ensures (((offset + addr) % W32 + size) % W32 > len) != OutOfRange(len, offset + addr, size)
       <==> offset + addr + size >= W32 && (offset + addr + size) % W32 <= len
  {
    var s := offset + addr;
    if s >= W32 {
      assert s % W32 == s - W32;
    } else {
      assert s % W32 == s;
    }
  }
}
