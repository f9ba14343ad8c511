/** The `memory.fill`, `memory.copy` and fused fill+copy handlers of each backend:
    bounds guards, direction choice and tiered loops. A bail leaves memory alone and
    hands the cell to the shared executor. `d`, `s` and `n` are zero-extended i32
    operands; `base` is the host address of byte 0, far enough below the top of the
    address space that a cursor plus one block does not wrap. */
module BulkHandlers {
  import opened Words
  import opened BulkSpec
  import opened BulkLoops
  import opened LittleEndian

  ghost predicate InBounds(len: nat, at: nat, n: nat) {
    at + n <= len
  }

  /** What `memory.fill` must do: trap (here: bail) exactly out of bounds, else fill. */
  ghost predicate FillDone(m: seq<Byte>, m': seq<Byte>, d: nat, v: Byte, n: nat, bail: bool) {
    && bail == !InBounds(|m|, d, n)
    && (bail ==> m' == m)
    && (!bail ==> m' == FillBytes(m, d, v, n))
  }

  ghost predicate CopyDone(m: seq<Byte>, m': seq<Byte>, d: nat, s: nat, n: nat, bail: bool) {
    && bail == !(InBounds(|m|, d, n) && InBounds(|m|, s, n))
    && (bail ==> m' == m)
    && (!bail ==> m' == CopyBytes(m, d, s, n))
  }

  ghost predicate AllAre(q: seq<Byte>, v: Byte) {
    forall i :: 0 <= i < |q| ==> q[i] == v
  }

  /** A vector register holding `c` copies of a word. */
  function Repeat(q: seq<Byte>, c: nat): (r: seq<Byte>)
    ensures |r| == c * |q|
  {
    if c == 0 then [] else q + Repeat(q, c - 1)
  }

  lemma {:induction false} RepeatIsUniform(q: seq<Byte>, c: nat, v: Byte)
    requires AllAre(q, v)
    ensures AllAre(Repeat(q, c), v)
  {
    if c != 0 { RepeatIsUniform(q, c - 1, v); }
  }

  /** The splatted fill word: a product on x86-64, shifts and ors elsewhere. */
  method SplatWord(value: Word, product: bool, w: nat) returns (word: seq<Byte>)
    requires w == 8 || (w == 4 && !product)
    ensures |word| == w && AllAre(word, value % 256)
  {
    SplatsReplicate(value);
    ReplicatedBytes(value % 256, w);
    word := Bytes(if product then SplatByProduct(value) else SplatByShifts(value, 8 * w), w);
  }

  method Vector(word: seq<Byte>, c: nat, ghost v: Byte) returns (q: seq<Byte>)
    requires |word| == 8 && AllAre(word, v)
    ensures |q| == 8 * c && AllAre(q, v)
  {
    RepeatIsUniform(word, c, v);
    q := Repeat(word, c);
  }

  ghost predicate FilledUp(m: seq<Byte>, m': seq<Byte>, d: nat, v: Byte, k: nat) {
    && d + k <= |m| == |m'|
    && forall i :: 0 <= i < |m| ==> m'[i] == if d <= i < d + k then v else m[i]
  }

  /** One tier of a fill: whole blocks `q`, every byte of which is `v`. */
  method FillTier(mem: array<Byte>, base: nat, ghost m0: seq<Byte>, ghost d: nat, ghost v: Byte,
                  cur: int, end: int, q: seq<Byte>) returns (cur': int)
    requires q != [] && AllAre(q, v)
    requires |m0| == mem.Length && base + d <= cur <= end && end - base <= mem.Length
    requires FilledUp(m0, mem[..], d, v, cur - base - d)
    modifies mem
    ensures cur <= cur' <= end < cur' + |q|
    ensures FilledUp(m0, mem[..], d, v, cur' - base - d)
  {
    cur' := cur;
    while cur' + |q| <= end
      invariant cur <= cur' <= end
      invariant FilledUp(m0, mem[..], d, v, cur' - base - d)
      decreases end - cur'
    {
      StoreBlock(mem, base, cur', q);
      cur' := cur' + |q|;
    }
  }

  /** arm64 and x86-64 (`product` picks the splat): 64-byte vector blocks, words, bytes. */
  method Fill64(mem: array<Byte>, base: nat, d: Half, value: Word, n: Half, product: bool) returns (bail: bool)
    requires base + mem.Length + 64 <= W64
    modifies mem
    ensures FillDone(old(mem[..]), mem[..], d, value % 256, n, bail)
  {
    if d + n > mem.Length { return true; }
    bail := false;
    ghost var m0, v := mem[..], value % 256;
    var word := SplatWord(value, product, 8);
    var vec := Vector(word, 8, v);
    var cur, end := base + d, base + d + n;
    cur := FillTier(mem, base, m0, d, v, cur, end, vec);
    cur := FillTier(mem, base, m0, d, v, cur, end, word);
    cur := FillTier(mem, base, m0, d, v, cur, end, word[..1]);
    FillUnique(m0, mem[..], d, v, n);
  }

  /** RISC-V and arm32: machine words of `xlen` bits, then bytes. The 32-bit bounds sum
      wraps; arm32 tests the carry flag and RV32 compares the sum with an addend, and
      both recover the 33rd bit. */
  method FillWords(mem: array<Byte>, base: nat, d: Half, value: Word, n: Half, xlen: nat) returns (bail: bool)
    requires xlen == 32 || xlen == 64
    requires mem.Length < W32 || xlen == 64
    requires base + mem.Length + 8 <= if xlen == 32 then W32 else W64
    modifies mem
    ensures FillDone(old(mem[..]), mem[..], d, value % 256, n, bail)
  {
    var sum := if xlen == 32 then (d + n) % W32 else d + n;
    if xlen == 32 && sum < n { return true; }
    if mem.Length < sum { return true; }
    bail := false;
    ghost var m0, v := mem[..], value % 256;
    var word := SplatWord(value, false, xlen / 8);
    var cur, end := base + d, base + sum;
    cur := FillTier(mem, base, m0, d, v, cur, end, word);
    cur := FillTier(mem, base, m0, d, v, cur, end, word[..1]);
    FillUnique(m0, mem[..], d, v, n);
  }

  /** Descending copy in `w`-byte words, then bytes (every backend's short form). */
  method CopyDownWords(mem: array<Byte>, base: nat, d: nat, s: nat, n: nat, w: nat)
    requires 0 < w && s < d && d + n <= mem.Length
    modifies mem
    ensures mem[..] == CopyBytes(old(mem[..]), d, s, n)
  {
    ghost var m0 := mem[..];
    var r := CopyDownTier(mem, base, m0, d, s, n, n, w);
    r := CopyDownTier(mem, base, m0, d, s, n, r, 1);
    CopyUnique(m0, mem[..], d, s, n);
  }

  /** arm64: a forward copy unless `s < d < s+n`; the downward overlap is pipelined
      from 64 bytes up. */
  method CopyArm64(mem: array<Byte>, base: nat, d: Half, s: Half, n: Half) returns (bail: bool)
    requires base + mem.Length + 64 <= W64
    modifies mem
    ensures CopyDone(old(mem[..]), mem[..], d, s, n, bail)
  {
    if d + n > mem.Length { return true; }
    if s + n > mem.Length { return true; }
    bail := false;
    if s < d && d < s + n {
      if n < 64 {
        CopyDownWords(mem, base, d, s, n, 8);
      } else {
        CopyDownPipelined(mem, base, d, s, n);
      }
      return;
    }
    ghost var m0 := mem[..];
    var dst, src, end := base + d, base + s, base + d + n;
    dst, src := CopyUpTier(mem, base, m0, d, s, n, dst, src, end, 64);
    dst, src := CopyUpTier(mem, base, m0, d, s, n, dst, src, end, 8);
    dst, src := CopyUpTier(mem, base, m0, d, s, n, dst, src, end, 1);
    CopyUnique(m0, mem[..], d, s, n);
  }

  /** x86-64's 64-byte block moves in two 32-byte halves, the first stored before the
      second is loaded. */
  method CopyUpHalves(mem: array<Byte>, base: nat, ghost m0: seq<Byte>, ghost d: nat, ghost s: nat, ghost n: nat,
                      dst: int, src: int, end: int) returns (dst': int, src': int)
    requires d + n <= mem.Length && s + n <= mem.Length && |m0| == mem.Length
    requires d <= s || s + n <= d
    requires base + d <= dst <= end == base + d + n && src - (base + s) == dst - (base + d)
    requires CopiedUp(m0, mem[..], d, s, dst - base - d)
    modifies mem
    ensures dst <= dst' <= end < dst' + 64 && src' - (base + s) == dst' - (base + d)
    ensures CopiedUp(m0, mem[..], d, s, dst' - base - d)
  {
    dst', src' := dst, src;
    while dst' + 64 <= end
      invariant dst <= dst' <= end && src' - (base + s) == dst' - (base + d)
      invariant CopiedUp(m0, mem[..], d, s, dst' - base - d)
      decreases end - dst'
    {
      var rax := dst' + 64;
      dst', src' := CopyUpOnce(mem, base, m0, d, s, n, dst', src', 32);
      dst', src' := CopyUpOnce(mem, base, m0, d, s, n, dst', src', 32);
      dst' := rax;
    }
  }

  method CopyUpOnce(mem: array<Byte>, base: nat, ghost m0: seq<Byte>, ghost d: nat, ghost s: nat, ghost n: nat,
                    dst: int, src: int, w: nat) returns (dst': int, src': int)
    requires d + n <= mem.Length && s + n <= mem.Length && |m0| == mem.Length
    requires d <= s || s + n <= d
    requires base + d <= dst && dst + w <= base + d + n && src - (base + s) == dst - (base + d)
    requires CopiedUp(m0, mem[..], d, s, dst - base - d)
    modifies mem
    ensures dst' == dst + w && src' == src + w
    ensures CopiedUp(m0, mem[..], d, s, dst' - base - d)
  {
    var q := LoadBlock(mem[..], base, src, w);
    ghost var k := dst - base - d;
    assert q == m0[s + k..s + k + w];
    StoreBlock(mem, base, dst, q);
    dst', src' := dst + w, src + w;
  }

  method CopyX86(mem: array<Byte>, base: nat, d: Half, s: Half, n: Half) returns (bail: bool)
    requires base + mem.Length + 64 <= W64
    modifies mem
    ensures CopyDone(old(mem[..]), mem[..], d, s, n, bail)
  {
    if d + n > mem.Length { return true; }
    if s + n > mem.Length { return true; }
    bail := false;
    if !(d <= s) && d < s + n {
      CopyDownWords(mem, base, d, s, n, 8);
      return;
    }
    ghost var m0 := mem[..];
    var dst, src, end := base + d, base + s, base + d + n;
    dst, src := CopyUpHalves(mem, base, m0, d, s, n, dst, src, end);
    dst, src := CopyUpTier(mem, base, m0, d, s, n, dst, src, end, 8);
    dst, src := CopyUpTier(mem, base, m0, d, s, n, dst, src, end, 1);
    CopyUnique(m0, mem[..], d, s, n);
  }

  /** RISC-V (`xlen` 32 or 64) and arm32 (`xlen` 32). */
  method CopyWords(mem: array<Byte>, base: nat, d: Half, s: Half, n: Half, xlen: nat) returns (bail: bool)
    requires xlen == 32 || xlen == 64
    requires mem.Length < W32 || xlen == 64
    requires base + mem.Length + 8 <= if xlen == 32 then W32 else W64
    modifies mem
    ensures CopyDone(old(mem[..]), mem[..], d, s, n, bail)
  {
    var w := xlen / 8;
    var sum := if xlen == 32 then (d + n) % W32 else d + n;
    if xlen == 32 && sum < n { return true; }
    if mem.Length < sum { return true; }
    sum := if xlen == 32 then (s + n) % W32 else s + n;
    if xlen == 32 && sum < n { return true; }
    if mem.Length < sum { return true; }
    bail := false;
    if !(s >= d) && d < sum {
      CopyDownWords(mem, base, d, s, n, w);
      return;
    }
    ghost var m0 := mem[..];
    var dst, src, end := base + d, base + s, base + d + n;
    dst, src := CopyUpTier(mem, base, m0, d, s, n, dst, src, end, w);
    dst, src := CopyUpTier(mem, base, m0, d, s, n, dst, src, end, 1);
    CopyUnique(m0, mem[..], d, s, n);
  }

  // ---- the fused fill+copy handler ----

  /** When the fused handler stays native: both accesses are in bounds, the copy reads
      only filled bytes, and the two destinations touch or overlap. */
  ghost predicate Fusible(len: nat, fd: nat, fn: nat, cd: nat, cs: nat, cn: nat) {
    && InBounds(len, fd, fn) && InBounds(len, cd, cn)
    && fd <= cs && cs + cn <= fd + fn
    && cd <= fd + fn && fd <= cd + cn
  }

  /** Copying bytes that are all `v` is filling: the pair is one fill over the union. */
  lemma FillCopyIsOneFill(m: seq<Byte>, fd: nat, v: Byte, fn: nat, cd: nat, cs: nat, cn: nat, lo: nat, hi: nat)
    requires Fusible(|m|, fd, fn, cd, cs, cn)
    requires lo == Min(fd, cd) && hi == (if fd + fn >= cd + cn then fd + fn else cd + cn)
    ensures |FillBytes(m, fd, v, fn)| == |m|
    ensures FillBytes(m, lo, v, hi - lo) == CopyBytes(FillBytes(m, fd, v, fn), cd, cs, cn)
  {
    var f := FillBytes(m, fd, v, fn);
    FillIsUniform(m, fd, v, fn);
    CopyIsSimultaneous(f, cd, cs, cn);
    FillIsUniform(m, lo, v, hi - lo);
  }

  /** `MemoryFillCopy` on arm64. */
  method FillCopyArm64(mem: array<Byte>, base: nat, fd: Half, value: Word, fn: Half, cd: Half, cs: Half, cn: Half)
    returns (bail: bool)
    requires base + mem.Length + 128 <= W64
    modifies mem
    ensures bail == !Fusible(mem.Length, fd, fn, cd, cs, cn)
    ensures bail ==> mem[..] == old(mem[..])
    ensures !bail ==> |FillBytes(old(mem[..]), fd, value % 256, fn)| == mem.Length
    ensures !bail ==> mem[..] == CopyBytes(FillBytes(old(mem[..]), fd, value % 256, fn), cd, cs, cn)
  {
    ghost var m0, v := mem[..], value % 256;
    var word := SplatWord(value, false, 8);
    var x13 := fd + fn;
    if x13 > mem.Length { return true; }
    var x16, x12 := cd, cd + cn;
    if x12 > mem.Length { return true; }
    if cs < fd { return true; }
    var srcEnd := cs + cn;
    if srcEnd > mem.Length { return true; }
    if srcEnd > x13 { return true; }
    if x16 > x13 { return true; }
    if x12 < fd { return true; }
    bail := false;
    var x10 := if fd < x16 then fd else x16;
    x13 := if x13 >= x12 then x13 else x12;
    var vec128 := Vector(word, 16, v);
    var vec64 := Vector(word, 8, v);
    var cur, end := base + x10, base + x13;
    cur := FillTier(mem, base, m0, x10, v, cur, end, vec128);
    cur := FillTier(mem, base, m0, x10, v, cur, end, vec64);
    cur := FillTier(mem, base, m0, x10, v, cur, end, word);
    cur := FillTier(mem, base, m0, x10, v, cur, end, word[..1]);
    FillUnique(m0, mem[..], x10, v, x13 - x10);
    FillCopyIsOneFill(m0, fd, v, fn, cd, cs, cn, x10, x13);
  }
}
