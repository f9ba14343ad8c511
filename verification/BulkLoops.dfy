/** The copy and fill loops the four backends emit, over a memory whose byte 0
    sits at host address `base`. Cursors are host addresses, as in the emitted code. */
module BulkLoops {
  import opened Words
  import opened BulkSpec


  /** A store of a register (or register pair): `v` lands at host address `at`. */
  method StoreBlock(mem: array<Byte>, base: nat, at: int, v: seq<Byte>)
    requires base <= at && at - base + |v| <= mem.Length
    modifies mem
    ensures Written(old(mem[..]), mem[..], at - base, v)
  {
    forall k | 0 <= k < |v| {
      mem[at - base + k] := v[k];
    }
  }

  /** A load of `w` bytes at host address `at`. */
  function LoadBlock(m: seq<Byte>, base: nat, at: int, w: nat): (v: seq<Byte>)
    requires base <= at && at - base + w <= |m|
  {
    m[at - base..at - base + w]
  }

  /** The first `k` bytes of an ascending copy are done and nothing else moved. */
  ghost predicate CopiedUp(m: seq<Byte>, m': seq<Byte>, d: nat, s: nat, k: nat) {
    && d + k <= |m| && s + k <= |m|
    && Written(m, m', d, m[s..s + k])
  }

  /** The bytes from offset `r` upwards of a descending copy are done. */
  ghost predicate CopiedDown(m: seq<Byte>, m': seq<Byte>, d: nat, s: nat, n: nat, r: nat) {
    && r <= n && d + n <= |m| && s + n <= |m|
    && Written(m, m', d + r, m[s + r..s + n])
  }

  /** One tier of an ascending copy: `w`-byte blocks while a whole block is left.
      Entered with `k` bytes done, it leaves fewer than `w` to do. */
  method CopyUpTier(mem: array<Byte>, base: nat, ghost m0: seq<Byte>, ghost d: nat, ghost s: nat, ghost n: nat,
                    dst: int, src: int, end: int, w: nat) returns (dst': int, src': int)
    requires 0 < w
    requires d + n <= mem.Length && s + n <= mem.Length && |m0| == mem.Length
    requires d <= s || s + n <= d
    requires base + d <= dst <= end == base + d + n && src - (base + s) == dst - (base + d)
    requires CopiedUp(m0, mem[..], d, s, dst - base - d)
    modifies mem
    ensures dst <= dst' <= end < dst' + w && src' - (base + s) == dst' - (base + d)
    ensures CopiedUp(m0, mem[..], d, s, dst' - base - d)
  {
    dst', src' := dst, src;
    while dst' + w <= end
      invariant dst <= dst' <= end && src' - (base + s) == dst' - (base + d)
      invariant CopiedUp(m0, mem[..], d, s, dst' - base - d)
      decreases end - dst'
    {
      var q := LoadBlock(mem[..], base, src', w);
      ghost var k := dst' - base - d;
      assert q == m0[s + k..s + k + w];
      StoreBlock(mem, base, dst', q);
      dst', src' := dst' + w, src' + w;
    }
  }

  /** One tier of a descending copy by index: `w`-byte blocks from the top. */
  method CopyDownTier(mem: array<Byte>, base: nat, ghost m0: seq<Byte>, d: nat, s: nat, ghost n: nat,
                      r: nat, w: nat) returns (r': nat)
    requires 0 < w
    requires s < d && |m0| == mem.Length
    requires CopiedDown(m0, mem[..], d, s, n, r)
    modifies mem
    ensures r' <= r && r' < w
    ensures CopiedDown(m0, mem[..], d, s, n, r')
  {
    r' := r;
    while w <= r'
      invariant r' <= r
      invariant CopiedDown(m0, mem[..], d, s, n, r')
    {
      r' := r' - w;
      var q := LoadBlock(mem[..], base, base + s + r', w);
      assert q == m0[s + r'..s + r' + w];
      StoreBlock(mem, base, base + d + r', q);
    }
  }

  function Min(x: int, y: int): int {
    if x < y then x else y
  }

  /** What the software-pipelined descending copy keeps. `r` is the distance from the
      destination start to the cursor: the 32 bytes `q` in flight are source bytes
      `[r-32, r)`, everything from destination offset `r` up is final, and no store
      went below offset `min(r, n-32)`. */
  ghost predicate Pipelined(m: seq<Byte>, m': seq<Byte>, d: nat, s: nat, n: nat, r: nat, q: seq<Byte>) {
    && 64 <= n && 32 <= r < n && s < d && d + n <= |m| && |m'| == |m|
    && q == m[s + r - 32..s + r]
    && (forall i :: 0 <= i < d + Min(r, n - 32) ==> m'[i] == m[i])
    && (forall i :: d + Min(r, n - 32) <= i < d + n ==> m'[i] == m[s + (i - d)])
    && (forall i :: d + n <= i < |m| ==> m'[i] == m[i])
  }

  /** `(x - y) mod 2^64`. */
  function Sub64(x: int, y: int): (z: nat) {
    (x - y) % W64
  }

  /** Subtracting a wrapped negative count adds it back. */
  lemma SubWraps(x: int, y: int)
    requires 0 <= x - y < W64
    ensures Sub64(x, Sub64(y, 0)) == x - y
  {
    assert x - y % W64 == (x - y) + y / W64 * W64;
    ModAdd(x - y, y / W64);
  }

  lemma ModAdd(x: int, q: int)
    requires 0 <= x < W64
    ensures (x + q * W64) % W64 == x
  {
  }

  /** Two 16-byte register pairs stored below host address `top`, the higher first. */
  method StorePairs(mem: array<Byte>, base: nat, top: int, hi: seq<Byte>, lo: seq<Byte>)
    requires |hi| == |lo| == 16 && base <= top - 32 && top - base <= mem.Length
    modifies mem
    ensures Written(old(mem[..]), mem[..], top - 32 - base, lo + hi)
  {
    StoreBlock(mem, base, top - 16, hi);
    StoreBlock(mem, base, top - 32, lo);
  }

  /** The end cap: after the last 32 bytes are stored, the block below the aligned
      cursor is in flight. */
  lemma PipelineStarts(m: seq<Byte>, m': seq<Byte>, d: nat, s: nat, n: nat, r: nat)
    requires 64 <= n && s < d < s + n && d + n <= |m|
    requires 1 <= n - r <= 32
    requires Written(m, m', d + n - 32, m[s + n - 32..s + n])
    ensures Pipelined(m, m', d, s, n, r, m[s + r - 32..s + r])
  {
  }

  /** One turn of the pipelined loop. The block read after the stores is still
      original, because every store so far went above it. */
  lemma PipelineTurns(m: seq<Byte>, m0: seq<Byte>, m': seq<Byte>, d: nat, s: nat, n: nat, r: nat, q: seq<Byte>)
    requires Pipelined(m, m0, d, s, n, r, q) && 64 < r
    requires Written(m0, m', d + r - 32, q)
    ensures Pipelined(m, m', d, s, n, r - 32, m'[s + r - 64..s + r - 32])
  {
    assert m'[s + r - 64..s + r - 32] == m[s + r - 64..s + r - 32];
  }

  /** The head: the last in-flight block and the first 32 source bytes meet or overlap. */
  lemma PipelineEnds(m: seq<Byte>, m0: seq<Byte>, m1: seq<Byte>, m': seq<Byte>, d: nat, s: nat, n: nat, r: nat, q: seq<Byte>)
    requires Pipelined(m, m0, d, s, n, r, q) && r <= 64
    requires Written(m0, m1, d + r - 32, q) && Written(m1, m', d, m0[s..s + 32])
    ensures m' == CopyBytes(m, d, s, n)
  {
    assert m0[s..s + 32] == m[s..s + 32];
    assert forall i :: d <= i < d + n ==> m'[i] == m[s + (i - d)];
    CopyUnique(m, m', d, s, n);
  }

  /** A load of 32 bytes below host address `top` as two register pairs. */
  method LoadPairs(mem: array<Byte>, base: nat, top: int) returns (hi: seq<Byte>, lo: seq<Byte>)
    requires base <= top - 32 && top - base <= mem.Length
    ensures |hi| == |lo| == 16 && lo + hi == mem[top - 32 - base..top - base]
  {
    hi := mem[top - 16 - base..top - base];
    lo := mem[top - 32 - base..top - 16 - base];
  }

  /** The main loop: store the block in flight, then load the next one below it. */
  method PipelineLoop(mem: array<Byte>, base: nat, ghost m0: seq<Byte>, d: nat, s: nat, n: nat,
                      x13: int, x10: int, x11: int, more: bool, x45: seq<Byte>, x6: seq<Byte>, ghost r: nat)
    returns (x13': int, x10': int, x11': int, x45': seq<Byte>, x6': seq<Byte>, ghost r': nat)
    requires 32 <= r < n && |x45| == |x6| == 16 && |m0| == mem.Length
    requires Pipelined(m0, mem[..], d, s, n, r, x6 + x45)
    requires x13 == base + d + r && x10 == base + s + r - 32 && x11 == Sub64(r, 64) && more == (r > 64)
    requires base + mem.Length < W64
    modifies mem
    ensures 32 <= r' <= 64 && |x45'| == |x6'| == 16
    ensures Pipelined(m0, mem[..], d, s, n, r', x6' + x45')
    ensures x13' == base + d + r' && x10' == base + s + r' - 32 && x11' == Sub64(r', 64)
  {
    x13', x10', x11', x45', x6', r' := x13, x10, x11, x45, x6, r;
    var go := more;
    while go
      invariant 32 <= r' < n && |x45'| == |x6'| == 16
      invariant Pipelined(m0, mem[..], d, s, n, r', x6' + x45')
      invariant x13' == base + d + r' && x10' == base + s + r' - 32 && x11' == Sub64(r', 64)
      invariant go == (r' > 64)
      decreases r'
    {
      ghost var before := mem[..];
      StorePairs(mem, base, x13', x45', x6');
      PipelineTurns(m0, before, mem[..], d, s, n, r', x6' + x45');
      x13' := x13' - 32;
      x45', x6' := LoadPairs(mem, base, x10');
      x10' := x10' - 32;
      r' := r' - 32;
      go := x11' > 32;
      x11' := Sub64(x11', 32);
    }
  }

  /** Darwin-style overlapping copy of at least 64 bytes to a higher address: the
      destination end is aligned down to 32 bytes and one 32-byte block is loaded
      ahead of the stores. */
  method CopyDownPipelined(mem: array<Byte>, base: nat, d: nat, s: nat, n: nat)
    requires 64 <= n && s < d < s + n && d + n <= mem.Length
    requires base + mem.Length < W64
    modifies mem
    ensures mem[..] == CopyBytes(old(mem[..]), d, s, n)
  {
    hide Pipelined, Written;
    ghost var m0 := mem[..];
    var x9 := base + d;
    var x12, x10, x11 := x9 + n, base + s + n, n;
    var x01, x23 := LoadPairs(mem, base, x10);
    var x13 := (x12 - 1) / 32 * 32;
    var x16 := x12 - x13;
    x10, x11 := x10 - x16, x11 - x16;
    var x45, x6 := LoadPairs(mem, base, x10);
    ghost var r := x11;
    StorePairs(mem, base, x12, x01, x23);
    PipelineStarts(m0, mem[..], d, s, n, r);
    x10 := x10 - 32;
    var more := x11 > 64;
    x11 := Sub64(x11, 64);
    x13, x10, x11, x45, x6, r := PipelineLoop(mem, base, m0, d, s, n, x13, x10, x11, more, x45, x6, r);
    PipelineHead(mem, base, m0, d, s, n, x9, x13, x10, x11, x45, x6, r);
  }

  /** The head of the range, reloaded through the wrapped count left in `x11`. */
  method PipelineHead(mem: array<Byte>, base: nat, ghost m0: seq<Byte>, ghost d: nat, ghost s: nat, ghost n: nat,
                      x9: int, x13: int, x10: int, x11: int, x45: seq<Byte>, x6: seq<Byte>, ghost r: nat)
    requires |m0| == mem.Length && |x45| == |x6| == 16
    requires 64 <= n && s < d && d + n <= mem.Length && 32 <= r <= 64
    requires Pipelined(m0, mem[..], d, s, n, r, x6 + x45)
    requires x9 == base + d && x13 == x9 + r && x10 == base + s + r - 32 && x11 == Sub64(r, 64)
    requires base + mem.Length < W64
    modifies mem
    ensures mem[..] == CopyBytes(m0, d, s, n)
  {
    hide Pipelined, Written;
    var head := Sub64(x10, x11);
    assert head == base + s + 32 by { SubWraps(x10, r - 64); }
    ghost var before := mem[..];
    var x01, x23 := LoadPairs(mem, base, head);
    StorePairs(mem, base, x13, x45, x6);
    ghost var m1 := mem[..];
    StorePairs(mem, base, x9 + 32, x01, x23);
    PipelineEnds(m0, before, m1, mem[..], d, s, n, r, x6 + x45);
  }
}
