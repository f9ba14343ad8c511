/** Little-endian bytes of a word, and the replicated fill byte. */
module LittleEndian {
  import opened Words
  import opened Bits

  function Bytes(x: nat, w: nat): (s: seq<Byte>)
    ensures |s| == w
  {
    if w == 0 then [] else [x % 256] + Bytes(x / 256, w - 1)
  }

  function Value(s: seq<Byte>): (x: nat)
    ensures x < Pow2(8 * |s|)
  {
    if s == [] then 0
    else
      var r := Value(s[1..]);
      Pow2Plus8(8 * |s| - 8);
      s[0] + 256 * r
  }

  /** What a store writes, a load of the same width reads back modulo the width. */
  lemma {:induction false} LoadAfterStore(x: nat, w: nat)
    ensures Value(Bytes(x, w)) == x % Pow2(8 * w)
  {
    if w != 0 {
      LoadAfterStore(x / 256, w - 1);
      Pow2Plus8(8 * w - 8);
      assert Bytes(x, w)[1..] == Bytes(x / 256, w - 1);
      NestedMod(x, 256, Pow2(8 * w - 8));
    }
  }

  /** The low byte of `x` in every byte of a `w`-byte word. */
  function Replicated(v: Byte, w: nat): (x: nat) {
    if w == 0 then 0 else v + 256 * Replicated(v, w - 1)
  }

  lemma {:induction false} ReplicatedBytes(v: Byte, w: nat)
    ensures forall i :: 0 <= i < w ==> Bytes(Replicated(v, w), w)[i] == v
  {
    if w != 0 {
      ReplicatedBytes(v, w - 1);
    }
  }

  /** arm64, arm32 and RISC-V: `x |= x << 8; x |= x << 16; x |= x << 32`, starting from
      one byte, so no shift drops a digit. */
  function SplatByShifts(x: Word, bits: nat): (r: nat)
    requires bits == 32 || bits == 64
  {
    var v := x % 256;
    var h := Or(64, v, v * W8);
    var w := Or(64, h, h * W16);
    if bits == 32 then w else Or(64, w, w * W32)
  }

  /** x86-64: a multiplication by the all-ones byte pattern. */
  function SplatByProduct(x: Word): (r: nat) {
    x % 256 * 0x0101_0101_0101_0101 % W64
  }

  /** One doubling step: a value of `k` digits or-ed with itself `k` places up. */
  lemma Doubled(k: nat, j: nat, v: nat)
    requires v < Pow2(k) <= Pow2(j)
    ensures Or(k + j, v, v * Pow2(k)) == v + v * Pow2(k)
  {
    UpIsProduct(k, v);
    OrDisjoint(k, j, v, v);
  }

  lemma {:induction false} Pow2Grows(a: nat, b: nat)
    requires a <= b
    ensures Pow2(a) <= Pow2(b)
    decreases b
  {
    if a < b { Pow2Grows(a, b - 1); }
  }

  lemma Doubled8(v: nat)
    requires v < W8
    ensures Or(64, v, v * W8) == v + W8 * v
  {
    Pow2Values();
    Pow2Grows(8, 56);
    Doubled(8, 56, v);
  }

  lemma Doubled16(v: nat)
    requires v < W16
    ensures Or(64, v, v * W16) == v + W16 * v
  {
    Pow2Values();
    Doubled(16, 48, v);
  }

  lemma Doubled32(v: nat)
    requires v < W32
    ensures Or(64, v, v * W32) == v + W32 * v
  {
    Pow2Values();
    Doubled(32, 32, v);
  }

  lemma SplatsReplicate(x: Word)
    ensures SplatByShifts(x, 32) == Replicated(x % 256, 4)
    ensures SplatByShifts(x, 64) == Replicated(x % 256, 8) == SplatByProduct(x)
  {
    hide Or;
    var v := x % 256;
    Doubled8(v);
    Doubled16(v + W8 * v);
    Doubled32(v + W8 * v + W16 * (v + W8 * v));
    ReplicatedValues(v);
  }

  lemma ReplicatedValues(v: Byte)
    ensures Replicated(v, 4) == v * 0x0101_0101
    ensures Replicated(v, 8) == v * 0x0101_0101_0101_0101
  {
    assert Replicated(v, 1) == v && Replicated(v, 2) == v * 0x0101;
    assert Replicated(v, 4) == v + 256 * Replicated(v, 3) && Replicated(v, 3) == v + 256 * Replicated(v, 2);
    assert Replicated(v, 6) == v + 256 * Replicated(v, 5) && Replicated(v, 5) == v + 256 * Replicated(v, 4);
    assert Replicated(v, 8) == v + 256 * Replicated(v, 7) && Replicated(v, 7) == v + 256 * Replicated(v, 6);
  }

  /** An eight-byte load is two four-byte loads. */
  lemma {:induction false} ValueSplits(s: seq<Byte>, k: nat)
    requires k <= |s|
    ensures Value(s) == Value(s[..k]) + Pow2(8 * k) * Value(s[k..])
  {
    if k == 0 {
      assert s[..0] == [] && s[0..] == s;
    } else {
      ValueSplits(s[1..], k - 1);
      assert s[1..][..k - 1] == s[..k][1..] && s[1..][k - 1..] == s[k..];
      Pow2Plus8(8 * k - 8);
      MulAssoc(256, Pow2(8 * k - 8), Value(s[k..]));
    }
  }

  /** A store of `w` bytes is a store of the low `k` and then of the rest. */
  lemma {:induction false} BytesSplit(x: nat, k: nat, w: nat)
    requires k <= w
    ensures Bytes(x, w) == Bytes(x, k) + Bytes(ShiftedOut(x, k), w - k)
  {
    if k != 0 {
      BytesSplit(x / 256, k - 1, w - 1);
    }
  }

  function ShiftedOut(x: nat, k: nat): (r: nat) {
    if k == 0 then x else ShiftedOut(x / 256, k - 1)
  }

  /** Only the bytes stored matter. */
  lemma {:induction false} BytesOfLow(x: nat, y: nat, k: nat, w: nat)
    requires w <= k && x % Pow2(8 * k) == y % Pow2(8 * k)
    ensures Bytes(x, w) == Bytes(y, w)
  {
    if w != 0 {
      Pow2Plus8(8 * k - 8);
      NestedMod(x, 256, Pow2(8 * k - 8));
      NestedMod(y, 256, Pow2(8 * k - 8));
      hide Pow2;
      SameDigit(x % 256, y % 256, x / 256 % Pow2(8 * k - 8), y / 256 % Pow2(8 * k - 8));
      BytesOfLow(x / 256, y / 256, k - 1, w - 1);
    }
  }

  lemma SameDigit(a: nat, b: nat, c: nat, d: nat)
    requires a < 256 && b < 256 && a + 256 * c == b + 256 * d
    ensures a == b && c == d
  {
  }
}
