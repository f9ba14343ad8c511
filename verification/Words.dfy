/** Machine words as bounded integers, with the bitwise operations defined on the
    binary digits. */
module Words {
  const W8 := 0x100
  const W16 := 0x1_0000
  const W31 := 0x8000_0000
  const W32 := 0x1_0000_0000
  const W48 := 0x1_0000_0000_0000
  const W63 := 0x8000_0000_0000_0000
  const W64 := 0x1_0000_0000_0000_0000

  type Byte = x: int | 0 <= x < 256
  type Half = x: int | 0 <= x < 0x1_0000_0000
  type Word = x: int | 0 <= x < 0x1_0000_0000_0000_0000

  function Lo32(x: Word): (r: Half) { x % W32 }

  function Pow2(k: nat): (p: nat)
    ensures p >= 1
  {
    if k == 0 then 1 else 2 * Pow2(k - 1)
  }

  lemma Pow2Plus8(k: nat)
    ensures Pow2(k + 8) == W8 * Pow2(k)
  {
    assert Pow2(k + 4) == 2 * Pow2(k + 3) == 4 * Pow2(k + 2) == 8 * Pow2(k + 1) == 16 * Pow2(k);
    assert Pow2(k + 8) == 2 * Pow2(k + 7) == 4 * Pow2(k + 6) == 8 * Pow2(k + 5) == 16 * Pow2(k + 4);
  }

  lemma Pow2Values()
    ensures Pow2(8) == W8 && Pow2(16) == W16 && Pow2(31) == W31 && Pow2(32) == W32
    ensures Pow2(48) == W48 && Pow2(63) == W63 && Pow2(64) == W64
  {
    Pow2Plus8(0); Pow2Plus8(8); Pow2Plus8(16); Pow2Plus8(24);
    Pow2Plus8(32); Pow2Plus8(40); Pow2Plus8(48); Pow2Plus8(56);
  }

  lemma {:induction false} Pow2Sum(a: nat, b: nat)
    ensures Pow2(a + b) == Pow2(a) * Pow2(b)
  {
    if a != 0 {
      Pow2Sum(a - 1, b);
      assert Pow2(a + b) == 2 * Pow2(a - 1 + b) == 2 * (Pow2(a - 1) * Pow2(b));
      assert 2 * (Pow2(a - 1) * Pow2(b)) == (2 * Pow2(a - 1)) * Pow2(b) by { MulAssoc(2, Pow2(a - 1), Pow2(b)); }
    }
  }

  lemma MulAssoc(a: int, b: int, c: int)
    ensures a * (b * c) == (a * b) * c
  {
  }

  /** `x` moved up by `k` binary places. */
  function Up(k: nat, x: nat): (r: nat) {
    if k == 0 then x else 2 * Up(k - 1, x)
  }

  lemma {:induction false} UpIsProduct(k: nat, x: nat)
    ensures Up(k, x) == x * Pow2(k)
  {
    if k != 0 {
      UpIsProduct(k - 1, x);
      MulAssoc(2, x, Pow2(k - 1));
    }
  }

  // ---- bitwise operations on binary digits ----

  function AndDigit(a: nat, b: nat): (r: nat)
    requires a < 2 && b < 2
    ensures r <= a && r <= b
  {
    if a + b == 2 then 1 else 0
  }

  function OrDigit(a: nat, b: nat): (r: nat)
    requires a < 2 && b < 2
    ensures a <= r <= a + b && b <= r < 2
  {
    if a + b == 0 then 0 else 1
  }

  function XorDigit(a: nat, b: nat): (r: nat)
    requires a < 2 && b < 2
    ensures r <= a + b && r < 2
  {
    if a == b then 0 else 1
  }

  /** Bitwise and of the low `k` digits. */
  function And(k: nat, x: nat, y: nat): (r: nat) {
    if k == 0 then 0 else 2 * And(k - 1, x / 2, y / 2) + AndDigit(x % 2, y % 2)
  }

  function Or(k: nat, x: nat, y: nat): (r: nat) {
    if k == 0 then 0 else 2 * Or(k - 1, x / 2, y / 2) + OrDigit(x % 2, y % 2)
  }

  function Xor(k: nat, x: nat, y: nat): (r: nat) {
    if k == 0 then 0 else 2 * Xor(k - 1, x / 2, y / 2) + XorDigit(x % 2, y % 2)
  }
}
