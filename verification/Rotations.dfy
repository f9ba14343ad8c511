/** Bit scans built on instructions that leave zero undefined, and rotations built from
    shifts or from the opposite rotation. */
module Rotations {
  import opened Words
  import opened Bits
  import opened WasmNum
  import opened LittleEndian

  // ---- bit scans ----

  /** `bsr`: the index of the highest one digit; nothing is known for zero. */
  predicate IsHighest(x: nat, i: nat) {
    Pow2(i) <= x < Pow2(i + 1)
  }

  /** `bsf`: the index of the lowest one digit. */
  predicate IsLowest(x: nat, i: nat) {
    x % Pow2(i) == 0 && x / Pow2(i) % 2 == 1
  }

  lemma {:induction false} HighestLeads(n: nat, x: nat, i: nat)
    requires IsHighest(x, i) && i < n
    ensures LeadingZeros(n, x) == n - 1 - i
  {
    if i < n - 1 {
      Pow2Grows(i + 1, n - 1);
      HighestLeads(n - 1, x, i);
    }
  }

  lemma {:induction false} ZeroLeads(n: nat)
    ensures LeadingZeros(n, 0) == n == TrailingZeros(n, 0)
  {
    if n != 0 { ZeroLeads(n - 1); }
  }

  lemma {:induction false} LowestTrails(n: nat, x: nat, i: nat)
    requires IsLowest(x, i) && i < n
    ensures TrailingZeros(n, x) == i
  {
    if i == 0 {
      assert Pow2(0) == 1 && x % 2 == 1;
    } else {
      LowestHalves(x, i);
      LowestTrails(n - 1, x / 2, i - 1);
    }
  }

  lemma LowestHalves(x: nat, i: nat)
    requires 0 < i && IsLowest(x, i)
    ensures x % 2 == 0 && IsLowest(x / 2, i - 1)
  {
    NestedMod(x, 2, Pow2(i - 1));
  }

  lemma HighestBelow(n: nat, x: nat, i: nat)
    requires IsHighest(x, i) && x < Pow2(n)
    ensures i < n
  {
    if n <= i { Pow2Grows(n, i); }
  }

  lemma LowestBelow(n: nat, x: nat, i: nat)
    requires IsLowest(x, i) && x < Pow2(n)
    ensures i < n
  {
    if n <= i {
      Pow2Grows(n, i);
      DivModUnique(x, Pow2(i), 0, x);
    }
  }

  /** x86-64 `clz`: the sentinel is all ones at the operand width, so subtracting it
      from the top index wraps to the width. `scan` is what `bsr` left behind. */
  method ClzByBsr(w: Width, x: nat, scan: nat) returns (r: nat)
    requires x < Modulus(w) && scan < Modulus(w) && (x != 0 ==> IsHighest(x, scan))
    ensures r == LeadingZeros(Digits(w), x)
  {
    hide Pow2, LeadingZeros, IsHighest;
    var n := Digits(w);
    var rsi, r8 := Modulus(w) - 1, scan;
    if x == 0 {
      r8 := rsi;
      ZeroLeads(n);
    } else {
      HighestBelow(n, x, scan);
      HighestLeads(n, x, scan);
    }
    rsi := n - 1;
    r := Minus(w, rsi, r8);
  }

  /** x86-64 `ctz`: the sentinel is the width itself. */
  method CtzByBsf(w: Width, x: nat, scan: nat) returns (r: nat)
    requires x < Modulus(w) && (x != 0 ==> IsLowest(x, scan))
    ensures r == TrailingZeros(Digits(w), x)
  {
    var rsi, r8 := Digits(w), scan;
    if x == 0 {
      r8 := rsi;
      ZeroLeads(Digits(w));
    } else {
      LowestBelow(Digits(w), x, scan);
      LowestTrails(Digits(w), x, scan);
    }
    r := r8;
  }

  /** `rbit`: the digits in reverse order. */
  function Reverse(n: nat, x: nat): (r: nat) {
    if n == 0 then 0 else x % 2 * Pow2(n - 1) + Reverse(n - 1, x / 2)
  }

  lemma {:induction false} ReverseFits(n: nat, x: nat)
    ensures Reverse(n, x) < Pow2(n)
  {
    if n != 0 { ReverseFits(n - 1, x / 2); }
  }

  /** arm64 and arm32 count trailing zeros as the leading zeros of the reversal. */
  lemma {:induction false} ReversedZeros(n: nat, x: nat)
    ensures LeadingZeros(n, Reverse(n, x)) == TrailingZeros(n, x)
  {
    if n != 0 {
      ReverseFits(n - 1, x / 2);
      ReversedZeros(n - 1, x / 2);
    }
  }

  // ---- rotations ----

  function Sll(xlen: nat, x: nat, k: nat): (r: nat)
    ensures r < Pow2(xlen)
  {
    x * Pow2(k) % Pow2(xlen)
  }

  function Srl(x: nat, k: nat): (r: nat)
    ensures r <= x
  {
    DivShrinks(x, Pow2(k));
    x / Pow2(k)
  }

  /** The two shifted pieces of a rotation have no digit in common, so or-ing them and
      keeping the low part is rotating left. */
  lemma PiecesRotate(w: Width, xlen: nat, x: nat, k: nat)
    requires x < Modulus(w) && 0 < k < Digits(w) <= xlen
    ensures Or(xlen, Sll(xlen, x, k), Srl(x, Digits(w) - k)) % Modulus(w) == RotateLeft(w, x, k)
  {
    hide Pow2, Or, RotateLeft;
    var n := Digits(w);
    RotationFits(w, x, k);
    ShiftedPiece(xlen, x, k);
    var h := x % Pow2(xlen - k);
    var lo: nat := x / Pow2(n - k);
    UpIsProduct(k, h);
    OrDisjoint(k, xlen - k, lo, h);
    KeepLow(w, xlen, x * Pow2(k), lo);
    RotatedSum(w, x, k);
  }

  lemma RotatedSum(w: Width, x: nat, k: nat)
    requires x < Modulus(w) && k < Digits(w)
    ensures RotateLeft(w, x, k) == x * Pow2(k) % Modulus(w) + x / Pow2(Digits(w) - k)
  {
  }

  lemma ShiftedPiece(xlen: nat, x: nat, k: nat)
    requires k <= xlen
    ensures Sll(xlen, x, k) == x % Pow2(xlen - k) * Pow2(k)
    ensures x % Pow2(xlen - k) < Pow2(xlen - k)
  {
    hide Pow2;
    Pow2Sum(k, xlen - k);
    var q, r := x / Pow2(xlen - k), x % Pow2(xlen - k);
    ShiftedSum(x, Pow2(k), Pow2(xlen - k), q, r);
    DivModUnique(x * Pow2(k), Pow2(xlen), q, r * Pow2(k));
  }

  /** Reducing modulo the register width first does not change the low part. */
  lemma KeepLow(w: Width, xlen: nat, y: nat, lo: nat)
    requires Digits(w) <= xlen && y % Modulus(w) + lo < Modulus(w)
    ensures (y % Pow2(xlen) + lo) % Modulus(w) == y % Modulus(w) + lo
  {
    hide Pow2;
    var n := Digits(w);
    var m, p := Modulus(w), Pow2(xlen - n);
    Pow2Sum(n, xlen - n);
    NestedMod(y, m, p);
    var q := y / m % p;
    assert y % Pow2(xlen) + lo == q * m + (y % m + lo);
    DivModUnique(y % Pow2(xlen) + lo, m, q, y % m + lo);
  }

  /** RISC-V: `first` by the amount, `second` by the negated amount, both masked. RV64
      keeps the low 32 bits of a 32-bit rotation. */
  function RotateByShifts(w: Width, xlen: nat, right: bool, x: nat, y: nat): (r: nat)
    requires x < Modulus(w) && Digits(w) <= xlen
  {
    var n := Digits(w);
    var t3: nat := y % n;
    var neg := (0 - t3) % Pow2(xlen);
    var t5: nat := neg % n;
    var (t6, a4) := if right then (Srl(x, t3), Sll(xlen, x, t5)) else (Sll(xlen, x, t3), Srl(x, t5));
    Or(xlen, t6, a4) % Modulus(w)
  }

  lemma NegatedAmountMasked(w: Width, xlen: nat, k: nat)
    requires Digits(w) <= xlen && (xlen == 32 || xlen == 64) && k < Digits(w)
    ensures (0 - k) % Pow2(xlen) % Digits(w) == if k == 0 then 0 else Digits(w) - k
  {
    Pow2Values();
    if k != 0 {
      DivModUnique(0 - k, Pow2(xlen), -1, Pow2(xlen) - k);
      DivModUnique(Pow2(xlen) - k, Digits(w), Pow2(xlen) / Digits(w) - 1, Digits(w) - k);
    }
  }

  lemma ShiftsRotate(w: Width, xlen: nat, right: bool, x: nat, y: nat)
    requires x < Modulus(w) && y < Modulus(w) && Digits(w) <= xlen && (xlen == 32 || xlen == 64)
    ensures RotateByShifts(w, xlen, right, x, y) == IBin(w, if right then Rotr else Rotl, x, y)
  {
    hide Pow2, Or, RotateLeft, Sll, Srl;
    var n := Digits(w);
    var k := y % n;
    NegatedAmountMasked(w, xlen, k);
    if k == 0 {
      ZeroPieces(w, xlen, x);
      RotateByZero(w, x);
    } else if right {
      PiecesRotate(w, xlen, x, n - k);
      DigitwiseCommutes(xlen, Srl(x, k), Sll(xlen, x, n - k));
    } else {
      PiecesRotate(w, xlen, x, k);
    }
  }

  /** A zero amount or-s the operand with itself. */
  lemma ZeroPieces(w: Width, xlen: nat, x: nat)
    requires x < Modulus(w) && Digits(w) <= xlen
    ensures Srl(x, 0) == Sll(xlen, x, 0) == x && Or(xlen, x, x) % Modulus(w) == x
  {
    assert Pow2(0) == 1;
    Pow2Grows(Digits(w), xlen);
    OrSelf(xlen, x);
    hide Or, Pow2;
    DivModUnique(x, Pow2(xlen), 0, x);
    DivModUnique(x, Modulus(w), 0, x);
  }

  /** arm32 `ror` by register reads the amount's low byte; 32 is the identity. */
  function RorByRegister(x: Half, amount: nat): (r: nat)
    requires amount < 256
    ensures r < W32
  {
    RotateRight(I32, x, amount % 32)
  }

  /** arm32 rotates left by rotating right by 32 less the masked amount. */
  lemma RorRotatesLeft(x: Half, y: Half)
    ensures RorByRegister(x, 32 - y % 32) == IBin(I32, Rotl, x, y)
    ensures RorByRegister(x, y % 32) == IBin(I32, Rotr, x, y)
  {
    hide Pow2, RotateLeft;
    RotateByZero(I32, x);
  }
}
