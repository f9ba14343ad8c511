/** Facts about binary digits that the emitted bit manipulation rests on. */
module Bits {
  import opened Words

  lemma Half(a: nat, u: nat)
    ensures (a + 2 * u) / 2 == a / 2 + u && (a + 2 * u) % 2 == a % 2
  {
  }

  // The bitwise operations act on low and high parts separately.

  lemma {:induction false} SplitAnd(k: nat, j: nat, xl: nat, xh: nat, yl: nat, yh: nat)
    requires xl < Pow2(k) && yl < Pow2(k)
    ensures And(k + j, xl + Up(k, xh), yl + Up(k, yh)) == And(k, xl, yl) + Up(k, And(j, xh, yh))
    decreases k
  {
    if k != 0 {
      SplitAnd(k - 1, j, xl / 2, xh, yl / 2, yh);
      Half(xl, Up(k - 1, xh));
      Half(yl, Up(k - 1, yh));
    }
  }

  lemma {:induction false} AndBounded(k: nat, x: nat, y: nat)
    ensures And(k, x, y) < Pow2(k)
  {
    if k != 0 { AndBounded(k - 1, x / 2, y / 2); }
  }

  lemma {:induction false} SplitOr(k: nat, j: nat, xl: nat, xh: nat, yl: nat, yh: nat)
    requires xl < Pow2(k) && yl < Pow2(k)
    ensures Or(k + j, xl + Up(k, xh), yl + Up(k, yh)) == Or(k, xl, yl) + Up(k, Or(j, xh, yh))
    decreases k
  {
    if k != 0 {
      SplitOr(k - 1, j, xl / 2, xh, yl / 2, yh);
      Half(xl, Up(k - 1, xh));
      Half(yl, Up(k - 1, yh));
    }
  }

  lemma {:induction false} OrBounded(k: nat, x: nat, y: nat)
    ensures Or(k, x, y) < Pow2(k)
  {
    if k != 0 { OrBounded(k - 1, x / 2, y / 2); }
  }

  lemma {:induction false} SplitXor(k: nat, j: nat, xl: nat, xh: nat, yl: nat, yh: nat)
    requires xl < Pow2(k) && yl < Pow2(k)
    ensures Xor(k + j, xl + Up(k, xh), yl + Up(k, yh)) == Xor(k, xl, yl) + Up(k, Xor(j, xh, yh))
    decreases k
  {
    if k != 0 {
      SplitXor(k - 1, j, xl / 2, xh, yl / 2, yh);
      Half(xl, Up(k - 1, xh));
      Half(yl, Up(k - 1, yh));
    }
  }

  lemma {:induction false} XorBounded(k: nat, x: nat, y: nat)
    ensures Xor(k, x, y) < Pow2(k)
  {
    if k != 0 { XorBounded(k - 1, x / 2, y / 2); }
  }

  lemma {:induction false} OrZero(k: nat, x: nat)
    requires x < Pow2(k)
    ensures Or(k, x, 0) == x == Or(k, 0, x)
  {
    if k != 0 { OrZero(k - 1, x / 2); }
  }

  /** Words with no digit in common are or-ed by adding them. */
  lemma OrDisjoint(k: nat, j: nat, xl: nat, yh: nat)
    requires xl < Pow2(k) && yh < Pow2(j)
    ensures Or(k + j, xl, Up(k, yh)) == xl + Up(k, yh) == Or(k + j, Up(k, yh), xl)
  {
    UpZero(k);
    SplitOr(k, j, xl, 0, 0, yh);
    SplitOr(k, j, 0, yh, xl, 0);
    OrZero(k, xl);
    OrZero(j, yh);
  }

  lemma UpZero(k: nat)
    ensures Up(k, 0) == 0
  {
    UpIsProduct(k, 0);
  }

  lemma {:induction false} DigitwiseCommutes(k: nat, x: nat, y: nat)
    ensures And(k, x, y) == And(k, y, x) && Or(k, x, y) == Or(k, y, x) && Xor(k, x, y) == Xor(k, y, x)
  {
    if k != 0 { DigitwiseCommutes(k - 1, x / 2, y / 2); }
  }

  lemma {:induction false} OrSelf(k: nat, x: nat)
    requires x < Pow2(k)
    ensures Or(k, x, x) == x
  {
    if k != 0 { OrSelf(k - 1, x / 2); }
  }

  lemma DivModUnique(x: int, p: int, q: int, r: int)
    requires 0 < p && x == q * p + r && 0 <= r < p
    ensures x / p == q && x % p == r
  {
    var d := x / p - q;
    assert x == x / p * p + x % p;
    assert d * p == r - x % p;
    ScaleAtLeast(d, p);
  }

  lemma ScaleAtLeast(d: int, p: int)
    requires 0 < p
    ensures d >= 1 ==> d * p >= p
    ensures d <= -1 ==> d * p <= -p
  {
  }

  /** Splitting off a low part commutes with reducing the rest. */
  lemma NestedMod(x: nat, a: nat, b: nat)
    requires 0 < a && 0 < b
    ensures 0 < a * b && x % (a * b) == x % a + a * (x / a % b) && x / (a * b) == x / a / b
  {
    var y, r0 := x / a, x % a;
    var q, r := y / b, y % b;
    NestedSum(x, a, b, y, r0, q, r);
    DivModUnique(x, a * b, q, r0 + a * r);
  }

  lemma ModOfMod(y: nat, b: nat, c: nat)
    requires 0 < b && 0 < c
    ensures 0 < b * c && y % (b * c) % b == y % b
  {
    NestedMod(y, b, c);
    var r, q := y % b, y / b % c;
    DivModUnique(r + b * q, b, q, r);
  }

  lemma ModOfModInt(d: int, b: nat, c: nat)
    requires 0 < b && 0 < c
    ensures 0 < b * c && d % (b * c) % b == d % b
  {
    MulMono(b, 1, c);
    var q, r := d / (b * c), d % (b * c);
    assert d == q * (b * c) + r;
    DivModUnique(d, b, q * c + r / b, r % b) by {
      assert r == r / b * b + r % b;
      calc { q * (b * c); q * c * b; { MulAssoc(q, c, b); } }
    }
  }

  lemma NestedSum(x: nat, a: nat, b: nat, y: nat, r0: nat, q: nat, r: nat)
    requires x == a * y + r0 && y == q * b + r && r0 < a && r < b
    ensures x == q * (a * b) + (r0 + a * r) && 0 <= r0 + a * r < a * b
  {
    calc { a * y; a * (q * b + r); a * (q * b) + a * r; { Rotate(a, q, b); } q * (a * b) + a * r; }
    calc { a * r + a; a * (r + 1); <= { MulMono(a, r + 1, b); } a * b; }
  }

  lemma Rotate(a: int, b: int, c: int)
    ensures a * (b * c) == b * (a * c)
  {
  }

  lemma MulMono(a: nat, x: int, y: int)
    requires x <= y
    ensures a * x <= a * y
  {
  }
}
