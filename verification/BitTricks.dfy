/** Bit manipulation without the matching instruction: the SWAR population count, bit
    scans with a sentinel, and rotations from shifts. */
module BitTricks {
  import opened Words
  import opened Bits
  import opened WasmNum
  import opened LittleEndian

  // ---- masks ----

  function Ones(k: nat): (m: nat) {
    if k == 0 then 0 else 2 * Ones(k - 1) + 1
  }

  lemma {:induction false} OnesValue(k: nat)
    ensures Ones(k) == Pow2(k) - 1
  {
    if k != 0 { OnesValue(k - 1); }
  }

  lemma {:induction false} AndZero(k: nat, x: nat)
    ensures And(k, x, 0) == 0
  {
    if k != 0 { AndZero(k - 1, x / 2); }
  }

  /** Masking with `j` ones keeps the remainder modulo `2^j`. */
  lemma {:induction false} MaskIsMod(k: nat, j: nat, x: nat)
    requires j <= k
    ensures And(k, x, Ones(j)) == x % Pow2(j)
    decreases j
  {
    if j == 0 {
      AndZero(k, x);
    } else {
      MaskIsMod(k - 1, j - 1, x / 2);
      assert Ones(j) / 2 == Ones(j - 1) && Ones(j) % 2 == 1;
      HalfMod(x, Pow2(j - 1));
    }
  }

  lemma HalfMod(x: nat, p: nat)
    requires 0 < p
    ensures x % (2 * p) == 2 * (x / 2 % p) + x % 2
  {
    NestedMod(x, 2, p);
  }

  // ---- population count ----

  /** `x` moved down by `k` binary places, and the part moved out. */
  function Down(k: nat, x: nat): (r: nat)
    ensures r <= x
  {
    DivShrinks(x, Pow2(k));
    x / Pow2(k)
  }

  function Low(k: nat, x: nat): (r: nat)
    ensures r < Pow2(k)
  {
    x % Pow2(k)
  }

  lemma DownLow(k: nat, x: nat)
    ensures x == Down(k, x) * Pow2(k) + Low(k, x)
  {
  }

  lemma DownLowUnique(k: nat, q: nat, r: nat)
    requires r < Pow2(k)
    ensures 0 <= q * Pow2(k) + r
    ensures Down(k, q * Pow2(k) + r) == q && Low(k, q * Pow2(k) + r) == r
  {
    hide Pow2;
    MulMono(q, 0, Pow2(k));
    DivModUnique(q * Pow2(k) + r, Pow2(k), q, r);
  }

  /** Splitting by two lanes is splitting by one double lane. */
  lemma TwoLanes(k: nat, x: nat)
    ensures Down(2 * k, x) == Down(k, Down(k, x))
    ensures Low(2 * k, x) == Low(k, x) + Pow2(k) * Low(k, Down(k, x))
    ensures Pow2(2 * k) == Pow2(k) * Pow2(k)
  {
    Pow2Sum(k, k);
    var y := Down(k, x);
    DownLow(k, x);
    DownLow(k, y);
    hide Pow2, Down, Low;
    var (q, hi, lo) := (Down(k, y), Low(k, y), Low(k, x));
    calc {
      x;
      (q * Pow2(k) + hi) * Pow2(k) + lo;
      { Rebracket(q, hi, Pow2(k)); }
      q * Pow2(2 * k) + (Pow2(k) * hi + lo);
    }
    LanePair(k, lo, hi);
    DownLowUnique(2 * k, q, Pow2(k) * hi + lo);
  }

  lemma Rebracket(q: nat, hi: nat, p: nat)
    ensures (q * p + hi) * p == q * (p * p) + p * hi
  {
    MulAssoc(q, p, p);
  }

  lemma LanePair(k: nat, lo: nat, hi: nat)
    requires lo < Pow2(k) && hi < Pow2(k)
    ensures 0 <= Pow2(k) * hi + lo < Pow2(2 * k)
  {
    hide Pow2;
    Pow2Sum(k, k);
    MulMono(Pow2(k), hi + 1, Pow2(k));
    MulMono(Pow2(k), 0, hi);
  }

  /** Sum of the `m` lanes of `k` digits. */
  function LaneSum(k: nat, m: nat, x: nat): (s: nat) {
    if m == 0 then 0 else Low(k, x) + LaneSum(k, m - 1, Down(k, x))
  }

  /** The number of one digits is the sum of the one-digit lanes. */
  lemma {:induction false} OneDigitLanes(m: nat, x: nat)
    ensures LaneSum(1, m, x) == OneDigits(m, x)
  {
    assert Pow2(1) == 2 * Pow2(0) == 2;
    if m != 0 { OneDigitLanes(m - 1, x / 2); }
  }

  /** Neighbouring lanes added into lanes twice as wide. */
  function Fold(k: nat, m: nat, x: nat): (y: nat) {
    if m == 0 then 0
    else Up(2 * k, Fold(k, m - 1, Down(2 * k, x))) + (Low(k, x) + Low(k, Down(k, x)))
  }

  /** The mask of the low half of each of `m` double lanes. */
  function LaneMask(k: nat, m: nat): (y: nat) {
    if m == 0 then 0 else Ones(k) + Up(2 * k, LaneMask(k, m - 1))
  }

  lemma SumFits(k: nat, a: nat, b: nat)
    requires 1 <= k && a < Pow2(k) && b < Pow2(k)
    ensures a + b < Pow2(2 * k)
  {
    hide Pow2;
    Pow2Sum(k, k);
    assert Pow2(k) >= 2 by { Pow2Grows(1, k); assert Pow2(1) == 2 by { PowerOne(); } }
    MulMono(Pow2(k), 2, Pow2(k));
  }

  lemma PowerOne()
    ensures Pow2(1) == 2 && Pow2(0) == 1
  {
  }

  /** Folding keeps the total: no double lane overflows. */
  lemma {:induction false} FoldKeepsSum(k: nat, m: nat, x: nat)
    requires 1 <= k
    ensures LaneSum(2 * k, m, Fold(k, m, x)) == LaneSum(k, 2 * m, x)
  {
    if m != 0 {
      hide Pow2, Down, Low;
      var s, rest := Low(k, x) + Low(k, Down(k, x)), Fold(k, m - 1, Down(2 * k, x));
      FoldKeepsSum(k, m - 1, Down(2 * k, x));
      TwoLanes(k, x);
      SumFits(k, Low(k, x), Low(k, Down(k, x)));
      UpIsProduct(2 * k, rest);
      DownLowUnique(2 * k, rest, s);
      assert LaneSum(k, 2 * m, x) == Low(k, x) + LaneSum(k, 2 * m - 1, Down(k, x));
      assert LaneSum(k, 2 * m - 1, Down(k, x)) == Low(k, Down(k, x)) + LaneSum(k, 2 * (m - 1), Down(k, Down(k, x)));
    }
  }

  /** Adding the masked word to the masked shifted word folds its lanes. */
  lemma {:induction false} MaskedAdd(k: nat, m: nat, x: nat)
    ensures And(2 * k * m, x, LaneMask(k, m)) + And(2 * k * m, Down(k, x), LaneMask(k, m)) == Fold(k, m, x)
  {
    if m != 0 {
      hide Pow2, Down, Low, And;
      var j, mask := 2 * k * (m - 1), LaneMask(k, m - 1);
      MaskedAdd(k, m - 1, Down(2 * k, x));
      assert 2 * k * m == 2 * k + j;
      OneLane(k, j, x, mask);
      OneLane(k, j, Down(k, x), mask);
      TwoLanes(k, x);
      TwoLanes(k, Down(k, x));
      UpAdds(2 * k, And(j, Down(2 * k, x), mask), And(j, Down(2 * k, Down(k, x)), mask));
    } else {
      assert And(0, x, 0) == 0 == And(0, Down(k, x), 0);
    }
  }

  lemma {:induction false} UpAdds(k: nat, a: nat, b: nat)
    ensures Up(k, a) + Up(k, b) == Up(k, a + b)
  {
    if k != 0 { UpAdds(k - 1, a, b); }
  }

  /** The mask of one double lane below the masks of the others. */
  lemma OneLane(k: nat, j: nat, x: nat, mask: nat)
    ensures And(2 * k + j, x, Ones(k) + Up(2 * k, mask)) == Low(k, x) + Up(2 * k, And(j, Down(2 * k, x), mask))
  {
    hide Pow2, And, Down, Low;
    var lo, hi := Low(2 * k, x), Down(2 * k, x);
    DownLow(2 * k, x);
    UpIsProduct(2 * k, hi);
    OnesFit(k);
    SplitAnd(2 * k, j, lo, hi, Ones(k), mask);
    LowMask(k, lo);
    LowOfLow(k, x);
  }

  lemma OnesFit(k: nat)
    ensures Ones(k) < Pow2(2 * k)
  {
    hide Pow2;
    OnesValue(k);
    Pow2Grows(k, 2 * k);
  }

  lemma LowMask(k: nat, x: nat)
    ensures And(2 * k, x, Ones(k)) == Low(k, x)
  {
    MaskIsMod(2 * k, k, x);
  }

  lemma LowOfLow(k: nat, x: nat)
    ensures Low(k, Low(2 * k, x)) == Low(k, x)
  {
    hide Pow2, Down, Low;
    TwoLanes(k, x);
    DownLowUnique(k, Low(k, Down(k, x)), Low(k, x));
  }

  /** `x` is exactly `m` lanes, none above `b`. */
  predicate LanesAtMost(k: nat, m: nat, x: nat, b: nat) {
    if m == 0 then x == 0 else Low(k, x) <= b && LanesAtMost(k, m - 1, Down(k, x), b)
  }

  lemma {:induction false} WordLanes(m: nat, x: nat)
    requires x < Pow2(m)
    ensures LanesAtMost(1, m, x, 1)
  {
    PowerOne();
    if m != 0 { WordLanes(m - 1, x / 2); }
  }

  lemma {:induction false} FoldLanes(k: nat, m: nat, x: nat, b: nat)
    requires 1 <= k && LanesAtMost(k, 2 * m, x, b)
    ensures LanesAtMost(2 * k, m, Fold(k, m, x), 2 * b)
  {
    if m != 0 {
      hide Pow2, Down, Low;
      var s, rest := Low(k, x) + Low(k, Down(k, x)), Fold(k, m - 1, Down(2 * k, x));
      TwoLanes(k, x);
      assert LanesAtMost(k, 2 * m - 1, Down(k, x), b);
      FoldLanes(k, m - 1, Down(2 * k, x), b);
      SumFits(k, Low(k, x), Low(k, Down(k, x)));
      UpIsProduct(2 * k, rest);
      DownLowUnique(2 * k, rest, s);
    }
  }

  /** `x - ((x >> 1) & 0b01..)` is the same fold of one-digit lanes. */
  lemma {:induction false} FirstFold(m: nat, x: nat)
    requires LanesAtMost(1, 2 * m, x, 1)
    ensures x - And(2 * m, x / 2, LaneMask(1, m)) == Fold(1, m, x)
  {
    if m != 0 {
      PowerOne();
      TwoLanes(1, x);
      assert LanesAtMost(1, 2 * m - 1, Down(1, x), 1);
      FirstFold(m - 1, Down(2, x));
      OneLane(1, 2 * (m - 1), x / 2, LaneMask(1, m - 1));
      QuarterHalves(x);
      hide Pow2, And, LanesAtMost;
      UpIsProduct(2, And(2 * (m - 1), Down(2, x / 2), LaneMask(1, m - 1)));
      UpIsProduct(2, Fold(1, m - 1, Down(2, x)));
    }
  }

  lemma QuarterHalves(x: nat)
    ensures Pow2(2) == 4 && Down(2, x) == x / 4 && Low(1, x) == x % 2 && Down(1, x) == x / 2
    ensures Down(2, x / 2) == x / 4 / 2 && x == 4 * (x / 4) + 2 * (x / 2 % 2) + x % 2
  {
    PowerOne();
    assert Pow2(2) == 2 * Pow2(1);
    QuarterSplit(x);
    QuarterSplit(x / 2);
  }

  lemma QuarterSplit(x: nat)
    ensures x == 4 * (x / 4) + 2 * (x / 2 % 2) + x % 2 && x / 2 / 4 == x / 4 / 2
  {
    var q, b := x / 4, x % 4;
    assert x == 4 * q + b;
    assert x / 2 == 2 * q + b / 2;
  }

  /** Narrow lanes may be added before masking: no sum reaches its neighbour. */
  lemma {:induction false} AddThenMask(m: nat, z: nat)
    requires LanesAtMost(4, 2 * m, z, 4)
    ensures And(8 * m, z + Down(4, z), LaneMask(4, m)) == Fold(4, m, z)
  {
    if m == 0 {
      assert And(0, z + Down(4, z), 0) == 0;
    } else {
      assert LanesAtMost(4, 2 * m - 1, Down(4, z), 4);
      TwoLanes(4, z);
      hide Pow2, And, Down, Low;
      AddThenMask(m - 1, Down(8, z));
      assert 8 * m == 2 * 4 + 8 * (m - 1);
      OneLane(4, 8 * (m - 1), z + Down(4, z), LaneMask(4, m - 1));
      NextLane(m, z);
      NibbleSum(z);
    }
  }

  lemma NextLane(m: nat, z: nat)
    requires 0 < m && LanesAtMost(4, 2 * m, z, 4)
    ensures Low(4, z) <= 4 && Low(4, Down(4, z)) <= 4 && Low(4, Down(8, z)) <= 4
  {
    TwoLanes(4, z);
    assert LanesAtMost(4, 2 * m - 1, Down(4, z), 4);
    assert LanesAtMost(4, 2 * (m - 1), Down(8, z), 4);
    if m == 1 { assert Low(4, 0) == 0; }
  }

  lemma PowerFour()
    ensures Pow2(4) == 16 && Pow2(8) == 256
  {
    Pow2Values();
    assert Pow2(4) == 2 * Pow2(3) == 4 * Pow2(2) == 8 * Pow2(1) == 16 * Pow2(0);
  }

  lemma NibbleSum(z: nat)
    requires Low(4, z) <= 4 && Low(4, Down(4, z)) <= 4 && Low(4, Down(8, z)) <= 4
    ensures Low(4, z + Down(4, z)) == Low(4, z) + Low(4, Down(4, z))
    ensures Down(8, z + Down(4, z)) == Down(8, z) + Down(4, Down(8, z))
  {
    PowerFour();
    TwoLanes(4, z);
    hide Pow2;
    var a, b, c, r := z % 16, z / 16 % 16, z / 256 % 16, z / 256 / 16;
    assert z == a + 16 * b + 256 * c + 4096 * r;
    var t := z + z / 16;
    assert t == (a + b) + 16 * (b + c) + 256 * (c + 16 * r + r);
  }

  /** The top byte of the product with `0x01..01` collects every byte lane. */
  lemma TopByte4(u: nat)
    requires LanesAtMost(8, 4, u, 8)
    ensures u * 0x0101_0101 % W32 / 0x100_0000 == LaneSum(8, 4, u)
  {
    var b0, b1, b2, b3 := Lanes4(u);
    var s := b0 + b1 + b2 + b3;
    var low := b0 + 256 * (b0 + b1) + 65536 * (b0 + b1 + b2);
    var q := (b1 + b2 + b3) + 256 * (b2 + b3) + 65536 * b3;
    DivModUnique(u * 0x0101_0101, W32, q, s * 0x100_0000 + low);
    DivModUnique(s * 0x100_0000 + low, 0x100_0000, s, low);
  }

  lemma Lanes4(u: nat) returns (b0: nat, b1: nat, b2: nat, b3: nat)
    requires LanesAtMost(8, 4, u, 8)
    ensures u == b0 + 256 * b1 + 0x1_0000 * b2 + 0x100_0000 * b3
    ensures b0 <= 8 && b1 <= 8 && b2 <= 8 && b3 <= 8 && LaneSum(8, 4, u) == b0 + b1 + b2 + b3
  {
    var u1, u2, u3: nat;
    b0, u1 := LaneOff(4, u);
    b1, u2 := LaneOff(3, u1);
    b2, u3 := LaneOff(2, u2);
    b3, u1 := LaneOff(1, u3);
  }

  lemma LaneOff(m: nat, u: nat) returns (b: nat, rest: nat)
    requires 0 < m && LanesAtMost(8, m, u, 8)
    ensures u == 256 * rest + b && b <= 8 && LanesAtMost(8, m - 1, rest, 8) && (m == 1 ==> rest == 0)
    ensures LaneSum(8, m, u) == b + LaneSum(8, m - 1, rest)
  {
    PowerFour();
    b, rest := Low(8, u), Down(8, u);
    DownLow(8, u);
    hide Low, Down;
  }

  lemma TopByte8(u: nat)
    requires LanesAtMost(8, 8, u, 8)
    ensures u * 0x0101_0101_0101_0101 % W64 / 0x100_0000_0000_0000 == LaneSum(8, 8, u)
  {
    var b0, b1, b2, b3, v := HighLanes(u);
    var b4, b5, b6, b7 := Lanes4(v);
    hide LanesAtMost, LaneSum;
    var s: int := b0 + b1 + b2 + b3 + b4 + b5 + b6 + b7;
    var q, low := ByteProduct(u, s, b0, b1, b2, b3, b4, b5, b6, b7);
    TopOf(u * 0x0101_0101_0101_0101, q, s, low);
  }

  lemma TopOf(x: int, q: int, s: int, low: int)
    requires x == q * W64 + (s * 0x100_0000_0000_0000 + low) && 0 <= s <= 64 && 0 <= low < 0x100_0000_0000_0000
    ensures x % W64 / 0x100_0000_0000_0000 == s
  {
    DivModUnique(x, W64, q, s * 0x100_0000_0000_0000 + low);
    DivModUnique(s * 0x100_0000_0000_0000 + low, 0x100_0000_0000_0000, s, low);
  }

  /** The bytes of the product are the running sums of the lanes. */
  lemma ByteProduct(u: int, s: int, b0: int, b1: int, b2: int, b3: int, b4: int, b5: int, b6: int, b7: int)
    returns (q: int, low: int)
    requires u == b0 + 256 * b1 + 0x1_0000 * b2 + 0x100_0000 * b3
                  + 0x1_0000_0000 * (b4 + 256 * b5 + 0x1_0000 * b6 + 0x100_0000 * b7)
    requires s == b0 + b1 + b2 + b3 + b4 + b5 + b6 + b7
    requires 0 <= b0 <= 8 && 0 <= b1 <= 8 && 0 <= b2 <= 8 && 0 <= b3 <= 8 && 0 <= b4 <= 8 && 0 <= b5 <= 8 && 0 <= b6 <= 8 && 0 <= b7 <= 8
    ensures u * 0x0101_0101_0101_0101 == q * W64 + (s * 0x100_0000_0000_0000 + low)
    ensures 0 <= low < 0x100_0000_0000_0000
  {
    low := b0 + 0x100 * (b0 + b1) + 0x1_0000 * (b0 + b1 + b2) + 0x100_0000 * (b0 + b1 + b2 + b3)
      + 0x1_0000_0000 * (b0 + b1 + b2 + b3 + b4) + 0x100_0000_0000 * (b0 + b1 + b2 + b3 + b4 + b5)
      + 0x1_0000_0000_0000 * (b0 + b1 + b2 + b3 + b4 + b5 + b6);
    q := (s - b0) + 0x100 * (s - b0 - b1) + 0x1_0000 * (b3 + b4 + b5 + b6 + b7) + 0x100_0000 * (b4 + b5 + b6 + b7)
      + 0x1_0000_0000 * (b5 + b6 + b7) + 0x100_0000_0000 * (b6 + b7) + 0x1_0000_0000_0000 * b7;
  }

  /** The low four byte lanes and what is above them. */
  lemma HighLanes(u: nat) returns (b0: nat, b1: nat, b2: nat, b3: nat, v: nat)
    requires LanesAtMost(8, 8, u, 8)
    ensures u == b0 + 256 * b1 + 0x1_0000 * b2 + 0x100_0000 * b3 + 0x1_0000_0000 * v
    ensures b0 <= 8 && b1 <= 8 && b2 <= 8 && b3 <= 8 && LanesAtMost(8, 4, v, 8)
    ensures LaneSum(8, 8, u) == b0 + b1 + b2 + b3 + LaneSum(8, 4, v)
  {
    hide LanesAtMost, LaneSum;
    var u1, u2, u3: nat;
    b0, u1 := LaneOff(8, u);
    b1, u2 := LaneOff(7, u1);
    b2, u3 := LaneOff(6, u2);
    b3, v := LaneOff(5, u3);
  }

  /** The mask is the repeating fraction `(2^(2km) - 1) / (2^k + 1)`. */
  lemma {:induction false} MaskValue(k: nat, m: nat)
    ensures LaneMask(k, m) * (Pow2(k) + 1) == Pow2(2 * k * m) - 1
  {
    hide Pow2;
    if m == 0 {
      PowerOne();
    } else {
      MaskValue(k, m - 1);
      OnesValue(k);
      UpIsProduct(2 * k, LaneMask(k, m - 1));
      Pow2Sum(k, k);
      assert 2 * k * m == 2 * k + 2 * k * (m - 1);
      Pow2Sum(2 * k, 2 * k * (m - 1));
      MaskAlgebra(Pow2(k), LaneMask(k, m - 1), Pow2(2 * k * (m - 1)));
    }
  }

  lemma MaskAlgebra(p: int, mask: int, q: int)
    requires mask * (p + 1) == q - 1
    ensures (p - 1 + mask * (p * p)) * (p + 1) == p * p * q - 1
  {
    calc {
      (p - 1 + mask * (p * p)) * (p + 1);
      (p - 1) * (p + 1) + mask * (p * p) * (p + 1);
      { MulAssoc(mask, p * p, p + 1); }
      p * p - 1 + mask * (p * p) * (p + 1);
      { assert mask * (p * p) * (p + 1) == (p * p) * (mask * (p + 1)); }
      p * p - 1 + (p * p) * (q - 1);
    }
  }

  lemma MaskIs(k: nat, m: nat, p: nat, q: nat, v: nat)
    requires Pow2(k) == p && Pow2(2 * k * m) == q && v * (p + 1) == q - 1
    ensures LaneMask(k, m) == v
  {
    MaskValue(k, m);
    hide Pow2, LaneMask;
    var d := LaneMask(k, m) - v;
    assert d * (p + 1) == 0;
    ScaleAtLeast(d, p + 1);
  }

  lemma Masks()
    ensures LaneMask(1, 16) == 0x5555_5555 && LaneMask(2, 8) == 0x3333_3333 && LaneMask(4, 4) == 0x0f0f_0f0f
    ensures LaneMask(1, 32) == 0x5555_5555_5555_5555 && LaneMask(2, 16) == 0x3333_3333_3333_3333
    ensures LaneMask(4, 8) == 0x0f0f_0f0f_0f0f_0f0f
  {
    hide LaneMask, Pow2;
    Pow2Values();
    PowerFour();
    PowerOne();
    PowerTwo();
    MaskIs(1, 16, 2, W32, 0x5555_5555);
    MaskIs(2, 8, 4, W32, 0x3333_3333);
    MaskIs(4, 4, 16, W32, 0x0f0f_0f0f);
    MaskIs(1, 32, 2, W64, 0x5555_5555_5555_5555);
    MaskIs(2, 16, 4, W64, 0x3333_3333_3333_3333);
    MaskIs(4, 8, 16, W64, 0x0f0f_0f0f_0f0f_0f0f);
  }

  lemma PowerTwo()
    ensures Pow2(2) == 4
  {
    assert Pow2(2) == 2 * Pow2(1) == 4 * Pow2(0);
  }

  /** Three folds of the lanes, and the sum is kept. */
  lemma ThreeFolds(m: nat, x: nat)
    requires x < Pow2(8 * m)
    ensures var z := Fold(2, 2 * m, Fold(1, 4 * m, x));
            && LanesAtMost(1, 8 * m, x, 1) && LanesAtMost(4, 2 * m, z, 4)
            && LanesAtMost(8, m, Fold(4, m, z), 8) && LaneSum(8, m, Fold(4, m, z)) == OneDigits(8 * m, x)
  {
    hide Pow2, Fold, LaneSum, LanesAtMost;
    WordLanes(8 * m, x);
    var y := Fold(1, 4 * m, x);
    var z := Fold(2, 2 * m, y);
    FoldLanes(1, 4 * m, x, 1);
    FoldLanes(2, 2 * m, y, 2);
    FoldLanes(4, m, z, 4);
    FoldKeepsSum(1, 4 * m, x);
    FoldKeepsSum(2, 2 * m, y);
    FoldKeepsSum(4, m, z);
    OneDigitLanes(8 * m, x);
  }

  /** Lanes that fit their width make a word that fits. */
  lemma {:induction false} LanesFit(k: nat, m: nat, x: nat, b: nat)
    requires LanesAtMost(k, m, x, b) && b < Pow2(k)
    ensures x < Pow2(k * m)
  {
    PowerOne();
    if m != 0 {
      LanesFit(k, m - 1, Down(k, x), b);
      DownLow(k, x);
      hide Pow2, Down, Low;
      assert k * m == k + k * (m - 1);
      Pow2Sum(k, k * (m - 1));
      MulMono(Pow2(k), Down(k, x) + 1, Pow2(k * (m - 1)));
      assert Pow2(k) * (Down(k, x) + 1) == Down(k, x) * Pow2(k) + Pow2(k);
    }
  }

  /** Only the low `k` digits matter to a `k`-digit and. */
  lemma {:induction false} AndOfLow(k: nat, x: nat, y: nat)
    ensures And(k, x % Pow2(k), y) == And(k, x, y)
  {
    if k != 0 {
      var p := Pow2(k - 1);
      assert Pow2(k) == 2 * p;
      HalfMod(x, p);
      AndOfLow(k - 1, x / 2, y / 2);
      hide Pow2;
      var lo: nat := x / 2 % p;
      Bits.Half(x % 2, lo);
      assert x % Pow2(k) == x % 2 + 2 * lo;
    }
  }

  /** What the first two steps compute, at `8*m` bits. */
  lemma FirstTwoFolds(m: nat, x: nat)
    requires x < Pow2(8 * m)
    ensures var y := Fold(1, 4 * m, x);
            && x - And(8 * m, x / 2, LaneMask(1, 4 * m)) == y < Pow2(8 * m)
            && And(8 * m, y, LaneMask(2, 2 * m)) + And(8 * m, y / 4, LaneMask(2, 2 * m)) == Fold(2, 2 * m, y) < Pow2(8 * m)
  {
    var y := Fold(1, 4 * m, x);
    WordLanes(8 * m, x);
    FoldLanes(1, 4 * m, x, 1);
    FoldLanes(2, 2 * m, y, 2);
    QuarterHalves(y);
    PowerFour();
    LanesFit(2, 4 * m, y, 2);
    LanesFit(4, 2 * m, Fold(2, 2 * m, y), 4);
    FirstFold(4 * m, x);
    MaskedAdd(2, 2 * m, y);
  }

  /** The last fold adds before it masks; a carry out of the word is masked off too. */
  lemma LastFold(m: nat, z: nat)
    requires LanesAtMost(4, 2 * m, z, 4)
    ensures And(8 * m, (z + z / 16) % Pow2(8 * m), LaneMask(4, m)) == Fold(4, m, z)
  {
    PowerFour();
    hide And, Fold, LaneMask, LanesAtMost;
    AddThenMask(m, z);
    AndOfLow(8 * m, z + z / 16, LaneMask(4, m));
  }

  /** x86-64 and arm32, 32-bit form. */
  method Popcount32(x: Half) returns (r: nat)
    ensures r == OneDigits(32, x)
  {
    hide Pow2, And, Fold, LaneMask, LaneSum, LanesAtMost, OneDigits, Low, Down;
    Pow2Values();
    Masks();
    ThreeFolds(4, x);
    FirstTwoFolds(4, x);
    var r8 := And(32, x / 2, 0x5555_5555);
    var y := (x - r8) % W32;
    assert y == Fold(1, 16, x);
    r8 := And(32, y / 4, 0x3333_3333);
    var z := (And(32, y, 0x3333_3333) + r8) % W32;
    assert z == Fold(2, 8, y);
    r8 := z / 16;
    LastFold(4, z);
    var u := And(32, (z + r8) % W32, 0x0f0f_0f0f);
    assert u == Fold(4, 4, z);
    TopByte4(u);
    r := u * 0x0101_0101 % W32 / 0x100_0000;
  }

  /** x86-64, 64-bit form. */
  method Popcount64(x: Word) returns (r: nat)
    ensures r == OneDigits(64, x)
  {
    hide Pow2, And, Fold, LaneMask, LaneSum, LanesAtMost, OneDigits, Low, Down;
    Pow2Values();
    Masks();
    ThreeFolds(8, x);
    FirstTwoFolds(8, x);
    var r8 := And(64, x / 2, 0x5555_5555_5555_5555);
    var y := (x - r8) % W64;
    assert y == Fold(1, 32, x);
    r8 := And(64, y / 4, 0x3333_3333_3333_3333);
    var z := (And(64, y, 0x3333_3333_3333_3333) + r8) % W64;
    assert z == Fold(2, 16, y);
    r8 := z / 16;
    LastFold(8, z);
    var u := And(64, (z + r8) % W64, 0x0f0f_0f0f_0f0f_0f0f);
    assert u == Fold(4, 8, z);
    TopByte8(u);
    r := u * 0x0101_0101_0101_0101 % W64 / 0x100_0000_0000_0000;
  }
}
