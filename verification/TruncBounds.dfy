/** The exclusive bounds of the trapping float-to-integer conversions, over the reals the
    IEEE 754 bit patterns denote (section 4.3.4 of the WebAssembly Core Specification
    2.0 defines the partial truncations). */
module TruncBounds {
  import opened Words
  import opened Bits
  import opened WasmNum
  import opened LittleEndian

  datatype Format = F32 | F64

  function FracBits(f: Format): (m: nat) { if f == F32 then 23 else 52 }
  function MaxExponent(f: Format): (e: nat) { if f == F32 then 255 else 2047 }

  /** The reciprocal of the smallest positive value is `2^Scale`. */
  function Scale(f: Format): (s: nat) { if f == F32 then 149 else 1074 }
  function SignBit(f: Format): (b: nat) { if f == F32 then W31 else W63 }

  predicate IsPattern(f: Format, bits: nat) {
    bits < 2 * SignBit(f)
  }

  predicate Negative(f: Format, bits: nat) {
    bits >= SignBit(f)
  }

  /** Exponent and fraction fields together. */
  function Magnitude(f: Format, bits: nat): (a: nat)
  {
    bits % SignBit(f)
  }

  predicate Finite(f: Format, bits: nat) {
    Magnitude(f, bits) < MaxExponent(f) * Pow2(FracBits(f))
  }

  predicate NotANumber(f: Format, bits: nat) {
    Magnitude(f, bits) > MaxExponent(f) * Pow2(FracBits(f))
  }

  /** The magnitude in units of the smallest positive value. */
  function Units(f: Format, a: nat): (u: nat) {
    var p := Pow2(FracBits(f));
    Parts(a, p);
    if a / p == 0 then a % p else (p + a % p) * Pow2(a / p - 1)
  }

  lemma Parts(a: nat, p: nat)
    requires 0 < p
    ensures a == a / p * p + a % p && 0 <= a / p
  {
    DivShrinks(a, p);
  }

  function SignedUnits(f: Format, bits: nat): (v: int) {
    var u: int := Units(f, Magnitude(f, bits));
    if Negative(f, bits) then -u else u
  }

  /** The real a finite pattern denotes. */
  function Decode(f: Format, bits: nat): (x: real)
    requires Finite(f, bits)
  {
    SignedUnits(f, bits) as real / Pow2(Scale(f)) as real
  }

  /** Rounding toward zero. */
  function TruncReal(x: real): (t: int) {
    if x < 0.0 then -((-x).Floor) else x.Floor
  }

  // ---- patterns are ordered as magnitudes ----

  lemma UnitsAt(f: Format, e: nat, frac: nat)
    requires frac < Pow2(FracBits(f))
    ensures var p := Pow2(FracBits(f));
            0 <= e * p + frac && Units(f, e * p + frac) == if e == 0 then frac else (p + frac) * Pow2(e - 1)
  {
    hide Pow2;
    var p := Pow2(FracBits(f));
    MulMono(e, 0, p);
    DivModUnique(e * p + frac, p, e, frac);
  }

  /** The next pattern is the next value. */
  lemma UnitsStep(f: Format, a: nat)
    ensures Units(f, a) < Units(f, a + 1)
  {
    var p := Pow2(FracBits(f));
    Parts(a, p);
    hide Units, Pow2;
    var e, frac := a / p, a % p;
    UnitsAt(f, e, frac);
    if frac + 1 < p {
      UnitsAt(f, e, frac + 1);
      if e != 0 { SumTimes(p + frac, Pow2(e - 1)); }
    } else {
      assert a + 1 == (e + 1) * p;
      UnitsAt(f, e + 1, 0);
      Doubles(e);
      if e != 0 { Carry(p, Pow2(e - 1), Pow2(e)); }
    }
  }

  /** The largest value of one binade is below the first of the next. */
  lemma Carry(p: nat, q: nat, q2: nat)
    requires 0 < p && 0 < q && q2 == 2 * q
    ensures (p + (p - 1)) * q < p * q2
  {
    assert (p + (p - 1)) * q == p * q2 - q;
  }

  lemma Doubles(e: nat)
    ensures e == 0 ==> Pow2(e) == 1
    ensures e != 0 ==> Pow2(e) == 2 * Pow2(e - 1)
  {
  }

  lemma SumTimes(a: nat, q: nat)
    requires 0 < q
    ensures (a + 1) * q == a * q + q && a * q < (a + 1) * q && (a + 1) * q == q * (a + 1)
  {
  }

  lemma {:induction false} UnitsGrow(f: Format, a: nat, b: nat)
    requires a < b
    ensures Units(f, a) < Units(f, b)
    decreases b
  {
    hide Units;
    UnitsStep(f, b - 1);
    if a < b - 1 { UnitsGrow(f, a, b - 1); }
  }

  // ---- reals and units ----

  /** Truncating the real is dividing the units toward zero. */
  lemma TruncIsDivision(v: int, s: int)
    requires 0 < s
    ensures TruncReal(v as real / s as real) == TruncDiv(v, s)
  {
    FloorIsDivision(Abs(v), s);
    var x := v as real / s as real;
    if v < 0 {
      assert x < 0.0;
      assert -x == (-v) as real / s as real;
    } else {
      assert x >= 0.0;
    }
  }

  lemma FloorIsDivision(a: int, s: int)
    requires 0 < s && 0 <= a
    ensures (a as real / s as real).Floor == a / s
  {
    var q, r := a / s, a % s;
    var x := a as real / s as real;
    assert a == q * s + r;
    assert a as real == q as real * s as real + r as real;
    assert x * s as real == a as real;
    Between(x, q as real, s as real, r as real);
  }

  lemma Between(x: real, q: real, s: real, r: real)
    requires 0.0 < s && x * s == q * s + r && 0.0 <= r < s
    ensures q <= x < q + 1.0
  {
    Distributes(x, q, s);
    Fraction(x - q, s, r);
  }

  lemma Fraction(d: real, s: real, r: real)
    requires 0.0 < s && d * s == r && 0.0 <= r < s
    ensures 0.0 <= d < 1.0
  {
    if d < 0.0 { Negates(d, s); }
    if d >= 1.0 { AtLeast(d, s); }
  }

  lemma Distributes(x: real, y: real, s: real)
    ensures (x - y) * s == x * s - y * s
  {
  }

  lemma Negates(d: real, s: real)
    requires d < 0.0 && 0.0 < s
    ensures d * s < 0.0
  {
  }

  lemma AtLeast(d: real, s: real)
    requires d >= 1.0 && 0.0 < s
    ensures d * s >= s
  {
    var e := d - 1.0;
    assert e * s >= 0.0 && d * s == e * s + s;
  }

  lemma OrderOfUnits(v: int, w: int, s: int)
    requires 0 < s
    ensures v as real / s as real < w as real / s as real <==> v < w
  {
    var x, y, t := v as real / s as real, w as real / s as real, s as real;
    assert x * t == v as real && y * t == w as real;
    assert (y - x) * t == (w - v) as real;
    SignOfProduct(y - x, t);
  }

  lemma SignOfProduct(d: real, t: real)
    requires 0.0 < t
    ensures d * t > 0.0 <==> d > 0.0
  {
    if d < 0.0 { Negates(d, t); }
  }

  /** The truncation is in `[min, max]` exactly between the exclusive bounds one outside. */
  lemma InRange(v: int, s: nat, min: int, max: int)
    requires 0 < s && min <= 0 <= max
    ensures min <= TruncDiv(v, s) <= max <==> (min - 1) * s < v < (max + 1) * s
  {
    var q: int := Abs(v) / s;
    assert Abs(v) == q * s + Abs(v) % s;
    AtMost(q, max, s, Abs(v) % s);
    AtMost(q, -min, s, Abs(v) % s);
    assert (min - 1) * s == -((-min + 1) * s);
    assert (max + 1) * s > 0 by { ScaleAtLeast(max + 1, s); }
    assert (-min + 1) * s > 0 by { ScaleAtLeast(-min + 1, s); }
  }

  lemma AtMost(q: int, b: int, s: int, r: int)
    requires 0 <= r < s
    ensures q <= b <==> q * s + r < (b + 1) * s
  {
    var d := b - q;
    assert (b + 1) * s == q * s + d * s + s;
    if d < 0 { ScaleAtLeast(d, s); }
    if d > 0 { ScaleAtLeast(d, s); }
  }

  // ---- the tables ----

  function Min(w: Width, unsigned: bool): (x: int) {
    if unsigned then 0 else -(if w == I32 then W31 else W63)
  }

  function Max(w: Width, unsigned: bool): (x: int) {
    if unsigned then (if w == I32 then W32 else W64) - 1 else (if w == I32 then W31 else W63) - 1
  }

  /** The tabulated exclusive bounds, as raw patterns of the source format. */
  function LowBound(f: Format, w: Width, unsigned: bool): (bits: nat) {
    if f == F32 then
      if unsigned then 0xBF80_0000 else if w == I32 then 0xCF00_0001 else 0xDF00_0001
    else
      if unsigned then 0xBFF0_0000_0000_0000
      else if w == I32 then 0xC1E0_0000_0020_0000 else 0xC3E0_0000_0000_0001
  }

  function HighBound(f: Format, w: Width, unsigned: bool): (bits: nat) {
    if f == F32 then
      if w == I32 then (if unsigned then 0x4F80_0000 else 0x4F00_0000)
      else if unsigned then 0x5F80_0000 else 0x5F00_0000
    else
      if w == I32 then (if unsigned then 0x41F0_0000_0000_0000 else 0x41E0_0000_0000_0000)
      else if unsigned then 0x43F0_0000_0000_0000 else 0x43E0_0000_0000_0000
  }

  /** `2^k` in either format. */
  lemma PowerPattern(f: Format, e: nat, k: nat)
    requires 1 <= e && FracBits(f) + e - 1 == k + Scale(f)
    ensures 0 <= e * Pow2(FracBits(f)) && Units(f, e * Pow2(FracBits(f))) == Pow2(k) * Pow2(Scale(f))
  {
    hide Pow2, Units;
    UnitsAt(f, e, 0);
    Pow2Sum(FracBits(f), e - 1);
    Pow2Sum(k, Scale(f));
  }

  lemma Powers()
    ensures Pow2(23) == 0x80_0000 && Pow2(52) == 0x10_0000_0000_0000 && Pow2(0) == 1 && Pow2(21) == 0x20_0000
  {
    Pow2Values();
    assert Pow2(20) == 2 * Pow2(19) == 4 * Pow2(18) == 8 * Pow2(17) == 16 * Pow2(16);
    assert Pow2(23) == 2 * Pow2(22) == 4 * Pow2(21) == 8 * Pow2(20);
    assert Pow2(52) == 2 * Pow2(51) == 4 * Pow2(50) == 8 * Pow2(49) == 16 * Pow2(48);
  }

  /** The high bound is the first value too large. */
  lemma HighBoundIs(f: Format, w: Width, unsigned: bool)
    ensures var h := HighBound(f, w, unsigned);
            && !Negative(f, h) && Magnitude(f, h) == h
            && Units(f, h) == (Max(w, unsigned) + 1) * Pow2(Scale(f))
  {
    Powers();
    Pow2Values();
    hide Pow2, Units;
    var k := if unsigned then Digits(w) else Digits(w) - 1;
    PowerPattern(f, k + Scale(f) + 1 - FracBits(f), k);
  }

  /** The low bound is the last value too small: it is at or below the exclusive bound,
      and the next value toward zero is above it. For a signed f32 source it is the
      neighbour of the minimum, the bound itself not being representable. */
  lemma LowBoundIs(f: Format, w: Width, unsigned: bool)
    ensures var l := LowBound(f, w, unsigned);
            var t := (1 - Min(w, unsigned)) * Pow2(Scale(f));
            && Negative(f, l) && 1 <= Magnitude(f, l)
            && Units(f, Magnitude(f, l) - 1) < t <= Units(f, Magnitude(f, l))
  {
    var a := Magnitude(f, LowBound(f, w, unsigned));
    var s := Pow2(Scale(f));
    Powers();
    Pow2Values();
    hide Pow2, Units;
    if unsigned {
      PowerPattern(f, Scale(f) + 1 - FracBits(f), 0);
      UnitsStep(f, a - 1);
    } else if f == F64 && w == I32 {
      UnitsAt(F64, 1054, 0x20_0000);
      Pow2Sum(21, 1053);
      Pow2Sum(31, 21);
      MulAssoc(W31 + 1, 0x20_0000, Pow2(1053));
      UnitsStep(f, a - 1);
    } else {
      SignedNeighbour(f, w);
    }
  }

  lemma SignedNeighbour(f: Format, w: Width)
    requires f == F32 || w == I64
    ensures var a := Magnitude(f, LowBound(f, w, false));
            1 <= a && Units(f, a - 1) < (1 - Min(w, false)) * Pow2(Scale(f)) <= Units(f, a)
  {
    var a := Magnitude(f, LowBound(f, w, false));
    Powers();
    Pow2Values();
    hide Pow2, Units;
    var k := Digits(w) - 1;
    var e := k + Scale(f) + 1 - FracBits(f);
    PowerPattern(f, e, k);
    UnitsAt(f, e, 1);
    UnitsAt(f, e, 0);
    assert a == e * Pow2(FracBits(f)) + 1;
    Pow2Grows(Scale(f), e - 1);
    NextAfter(Pow2(FracBits(f)), Pow2(e - 1), Pow2(k), Pow2(Scale(f)));
  }

  /** The spacing above a power of two at least the scale covers one whole unit. */
  lemma NextAfter(p: nat, q: nat, k: nat, s: nat)
    requires p * q == k * s && s <= q && 0 < s
    ensures k * s < (1 + k) * s <= (p + 1) * q
  {
  }

  /** A magnitude is below the low bound's exactly when it is inside the exclusive bound. */
  lemma InsideLow(f: Format, a: nat, l: nat, t: int)
    requires 1 <= l && Units(f, l - 1) < t <= Units(f, l)
    ensures Units(f, a) < Units(f, l) <==> Units(f, a) < t
  {
    hide Units;
    if a < l - 1 { UnitsGrow(f, a, l - 1); }
    if a < l { UnitsGrow(f, a, l); }
    if l < a { UnitsGrow(f, l, a); }
  }

  /** For every finite operand and every tabulated pair: strictly between the bounds, as
      reals, exactly when the truncated value fits the target type. */
  lemma BoundsAreExact(f: Format, w: Width, unsigned: bool, x: nat)
    requires Finite(f, x) && Finite(f, LowBound(f, w, unsigned)) && Finite(f, HighBound(f, w, unsigned))
    ensures Decode(f, LowBound(f, w, unsigned)) < Decode(f, x) < Decode(f, HighBound(f, w, unsigned))
       <==> Min(w, unsigned) <= TruncReal(Decode(f, x)) <= Max(w, unsigned)
  {
    var l, h := LowBound(f, w, unsigned), HighBound(f, w, unsigned);
    var v, s := SignedUnits(f, x), Pow2(Scale(f));
    HighBoundIs(f, w, unsigned);
    LowBoundIs(f, w, unsigned);
    InsideLow(f, Magnitude(f, x), Magnitude(f, l), (1 - Min(w, unsigned)) * s);
    hide Pow2, Units, TruncReal, TruncDiv, LowBound, HighBound;
    OrderOfUnits(SignedUnits(f, l), v, s);
    OrderOfUnits(v, SignedUnits(f, h), s);
    TruncIsDivision(v, s);
    InRange(v, s, Min(w, unsigned), Max(w, unsigned));
    SidesOfZero(Min(w, unsigned), Max(w, unsigned), s);
  }

  lemma SidesOfZero(min: int, max: int, s: nat)
    requires min <= 0 <= max && 0 < s
    ensures (min - 1) * s == -((1 - min) * s) && (min - 1) * s < 0 < (max + 1) * s
  {
    ScaleAtLeast(1 - min, s);
    ScaleAtLeast(max + 1, s);
    assert (min - 1) * s == -((1 - min) * s);
  }

  // ---- the guards ----

  /** An ordered compare of two patterns, false on NaN; an infinity is beyond every
      finite value of its sign. */
  predicate LessThan(f: Format, a: nat, b: nat) {
    && !NotANumber(f, a) && !NotANumber(f, b)
    && if Finite(f, a) && Finite(f, b) then Decode(f, a) < Decode(f, b)
       else if Finite(f, a) then !Negative(f, b)
       else if Finite(f, b) then Negative(f, a)
       else Negative(f, a) && !Negative(f, b)
  }

  /** The partial truncation of the specification is defined. */
  predicate TruncDefined(f: Format, w: Width, unsigned: bool, x: nat) {
    Finite(f, x) && Min(w, unsigned) <= TruncReal(Decode(f, x)) <= Max(w, unsigned)
  }

  /** Every backend's two compares: bail unless strictly above the low bound (which also
      catches NaN) and strictly below the high one. A bail always means a trap. */
  lemma BailMeansTrap(f: Format, w: Width, unsigned: bool, x: nat)
    requires IsPattern(f, x)
    ensures LessThan(f, LowBound(f, w, unsigned), x) && LessThan(f, x, HighBound(f, w, unsigned))
       <==> TruncDefined(f, w, unsigned, x)
  {
    BoundsFinite(f, w, unsigned);
    hide Pow2, Units, TruncReal, LowBound, HighBound, Decode;
    if Finite(f, x) { BoundsAreExact(f, w, unsigned, x); }
  }

  lemma BoundsFinite(f: Format, w: Width, unsigned: bool)
    ensures var (l, h) := (LowBound(f, w, unsigned), HighBound(f, w, unsigned));
            Finite(f, l) && Finite(f, h) && !NotANumber(f, l) && !NotANumber(f, h) && Negative(f, l) && !Negative(f, h)
  {
    Powers();
    hide Pow2;
  }
}
