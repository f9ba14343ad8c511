/** What the integer operators of section 4.3.2 of the WebAssembly Core Specification 2.0
    mean, digit by digit and by their defining equations, without reference to how any
    instruction computes them. */
module Operators {
  import opened Words
  import opened Bits
  import opened WasmNum
  import opened LittleEndian

  /** Digit `i` of the two's complement expansion. */
  function Digit(v: int, i: nat): (d: nat)
    ensures d < 2
  {
    v / Pow2(i) % 2
  }

  // ---- digits of shifted, truncated and signed values ----

  lemma DivTwice(v: int, a: nat, b: nat)
    requires 0 < a && 0 < b
    ensures 0 < a * b && v / a / b == v / (a * b)
  {
    MulMono(a, 1, b);
    var q, r, r0 := v / a / b, v / a % b, v % a;
    assert v == v / a * a + r0 && v / a == q * b + r;
    calc { v; (q * b + r) * a + r0; q * b * a + (r * a + r0); { MulAssoc(q, b, a); } q * (a * b) + (r * a + r0); }
    MulMono(a, r + 1, b);
    MulMono(a, 0, r);
    DivModUnique(v, a * b, q, r * a + r0);
  }

  /** Dividing by a power moves the digits down. */
  lemma DigitDown(v: int, k: nat, i: nat)
    ensures Digit(v / Pow2(k), i) == Digit(v, k + i)
  {
    hide Pow2;
    Pow2Sum(k, i);
    DivTwice(v, Pow2(k), Pow2(i));
  }

  lemma DigitNext(v: int, i: nat)
    ensures Digit(v, 0) == v % 2 && Digit(v, i + 1) == Digit(v / 2, i)
  {
    assert Pow2(0) == 1 && Pow2(1) == 2;
    DigitDown(v, 1, i);
  }

  /** A high part moved up by `k` places over a low part. */
  lemma DigitSplit(hi: int, lo: nat, k: nat, i: nat)
    requires lo < Pow2(k)
    ensures Digit(hi * Pow2(k) + lo, i) == if i < k then Digit(lo, i) else Digit(hi, i - k)
  {
    hide Pow2;
    var v := hi * Pow2(k) + lo;
    DivModUnique(v, Pow2(k), hi, lo);
    if i < k {
      Pow2Sum(i, k - i);
      var half := Pow2(k - i - 1);
      PowerStep(k - i - 1);
      calc { hi * Pow2(k); { Rotate(hi, Pow2(i), 2 * half); } Pow2(i) * (hi * (2 * half)); }
      Carry(v, Pow2(i), hi * half, lo);
    } else {
      DigitDown(v, k, i - k);
    }
  }

  lemma PowerStep(k: nat)
    ensures Pow2(k + 1) == 2 * Pow2(k)
  {
  }

  /** Adding an even multiple of the place value keeps the digit. */
  lemma Carry(v: int, p: nat, h: int, lo: nat)
    requires 0 < p && v == p * (2 * h) + lo
    ensures v / p % 2 == lo / p % 2
  {
    var q, r := lo / p, lo % p;
    assert lo == q * p + r;
    calc { v; p * (2 * h) + (q * p + r); { Rotate(p, 2, h); } (2 * h + q) * p + r; }
    DivModUnique(v, p, 2 * h + q, r);
  }

  /** Reducing modulo a power keeps the digits below it. */
  lemma DigitLow(v: int, k: nat, i: nat)
    requires i < k
    ensures Digit(v % Pow2(k), i) == Digit(v, i)
  {
    hide Pow2, Digit;
    var p: int := Pow2(k);
    var q, r := v / p, v % p;
    assert v == q * p + r;
    DigitSplit(q, r, k, i);
  }

  lemma DigitZero(v: nat, k: nat, i: nat)
    requires v < Pow2(k) && k <= i
    ensures Digit(v, i) == 0
  {
    Pow2Grows(k, i);
    hide Pow2;
    DivModUnique(v, Pow2(i), 0, v);
  }

  /** The value of the low `k` digits read as signed. */
  function Signed(k: nat, y: nat): (v: int)
    requires 0 < k && y < Pow2(k)
  {
    if y < Pow2(k - 1) then y else y - Pow2(k)
  }

  /** A signed value repeats its sign digit upwards for ever. */
  lemma SignedDigit(k: nat, y: nat, i: nat)
    requires 0 < k && y < Pow2(k)
    ensures Digit(Signed(k, y), i) == Digit(y, if i < k then i else k - 1)
  {
    PowerStep(k - 1);
    hide Pow2;
    if y < Pow2(k - 1) {
      DivModUnique(y, Pow2(k - 1), 0, y);
      SignedParts(0, y, k, i);
    } else {
      DivModUnique(y, Pow2(k - 1), 1, y - Pow2(k - 1));
      SignedParts(-1, y, k, i);
    }
  }

  lemma SignedParts(top: int, y: nat, k: nat, i: nat)
    requires 0 < k && y < Pow2(k) && (top == 0 || top == -1) && Signed(k, y) == top * Pow2(k) + y
    ensures Digit(Signed(k, y), i) == if i < k then Digit(y, i) else -top
  {
    hide Pow2, Digit, Signed;
    DigitSplit(top, y, k, i);
    if i >= k { Constant(top, i - k); }
  }

  lemma Constant(t: int, i: nat)
    requires t == 0 || t == -1
    ensures Digit(t, i) == -t
  {
    hide Pow2;
    DivModUnique(t, Pow2(i), t, if t == 0 then 0 else Pow2(i) - 1);
  }

  lemma SignedIs(w: Width, x: nat)
    requires x < Modulus(w)
    ensures x < Pow2(Digits(w)) && SignedAt(w, x) == Signed(Digits(w), x)
  {
    Pow2Values();
  }

  /** A word is its digits. */
  lemma {:induction false} DigitsDecide(n: nat, x: nat, y: nat)
    requires x < Pow2(n) && y < Pow2(n) && forall i :: 0 <= i < n ==> Digit(x, i) == Digit(y, i)
    ensures x == y
  {
    if n != 0 {
      DigitNext(x, 0);
      DigitNext(y, 0);
      forall i | 0 <= i < n - 1
        ensures Digit(x / 2, i) == Digit(y / 2, i)
      {
        DigitNext(x, i);
        DigitNext(y, i);
      }
      DigitsDecide(n - 1, x / 2, y / 2);
    }
  }

  // ---- shifts and rotations ----

  /** Left: the digits move up over zeros. */
  lemma ShlMeaning(w: Width, x: nat, y: nat, i: nat)
    requires x < Modulus(w) && y < Modulus(w) && i < Digits(w)
    ensures var k := y % Digits(w);
            Digit(IBin(w, Shl, x, y), i) == if i < k then 0 else Digit(x, i - k)
  {
    hide Pow2;
    var k := y % Digits(w);
    DigitLow(x * Pow2(k), Digits(w), i);
    ZeroBelow(k);
    DigitSplit(x, 0, k, i);
    if i < k { Constant(0, i); }
  }

  lemma ZeroBelow(k: nat)
    ensures 0 < Pow2(k)
  {
  }

  /** Right, unsigned: the digits move down under zeros. */
  lemma ShrUMeaning(w: Width, x: nat, y: nat, i: nat)
    requires x < Modulus(w) && y < Modulus(w) && i < Digits(w)
    ensures var (k, n) := (y % Digits(w), Digits(w));
            Digit(IBin(w, ShrU, x, y), i) == if i + k < n then Digit(x, i + k) else 0
  {
    hide Pow2, Digit;
    var k := y % Digits(w);
    DigitDown(x, k, i);
    if i + k >= Digits(w) { DigitZero(x, Digits(w), k + i); }
  }

  /** Right, signed: the digits move down under copies of the sign digit. */
  lemma ShrSMeaning(w: Width, x: nat, y: nat, i: nat)
    requires x < Modulus(w) && y < Modulus(w) && i < Digits(w)
    ensures var (k, n) := (y % Digits(w), Digits(w));
            Digit(IBin(w, ShrS, x, y), i) == Digit(x, if i + k < n then i + k else n - 1)
  {
    hide Pow2, Digit;
    var k, n, v := y % Digits(w), Digits(w), SignedAt(w, x);
    DigitLow(v / Pow2(k), n, i);
    DigitDown(v, k, i);
    SignedIs(w, x);
    SignedDigit(n, x, k + i);
  }

  lemma RotateDigit(w: Width, x: nat, k: nat, i: nat)
    requires x < Modulus(w) && k < Digits(w) && i < Digits(w)
    ensures Digit(RotateLeft(w, x, k), i) == Digit(x, if i < k then i + Digits(w) - k else i - k)
  {
    hide Pow2, Digit;
    var n := Digits(w);
    RotationFits(w, x, k);
    var hi, lo := x % Pow2(n - k), x / Pow2(n - k);
    DigitSplit(hi, lo, k, i);
    if i < k { DigitDown(x, n - k, i); } else { DigitLow(x, n - k, i - k); }
  }

  /** Rotations move the digits around: none is lost and none is new. */
  lemma RotlMeaning(w: Width, x: nat, y: nat, i: nat)
    requires x < Modulus(w) && y < Modulus(w) && i < Digits(w)
    ensures Digit(IBin(w, Rotl, x, y), i) == Digit(x, (i + Digits(w) - y % Digits(w)) % Digits(w))
  {
    hide Pow2, Digit, RotateLeft;
    RotateDigit(w, x, y % Digits(w), i);
  }

  lemma RotrMeaning(w: Width, x: nat, y: nat, i: nat)
    requires x < Modulus(w) && y < Modulus(w) && i < Digits(w)
    ensures Digit(IBin(w, Rotr, x, y), i) == Digit(x, (i + y % Digits(w)) % Digits(w))
  {
    hide Pow2, Digit, RotateLeft;
    var k, n := y % Digits(w), Digits(w);
    if k != 0 { RotateDigit(w, x, n - k, i); }
  }

  // ---- bitwise and ring operations ----

  lemma {:induction false} BitwiseDigit(n: nat, x: nat, y: nat, i: nat)
    requires i < n
    ensures Digit(And(n, x, y), i) == 1 <==> Digit(x, i) == 1 && Digit(y, i) == 1
    ensures Digit(Or(n, x, y), i) == 1 <==> Digit(x, i) == 1 || Digit(y, i) == 1
    ensures Digit(Xor(n, x, y), i) == 1 <==> Digit(x, i) != Digit(y, i)
    decreases i
  {
    hide Digit;
    FirstDigits(n, x, y);
    if i == 0 {
      DigitNext(x, 0); DigitNext(y, 0);
      DigitNext(And(n, x, y), 0); DigitNext(Or(n, x, y), 0); DigitNext(Xor(n, x, y), 0);
    } else {
      DigitNext(x, i - 1); DigitNext(y, i - 1);
      DigitNext(And(n, x, y), i - 1); DigitNext(Or(n, x, y), i - 1); DigitNext(Xor(n, x, y), i - 1);
      BitwiseDigit(n - 1, x / 2, y / 2, i - 1);
    }
  }

  lemma FirstDigits(n: nat, x: nat, y: nat)
    requires 0 < n
    ensures And(n, x, y) / 2 == And(n - 1, x / 2, y / 2) && And(n, x, y) % 2 == AndDigit(x % 2, y % 2)
    ensures Or(n, x, y) / 2 == Or(n - 1, x / 2, y / 2) && Or(n, x, y) % 2 == OrDigit(x % 2, y % 2)
    ensures Xor(n, x, y) / 2 == Xor(n - 1, x / 2, y / 2) && Xor(n, x, y) % 2 == XorDigit(x % 2, y % 2)
  {
  }

  /** And, or and exclusive or, digit by digit. */
  lemma BitwiseMeaning(w: Width, x: nat, y: nat, i: nat)
    requires x < Modulus(w) && y < Modulus(w) && i < Digits(w)
    ensures Digit(IBin(w, BitAnd, x, y), i) == 1 <==> Digit(x, i) == 1 && Digit(y, i) == 1
    ensures Digit(IBin(w, BitOr, x, y), i) == 1 <==> Digit(x, i) == 1 || Digit(y, i) == 1
    ensures Digit(IBin(w, BitXor, x, y), i) == 1 <==> Digit(x, i) != Digit(y, i)
  {
    hide Pow2, And, Or, Xor, Digit;
    BitwiseDigit(Digits(w), x, y, i);
  }

  /** Addition, subtraction and multiplication are those of the integers modulo the width,
      signed or unsigned. */
  lemma RingMeaning(w: Width, x: nat, y: nat)
    requires x < Modulus(w) && y < Modulus(w)
    ensures (IBin(w, Add, x, y) - (x + y)) % Modulus(w) == 0 && (IBin(w, Sub, x, y) - (x - y)) % Modulus(w) == 0
    ensures (IBin(w, Mul, x, y) - x * y) % Modulus(w) == 0
  {
    hide Pow2;
    var m: int := Modulus(w);
    ReducedBy(x + y, m, 0);
    ReducedBy(x - y, m, 1);
    ReducedBy(x * y, m, 0);
  }

  lemma ReducedBy(v: int, m: int, h: int)
    requires 0 < m
    ensures ((v + h * m) % m - v) % m == 0
  {
    var q := (v + h * m) / m;
    assert (v + h * m) % m - v == (h - q) * m + 0 by { assert v + h * m == q * m + (v + h * m) % m; Subtract(h, q, m); }
    DivModUnique((h - q) * m, m, h - q, 0);
  }

  lemma Subtract(a: int, b: int, m: int)
    ensures (a - b) * m == a * m - b * m
  {
  }

  // ---- counts and extensions ----

  /** Leading and trailing zeros: the run of zeros, and the one that ends it. */
  lemma ZerosMeaning(w: Width, x: nat, i: nat)
    requires x < Modulus(w) && i < Digits(w)
    ensures var (n, c, t) := (Digits(w), IUn(w, Clz, x), IUn(w, Ctz, x));
            && c <= n && t <= n
            && (n - c <= i ==> Digit(x, i) == 0) && (c < n ==> Digit(x, n - 1 - c) == 1)
            && (i < t ==> Digit(x, i) == 0) && (t < n ==> Digit(x, t) == 1)
  {
    hide Pow2, Digit, LeadingZeros, TrailingZeros;
    LeadingRun(Digits(w), x, i);
    TrailingRun(Digits(w), x, i);
  }

  lemma {:induction false} LeadingRun(n: nat, x: nat, i: nat)
    requires x < Pow2(n)
    ensures var c := LeadingZeros(n, x); (n - c <= i ==> Digit(x, i) == 0) && (c < n ==> Digit(x, n - 1 - c) == 1)
  {
    hide Digit;
    if n == 0 {
      assert Pow2(0) == 1;
      DigitZero(x, 0, i);
    } else if x >= Pow2(n - 1) {
      TopDigit(n - 1, x);
      if n <= i { DigitZero(x, n, i); }
    } else {
      LeadingRun(n - 1, x, i);
    }
  }

  lemma TopDigit(k: nat, x: nat)
    requires Pow2(k) <= x < Pow2(k + 1)
    ensures Digit(x, k) == 1
  {
    PowerStep(k);
    hide Pow2;
    DivModUnique(x, Pow2(k), 1, x - Pow2(k));
  }

  lemma {:induction false} TrailingRun(n: nat, x: nat, i: nat)
    ensures var t := TrailingZeros(n, x); (i < t ==> Digit(x, i) == 0) && (t < n ==> Digit(x, t) == 1)
    decreases n
  {
    hide Digit;
    DigitNext(x, 0);
    if n != 0 && x % 2 == 0 {
      if i == 0 { TrailingRun(n - 1, x / 2, 0); } else { TrailingRun(n - 1, x / 2, i - 1); DigitNext(x, i - 1); }
      DigitNext(x, TrailingZeros(n - 1, x / 2));
    }
  }

  /** The places below `n` that hold a one. */
  ghost function Places(n: nat, x: int): (s: set<nat>) {
    set i: nat | i < n && Digit(x, i) == 1
  }

  lemma {:induction false} CountTop(n: nat, x: nat)
    ensures OneDigits(n + 1, x) == OneDigits(n, x) + Digit(x, n)
  {
    hide Digit;
    if n == 0 {
      DigitNext(x, 0);
      assert OneDigits(1, x) == x % 2 + OneDigits(0, x / 2);
    } else {
      CountTop(n - 1, x / 2);
      DigitNext(x, n - 1);
    }
  }

  lemma {:induction false} OnesAre(n: nat, x: nat)
    ensures OneDigits(n, x) == |Places(n, x)|
  {
    hide Digit, OneDigits;
    if n == 0 {
      assert Places(0, x) == {} && OneDigits(0, x) == 0 by { CountNone(x); }
    } else {
      OnesAre(n - 1, x);
      CountTop(n - 1, x);
      var top: set<nat> := if Digit(x, n - 1) == 1 then {n - 1} else {};
      assert Places(n, x) == Places(n - 1, x) + top && Places(n - 1, x) !! top;
    }
  }

  lemma CountNone(x: nat)
    ensures OneDigits(0, x) == 0
  {
  }

  /** The population count is the number of places that hold a one. */
  lemma PopcntMeaning(w: Width, x: nat)
    requires x < Modulus(w)
    ensures IUn(w, Popcnt, x) == |Places(Digits(w), x)|
  {
    OnesAre(Digits(w), x);
  }

  /** How many low digits an extension reads. */
  function ReadDigits(u: UnOp): (d: nat) {
    match u
    case Extend8S => 8
    case Extend16S => 16
    case _ => 32
  }

  predicate SignExtends(u: UnOp) {
    u == Extend8S || u == Extend16S || u == Extend32S || u == ExtendI32S
  }

  /** Sign extension repeats the top digit read; wrapping and zero extension leave zeros. */
  lemma ExtendMeaning(w: Width, u: UnOp, x: nat, i: nat)
    requires x < Modulus(w) && (SignExtends(u) || u == WrapI64 || u == ExtendI32U)
    requires i < if u == ExtendI32S then 64 else Digits(w)
    ensures var d := ReadDigits(u);
            Digit(IUn(w, u, x), i) == if i < d then Digit(x, i) else if SignExtends(u) then Digit(x, d - 1) else 0
  {
    Pow2Values();
    hide Pow2, Digit;
    var d := ReadDigits(u);
    if i < d { DigitLow(x, d, i); } else { DigitLow(x, d, d - 1); }
    if SignExtends(u) {
      ExtendDigit(if u == ExtendI32S then I64 else w, d, x, i);
    } else if i >= d {
      DigitZero(x % Pow2(32), 32, i);
    }
  }

  lemma ExtendDigit(w: Width, d: nat, x: nat, i: nat)
    requires 0 < d && i < Digits(w)
    ensures Digit(ExtendFrom(w, Pow2(d), x), i) == Digit(x % Pow2(d), if i < d then i else d - 1)
  {
    PowerStep(d - 1);
    hide Pow2, Digit;
    var y := x % Pow2(d);
    DigitLow(Signed(d, y), Digits(w), i);
    SignedDigit(d, y, i);
  }

  // ---- bytes ----

  /** Bytes are little-endian: byte `i` holds the eight digits from place `8i`. */
  lemma {:induction false} BytesMeaning(x: nat, w: nat, i: nat, j: nat)
    requires i < w && j < 8
    ensures Digit(Bytes(x, w)[i], j) == Digit(x, 8 * i + j)
  {
    Pow2Values();
    hide Pow2, Digit;
    if i == 0 {
      DigitLow(x, 8, j);
    } else {
      BytesMeaning(x / 256, w - 1, i - 1, j);
      DigitDown(x, 8, 8 * (i - 1) + j);
    }
  }

  lemma {:induction false} ValueMeaning(s: seq<Byte>, i: nat, j: nat)
    requires i < |s| && j < 8
    ensures Digit(Value(s), 8 * i + j) == Digit(s[i], j)
  {
    Pow2Values();
    hide Pow2, Digit;
    DigitSplit(Value(s[1..]), s[0], 8, 8 * i + j);
    if i != 0 { ValueMeaning(s[1..], i - 1, j); }
  }

  // ---- division ----

  /** `q` and `r` are the quotient of `x` by `y` rounded toward zero and its remainder. */
  predicate TowardZero(x: int, y: int, q: int, r: int) {
    && x == q * y + r
    && (if r < 0 then -r else r) < (if y < 0 then -y else y)
    && (r == 0 || (r < 0 <==> x < 0))
  }

  /** There is only one such pair. */
  lemma TowardZeroUnique(x: int, y: int, q: int, r: int, q': int, r': int)
    requires TowardZero(x, y, q, r) && TowardZero(x, y, q', r')
    ensures q == q' && r == r'
  {
    var d := q - q';
    Subtract(q, q', y);
    assert d * y == r' - r;
    if y > 0 { ScaleAtLeast(d, y); } else { Opposite(d, y); ScaleAtLeast(d, -y); }
  }

  lemma Opposite(a: int, b: int)
    ensures a * -b == -(a * b) == -a * b
  {
  }

  lemma RoundsTowardZero(x: int, y: int)
    requires y != 0
    ensures TowardZero(x, y, TruncDiv(x, y), x - y * TruncDiv(x, y))
    ensures (if x < 0 then x else -x) <= TruncDiv(x, y) <= (if x < 0 then -x else x)
  {
    var ax, ay := if x < 0 then -x else x, if y < 0 then -y else y;
    var t := TruncDiv(x, y);
    var q, r := ax / ay, ax % ay;
    assert t == if (x < 0) == (y < 0) then q else -q;
    DivShrinks(ax, ay);
    hide TruncDiv;
    assert ax == q * ay + r;
    Opposite(q, ay);
    Opposite(-q, ay);
    Commutes(y, t);
    assert t * y == if x < 0 then -(q * ay) else q * ay;
  }

  lemma Commutes(a: int, b: int)
    ensures a * b == b * a
  {
  }

  lemma SignedBack(w: Width, v: int)
    requires -(Modulus(w) / 2) <= v < Modulus(w) / 2
    ensures SignedAt(w, Trunc(w, v)) == v
  {
    hide Pow2;
    DivModUnique(v, Modulus(w), if v < 0 then -1 else 0, if v < 0 then v + Modulus(w) else v);
  }

  /** Signed division rounds toward zero and the remainder keeps the dividend's sign; the
      one overflow traps, and has remainder zero. */
  lemma SignedDivMeaning(w: Width, x: nat, y: nat)
    requires x < Modulus(w) && 0 < y < Modulus(w)
    ensures var (sx, sy, q, r) := (SignedAt(w, x), SignedAt(w, y), IDiv(w, DivS, x, y), IDiv(w, RemS, x, y));
      && r.Done?
      && (if sx == -(Modulus(w) / 2) && sy == -1 then q == Trap(IntegerOverflow) && r.v == 0
          else q.Done? && TowardZero(sx, sy, SignedAt(w, q.v), SignedAt(w, r.v)))
  {
    hide Pow2, TruncDiv;
    var sx, sy, h := SignedAt(w, x), SignedAt(w, y), Modulus(w) / 2;
    var q := TruncDiv(sx, sy);
    RoundsTowardZero(sx, sy);
    OnlyOverflow(h, sx, sy, q, sx - sy * q);
    SignedBack(w, sx - sy * q);
    if q != h { SignedBack(w, q); }
  }

  lemma OnlyOverflow(h: int, x: int, y: int, q: int, r: int)
    requires 0 < h && -h <= x < h && -h <= y < h && TowardZero(x, y, q, r)
    requires (if x < 0 then x else -x) <= q <= (if x < 0 then -x else x)
    ensures q == h <==> x == -h && y == -1
    ensures x == -h && y == -1 ==> r == 0
    ensures -h < r < h
  {
    if y == -1 {
      assert q * y == -q;
    } else if q == h {
      if y > 0 { MulMono(h, 1, y); } else { MulMono(h, y, -2); }
    }
  }

  lemma UnsignedDivMeaning(w: Width, x: nat, y: nat)
    requires x < Modulus(w) && 0 < y < Modulus(w)
    ensures var (q, r) := (IDiv(w, DivU, x, y), IDiv(w, RemU, x, y)); q.Done? && r.Done? && x == q.v * y + r.v && r.v < y
  {
    hide Pow2;
    assert x == x / y * y + x % y;
  }

  lemma ZeroDivisorTraps(w: Width, f: DivOp, x: nat, y: nat)
    requires x < Modulus(w) && y < Modulus(w)
    ensures IDiv(w, f, x, y) == Trap(DivideByZero) <==> y == 0
  {
  }
}
