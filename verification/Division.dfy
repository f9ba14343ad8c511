/** Integer division and remainder as each backend computes them. `None` is a bail to
    the shared executor. Operands are full registers; a 32-bit form reads the low half. */
module Division {
  import opened Words
  import opened Bits
  import opened WasmNum

  /** What Wasm defines, with traps as `None`. */
  function WasmDiv(w: Width, f: DivOp, x: Word, y: Word): (r: Option<nat>) {
    match IDiv(w, f, Trunc(w, x), Trunc(w, y))
    case Done(v) => Some(v)
    case Trap(_) => None
  }

  /** The one non-trapping case most backends leave to the slow path. */
  predicate MinRemMinusOne(w: Width, f: DivOp, x: Word, y: Word) {
    f == RemS && Trunc(w, x) == Modulus(w) / 2 && Trunc(w, y) == Modulus(w) - 1
  }

  predicate IsSigned(f: DivOp) {
    f == DivS || f == RemS
  }

  predicate IsRem(f: DivOp) {
    f == RemS || f == RemU
  }

  // ---- modular facts ----

  lemma CongruentMul(m: int, a: int, a': int, b: int, b': int)
    requires 0 < m && a % m == a' % m && b % m == b' % m
    ensures (a * b) % m == (a' * b') % m
  {
    var j, k := a / m - a' / m, b / m - b' / m;
    assert a == a' + j * m by { Split(a, a', m); }
    assert b == b' + k * m by { Split(b, b', m); }
    calc {
      a * b;
      (a' + j * m) * (b' + k * m);
      { Expand(a', j, b', k, m); }
      a' * b' + (a' * k + j * b' + j * k * m) * m;
    }
    ModShift(a' * b', a' * k + j * b' + j * k * m, m);
  }

  lemma Split(a: int, b: int, m: int)
    requires 0 < m && a % m == b % m
    ensures a == b + (a / m - b / m) * m
  {
    assert a == a / m * m + a % m;
    assert b == b / m * m + b % m;
    Distribute(a / m, b / m, m);
  }

  lemma Distribute(a: int, b: int, m: int)
    ensures (a - b) * m == a * m - b * m
  {
  }

  lemma Expand(a: int, j: int, b: int, k: int, m: int)
    ensures (a + j * m) * (b + k * m) == a * b + (a * k + j * b + j * k * m) * m
  {
  }

  lemma ModShift(x: int, q: int, m: int)
    requires 0 < m
    ensures (x + q * m) % m == x % m
  {
    DivModUnique(x + q * m, m, x / m + q, x % m);
  }

  lemma CongruentSub(m: int, a: int, a': int, b: int, b': int)
    requires 0 < m && a % m == a' % m && b % m == b' % m
    ensures (a - b) % m == (a' - b') % m
  {
    Split(a, a', m);
    Split(b, b', m);
    Distribute(a / m - a' / m, b / m - b' / m, m);
    ModShift(a' - b', (a / m - a' / m) - (b / m - b' / m), m);
  }

  /** Multiply-subtract on wrapped registers gives the signed remainder, including for
      the wrapped quotient of MIN / -1. */
  lemma MultiplySubtract(w: Width, x: nat, y: nat)
    requires x < Modulus(w) && y < Modulus(w) && y != 0
    ensures var q := TruncDiv(SignedAt(w, x), SignedAt(w, y));
            Trunc(w, x - Trunc(w, q) * y) == Trunc(w, SignedAt(w, x) - SignedAt(w, y) * q)
  {
    hide Pow2, TruncDiv;
    var sx, sy, m := SignedAt(w, x), SignedAt(w, y), Modulus(w);
    var q := TruncDiv(sx, sy);
    assert q % m % m == q % m;
    CongruentMul(m, q % m, q, y, sy);
    assert q * sy == sy * q;
    CongruentSub(m, x, sx, q % m * y, sy * q);
  }

  /** The unsigned remainder by multiply-subtract. */
  lemma UnsignedRemainder(w: Width, x: nat, y: nat)
    requires x < Modulus(w) && 0 < y < Modulus(w)
    ensures Trunc(w, x - x / y * y) == x % y
  {
    assert x - x / y * y == x % y;
    SmallTrunc(w, x % y);
  }

  lemma SmallTrunc(w: Width, x: nat)
    requires x < Modulus(w)
    ensures Trunc(w, x) == x
  {
  }

  /** A quotient by at least two is at most half the dividend. */
  lemma QuotientHalves(x: nat, y: nat)
    requires 2 <= y
    ensures 2 * (x / y) <= x && x / 1 == x
  {
    assert x == x / y * y + x % y;
    MulMono(x / y, 2, y);
  }

  /** Only MIN / -1 leaves the signed range. */
  lemma OverflowOnlyAtMin(w: Width, x: nat, y: nat)
    requires x < Modulus(w) && y < Modulus(w) && y != 0
    ensures TruncDiv(SignedAt(w, x), SignedAt(w, y)) == Modulus(w) / 2 <==> x == Modulus(w) / 2 && y == Modulus(w) - 1
  {
    OverflowOfSigned(Modulus(w) / 2, SignedAt(w, x), SignedAt(w, y));
  }

  lemma OverflowOfSigned(h: int, sx: int, sy: int)
    requires 0 < h && -h <= sx < h && sy != 0
    ensures TruncDiv(sx, sy) == h <==> sx == -h && sy == -1
  {
    if Abs(sy) >= 2 {
      QuotientHalves(Abs(sx), Abs(sy));
    } else {
      assert Abs(sx) / Abs(sy) == Abs(sx);
    }
  }

  // ---- the backends ----

  /** `sdiv`/`udiv`: signed division wraps MIN / -1 to MIN and never faults. */
  function HardwareDiv(w: Width, signed: bool, x: nat, y: nat): (q: nat)
    requires x < Modulus(w) && y < Modulus(w)
  {
    if y == 0 then 0 else if signed then Trunc(w, TruncDiv(SignedAt(w, x), SignedAt(w, y))) else x / y
  }

  /** The exact quotient or remainder. */
  function DivValue(w: Width, f: DivOp, x: nat, y: nat): (q: int)
    requires x < Modulus(w) && y < Modulus(w) && y != 0
  {
    var (sx, sy) := (SignedAt(w, x), SignedAt(w, y));
    match f
    case DivS => TruncDiv(sx, sy)
    case RemS => sx - sy * TruncDiv(sx, sy)
    case DivU => x / y
    case RemU => x % y
  }

  lemma WasmDivValue(w: Width, f: DivOp, x: Word, y: Word)
    requires Trunc(w, y) != 0 && !(f == DivS && Trunc(w, x) == Modulus(w) / 2 && Trunc(w, y) == Modulus(w) - 1)
    ensures WasmDiv(w, f, x, y) == Some(Trunc(w, DivValue(w, f, Trunc(w, x), Trunc(w, y))))
  {
    hide Pow2, TruncDiv;
    OverflowOnlyAtMin(w, Trunc(w, x), Trunc(w, y));
    if !IsSigned(f) {
      DivShrinks(Trunc(w, x), Trunc(w, y));
      SmallTrunc(w, if f == DivU then Trunc(w, x) / Trunc(w, y) else Trunc(w, x) % Trunc(w, y));
    }
  }

  /** `msub` after `sdiv`/`udiv`: the dividend less the quotient times the divisor. */
  function Msub(w: Width, q: nat, y: nat, x: int): (r: nat)
    ensures r < Modulus(w)
  {
    Trunc(w, x - q * y)
  }

  /** Dividing and multiplying back gives the remainder, and the quotient itself is
      the division, wrapped. */
  lemma HardwareDivides(w: Width, f: DivOp, x: nat, y: nat)
    requires x < Modulus(w) && y < Modulus(w) && y != 0
    ensures var q := HardwareDiv(w, IsSigned(f), x, y);
            Trunc(w, DivValue(w, f, x, y)) == if IsRem(f) then Msub(w, q, y, x) else q
  {
    hide Pow2, TruncDiv;
    if f == RemS { MultiplySubtract(w, x, y); }
    if f == RemU { UnsignedRemainder(w, x, y); SmallTrunc(w, x % y); }
    if f == DivU { DivShrinks(x, y); SmallTrunc(w, x / y); }
  }

  /** arm64 bails exactly on Wasm traps: the remainder of MIN by -1 comes out of the
      wrapped quotient as 0. */
  method DivArm64(w: Width, f: DivOp, x: Word, y: Word) returns (r: Option<nat>)
    ensures r == WasmDiv(w, f, x, y)
  {
    hide Pow2, TruncDiv, DivValue, HardwareDiv, Msub;
    var ra, rb := Trunc(w, x), Trunc(w, y);
    if rb == 0 { return None; }
    OverflowOnlyAtMin(w, ra, rb);
    if IsSigned(f) && !IsRem(f) {
      if rb == Modulus(w) - 1 {
        var x13 := Modulus(w) / 2;
        if ra == x13 { return None; }
      }
    }
    WasmDivValue(w, f, x, y);
    HardwareDivides(w, f, ra, rb);
    var q := HardwareDiv(w, IsSigned(f), ra, rb);
    r := Some(if IsRem(f) then Msub(w, q, rb, ra) else q);
  }

  /** x86-64, where `idiv` would fault: both signed forms test MIN and -1 first. */
  method DivX86(w: Width, f: DivOp, x: Word, y: Word) returns (r: Option<nat>)
    ensures r == if MinRemMinusOne(w, f, x, y) then None else WasmDiv(w, f, x, y)
  {
    hide Pow2, TruncDiv;
    var ra, rsi := Trunc(w, x), Trunc(w, y);
    if rsi == 0 { return None; }
    OverflowOnlyAtMin(w, ra, rsi);
    if IsSigned(f) && rsi == Modulus(w) - 1 && ra == Modulus(w) / 2 { return None; }
    if IsSigned(f) {
      var rax := TruncDiv(SignedAt(w, ra), SignedAt(w, rsi));
      var rdx := SignedAt(w, ra) - SignedAt(w, rsi) * rax;
      return Some(Trunc(w, if IsRem(f) then rdx else rax));
    }
    DivShrinks(ra, rsi);
    return Some(if IsRem(f) then ra % rsi else ra / rsi);
  }

  /** A register holding the sign extension of its low 32 bits, as RV64 leaves it. */
  function SextW(x: Word): (r: Word) {
    Trunc(I64, SignedAt(I32, Lo32(x)))
  }

  lemma SextWReads(x: Word)
    ensures SignedAt(I64, SextW(x)) == SignedAt(I32, Lo32(x))
    ensures Lo32(SextW(x)) == Lo32(x)
  {
    hide Pow2;
  }

  /** RV64: 32-bit forms compare and divide sign-extended registers and zero-extend the
      sign-extended result; divisions never fault. */
  method DivRv64(w: Width, f: DivOp, x: Word, y: Word) returns (r: Option<nat>)
    ensures r == if MinRemMinusOne(w, f, x, y) then None else WasmDiv(w, f, x, y)
  {
    hide Pow2, TruncDiv, DivValue;
    var xs, ys := x, y;
    if w == I32 {
      xs, ys := SextW(x), SextW(y);
      SextWReads(x);
      SextWReads(y);
    }
    if ys == 0 { return None; }
    OverflowOnlyAtMin(w, Trunc(w, x), Trunc(w, y));
    if IsSigned(f) && ys == W64 - 1 {
      var t6 := if w == I32 then SextW(W31) else W63;
      if xs == t6 { return None; }
    }
    assert Trunc(w, xs) == Trunc(w, x) && Trunc(w, ys) == Trunc(w, y) != 0;
    var v := RvDivide(w, f, xs, ys);
    LowOfWord(DivValue(w, f, Trunc(w, xs), Trunc(w, ys)));
    WasmDivValue(w, f, x, y);
    r := Some(if w == I32 then Lo32(v) else v);
  }

  /** `div[u][w]` and `rem[u][w]`: the word forms sign-extend their 32-bit result. */
  function RvDivide(w: Width, f: DivOp, xs: Word, ys: Word): (v: Word)
    requires Trunc(w, ys) != 0
  {
    var v := Trunc(I64, DivValue(w, f, Trunc(w, xs), Trunc(w, ys)));
    if w == I32 then SextW(v) else v
  }

  /** Zero-extending the sign extension of a truncated value truncates it. */
  lemma LowOfWord(v: int)
    ensures Lo32(SextW(Trunc(I64, v))) == Trunc(I32, v)
  {
    hide Pow2;
    SextWReads(Trunc(I64, v));
    assert v == v / W64 * W64 + v % W64;
    ModShift(v % W64, v / W64 * W32, W32);
  }

  /** arm32 and RV32 (i32 only): registers are 32 bits wide; arm32 forms the remainder
      by multiply-subtract, RV32 has a remainder instruction. */
  method Div32(f: DivOp, x: Half, y: Half, multiplySubtract: bool) returns (r: Option<nat>)
    ensures r == if MinRemMinusOne(I32, f, x, y) then None else WasmDiv(I32, f, x, y)
  {
    hide Pow2, TruncDiv, DivValue, HardwareDiv, Msub;
    if y == 0 { return None; }
    OverflowOnlyAtMin(I32, x, y);
    if IsSigned(f) && y == W32 - 1 && x == W31 { return None; }
    WasmDivValue(I32, f, x, y);
    HardwareDivides(I32, f, x, y);
    var q := HardwareDiv(I32, IsSigned(f), x, y);
    if IsRem(f) && !multiplySubtract {
      r := Some(Trunc(I32, DivValue(I32, f, x, y)));
    } else {
      r := Some(if IsRem(f) then Msub(I32, q, y, x) else q);
    }
  }
}
