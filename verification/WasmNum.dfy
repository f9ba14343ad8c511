/** Integer operations of section 4.3.2 of the WebAssembly Core Specification 2.0, on
    unsigned representatives. */
module WasmNum {
  import opened Words
  import opened Bits

  datatype Option<+T> = None | Some(value: T)
  datatype Width = I32 | I64
  datatype BinOp = Add | Sub | Mul | BitAnd | BitOr | BitXor | Shl | ShrU | ShrS | Rotl | Rotr
  datatype CmpOp = Eq | Ne | LtS | LtU | GtS | GtU | LeS | LeU | GeS | GeU
  datatype DivOp = DivS | DivU | RemS | RemU
  datatype UnOp = Clz | Ctz | Popcnt | Eqz | Extend8S | Extend16S | Extend32S | WrapI64 | ExtendI32S | ExtendI32U

  function Digits(w: Width): (n: nat) {
    if w == I32 then 32 else 64
  }

  function Modulus(w: Width): (m: nat)
    ensures m == Pow2(Digits(w)) && m <= W64
  {
    Pow2Values();
    if w == I32 then W32 else W64
  }

  function Trunc(w: Width, x: int): (r: nat)
    ensures r < Modulus(w)
  {
    x % Modulus(w)
  }

  /** The value is what the width can hold, zero-extended. */
  predicate Holds(w: Width, x: Word) {
    x < Modulus(w)
  }

  /** `x - y` wrapped. */
  function Minus(w: Width, x: int, y: int): (r: nat)
    ensures r < Modulus(w)
  {
    Trunc(w, x - y)
  }

  function SignedAt(w: Width, x: nat): (r: int)
    requires x < Modulus(w)
    ensures -(Modulus(w) / 2) <= r < Modulus(w) / 2
    ensures Trunc(w, r) == x
  {
    if x < Modulus(w) / 2 then x else x - Modulus(w)
  }

  // ---- shifts and rotations ----

  function ShiftLeft(w: Width, x: nat, k: nat): (r: nat)
    requires x < Modulus(w)
    ensures r < Modulus(w)
  {
    x * Pow2(k) % Modulus(w)
  }

  function ShiftRightU(w: Width, x: nat, k: nat): (r: nat)
    requires x < Modulus(w)
    ensures r < Modulus(w)
  {
    DivShrinks(x, Pow2(k));
    x / Pow2(k)
  }

  /** An arithmetic shift rounds the signed value down. */
  function ShiftRightS(w: Width, x: nat, k: nat): (r: nat)
    requires x < Modulus(w)
    ensures r < Modulus(w)
  {
    Trunc(w, SignedAt(w, x) / Pow2(k))
  }

  /** Digits shifted out at the top come back at the bottom. */
  function RotateLeft(w: Width, x: nat, k: nat): (r: nat)
    requires x < Modulus(w) && k < Digits(w)
    ensures r < Modulus(w)
  {
    hide Pow2;
    RotationFits(w, x, k);
    x * Pow2(k) % Modulus(w) + x / Pow2(Digits(w) - k)
  }

  function RotateRight(w: Width, x: nat, k: nat): (r: nat)
    requires x < Modulus(w) && k < Digits(w)
    ensures r < Modulus(w)
  {
    if k == 0 then x else RotateLeft(w, x, Digits(w) - k)
  }

  lemma DivShrinks(x: nat, p: nat)
    requires 0 < p
    ensures 0 <= x / p <= x
  {
    var q := x / p;
    assert x == q * p + x % p;
    MulMono(q, 1, p);
  }

  /** Moving up by `p` within `p*q` keeps the part below `q`; the part moved out is
      below `p`, so it fits underneath. */
  lemma ShiftedUp(x: nat, p: nat, q: nat)
    requires 0 < p && 0 < q && x < p * q
    ensures x * p % (p * q) == x % q * p
    ensures x / q < p
    ensures x * p % (p * q) + x / q < p * q
  {
    var hi, lo := x / q, x % q;
    QuotientBelow(x, p, q);
    ShiftedSum(x, p, q, hi, lo);
    DivModUnique(x * p, p * q, hi, lo * p);
  }

  lemma QuotientBelow(x: nat, p: nat, q: nat)
    requires 0 < p && 0 < q && x < p * q
    ensures x == x / q * q + x % q && 0 <= x / q < p
  {
    var hi := x / q;
    assert x == hi * q + x % q;
    if hi >= p { MulMono(q, p, hi); }
  }

  lemma ShiftedSum(x: nat, p: nat, q: nat, hi: nat, lo: nat)
    requires 0 < p && 0 < q && x == hi * q + lo && lo < q
    ensures x * p == hi * (p * q) + lo * p && lo * p + p <= p * q
  {
    calc { x * p; (hi * q + lo) * p; hi * q * p + lo * p; }
    assert hi * q * p == hi * (p * q) by { Rotate(hi, q, p); Rotate(p, hi, q); }
    assert lo * p + p == (lo + 1) * p <= q * p by { MulMono(p, lo + 1, q); }
  }

  lemma RotationFits(w: Width, x: nat, k: nat)
    requires x < Modulus(w) && k <= Digits(w)
    ensures Pow2(k) * Pow2(Digits(w) - k) == Modulus(w)
    ensures x * Pow2(k) % Modulus(w) == x % Pow2(Digits(w) - k) * Pow2(k)
    ensures x / Pow2(Digits(w) - k) < Pow2(k)
    ensures x * Pow2(k) % Modulus(w) + x / Pow2(Digits(w) - k) < Modulus(w)
  {
    hide Pow2;
    Pow2Sum(k, Digits(w) - k);
    ShiftedUp(x, Pow2(k), Pow2(Digits(w) - k));
  }

  lemma RotateByZero(w: Width, x: nat)
    requires x < Modulus(w)
    ensures RotateLeft(w, x, 0) == x
  {
    assert Pow2(0) == 1;
    hide Pow2;
    DivModUnique(x, Pow2(Digits(w)), 0, x);
    DivModUnique(x, Modulus(w), 0, x);
  }

  // ---- operators ----

  function IBin(w: Width, f: BinOp, x: nat, y: nat): (r: nat)
    requires x < Modulus(w) && y < Modulus(w)
    ensures r < Modulus(w)
  {
    var n := Digits(w);
    match f
    case Add => Trunc(w, x + y)
    case Sub => Trunc(w, x - y + Modulus(w))
    case Mul => Trunc(w, x * y)
    case BitAnd => AndBounded(n, x, y); And(n, x, y)
    case BitOr => OrBounded(n, x, y); Or(n, x, y)
    case BitXor => XorBounded(n, x, y); Xor(n, x, y)
    case Shl => ShiftLeft(w, x, y % n)
    case ShrU => ShiftRightU(w, x, y % n)
    case ShrS => ShiftRightS(w, x, y % n)
    case Rotl => RotateLeft(w, x, y % n)
    case Rotr => RotateRight(w, x, y % n)
  }

  function ICmp(w: Width, c: CmpOp, x: nat, y: nat): (r: bool)
    requires x < Modulus(w) && y < Modulus(w)
  {
    match c
    case Eq => x == y
    case Ne => x != y
    case LtS => SignedAt(w, x) < SignedAt(w, y)
    case LtU => x < y
    case GtS => SignedAt(w, x) > SignedAt(w, y)
    case GtU => x > y
    case LeS => SignedAt(w, x) <= SignedAt(w, y)
    case LeU => x <= y
    case GeS => SignedAt(w, x) >= SignedAt(w, y)
    case GeU => x >= y
  }

  /** Division rounding toward zero. */
  function TruncDiv(x: int, y: int): (q: int)
    requires y != 0
  {
    var q := Abs(x) / Abs(y);
    if (x < 0) == (y < 0) then q else -q
  }

  function Abs(x: int): nat {
    if x < 0 then -x else x
  }

  datatype TrapKind = OutOfBounds | Exhausted | DivideByZero | IntegerOverflow | UndefinedElement
  datatype Result = Done(v: Word) | Trap(kind: TrapKind)

  function IDiv(w: Width, f: DivOp, x: nat, y: nat): (r: Result)
    requires x < Modulus(w) && y < Modulus(w)
    ensures r.Done? ==> r.v < Modulus(w)
  {
    if y == 0 then Trap(DivideByZero)
    else
      var (sx, sy) := (SignedAt(w, x), SignedAt(w, y));
      match f
      case DivU => DivShrinks(x, y); Done(x / y)
      case RemU => Done(x % y)
      case DivS => if TruncDiv(sx, sy) == Modulus(w) / 2 then Trap(IntegerOverflow) else Done(Trunc(w, TruncDiv(sx, sy)))
      case RemS => Done(Trunc(w, sx - sy * TruncDiv(sx, sy)))
  }

  function LeadingZeros(n: nat, x: nat): (r: nat)
    ensures r <= n
  {
    if n == 0 || x >= Pow2(n - 1) then 0 else 1 + LeadingZeros(n - 1, x)
  }

  function TrailingZeros(n: nat, x: nat): (r: nat)
    ensures r <= n
  {
    if n == 0 || x % 2 == 1 then 0 else 1 + TrailingZeros(n - 1, x / 2)
  }

  function OneDigits(n: nat, x: nat): (r: nat)
    ensures r <= n
  {
    if n == 0 then 0 else x % 2 + OneDigits(n - 1, x / 2)
  }

  /** The low `m` values read as signed and re-encoded at width `w`. */
  function ExtendFrom(w: Width, m: nat, x: nat): (r: nat)
    requires 0 < m
    ensures r < Modulus(w)
  {
    var y := x % m;
    Trunc(w, if y < m / 2 then y else y - m)
  }

  /** Unary operators; `w` is the operand width. */
  function IUn(w: Width, u: UnOp, x: nat): (r: Word)
    requires x < Modulus(w)
    ensures NarrowUn(w, u) ==> r < W32
  {
    var n := Digits(w);
    match u
    case Clz => LeadingZeros(n, x)
    case Ctz => TrailingZeros(n, x)
    case Popcnt => OneDigits(n, x)
    case Eqz => if x == 0 then 1 else 0
    case Extend8S => ExtendFrom(w, W8, x)
    case Extend16S => ExtendFrom(w, W16, x)
    case Extend32S => ExtendFrom(w, W32, x)
    case WrapI64 => x % W32
    case ExtendI32S => ExtendFrom(I64, W32, x)
    case ExtendI32U => x % W32
  }

  /** Whether a unary result is below 2^32. */
  function NarrowUn(w: Width, u: UnOp): (r: bool) {
    match u
    case ExtendI32S => false
    case Extend8S => w == I32
    case Extend16S => w == I32
    case Extend32S => w == I32
    case _ => true
  }
}
