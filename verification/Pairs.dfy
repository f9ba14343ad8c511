/** 64-bit arithmetic on pairs of 32-bit halves: carries and borrows recovered by an
    unsigned compare, equality folded into one word. */
module Pairs {
  import opened Words
  import opened Bits
  import opened WasmNum
  import opened Interp
  import opened Division
  import opened LittleEndian

  function Join(lo: Half, hi: Half): (x: Word)
    ensures x == lo + W32 * hi
    ensures x % W32 == lo && x / W32 == hi
  {
    var x: int := lo + W32 * hi;
    DivModUnique(x, W32, hi, lo);
    x
  }

  function Add32(x: Half, y: Half): (r: Half) {
    (x + y) % W32
  }

  function Sub32(x: Half, y: Half): (r: Half) {
    var d: int := x - y;
    d % W32
  }

  /** `sltu` */
  function Below(x: Half, y: Half): (r: Half) {
    if x < y then 1 else 0
  }

  function Bitwise(f: BinOp, x: Half, y: Half): (r: Half)
    requires f == BitAnd || f == BitOr || f == BitXor
  {
    IBin(I32, f, x, y)
  }

  lemma BinIs(w: Width, x: Word, y: Word)
    ensures BinVal(w, Add, x, y) == (x + y) % Modulus(w)
    ensures var d: int := x - y; BinVal(w, Sub, x, y) == d % Modulus(w)
    ensures BinVal(w, BitAnd, x, y) == And(Digits(w), Trunc(w, x), Trunc(w, y))
    ensures BinVal(w, BitOr, x, y) == Or(Digits(w), Trunc(w, x), Trunc(w, y))
    ensures BinVal(w, BitXor, x, y) == Xor(Digits(w), Trunc(w, x), Trunc(w, y))
  {
    hide Pow2;
    var m: int := Modulus(w);
    CongruentSum(m, x, y);
    CongruentSub(m, Trunc(w, x), x, Trunc(w, y), y);
    ModShift(Trunc(w, x) - Trunc(w, y), 1, m);
  }

  lemma CongruentSum(m: int, x: int, y: int)
    requires 0 < m
    ensures (x % m + y % m) % m == (x + y) % m
  {
    ModShift(x % m + y % m, x / m + y / m, m);
    Distribute(x / m, 0 - y / m, m);
  }

  /** The sum of the low halves wrapped exactly when it is below an addend. */
  lemma PairAdd(xl: Half, xh: Half, yl: Half, yh: Half)
    ensures var lo := Add32(xl, yl);
            Join(lo, Add32(Add32(xh, yh), Below(lo, xl))) == BinVal(I64, Add, Join(xl, xh), Join(yl, yh))
  {
    BinIs(I64, Join(xl, xh), Join(yl, yh));
    hide BinVal, Pow2;
    var c := if xl + yl >= W32 then 1 else 0;
    var lo := xl + yl - c * W32;
    DivModUnique(xl + yl, W32, c, lo);
    var top, carry := Carried(xh + yh, c);
    PairOf(xl + yl, xh + yh, lo, top, c, carry);
  }

  lemma Carried(mid: int, c: int) returns (top: nat, carry: int)
    ensures top == (mid % W32 + c) % W32 && mid + c == carry * W32 + top && top < W32
  {
    top := (mid + c) % W32;
    carry := (mid + c) / W32;
    ModShift(mid % W32 + c, mid / W32, W32);
  }

  lemma PairOf(low: int, high: int, lo: nat, top: nat, c: int, carry: int)
    requires low == c * W32 + lo && high + c == carry * W32 + top && lo < W32 && top < W32
    ensures (low + W32 * high) % W64 == lo + W32 * top
  {
    DivModUnique(low + W32 * high, W64, carry, lo + W32 * top);
  }

  /** The borrow is taken exactly when the low half of the subtrahend is larger. */
  lemma PairSub(xl: Half, xh: Half, yl: Half, yh: Half)
    ensures Join(Sub32(xl, yl), Sub32(Sub32(xh, yh), Below(xl, yl))) == BinVal(I64, Sub, Join(xl, xh), Join(yl, yh))
  {
    BinIs(I64, Join(xl, xh), Join(yl, yh));
    hide BinVal, Pow2;
    var b := Below(xl, yl);
    var lo: int := xl - yl + b * W32;
    DivModUnique(xl - yl, W32, 0 - b, lo);
    var top, carry := Carried(xh - yh, 0 - b);
    assert Sub32(xl, yl) == lo && Sub32(Sub32(xh, yh), b) == top;
    var d: int := Join(xl, xh) - Join(yl, yh);
    assert d == (xl - yl) + W32 * (xh - yh);
    PairOf(xl - yl, xh - yh, lo, top, 0 - b, carry);
  }

  lemma BitwiseIs(x: Half, y: Half)
    ensures Bitwise(BitAnd, x, y) == And(32, x, y) && Bitwise(BitOr, x, y) == Or(32, x, y) && Bitwise(BitXor, x, y) == Xor(32, x, y)
  {
    hide And, Or, Xor, Pow2;
  }

  lemma JoinUp(lo: nat, hi: nat)
    requires lo < W32 && hi < W32
    ensures Join(lo, hi) == lo + Up(32, hi) == Trunc(I64, Join(lo, hi)) && Pow2(32) == W32
  {
    hide Pow2, Up;
    Pow2Values();
    UpIsProduct(32, hi);
  }

  lemma PairBitwise(f: BinOp, xl: Half, xh: Half, yl: Half, yh: Half)
    requires f == BitAnd || f == BitOr || f == BitXor
    ensures Join(Bitwise(f, xl, yl), Bitwise(f, xh, yh)) == BinVal(I64, f, Join(xl, xh), Join(yl, yh))
  {
    hide Pow2, Up, And, Or, Xor, BinVal, Bitwise, Join, Trunc, Modulus;
    Pow2Values();
    BinIs(I64, Join(xl, xh), Join(yl, yh));
    BitwiseIs(xl, yl);
    BitwiseIs(xh, yh);
    AndBounded(32, xl, yl); AndBounded(32, xh, yh);
    OrBounded(32, xl, yl); OrBounded(32, xh, yh);
    XorBounded(32, xl, yl); XorBounded(32, xh, yh);
    JoinUp(xl, xh);
    JoinUp(yl, yh);
    match f {
      case BitAnd => SplitAnd(32, 32, xl, xh, yl, yh); JoinUp(And(32, xl, yl), And(32, xh, yh));
      case BitOr => SplitOr(32, 32, xl, xh, yl, yh); JoinUp(Or(32, xl, yl), Or(32, xh, yh));
      case BitXor => SplitXor(32, 32, xl, xh, yl, yh); JoinUp(Xor(32, xl, yl), Xor(32, xh, yh));
    }
  }

  lemma {:induction false} XorZero(k: nat, x: nat, y: nat)
    requires x < Pow2(k) && y < Pow2(k)
    ensures Xor(k, x, y) == 0 <==> x == y
  {
    if k != 0 { XorZero(k - 1, x / 2, y / 2); }
  }

  lemma {:induction false} OrBothZero(k: nat, x: nat, y: nat)
    requires x < Pow2(k) && y < Pow2(k)
    ensures Or(k, x, y) == 0 <==> x == 0 && y == 0
  {
    if k != 0 { OrBothZero(k - 1, x / 2, y / 2); }
  }

  /** Xor-ing the halves and or-ing the differences leaves zero exactly on equality. */
  lemma PairEqual(xl: Half, xh: Half, yl: Half, yh: Half)
    ensures Bitwise(BitOr, Bitwise(BitXor, xl, yl), Bitwise(BitXor, xh, yh)) == 0 <==> Join(xl, xh) == Join(yl, yh)
  {
    Pow2Values();
    hide Pow2, Or, Xor;
    XorBounded(32, xl, yl);
    XorBounded(32, xh, yh);
    XorZero(32, xl, yl);
    XorZero(32, xh, yh);
    OrBothZero(32, Xor(32, xl, yl), Xor(32, xh, yh));
  }

  lemma PairZero(lo: Half, hi: Half)
    ensures Bitwise(BitOr, lo, hi) == 0 <==> Join(lo, hi) == 0
  {
    Pow2Values();
    hide Pow2, Or;
    OrBothZero(32, lo, hi);
  }

  /** `srai hi, lo, 31` fills the high half with the sign. */
  function SignHalf(lo: Half): (r: Half) {
    if lo >= W31 then W32 - 1 else 0
  }

  lemma PairExtend(lo: Half)
    ensures Join(lo, SignHalf(lo)) == ExtendFrom(I64, W32, lo)
  {
    hide Pow2;
  }

  /** Slots as the 32-bit host sees them: low half first. */
  function Joined(s: seq<Half>): (r: seq<Word>)
    ensures |r| == |s| / 2
    ensures forall i :: 0 <= i < |r| ==> r[i] == Join(s[2 * i], s[2 * i + 1])
  {
    seq(|s| / 2, i requires 0 <= i < |s| / 2 => Join(s[2 * i], s[2 * i + 1]))
  }

  /** Writing both halves writes the slot. */
  lemma JoinedSet(s: seq<Half>, s': seq<Half>, i: nat, lo: Half, hi: Half)
    requires |s| % 2 == 0 && 2 * i + 1 < |s| && s' == s[2 * i := lo][2 * i + 1 := hi]
    ensures Joined(s') == Set(Joined(s), i, Join(lo, hi))
  {
  }

  // ---- memory ----

  lemma PairBytes(lo: Half, hi: Half)
    ensures Bytes(Join(lo, hi), 8) == Bytes(lo, 4) + Bytes(hi, 4)
  {
    Pow2Values();
    var x := Join(lo, hi);
    BytesSplit(x, 4, 8);
    hide Pow2, Bytes;
    BytesOfLow(x, lo, 4, 4);
    OutTwice(x);
  }

  lemma OutTwice(x: nat)
    ensures ShiftedOut(x, 4) == x / W32
  {
    var y := x / 256 / 256;
    assert ShiftedOut(x, 4) == ShiftedOut(x / 256, 3) == ShiftedOut(y, 2) == ShiftedOut(y / 256, 1) == ShiftedOut(y / 256 / 256, 0);
    NestedMod(x, 256, 256);
    NestedMod(x, 0x1_0000, 256);
    NestedMod(x, 0x100_0000, 256);
  }

  lemma PairValue(s: seq<Byte>)
    requires |s| == 8
    ensures Value(s[..4]) < W32 && Value(s[4..]) < W32 && Value(s) == Join(Value(s[..4]), Value(s[4..]))
  {
    Pow2Values();
    ValueSplits(s, 4);
  }

  lemma NarrowValue(s: seq<Byte>)
    requires |s| <= 4
    ensures Value(s) < W32
  {
    Pow2Values();
    Pow2Grows(8 * |s|, 32);
  }

  lemma NarrowBytes(x: Word, w: nat)
    requires w <= 4
    ensures Bytes(Lo32(x), w) == Bytes(x, w)
  {
    Pow2Values();
    hide Pow2;
    ModOfMod(x, W32, 1);
    BytesOfLow(Lo32(x), x, 4, w);
  }
}
