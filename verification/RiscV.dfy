/** What the RISC-V instruction sequences compute for one result register, at both
    register widths. On RV64 a 32-bit operation works on 64-bit registers that hold
    zero-extended values, and must leave one. */
module RiscV {
  import opened Words
  import opened Bits
  import opened WasmNum
  import opened Interp
  import opened Division
  import opened Pairs
  import opened Rotations

  /** A register width that carries the operand width. */
  predicate Carries(xlen: nat, w: Width) {
    (xlen == 32 || xlen == 64) && Digits(w) <= xlen
  }

  function RegisterWidth(xlen: nat): (w: Width)
    requires xlen == 32 || xlen == 64
    ensures Digits(w) == xlen
  {
    if xlen == 32 then I32 else I64
  }

  /** `slli 32; srli 32` after a 32-bit operation on RV64. */
  function Zext(w: Width, x: Word): (r: Word)
    ensures Holds(w, r)
  {
    x % Modulus(w)
  }

  /** Whether the sequence uses the operand register as it is, so that stray high digits
      would reach the result. */
  predicate ReadsWholeRegister(f: BinOp) {
    f == BitAnd || f == BitOr || f == BitXor || f == ShrU
  }

  /** Binary operations. The bitwise ones are not zero-extended again. */
  function BinReg(w: Width, xlen: nat, f: BinOp, x: Word, y: Word): (r: Word)
    requires Carries(xlen, w) && x < Pow2(xlen) && y < Pow2(xlen)
  {
    Pow2Values();
    hide Pow2;
    var rw := RegisterWidth(xlen);
    match f
    case BitAnd => IBin(rw, f, x, y)
    case BitOr => IBin(rw, f, x, y)
    case BitXor => IBin(rw, f, x, y)
    case Add => Zext(w, (x + y) % Modulus(rw))
    case Sub => var d: int := x - y; Zext(w, d % Modulus(rw))
    case Mul => Zext(w, x * y % Modulus(rw))
    case Shl => Zext(w, ShiftLeft(rw, x, y % Digits(w)))
    case ShrU => Zext(w, ShiftRightU(rw, x, y % Digits(w)))
    case ShrS => Zext(w, ShiftRightS(rw, if Digits(w) < xlen then SextW(x) else x, y % Digits(w)))
    case Rotl => RotateByShifts(w, xlen, false, x % Modulus(w), y % Modulus(w))
    case Rotr => RotateByShifts(w, xlen, true, x % Modulus(w), y % Modulus(w))
  }

  lemma WideMod(xlen: nat, w: Width, d: int)
    requires Carries(xlen, w)
    ensures d % Modulus(RegisterWidth(xlen)) % Modulus(w) == d % Modulus(w)
  {
    hide Pow2;
    if Digits(w) == xlen {
      ModOfModInt(d, Modulus(w), 1);
    } else {
      ModOfModInt(d, W32, W32);
    }
  }

  /** Every i32 and i64 handler computes the Wasm result; the bitwise operations and the
      logical shift need their operands zero-extended, the others re-establish it. */
  lemma RegisterIsWasm(w: Width, xlen: nat, f: BinOp, x: Word, y: Word)
    requires Carries(xlen, w) && x < Pow2(xlen) && y < Pow2(xlen)
    requires ReadsWholeRegister(f) ==> Holds(w, x) && Holds(w, y)
    ensures BinReg(w, xlen, f, x, y) == BinVal(w, f, x, y) && Holds(w, BinReg(w, xlen, f, x, y))
  {
    Pow2Values();
    hide Pow2;
    hide BinReg, BinVal;
    if f == BitAnd || f == BitOr || f == BitXor {
      BitwiseIsWasm(w, xlen, f, x, y);
    } else {
      match f {
        case Add => AddNarrow(w, xlen, x, y);
        case Sub => SubNarrow(w, xlen, x, y);
        case Mul => MulNarrow(w, xlen, x, y);
        case Shl => ShiftLeftNarrow(w, xlen, x, y);
        case ShrU => ShiftRightNarrow(w, xlen, x, y);
        case ShrS => ShiftSignedNarrow(w, xlen, x, y);
        case Rotl => RotateNarrow(w, xlen, f, x, y);
        case Rotr => RotateNarrow(w, xlen, f, x, y);
      }
    }
  }

  lemma BitwiseIsWasm(w: Width, xlen: nat, f: BinOp, x: Word, y: Word)
    requires Carries(xlen, w) && x < Pow2(xlen) && y < Pow2(xlen) && Holds(w, x) && Holds(w, y)
    requires f == BitAnd || f == BitOr || f == BitXor
    ensures BinReg(w, xlen, f, x, y) == BinVal(w, f, x, y) < Modulus(w)
  {
    hide Pow2, IBin;
    BitwiseNarrow(w, RegisterWidth(xlen), f, x, y);
  }

  lemma AddNarrow(w: Width, xlen: nat, x: Word, y: Word)
    requires Carries(xlen, w) && x < Pow2(xlen) && y < Pow2(xlen)
    ensures BinReg(w, xlen, Add, x, y) == BinVal(w, Add, x, y) < Modulus(w)
  {
    hide Pow2, BinVal, IBin, ShiftLeft, ShiftRightU, ShiftRightS, RotateByShifts, RegisterWidth, Modulus;
    BinIs(w, x, y);
    WideMod(xlen, w, x + y);
  }

  lemma SubNarrow(w: Width, xlen: nat, x: Word, y: Word)
    requires Carries(xlen, w) && x < Pow2(xlen) && y < Pow2(xlen)
    ensures BinReg(w, xlen, Sub, x, y) == BinVal(w, Sub, x, y) < Modulus(w)
  {
    hide Pow2, BinVal, IBin, ShiftLeft, ShiftRightU, ShiftRightS, RotateByShifts, RegisterWidth, Modulus;
    BinIs(w, x, y);
    WideMod(xlen, w, x - y);
  }

  lemma MulNarrow(w: Width, xlen: nat, x: Word, y: Word)
    requires Carries(xlen, w) && x < Pow2(xlen) && y < Pow2(xlen)
    ensures BinReg(w, xlen, Mul, x, y) == BinVal(w, Mul, x, y) < Modulus(w)
  {
    hide Pow2;
    WideMod(xlen, w, x * y);
    CongruentMul(Modulus(w), x, Trunc(w, x), y, Trunc(w, y));
  }

  lemma RotateNarrow(w: Width, xlen: nat, f: BinOp, x: Word, y: Word)
    requires Carries(xlen, w) && x < Pow2(xlen) && y < Pow2(xlen) && (f == Rotl || f == Rotr)
    ensures BinReg(w, xlen, f, x, y) == BinVal(w, f, x, y) < Modulus(w)
  {
    hide Pow2, RotateByShifts, IBin;
    ShiftsRotate(w, xlen, f == Rotr, x % Modulus(w), y % Modulus(w));
    RotatedFits(w, f, x, y);
  }

  lemma RotatedFits(w: Width, f: BinOp, x: Word, y: Word)
    ensures BinVal(w, f, x, y) == IBin(w, f, x % Modulus(w), y % Modulus(w)) && BinVal(w, f, x, y) < Modulus(w)
  {
  }

  /** Digitwise operations at the wider width agree on zero-extended operands. */
  lemma BitwiseNarrow(w: Width, rw: Width, f: BinOp, x: Word, y: Word)
    requires f == BitAnd || f == BitOr || f == BitXor
    requires Digits(w) <= Digits(rw) && Holds(w, x) && Holds(w, y)
    ensures IBin(rw, f, x, y) == BinVal(w, f, x, y) < Modulus(w)
  {
    hide Pow2, And, Or, Xor, Up;
    var n, j := Digits(w), Digits(rw) - Digits(w);
    UpZero(n);
    SplitAnd(n, j, x, 0, y, 0);
    SplitOr(n, j, x, 0, y, 0);
    SplitXor(n, j, x, 0, y, 0);
    ZeroDigits(j);
    AndBounded(n, x, y);
    OrBounded(n, x, y);
    XorBounded(n, x, y);
    SmallTrunc(w, x);
    SmallTrunc(w, y);
  }

  lemma {:induction false} ZeroDigits(j: nat)
    ensures And(j, 0, 0) == Or(j, 0, 0) == Xor(j, 0, 0) == 0
  {
    if j != 0 { ZeroDigits(j - 1); }
  }

  lemma MaskedAmount(w: Width, y: Word)
    ensures Trunc(w, y) % Digits(w) == y % Digits(w)
  {
    hide Pow2;
    if w == I32 { ModOfMod(y, 32, 0x800_0000); } else { ModOfMod(y, 64, 0x400_0000_0000_0000); }
  }

  lemma ShiftLeftNarrow(w: Width, xlen: nat, x: Word, y: Word)
    requires Carries(xlen, w) && x < Pow2(xlen) && y < Pow2(xlen)
    ensures BinReg(w, xlen, Shl, x, y) == BinVal(w, Shl, x, y) < Modulus(w)
  {
    hide Pow2;
    var k := y % Digits(w);
    MaskedAmount(w, y);
    WideMod(xlen, w, x * Pow2(k));
    CongruentMul(Modulus(w), x, Trunc(w, x), Pow2(k), Pow2(k));
  }

  lemma ShiftRightNarrow(w: Width, xlen: nat, x: Word, y: Word)
    requires Carries(xlen, w) && x < Pow2(xlen) && y < Pow2(xlen) && Holds(w, x)
    ensures BinReg(w, xlen, ShrU, x, y) == BinVal(w, ShrU, x, y) < Modulus(w)
  {
    hide Pow2;
    MaskedAmount(w, y);
    DivShrinks(x, Pow2(y % Digits(w)));
    SmallTrunc(w, x);
    SmallTrunc(w, x / Pow2(y % Digits(w)));
  }

  lemma ShiftSignedNarrow(w: Width, xlen: nat, x: Word, y: Word)
    requires Carries(xlen, w) && x < Pow2(xlen) && y < Pow2(xlen)
    ensures BinReg(w, xlen, ShrS, x, y) == BinVal(w, ShrS, x, y) < Modulus(w)
  {
    Pow2Values();
    hide Pow2;
    var k := y % Digits(w);
    MaskedAmount(w, y);
    SextWReads(x);
    WideMod(xlen, w, SignedAt(w, Trunc(w, x)) / Pow2(k));
    if Digits(w) < xlen {
      assert ShiftRightS(I64, SextW(x), k) == Trunc(I64, SignedAt(I64, SextW(x)) / Pow2(k));
    } else {
      SmallTrunc(w, x);
    }
  }

  // ---- compares ----

  /** `slt`/`sltu` at the register width, or xor and a zero test; the missing orders
      exchange the operands or invert the answer. */
  function SetCc(xlen: nat, c: CmpOp, x: Word, y: Word): (r: bool)
    requires (xlen == 32 || xlen == 64) && x < Pow2(xlen) && y < Pow2(xlen)
  {
    Pow2Values();
    hide Pow2;
    var rw := RegisterWidth(xlen);
    var slt := SignedAt(rw, x) < SignedAt(rw, y);
    var sgt := SignedAt(rw, y) < SignedAt(rw, x);
    match c
    case Eq => IBin(rw, BitXor, x, y) == 0
    case Ne => IBin(rw, BitXor, x, y) != 0
    case LtS => slt
    case LtU => x < y
    case GtS => sgt
    case GtU => y < x
    case LeS => !sgt
    case LeU => !(y < x)
    case GeS => !slt
    case GeU => !(x < y)
  }

  predicate IsSignedCmp(c: CmpOp) {
    c == LtS || c == GtS || c == LeS || c == GeS
  }

  /** On RV64 signed 32-bit compares sign-extend first; the others use the registers
      as they are. */
  function CmpReg(w: Width, xlen: nat, c: CmpOp, x: Word, y: Word): (r: bool)
    requires Carries(xlen, w) && x < Pow2(xlen) && y < Pow2(xlen)
  {
    Pow2Values();
    hide Pow2;
    if Digits(w) < xlen && IsSignedCmp(c) then SetCc(xlen, c, SextW(x), SextW(y)) else SetCc(xlen, c, x, y)
  }

  lemma CompareIsWasm(w: Width, xlen: nat, c: CmpOp, x: Word, y: Word)
    requires Carries(xlen, w) && Holds(w, x) && Holds(w, y) && x < Pow2(xlen) && y < Pow2(xlen)
    ensures CmpReg(w, xlen, c, x, y) == CmpVal(w, c, x, y)
  {
    Pow2Values();
    hide Pow2;
    SmallTrunc(w, x);
    SmallTrunc(w, y);
    if Digits(w) < xlen && IsSignedCmp(c) {
      SextWReads(x);
      SextWReads(y);
    } else if c == Eq || c == Ne {
      XorDecides(xlen, x, y);
    }
  }

  lemma XorDecides(xlen: nat, x: Word, y: Word)
    requires (xlen == 32 || xlen == 64) && x < Pow2(xlen) && y < Pow2(xlen)
    ensures IBin(RegisterWidth(xlen), BitXor, x, y) == 0 <==> x == y
  {
    XorZero(xlen, x, y);
  }

  /** Why the convention matters: the equality of a register with stray high digits and
      its own i32 value comes out wrong on RV64. Together with the lemma above, compares
      read a register correctly against every zero-extended value exactly when it is
      zero-extended itself. */
  lemma StrayDigitsShow(x: Word)
    requires x < Pow2(64) && Lo32(x) < Pow2(64)
    ensures CmpReg(I32, 64, Eq, x, Lo32(x)) == CmpVal(I32, Eq, x, Lo32(x)) <==> Holds(I32, x)
  {
    Pow2Values();
    hide Pow2;
    XorDecides(64, x, Lo32(x));
  }

  // ---- unary operations on RV64 ----

  /** `slli s; srai s` at register width `w`: the low digits read as signed. */
  function ShiftPair(w: Width, x: Word, s: nat): (r: Word)
    requires x < Modulus(w) && s < Digits(w)
  {
    ShiftRightS(w, ShiftLeft(w, x, s), s)
  }

  lemma ShiftPairSigns(w: Width, x: Word, s: nat)
    requires x < Modulus(w) && 0 < s < Digits(w)
    ensures ShiftPair(w, x, s) == ExtendFrom(w, Pow2(Digits(w) - s), x)
  {
    var k := Digits(w) - s;
    ShiftedPiece(Digits(w), x, s);
    HalfPower(k);
    Pow2Sum(s, k);
    hide Pow2;
    var m, y := Pow2(k), x % Pow2(k);
    var v: int := if y < m / 2 then y else y - m;
    assert y * Pow2(s) == ShiftLeft(w, x, s);
    SignedScaled(w, y, m, Pow2(s));
    DivModUnique(v * Pow2(s), Pow2(s), v, 0);
  }

  lemma HalfPower(k: nat)
    requires 0 < k
    ensures Pow2(k) == 2 * Pow2(k - 1) && Pow2(k) / 2 == Pow2(k - 1)
  {
  }

  lemma SignedScaled(w: Width, y: nat, m: nat, p: nat)
    requires y < m && m % 2 == 0 && p * m == Modulus(w) && 0 < p && 0 <= y * p < Modulus(w)
    ensures SignedAt(w, y * p) == (if y < m / 2 then y else y - m) * p
  {
    hide Pow2;
    var h := m / 2;
    assert h * p == Modulus(w) / 2 by { assert 2 * (h * p) == p * m; }
    if y < h { MulMono(p, y + 1, h); } else { MulMono(p, h, y); }
    Distribute(y, m, p);
  }

  predicate UnNative(w: Width, u: UnOp) {
    u == Eqz || u == WrapI64 || u == ExtendI32U || u == ExtendI32S || (u == Extend32S && w == I64) || u == Extend8S || u == Extend16S
  }

  function UnReg(w: Width, u: UnOp, x: Word): (r: Word)
    requires UnNative(w, u)
  {
    if u == Eqz then if (if w == I32 then SextW(x) else x) == 0 then 1 else 0
    else if u == Extend8S then Zext(w, ShiftPair(I64, x, 56))
    else if u == Extend16S then Zext(w, ShiftPair(I64, x, 48))
    else if u == ExtendI32S || u == Extend32S then SextW(x)
    else x % W32
  }

  /** Unary handlers compute the Wasm result from any register; a 32-bit result is
      zero-extended. */
  lemma UnaryIsWasm(w: Width, u: UnOp, x: Word)
    requires UnNative(w, u) && (w == I64 <== u == WrapI64) && (w == I32 <== u == ExtendI32U || u == ExtendI32S)
    ensures UnReg(w, u, x) == IUn(w, u, Trunc(w, x))
    ensures NarrowUn(w, u) ==> UnReg(w, u, x) < W32
  {
    Pow2Values();
    hide Pow2, ShiftPair;
    SextWReads(x);
    if u == Extend8S {
      ShiftPairSigns(I64, x, 56);
      ExtendNarrow(w, W8, x);
    } else if u == Extend16S {
      ShiftPairSigns(I64, x, 48);
      ExtendNarrow(w, W16, x);
    } else if u == ExtendI32S || u == Extend32S {
      ExtendWord(w, x);
    }
  }

  lemma ExtendWord(w: Width, x: Word)
    ensures SextW(x) == ExtendFrom(I64, W32, Trunc(w, x))
  {
    hide Pow2;
    ModOfMod(x, W32, if w == I32 then 1 else W32);
  }

  /** Extending at 64 bits and keeping the low part is extending at the operand width. */
  lemma ExtendNarrow(w: Width, m: nat, x: Word)
    requires m == W8 || m == W16
    ensures Zext(w, ExtendFrom(I64, m, x)) == ExtendFrom(w, m, Trunc(w, x))
  {
    hide Pow2;
    if w == I32 {
      ModOfMod(x, m, W32 / m);
      ModOfModInt(if x % m < m / 2 then x % m else x % m - m, W32, W32);
    } else {
      ModOfMod(x, m, W64 / m);
      SmallTrunc(I64, ExtendFrom(I64, m, x));
    }
  }

  // ---- division ----

  /** The bail condition of the machine is that of the emitted guards. */
  lemma BailsAre(p: Prog, w: Width, v: DivOp, x: Word, y: Word)
    requires p.backend.remBails
    ensures DivBails(p, w, v, x, y) <==> MinRemMinusOne(w, v, x, y) || WasmDiv(w, v, x, y).None?
  {
    hide IDiv, Pow2;
  }
}
