/** The arm64 instructions the handlers choose between, and the tables that choose: what
    each selected sequence computes is the Wasm operator. */
module ArmIsa {
  import opened Words
  import opened Bits
  import opened WasmNum
  import opened LittleEndian
  import opened Division
  import opened Rotations
  import opened Interp

  // ---- binary instructions ----

  /** Integer instructions on `w` or `x` views; shifts and rotates mask their amount. */
  datatype Mnemonic = ADD | SUB | AND | ORR | EOR | MUL | LSL | LSR | ASR | ROR

  function Execute(m: Mnemonic, w: Width, x: Word, y: Word): (r: Word) {
    var (a, b, n) := (Trunc(w, x), Trunc(w, y), Digits(w));
    match m
    case ADD => Trunc(w, a + b)
    case SUB => Minus(w, a, b)
    case AND => AndBounded(n, a, b); And(n, a, b)
    case ORR => OrBounded(n, a, b); Or(n, a, b)
    case EOR => XorBounded(n, a, b); Xor(n, a, b)
    case MUL => Trunc(w, a * b)
    case LSL => ShiftLeft(w, a, b % n)
    case LSR => ShiftRightU(w, a, b % n)
    case ASR => ShiftRightS(w, a, b % n)
    case ROR => RotateRight(w, a, b % n)
  }

  /** The mnemonic of a binary op, and whether it needs the rotate-left fixup. */
  function IntBin(f: BinOp): (r: (Mnemonic, bool)) {
    match f
    case Add => (ADD, false)
    case Sub => (SUB, false)
    case BitAnd => (AND, false)
    case BitOr => (ORR, false)
    case BitXor => (EOR, false)
    case Mul => (MUL, false)
    case Shl => (LSL, false)
    case ShrU => (LSR, false)
    case ShrS => (ASR, false)
    case Rotr => (ROR, false)
    case Rotl => (ROR, true)
  }

  /** Rotating left is rotating right by the negated amount. */
  lemma InstructionIsWasm(f: BinOp, w: Width, x: Word, y: Word)
    ensures var (m, rotl) := IntBin(f);
            Execute(m, w, x, if rotl then Minus(w, 0, y) else y) == BinVal(w, f, x, y)
  {
    hide Pow2, And, Or, Xor, ShiftLeft, ShiftRightU, ShiftRightS, RotateLeft, Modulus;
    if f == Rotl {
      RotateFixup(w, x, y);
    } else if f == Sub {
      ModShift(Trunc(w, x) - Trunc(w, y), 1, Modulus(w));
    }
  }

  lemma RotateFixup(w: Width, x: Word, y: Word)
    ensures Execute(ROR, w, x, Minus(w, 0, y)) == BinVal(w, Rotl, x, y)
  {
    hide Pow2, RotateLeft;
    NegatedAmount(w, y);
    SmallTrunc(w, Minus(w, 0, y));
    RotateByZero(w, Trunc(w, x));
  }

  lemma NegatedAmount(w: Width, y: Word)
    ensures var (k, n) := (Trunc(w, y) % Digits(w), Digits(w));
            Minus(w, 0, y) % n == if k == 0 then 0 else n - k
  {
    var n := Digits(w);
    var m: int := Modulus(w);
    var b := y % m;
    NegMod(y, m);
    assert m % n == 0;
    if b != 0 {
      DivModUnique(b, n, b / n, b % n);
      if b % n == 0 {
        DivModUnique(m - b, n, m / n - b / n, 0);
      } else {
        DivModUnique(m - b, n, m / n - b / n - 1, n - b % n);
      }
    }
  }

  lemma NegMod(y: int, m: int)
    requires 0 < m
    ensures (0 - y) % m == if y % m == 0 then 0 else m - y % m
  {
    var q, r := y / m, y % m;
    assert y == q * m + r;
    if r == 0 {
      DivModUnique(0 - y, m, -q, 0);
    } else {
      DivModUnique(0 - y, m, -q - 1, m - r);
    }
  }

  // ---- condition flags ----

  datatype Flags = Flags(n: bool, z: bool, c: bool, v: bool)
  datatype Cond = EQ | NE | HS | LO | HI | LS | GE | LT | GT | LE | MI | PL

  /** `cmp`: negative, zero, no borrow, signed overflow. */
  function Cmp(w: Width, x: Word, y: Word): (f: Flags) {
    var (a, b) := (Trunc(w, x), Trunc(w, y));
    var (d, h) := (Minus(w, a, b), Modulus(w) / 2);
    Flags(d >= h, d == 0, a >= b, (a >= h) != (b >= h) && (d >= h) != (a >= h))
  }

  /** `tst` clears carry and overflow. */
  function Tst(x: Word, y: Word): (f: Flags) {
    var d := And(32, Lo32(x), Lo32(y));
    Flags(d >= W31, d == 0, false, false)
  }

  /** Whether a condition passes. */
  predicate Passes(k: Cond, f: Flags) {
    match k
    case EQ => f.z
    case NE => !f.z
    case HS => f.c
    case LO => !f.c
    case HI => f.c && !f.z
    case LS => !f.c || f.z
    case GE => f.n == f.v
    case LT => f.n != f.v
    case GT => !f.z && f.n == f.v
    case LE => f.z || f.n != f.v
    case MI => f.n
    case PL => !f.n
  }

  /** The condition on which a fused branch falls through. */
  function Inverse(k: Cond): (j: Cond) {
    match k
    case EQ => NE
    case NE => EQ
    case HS => LO
    case LO => HS
    case HI => LS
    case LS => HI
    case GE => LT
    case LT => GE
    case GT => LE
    case LE => GT
    case MI => PL
    case PL => MI
  }

  /** The condition of an integer compare. */
  function IntCmp(c: CmpOp): (k: Cond) {
    match c
    case Eq => EQ
    case Ne => NE
    case LtS => LT
    case LtU => LO
    case GtS => GT
    case GtU => HI
    case LeS => LE
    case LeU => LS
    case GeS => GE
    case GeU => HS
  }

  lemma InverseFails(k: Cond, f: Flags)
    ensures Passes(Inverse(k), f) == !Passes(k, f) && Inverse(Inverse(k)) == k
  {
  }

  /** The flags of a compare decide every signed and unsigned order. */
  lemma FlagsDecide(w: Width, c: CmpOp, x: Word, y: Word)
    ensures Passes(IntCmp(c), Cmp(w, x, y)) == CmpVal(w, c, x, y)
  {
    hide Pow2;
    var a, b, m := Trunc(w, x), Trunc(w, y), Modulus(w);
    if a >= b { SmallTrunc(w, a - b); } else { BorrowWraps(a, b, m); }
  }

  lemma BorrowWraps(a: nat, b: nat, m: nat)
    requires a < b < m
    ensures (a - b) % m == a - b + m
  {
    DivModUnique(a - b, m, -1, a - b + m);
  }

  // ---- unary instructions ----

  /** `cnt` and `uaddlv`: the one digits of each byte, added across `m` bytes. */
  function ByteCounts(m: nat, x: nat): (s: nat) {
    if m == 0 then 0 else OneDigits(8, x % 256) + ByteCounts(m - 1, x / 256)
  }

  lemma {:induction false} OnesSplit(k: nat, m: nat, lo: nat, hi: nat)
    requires lo < Pow2(k)
    ensures OneDigits(k + m, lo + Up(k, hi)) == OneDigits(k, lo) + OneDigits(m, hi)
    decreases k
  {
    if k != 0 {
      OnesSplit(k - 1, m, lo / 2, hi);
      Bits.Half(lo, Up(k - 1, hi));
    }
  }

  lemma OnesOfParts(k: nat, m: nat, x: nat, lo: nat, hi: nat)
    requires lo < Pow2(k) && x == hi * Pow2(k) + lo
    ensures OneDigits(k + m, x) == OneDigits(k, lo) + OneDigits(m, hi)
  {
    hide Pow2, OneDigits;
    UpIsProduct(k, hi);
    OnesSplit(k, m, lo, hi);
  }

  /** The byte counts add up to the count of the whole. */
  lemma {:induction false} BytesCount(m: nat, x: nat)
    ensures ByteCounts(m, x) == OneDigits(8 * m, x)
  {
    if m != 0 {
      hide OneDigits;
      BytesCount(m - 1, x / 256);
      FirstByte(8 * m - 8, x);
    } else {
      assert OneDigits(0, x) == 0;
    }
  }

  lemma FirstByte(k: nat, x: nat)
    ensures OneDigits(8 + k, x) == OneDigits(8, x % 256) + OneDigits(k, x / 256)
  {
    Pow2Values();
    hide Pow2, OneDigits;
    OnesOfParts(8, k, x, x % 256, x / 256);
  }

  lemma {:induction false} NoOnes(n: nat, x: nat)
    requires x < Pow2(n)
    ensures OneDigits(n, x) == 0 <==> x == 0
  {
    if n != 0 { NoOnes(n - 1, x / 2); }
  }

  /** The i32 form counts a whole register: it is right exactly on zero-extended ones. */
  lemma PopcountReadsAll(x: Word)
    ensures ByteCounts(8, x) == OneDigits(64, x)
    ensures ByteCounts(8, x) == OneDigits(32, Lo32(x)) <==> x < W32
  {
    Pow2Values();
    hide Pow2, OneDigits;
    BytesCount(8, x);
    OnesOfParts(32, 32, x, Lo32(x), x / W32);
    NoOnes(32, x / W32);
  }

  /** The emitted sequence of a unary op on a whole register. */
  function UnArm(w: Width, u: UnOp, x: Word): (r: Word) {
    match u
    case Clz => LeadingZeros(Digits(w), Trunc(w, x))
    case Ctz => LeadingZeros(Digits(w), Reverse(Digits(w), Trunc(w, x)))
    case Popcnt => BytesCount(8, x); ByteCounts(8, x)
    case Eqz => if Passes(EQ, Cmp(w, x, 0)) then 1 else 0
    case Extend8S => ExtendFrom(w, W8, x)
    case Extend16S => ExtendFrom(w, W16, x)
    case Extend32S => ExtendFrom(I64, W32, x)
    case WrapI64 => Lo32(x)
    case ExtendI32S => ExtendFrom(I64, W32, x)
    case ExtendI32U => Lo32(x)
  }

  lemma UnaryIsWasm(w: Width, u: UnOp, x: Word)
    requires UnForm(w, u) && (w == I32 && u == Popcnt ==> x < W32)
    ensures UnArm(w, u, x) == IUn(w, u, Trunc(w, x))
  {
    hide Pow2, LeadingZeros, TrailingZeros, OneDigits, ByteCounts, Reverse, Cmp;
    if u == Ctz { ReversedZeros(Digits(w), Trunc(w, x)); }
    else if u == Popcnt { PopcountReadsAll(x); }
    else if u == Eqz { FlagsDecide(w, Eq, x, 0); }
    else { ExtensionsRead(w, u, x); }
  }

  lemma ExtensionsRead(w: Width, u: UnOp, x: Word)
    requires UnForm(w, u) && u != Ctz && u != Popcnt && u != Eqz
    ensures UnArm(w, u, x) == IUn(w, u, Trunc(w, x))
  {
    hide Pow2, LeadingZeros;
    if u == Extend8S { ExtendReads(w, W8, x); }
    else if u == Extend16S { ExtendReads(w, W16, x); }
    else if u == Extend32S { ExtendReads(w, W32, x); }
    else if u == ExtendI32S || u == ExtendI32U { ModOfMod(x, W32, 1); }
  }

  lemma ExtendReads(w: Width, m: nat, x: Word)
    requires m == W8 || m == W16 || m == W32
    ensures ExtendFrom(w, m, Trunc(w, x)) == ExtendFrom(w, m, x)
  {
    hide Pow2;
    KeepsLow(w, m, x);
    var t := Trunc(w, x);
    hide Trunc, Modulus;
    assert t % m == x % m;
  }

  lemma KeepsLow(w: Width, m: nat, x: Word)
    requires m == W8 || m == W16 || m == W32
    ensures Trunc(w, x) % m == x % m
  {
    hide Pow2;
    if w == I32 {
      if m == W8 { ModOfMod(x, W8, 0x100_0000); } else if m == W16 { ModOfMod(x, W16, W16); } else { ModOfMod(x, W32, 1); }
    }
  }

  // ---- loads ----

  datatype LoadMnemonic = LDR_W | LDR_X | LDRB | LDRH | LDRSB_W | LDRSH_W | LDRSB_X | LDRSH_X | LDRSW

  /** The mnemonic of a load. */
  function MemKind(k: Access): (m: LoadMnemonic)
    requires AccessOk(k)
  {
    if !k.signed then (if k.size == 4 then LDR_W else if k.size == 8 then LDR_X else if k.size == 1 then LDRB else LDRH)
    else if k.w == I32 then (if k.size == 1 then LDRSB_W else LDRSH_W)
    else if k.size == 1 then LDRSB_X
    else if k.size == 2 then LDRSH_X
    else LDRSW
  }

  function AccessSize(m: LoadMnemonic): (n: nat) {
    match m
    case LDR_W | LDRSW => 4
    case LDR_X => 8
    case LDRB | LDRSB_W | LDRSB_X => 1
    case LDRH | LDRSH_W | LDRSH_X => 2
  }

  /** What the instruction leaves in the register: unsigned forms zero-extend, a `w` view
      of a signed form clears the high half. */
  function Loaded(m: LoadMnemonic, s: seq<Byte>): (v: Word)
    requires |s| == AccessSize(m)
  {
    var x := Value(s);
    match m
    case LDRSB_W => ExtendFrom(I32, W8, x)
    case LDRSH_W => ExtendFrom(I32, W16, x)
    case LDRSB_X => ExtendFrom(I64, W8, x)
    case LDRSH_X => ExtendFrom(I64, W16, x)
    case LDRSW => ExtendFrom(I64, W32, x)
    case _ => ValueFits(s); x
  }

  lemma ValueFits(s: seq<Byte>)
    requires |s| <= 8
    ensures Value(s) < W64
  {
    Pow2Values();
    Pow2Grows(8 * |s|, 64);
  }

  /** The mnemonic loads what the access asks for, in bounds. */
  lemma LoadIsWasm(k: Access, mem: seq<Byte>, ea: nat)
    requires AccessOk(k)
    ensures ea + k.size > |mem| ==> LoadVal(k, mem, ea) == Trap(OutOfBounds)
    ensures AccessSize(MemKind(k)) == k.size
    ensures ea + k.size <= |mem| ==> LoadVal(k, mem, ea) == Done(Loaded(MemKind(k), mem[ea..ea + k.size]))
  {
    if ea + k.size <= |mem| {
      hide Value, Loaded, MemKind, ExtendFrom;
      LoadedIs(k, mem[ea..ea + k.size]);
    }
  }

  lemma LoadedIs(k: Access, s: seq<Byte>)
    requires AccessOk(k) && |s| == k.size
    ensures Loaded(MemKind(k), s) == if k.signed then ExtendFrom(k.w, Pow2(8 * k.size), Value(s)) else Value(s) % W64
  {
    ValueFits(s);
    ExtendPowers();
    hide Pow2, Value, ExtendFrom;
    if k.signed {
      if k.size == 1 { assert 8 * k.size == 8; } else if k.size == 2 { assert 8 * k.size == 16; } else { assert 8 * k.size == 32; }
    } else {
      SmallTrunc(I64, Value(s));
    }
  }

  lemma ExtendPowers()
    ensures Pow2(8) == W8 && Pow2(16) == W16 && Pow2(32) == W32
  {
    Pow2Values();
  }
}
