/** The RV32 handlers: every value is a register pair, every slot two words. The machine
    state is read off the pairs, so each handler keeping it in step with the native
    machine is the pair convention. */
module Rv32 {
  import opened Words
  import opened Bits
  import opened WasmNum
  import opened LittleEndian
  import opened Interp
  import opened WellFormed
  import opened Pairs
  import opened Division
  import opened RiscV
  import opened Bounds
  import opened BulkSpec
  import opened BulkHandlers
  import opened Coherence
  import opened Runs
  import opened TypedCode
  import opened Admission

  const ZERO := 0
  const T1 := 6
  const T2 := 7
  const L0R := 8    // s0
  const ACC := 9    // s1
  const A2 := 12
  const A3 := 13
  const A4 := 14
  const A5 := 15
  const ACC_HI := 16 // a6
  const L0_HI := 17  // a7
  const T3 := 28
  const T4 := 29

  /** The ops RV32 has handlers for: every i32 one, and the 64-bit ones a pair handles in a
      few instructions. */
  predicate Rv32Native(op: Op) {
    match op
    case Bin(w, f) => w == I32 || f == Add || f == Sub || f == BitAnd || f == BitOr || f == BitXor
    case Cmp(w, c) => w == I32 || c == Eq || c == Ne
    case BrCmp(w, c) => w == I32 || c == Eq || c == Ne
    case Div(w, _) => w == I32
    case Un(w, u) => UnNative32(w, u)
    case Load(k, _) => (k.w == I32 && k.size <= 4) || k.size == 8
    case Store(k, _) => k.size == 4 || k.size == 8 || k.w == I32
    case Call(_, _) => false
    case CallIndirect(_, _, _) => false
    case MemoryFillCopy => false
    case _ => true
  }

  predicate Rv32Cell(c: Cell) {
    Rv32Native(c.op) && NoL1(c) && NoL1Pair(c.vp) && (IsAccess(c.op) ==> OffsetField(c) < W32)
  }

  ghost predicate Rv32Code(p: Prog) {
    forall i :: 0 <= i < |p.cells| && p.cells[i].native ==> Rv32Cell(p.cells[i])
  }

  /** A register no machine state is kept in. */
  predicate Scratch(k: nat) {
    0 < k < 32 && k != ACC && k != ACC_HI && k != L0R && k != L0_HI
  }

  /** RV32 keeps one pinned local. */
  predicate NoL1(c: Cell) {
    c.va != L1 && c.vb != L1 && c.vd != ToL1
  }

  class Engine {
    const p: Prog
    const words: array<Half> // the value stack, low half of each slot first
    const glob: array<Word>
    const mem: array<Byte>
    const regs: array<Half>
    var pc: nat
    var frame: nat
    var code: nat
    var rets: seq<Rec>

    ghost predicate Valid()
      reads this, regs
    {
      && regs.Length == 32 && regs[ZERO] == 0 && regs != words && words.Length % 2 == 0
      && mem as object != words && mem as object != regs && glob as object != words && glob as object != regs
      && glob as object != mem
      && pc % 32 == 0 && pc / 32 < |p.cells| && frame % 8 == 0
    }

    ghost function St(): (n: Native)
      requires Valid()
      reads this, words, glob, mem, regs
    {
      Native(Joined(words[..]), frame / 8, mem[..], glob[..], pc / 32, rets, code,
             Join(regs[ACC], regs[ACC_HI]), Join(regs[L0R], regs[L0_HI]), 0)
    }

    function Here(): (c: Cell)
      requires pc / 32 < |p.cells|
      reads this
    {
      p.cells[pc / 32]
    }

    /** Index of the low half of a slot. */
    function Index(off: nat): (i: nat) reads this {
      2 * ((frame + off) / 8)
    }

    predicate InFrame(off: nat)
      reads this
    {
      off % 8 == 0 && Index(off) + 1 < words.Length
    }

    predicate AtCell()
      reads this
    {
      && pc / 32 + 1 < |p.cells| && Here().native && NoL1(Here())
      && (ReadsA(Here().op) && Here().va == Slot ==> InFrame(Here().a))
      && (ReadsB(Here().op) && Here().vb == Slot ==> InFrame(Here().b))
    }

    lemma SlotHalves(off: nat)
      requires Valid() && InFrame(off)
      ensures NSlot(St(), off / 8) == Join(words[Index(off)], words[Index(off) + 1])
    {
      assert frame / 8 + off / 8 == (frame + off) / 8;
    }

    /** A source operand as a `(low, high)` pair of register numbers. */
    method Pair(ghost n: Native, cls: Cls, field: Word, loTmp: nat, hiTmp: nat) returns (lo: nat, hi: nat)
      requires Valid() && St() == n && Scratch(loTmp) && Scratch(hiTmp) && loTmp != hiTmp
      requires cls != L1 && (cls == Slot ==> InFrame(field))
      modifies regs
      ensures Valid() && St() == n
      ensures (lo, hi) == PairRegs(cls, loTmp, hiTmp)
      ensures Join(regs[lo], regs[hi]) == Fetch(n, cls, field)
      ensures forall i :: 0 <= i < 32 && i != loTmp && i != hiTmp ==> regs[i] == old(regs[i])
    {
      hide Join;
      lo, hi := PairRegs(cls, loTmp, hiTmp).0, PairRegs(cls, loTmp, hiTmp).1;
      if cls == Const {
        JoinParts(field);
        regs[loTmp], regs[hiTmp] := field % W32, field / W32;
      } else if cls == Slot {
        SlotHalves(field);
        regs[loTmp], regs[hiTmp] := words[Index(field)], words[Index(field) + 1];
      }
    }

    /** A source operand's low half. */
    method Src(ghost n: Native, cls: Cls, field: Word, tmp: nat) returns (k: nat)
      requires Valid() && St() == n && Scratch(tmp) && cls != L1 && (cls == Slot ==> InFrame(field))
      modifies regs
      ensures Valid() && St() == n && k == PairRegs(cls, tmp, tmp).0 && regs[k] == Lo32(Fetch(n, cls, field))
      ensures forall i :: 0 <= i < 32 && i != tmp ==> regs[i] == old(regs[i])
    {
      k := PairRegs(cls, tmp, tmp).0;
      if cls == Const {
        regs[tmp] := field % W32;
      } else if cls == Slot {
        SlotHalves(field);
        regs[tmp] := words[Index(field)];
      }
    }

    /** `sw lo, 0; sw hi, 4` */
    method StoreSlot(ghost n: Native, off: nat, lo: Half, hi: Half)
      requires Valid() && St() == n && InFrame(off)
      modifies words
      ensures Valid() && St() == n.(stack := Set(n.stack, n.fp + off / 8, Join(lo, hi)))
    {
      ghost var s: seq<Half> := words[..];
      var i := Index(off);
      words[i] := lo;
      words[i + 1] := hi;
      assert words[..] == s[i := lo][i + 1 := hi];
      JoinedSet(s, words[..], (frame + off) / 8, lo, hi);
    }

    /** The result pair is in the target registers of `d`; everything else is as in `n`. */
    ghost predicate Lands(n: Native, d: DstCls, v: Word)
      requires Valid()
      reads this, words, glob, mem, regs
    {
      && St() == n.(acc := Join(regs[ACC], regs[ACC_HI]), l0 := Join(regs[L0R], regs[L0_HI]))
      && Join(regs[DstLo(d)], regs[DstHi(d)]) == v
      && (d == ToL0 ==> Join(regs[ACC], regs[ACC_HI]) == n.acc)
      && (d != ToL0 ==> Join(regs[L0R], regs[L0_HI]) == n.l0)
    }

    /** Store the pair; a 32-bit result stores a zero high half. */
    method Finish(ghost n: Native, d: DstCls, off: nat, ghost v: Word, wide: bool)
      requires Valid() && Lands(n, d, v) && d != ToL1 && (d != ToAcc ==> InFrame(off)) && pc / 32 + 1 < |p.cells|
      requires !wide ==> v < W32
      modifies this`pc, words
      ensures Valid() && St() == NNext(Interp.Finish(n, off / 8, d, v))
    {
      hide Join;
      if !wide { JoinParts(v); HighIsZero(regs[DstLo(d)], regs[DstHi(d)], v); }
      if d != ToAcc { StoreSlot(St(), off, regs[DstLo(d)], if wide then regs[DstHi(d)] else 0); }
      pc := pc + 32;
    }

    // ---- 64-bit pairs ----

    /** Add, sub and the bitwise family on the copied first operand in `a4`/`a5`; the
        second may be in any pair, including the destination's. */
    method PairOp(f: BinOp, rd: nat, rdh: nat, yl: nat, yh: nat)
      requires Valid() && (f == Add || f == Sub || f == BitAnd || f == BitOr || f == BitXor)
      requires (rd, rdh) == (ACC, ACC_HI) || (rd, rdh) == (L0R, L0_HI)
      requires (yl, yh) == (T1, T2) || (yl, yh) == (ACC, ACC_HI) || (yl, yh) == (L0R, L0_HI)
      modifies regs
      ensures Valid()
      ensures Join(regs[rd], regs[rdh]) == BinVal(I64, f, old(Join(regs[A4], regs[A5])), old(Join(regs[yl], regs[yh])))
      ensures forall i :: 0 <= i < 32 && i != T3 && i != T4 && i != A5 && i != rd && i != rdh ==> regs[i] == old(regs[i])
    {
      hide Join, BinVal, Add32, Sub32, Below, Bitwise;
      if f == Add {
        PairAdd(regs[A4], regs[A5], regs[yl], regs[yh]);
        regs[T3] := Add32(regs[A4], regs[yl]);
        regs[T4] := Below(regs[T3], regs[A4]);
        regs[A5] := Add32(regs[A5], regs[yh]);
        regs[rdh] := Add32(regs[A5], regs[T4]);
      } else if f == Sub {
        PairSub(regs[A4], regs[A5], regs[yl], regs[yh]);
        regs[T4] := Below(regs[A4], regs[yl]);
        regs[T3] := Sub32(regs[A4], regs[yl]);
        regs[A5] := Sub32(regs[A5], regs[yh]);
        regs[rdh] := Sub32(regs[A5], regs[T4]);
      } else {
        PairBitwise(f, regs[A4], regs[A5], regs[yl], regs[yh]);
        regs[T3] := Bitwise(f, regs[A4], regs[yl]);
        regs[rdh] := Bitwise(f, regs[A5], regs[yh]);
      }
      regs[rd] := regs[T3];
    }

    /** Copy the first operand out of the way and fetch the second. */
    method PairAB(ghost n: Native) returns (yl: nat, yh: nat)
      requires Valid() && St() == n && AtCell() && ReadsA(Here().op) && ReadsB(Here().op)
      modifies regs
      ensures Valid() && St() == n && (yl, yh) == PairRegs(Here().vb, T1, T2)
      ensures Join(regs[A4], regs[A5]) == NA(Here(), n) && Join(regs[yl], regs[yh]) == NB(Here(), n)
    {
      hide Join;
      var xl, xh := Pair(n, Here().va, Here().a, T1, T2);
      regs[A4] := regs[xl];
      regs[A5] := regs[xh];
      yl, yh := Pair(n, Here().vb, Here().b, T1, T2);
    }

    method HBin64(f: BinOp)
      requires Valid() && AtCell() && Here().op == Bin(I64, f) && (Here().vd != ToAcc ==> InFrame(Here().c))
      requires f == Add || f == Sub || f == BitAnd || f == BitOr || f == BitXor
      modifies this`pc, words, regs
      ensures Valid() && (St(), Running) == NativeStep(p, old(St()))
    {
      ghost var n := St();
      BinCell(p, n, I64, f);
      hide NativeStep, BinVal, Join, Interp.Finish;
      var c := Here();
      var yl, yh := PairAB(n);
      PairOp(f, DstLo(c.vd), DstHi(c.vd), yl, yh);
      Finish(n, c.vd, c.c, BinVal(I64, f, NA(c, n), NB(c, n)), true);
    }

    /** Equality of pairs by one folded difference word. */
    method Differ(ghost n: Native) returns (a4: Half)
      requires Valid() && St() == n && AtCell() && ReadsA(Here().op) && ReadsB(Here().op)
      modifies regs
      ensures Valid() && St() == n && (a4 == 0 <==> NA(Here(), n) == NB(Here(), n))
    {
      hide Join, Bitwise;
      var yl, yh := PairAB(n);
      PairEqual(regs[A4], regs[A5], regs[yl], regs[yh]);
      regs[A4] := Bitwise(BitXor, regs[A4], regs[yl]);
      regs[A5] := Bitwise(BitXor, regs[A5], regs[yh]);
      regs[A4] := Bitwise(BitOr, regs[A4], regs[A5]);
      a4 := regs[A4];
    }

    /** A 32-bit result: the low half, and a zero high half. */
    method SetNarrow(ghost n: Native, d: DstCls, off: nat, v: Half)
      requires Valid() && St() == n && d != ToL1 && (d != ToAcc ==> InFrame(off)) && pc / 32 + 1 < |p.cells|
      modifies this`pc, words, regs
      ensures Valid() && St() == NNext(Interp.Finish(n, off / 8, d, v))
    {
      JoinParts(v);
      regs[DstLo(d)] := v;
      regs[DstHi(d)] := 0;
      Finish(n, d, off, v, false);
    }

    method HCmp64(cc: CmpOp)
      requires Valid() && AtCell() && Here().op == Cmp(I64, cc) && (cc == Eq || cc == Ne)
      requires Here().vd != ToAcc ==> InFrame(Here().c)
      modifies this`pc, words, regs
      ensures Valid() && (St(), Running) == NativeStep(p, old(St()))
    {
      ghost var n := St();
      CmpCell(p, n, I64, cc);
      hide NativeStep, Join, Interp.Finish, Fetch;
      var c := Here();
      WholeWords(NA(c, n), NB(c, n));
      var a4 := Differ(n);
      SetNarrow(n, c.vd, c.c, if (a4 == 0) == (cc == Eq) then 1 else 0);
    }

    method HBrCmp64(cc: CmpOp)
      requires Valid() && AtCell() && Here().op == BrCmp(I64, cc) && (cc == Eq || cc == Ne)
      requires Here().c % 32 == 0 && Here().c / 32 < |p.cells|
      modifies this`pc, regs
      ensures Valid() && (St(), Running) == NativeStep(p, old(St()))
    {
      ghost var n := St();
      BrCmpCell(p, n, I64, cc);
      hide NativeStep, Join, Fetch, St;
      var c := Here();
      WholeWords(NA(c, n), NB(c, n));
      var a4 := Differ(n);
      Branch(n, if (a4 == 0) == (cc == Eq) then 1 else 0, c.c);
    }

    // ---- 32-bit results ----

    method HBin32(f: BinOp)
      requires Valid() && AtCell() && Here().op == Bin(I32, f) && (Here().vd != ToAcc ==> InFrame(Here().c))
      modifies this`pc, words, regs
      ensures Valid() && (St(), Running) == NativeStep(p, old(St()))
    {
      ghost var n := St();
      BinCell(p, n, I32, f);
      hide NativeStep, BinVal, Join, Interp.Finish, Fetch, St;
      var v := Low32(n, f);
      SetNarrow(n, Here().vd, Here().c, v);
    }

    /** A 32-bit operation on the low halves. */
    method Low32(ghost n: Native, f: BinOp) returns (v: Half)
      requires Valid() && St() == n && AtCell() && ReadsA(Here().op) && ReadsB(Here().op)
      modifies regs
      ensures Valid() && St() == n && v == BinVal(I32, f, NA(Here(), n), NB(Here(), n))
    {
      hide BinVal, BinReg, Join, Fetch, Pow2, St;
      var c := Here();
      var x := Src(n, c.va, c.a, T1);
      var y := Src(n, c.vb, c.b, T2);
      NarrowRegister(f, regs[x], regs[y], NA(c, n), NB(c, n));
      v := BinReg(I32, 32, f, regs[x], regs[y]);
    }

    method HCmp32(cc: CmpOp)
      requires Valid() && AtCell() && Here().op == Cmp(I32, cc) && (Here().vd != ToAcc ==> InFrame(Here().c))
      modifies this`pc, words, regs
      ensures Valid() && (St(), Running) == NativeStep(p, old(St()))
    {
      ghost var n := St();
      CmpCell(p, n, I32, cc);
      hide NativeStep, CmpVal, Join, Interp.Finish, Fetch;
      var taken := Compare32(n, cc);
      SetNarrow(n, Here().vd, Here().c, if taken then 1 else 0);
    }

    method Compare32(ghost n: Native, cc: CmpOp) returns (taken: bool)
      requires Valid() && St() == n && AtCell() && ReadsA(Here().op) && ReadsB(Here().op)
      modifies regs
      ensures Valid() && St() == n && taken == CmpVal(I32, cc, NA(Here(), n), NB(Here(), n))
    {
      hide CmpVal, CmpReg, Join, Fetch, Pow2;
      var x := Src(n, Here().va, Here().a, T1);
      var y := Src(n, Here().vb, Here().b, T2);
      NarrowCompare(cc, regs[x], regs[y], NA(Here(), n), NB(Here(), n));
      taken := CmpReg(I32, 32, cc, regs[x], regs[y]);
    }

    method HBrCmp32(cc: CmpOp)
      requires Valid() && AtCell() && Here().op == BrCmp(I32, cc) && Here().c % 32 == 0 && Here().c / 32 < |p.cells|
      modifies this`pc, regs
      ensures Valid() && (St(), Running) == NativeStep(p, old(St()))
    {
      ghost var n := St();
      hide NativeStep, CmpVal, Join, Fetch;
      var taken := Compare32(n, cc);
      TakenIs(p, n, cc, taken);
      Branch(n, if taken then 1 else 0, Here().c);
    }

    /** Zero tests, wrap, the narrow sign extensions and the two extensions from i32. */
    method HUn(w: Width, u: UnOp)
      requires Valid() && AtCell() && Here().op == Un(w, u) && (Here().vd != ToAcc ==> InFrame(Here().c))
      requires UnNative32(w, u)
      modifies this`pc, words, regs
      ensures Valid() && (St(), Running) == NativeStep(p, old(St()))
    {
      ghost var n := St();
      hide NativeStep, Join, Interp.Finish, Fetch, IUn, St;
      CodeOf();
      UnCell(p, n, w, u);
      if u == ExtendI32S {
        var x := LowOf(n);
        WordExtension(x, NA(Here(), n));
        SetExtended(n, Here().vd, Here().c, x);
      } else {
        var x := NarrowUnary(n, w, u);
        SetNarrow(n, Here().vd, Here().c, x);
      }
    }

    /** The unary operations with a 32-bit result. */
    method NarrowUnary(ghost n: Native, w: Width, u: UnOp) returns (x: Half)
      requires Valid() && St() == n && AtCell() && Here().op == Un(w, u) && UnNative32(w, u) && u != ExtendI32S
      modifies regs
      ensures Valid() && St() == n && x == IUn(w, u, Trunc(w, NA(Here(), n)))
    {
      hide Join, Fetch, St, ShiftPair;
      if u == Eqz && w == I64 {
        var t3 := Folded(n);
        WholeWords(NA(Here(), n), NA(Here(), n));
        return if t3 == 0 then 1 else 0;
      }
      x := LowOf(n);
      if u == Extend8S || u == Extend16S {
        NarrowExtension(u, x);
        x := ShiftPair(I32, x, if u == Extend8S then 24 else 16);
      } else if u == Eqz {
        x := if x == 0 then 1 else 0;
      } else {
        LowTwice(w, NA(Here(), n));
      }
    }

    /** Both halves of the operand or-ed together. */
    method Folded(ghost n: Native) returns (t3: Half)
      requires Valid() && St() == n && AtCell() && ReadsA(Here().op)
      modifies regs
      ensures Valid() && St() == n && (t3 == 0 <==> NA(Here(), n) == 0)
    {
      hide Join, Bitwise;
      var lo, hi := Pair(n, Here().va, Here().a, T1, T2);
      PairZero(regs[lo], regs[hi]);
      regs[T3] := Bitwise(BitOr, regs[lo], regs[hi]);
      t3 := regs[T3];
    }

    method LowOf(ghost n: Native) returns (x: Half)
      requires Valid() && St() == n && AtCell() && ReadsA(Here().op)
      modifies regs
      ensures Valid() && St() == n && x == Lo32(NA(Here(), n))
    {
      hide Join;
      var k := Src(n, Here().va, Here().a, T1);
      x := regs[k];
    }

    /** `mv rd, x; srai rdh, rd, 31` */
    method SetExtended(ghost n: Native, d: DstCls, off: nat, x: Half)
      requires Valid() && St() == n && d != ToL1 && (d != ToAcc ==> InFrame(off)) && pc / 32 + 1 < |p.cells|
      modifies this`pc, words, regs
      ensures Valid() && St() == NNext(Interp.Finish(n, off / 8, d, ExtendFrom(I64, W32, x)))
    {
      hide Join, ExtendFrom;
      PairExtend(x);
      regs[DstLo(d)] := x;
      regs[DstHi(d)] := SignHalf(regs[DstLo(d)]);
      Finish(n, d, off, ExtendFrom(I64, W32, x), true);
    }

    /** Divisions; `bail` hands the untouched cell to the slow path. */
    method HDiv(v: DivOp) returns (bail: bool)
      requires Valid() && AtCell() && Here().op == Div(I32, v) && (Here().vd != ToAcc ==> InFrame(Here().c)) && p.backend.remBails
      modifies this`pc, words, regs
      ensures Valid() && (St(), if bail then Bailed else Running) == NativeStep(p, old(St()))
    {
      ghost var n := St();
      DivCell(p, n, I32, v);
      hide NativeStep, Join, Interp.Finish, Fetch, DivBails, IDiv, St;
      var r := Divide(n, v);
      if r.None? { return true; }
      SetNarrow(n, Here().vd, Here().c, r.value);
      bail := false;
    }

    method Divide(ghost n: Native, v: DivOp) returns (r: Option<nat>)
      requires Valid() && St() == n && AtCell() && Here().op == Div(I32, v) && p.backend.remBails
      modifies regs
      ensures Valid() && St() == n
      ensures Divided(p, v, NA(Here(), n), NB(Here(), n), r)
    {
      hide Join, Fetch, DivBails, IDiv, St;
      var c := Here();
      var x := Src(n, c.va, c.a, T1);
      var y := Src(n, c.vb, c.b, T2);
      r := Div32(v, regs[x], regs[y], false);
      LowDivides(p, v, NA(c, n), NB(c, n), r);
    }

    // ---- moves ----

    method HMov()
      requires Valid() && AtCell() && (Here().op.MovSlot? || Here().op.MovConst?) && VariantOk(Here())
      requires Here().vd != ToAcc ==> InFrame(Here().c)
      modifies this`pc, words, regs
      ensures Valid() && (St(), Running) == NativeStep(p, old(St()))
    {
      ghost var n := St();
      MovCell(p, n);
      hide NativeStep, Join, Interp.Finish;
      var c := Here();
      var lo, hi := Pair(n, c.va, c.a, T1, T2);
      SetPairWide(n, c.vd, c.c, regs[lo], regs[hi]);
    }

    /** The condition is a zero-extended slot, so its low half decides. */
    method HSelect()
      requires Valid() && AtCell() && Here().op.Select? && InFrame(Here().c / W32)
      requires Here().vd != ToAcc ==> InFrame(Here().c % W32)
      requires Holds(I32, NSlot(St(), PackedSlot(Here())))
      modifies this`pc, words, regs
      ensures Valid() && (St(), Running) == NativeStep(p, old(St()))
    {
      ghost var n := St();
      hide NativeStep, Join, Interp.Finish, Fetch, NSlot, St, Holds, Lo32;
      CodeOf();
      var t6 := SecondAddress();
      SelectByLow(p, n, t6);
      SelectInto(n, Here(), t6 != 0);
    }

    method SelectInto(ghost n: Native, c: Cell, first: bool)
      requires Valid() && St() == n && c == Here() && AtCell() && c.op.Select? && (c.vd != ToAcc ==> InFrame(c.c % W32))
      modifies this`pc, words, regs
      ensures Valid() && St() == NNext(Interp.Finish(n, c.c % W32 / 8, c.vd, if first then NA(c, n) else NB(c, n)))
    {
      hide Join, Interp.Finish, Fetch, St;
      var lo, hi := Pair(n, if first then c.va else c.vb, if first then c.a else c.b, T1, T2);
      SetPairWide(n, c.vd, c.c % W32, regs[lo], regs[hi]);
    }

    predicate InGlobals(addr: nat) {
      addr % 8 == 0 && addr / 8 < glob.Length
    }

    method HGlobalGet()
      requires Valid() && AtCell() && Here().op.GlobalGet? && InGlobals(Here().b) && (Here().vd != ToAcc ==> InFrame(Here().c))
      modifies this`pc, words, regs
      ensures Valid() && (St(), Running) == NativeStep(p, old(St()))
    {
      ghost var n := St();
      GlobalGetCell(p, n);
      hide NativeStep, Join, Interp.Finish;
      var g := glob[Here().b / 8];
      JoinParts(g);
      SetPairWide(n, Here().vd, Here().c, g % W32, g / W32);
    }

    method HGlobalSet()
      requires Valid() && AtCell() && Here().op.GlobalSet? && InGlobals(Here().b)
      modifies this`pc, glob, regs
      ensures Valid() && (St(), Running) == NativeStep(p, old(St()))
    {
      ghost var n := St();
      GlobalCell(p, n);
      hide NativeStep, Join, Fetch;
      var c := Here();
      var lo, hi := Pair(n, c.va, c.a, T1, T2);
      StoreGlobal(n, c.b / 8, Join(regs[lo], regs[hi]));
    }

    method StoreGlobal(ghost n: Native, i: nat, v: Word)
      requires Valid() && St() == n && i < glob.Length && pc / 32 + 1 < |p.cells|
      modifies this`pc, glob
      ensures Valid() && St() == NNext(n.(glob := Set(n.glob, i, v)))
    {
      hide Join;
      glob[i] := v;
      assert glob[..] == n.glob[i := v];
      pc := pc + 32;
    }

    /** Two ordered copies; the second goes through the accumulator pair. */
    method HMovPair()
      requires Valid() && AtCell() && Here().op.MovPair? && VariantOk(Here()) && NoL1Pair(Here().vp)
      requires Here().vb == Slot ==> InFrame(Here().b)
      requires InFrame(Here().c / W32) && InFrame(Here().c % W32)
      modifies this`pc, words, regs
      ensures Valid() && (St(), Running) == NativeStep(p, old(St()))
    {
      ghost var n := St();
      PairCell(p, n);
      hide NativeStep, Fetch, PinPut, St;
      FirstCopy(n, Here());
      SecondCopy(PinPut(n, PackedSlot(Here()), First(Here().vp), NA(Here(), n)), Here());
      Next(St());
    }

    method FirstCopy(ghost n: Native, c: Cell)
      requires Valid() && St() == n && c.va != L1 && (c.va == Slot ==> InFrame(c.a)) && InFrame(c.c / W32)
      requires First(c.vp) == ToMem || First(c.vp) == ToL0
      modifies words, regs
      ensures Valid() && St() == PinPut(n, PackedSlot(c), First(c.vp), NA(c, n))
    {
      hide Join, Fetch, PinPut, St;
      var lo, hi := Pair(n, c.va, c.a, T1, T2);
      PutPinned(n, c.c / W32, First(c.vp), regs[lo], regs[hi]);
    }

    method SecondCopy(ghost n: Native, c: Cell)
      requires Valid() && St() == n && (c.vb == L0 || c.vb == Slot) && (c.vb == Slot ==> InFrame(c.b)) && InFrame(c.c % W32)
      requires Second(c.vp) == ToMem || Second(c.vp) == ToL0
      modifies words, regs
      ensures Valid() && St() == PinPut(n, c.c % W32 / 8, Second(c.vp), NB(c, n)).(acc := NB(c, n))
    {
      hide Join, Fetch, PinPut, St;
      ghost var y := NB(c, n);
      SecondToAcc(n, c);
      PinPutKeepsAcc(n, c.c % W32 / 8, Second(c.vp), y);
      PutPinned(n.(acc := y), c.c % W32, Second(c.vp), regs[ACC], regs[ACC_HI]);
    }

    /** A pair to a slot and to the register pair pinned to it. */
    method PutPinned(ghost n: Native, off: nat, d: DstCls, lo: Half, hi: Half)
      requires Valid() && St() == n && InFrame(off) && (d == ToMem || d == ToL0)
      modifies words, regs
      ensures Valid() && St() == PinPut(n, off / 8, d, Join(lo, hi))
    {
      hide Join, Set;
      StoreSlot(n, off, lo, hi);
      if d == ToL0 { SetL0(St(), lo, hi); }
    }

    method SecondToAcc(ghost n: Native, c: Cell)
      requires Valid() && St() == n && (c.vb == L0 || c.vb == Slot) && (c.vb == Slot ==> InFrame(c.b))
      modifies regs
      ensures Valid() && St() == n.(acc := Fetch(n, c.vb, c.b)) && Join(regs[ACC], regs[ACC_HI]) == Fetch(n, c.vb, c.b)
    {
      hide Join;
      if c.vb == Slot {
        LoadAcc(n, c.b);
      } else {
        regs[ACC], regs[ACC_HI] := regs[L0R], regs[L0_HI];
      }
    }

    // ---- control ----

    /** Branches on one operand, or on the digits two have in common. */
    method HBranch()
      requires Valid() && Here().native && IsBranchOp(Here().op) && !Here().op.BrCmp? && BranchAdmits(p, St(), Here())
      requires NoL1(Here()) && (ReadsA(Here().op) && Here().va == Slot ==> InFrame(Here().a))
      requires ReadsB(Here().op) && Here().vb == Slot ==> InFrame(Here().b)
      modifies this`pc, regs
      ensures Valid() && (St(), Running) == NativeStep(p, old(St()))
    {
      ghost var n := St();
      BranchCell(p, n);
      hide NativeStep, Join, And, Fetch, BranchTo, TableFits;
      if Here().op.BrTable? {
        TableBranch(n);
      } else if Here().op.Br? {
        Always(n);
      } else {
        var taken := Condition(n);
        Branch(n, if taken then 1 else 0, Here().c);
      }
    }

    method Next(ghost n: Native)
      requires Valid() && St() == n && pc / 32 + 1 < |p.cells|
      modifies this`pc
      ensures Valid() && St() == NNext(n)
    {
      hide Join;
      pc := pc + 32;
    }

    /** `jr` to a cell. */
    method Go(ghost n: Native, target: nat)
      requires Valid() && St() == n && TargetFits(p, target)
      modifies this`pc
      ensures Valid() && St() == n.(pc := target / 32)
    {
      hide Join;
      pc := target;
    }

    method Always(ghost n: Native)
      requires Valid() && St() == n && Here().op.Br? && TargetFits(p, Here().c)
      modifies this`pc
      ensures Valid()
      ensures var c := old(Here()); St() == n.(pc := BranchTo(p, c, n.pc, n.code, NA(c, n), NB(c, n)))
    {
      hide St;
      Go(n, Here().c);
    }

    method Condition(ghost n: Native) returns (taken: bool)
      requires Valid() && St() == n && AtCell() && (Here().op.BrIf? || Here().op.BrIfNot? || Here().op.BrAnd?)
      modifies regs
      ensures Valid() && St() == n
      ensures var c := Here();
              BranchTo(p, c, n.pc, n.code, NA(c, n), NB(c, n)) == if taken then c.c / 32 else n.pc + 1
    {
      hide Join, And, Fetch;
      var c := Here();
      var x := Src(n, c.va, c.a, T1);
      if c.op.BrAnd? {
        var y := Src(n, c.vb, c.b, T2);
        taken := (And(32, regs[x], regs[y]) != 0) != c.op.negated;
      } else {
        taken := (regs[x] != 0) == c.op.BrIf?;
      }
    }

    /** An index past the table takes its last entry. */
    method TableBranch(ghost n: Native)
      requires Valid() && St() == n && Here().op.BrTable? && TableFits(p, n, Here())
      requires NoL1(Here()) && (Here().va == Slot ==> InFrame(Here().a))
      modifies this`pc, regs
      ensures Valid()
      ensures var c := old(Here()); St() == n.(pc := BranchTo(p, c, n.pc, n.code, NA(c, n), NB(c, n)))
    {
      hide Join, Fetch, St;
      var c := Here();
      CodeOf();
      var k := Src(n, c.va, c.a, T1);
      var t4 := if regs[k] < c.c then regs[k] else c.c;
      assert TableEntry(p, code / 32, c.b / 4 + t4);
      Go(n, code + 32 * p.brFlat[c.b / 4 + t4]);
    }

    lemma CodeOf()
      requires Valid()
      ensures St().code == code && St().pc == pc / 32 && St().fp == frame / 8 && St().rets == rets
    {
    }

    /** A function's records cross the chain boundary, so a return leaves the chain: the
        results move down pair by pair, the last one staying in the accumulator pair. */
    method HReturn()
      requires Valid() && Here().native && Here().op.Return? && rets == [] && ReturnAdmits(p, St(), Here())
      modifies words, regs
      ensures Valid() && (St(), Exited) == NativeStep(p, old(St()))
    {
      ghost var n := St();
      ReturnCell(p, n);
      hide NativeStep, St, WithResults;
      MoveResults(n, Here());
    }

    method MoveResults(ghost n: Native, c: Cell)
      requires Valid() && St() == n && c.a % 8 == 0 && n.fp + c.a / 8 + c.b <= |n.stack|
      modifies words, regs
      ensures Valid() && St() == WithResults(n, c)
    {
      hide Join, MoveSlots, Moved, St;
      var k: nat := 0;
      MovedNone(n.stack, n.fp, n.fp + c.a / 8);
      while k < c.b
        invariant Valid() && k <= c.b && Moved(n.stack, St().stack, n.fp, n.fp + c.a / 8, k)
        invariant St() == n.(stack := St().stack, acc := if k == 0 then n.acc else Get(St().stack, n.fp + k - 1))
      {
        MovedLength(n.stack, St().stack, n.fp, n.fp + c.a / 8, k);
        SlotsFit(n, c, St(), k);
        CopyPair(St(), n.stack, c.a, k);
        k := k + 1;
      }
      MovedAll(n.stack, St().stack, n.fp, n.fp + c.a / 8, c.b);
    }

    lemma SlotsFit(n: Native, c: Cell, m: Native, k: nat)
      requires Valid() && St() == m && m.fp == n.fp && |m.stack| == |n.stack| && c.a % 8 == 0
      requires n.fp + c.a / 8 + c.b <= |n.stack| && k < c.b
      ensures InFrame(c.a + 8 * k) && InFrame(8 * k)
    {
      hide Join;
    }

    method CopyPair(ghost n: Native, ghost s0: seq<Word>, from: nat, k: nat)
      requires Valid() && St() == n && InFrame(from + 8 * k) && InFrame(8 * k)
      requires Moved(s0, n.stack, n.fp, n.fp + from / 8, k) && from % 8 == 0
      modifies words, regs
      ensures Valid() && Moved(s0, St().stack, n.fp, n.fp + from / 8, k + 1)
      ensures St() == n.(stack := St().stack, acc := Get(St().stack, n.fp + k))
    {
      hide Join, Moved, St, Set;
      FrameHas(n, from + 8 * k);
      FrameHas(n, 8 * k);
      MovedLength(s0, n.stack, n.fp, n.fp + from / 8, k);
      LoadAcc(n, from + 8 * k);
      ghost var v := NSlot(n, from / 8 + k);
      StoreSlot(n.(acc := v), 8 * k, regs[ACC], regs[ACC_HI]);
      SetIs(n.stack, n.fp + k, n.fp + from / 8 + k, v);
      MovedOne(s0, n.stack, St().stack, n.fp, n.fp + from / 8, k);
    }

    /** A slot into the accumulator pair. */
    method LoadAcc(ghost n: Native, off: nat)
      requires Valid() && St() == n && InFrame(off)
      modifies regs
      ensures Valid() && St() == n.(acc := NSlot(n, off / 8)) && Join(regs[ACC], regs[ACC_HI]) == NSlot(n, off / 8)
    {
      hide Join;
      SlotHalves(off);
      regs[ACC], regs[ACC_HI] := words[Index(off)], words[Index(off) + 1];
    }

    lemma FrameHas(n: Native, off: nat)
      requires Valid() && St() == n && InFrame(off)
      ensures n.fp + off / 8 < |n.stack|
    {
      hide Join;
    }

    // ---- bulk memory ----

    /** `memory.fill` and `memory.copy` with three contiguous operands, by their low halves. */
    method HBulk(base: nat) returns (bail: bool)
      requires Valid() && Here().native && (Here().op.MemoryFill? || Here().op.MemoryCopy?) && BulkAdmits(p, St(), Here())
      requires mem.Length < W32 && base + mem.Length + 8 <= W32
      modifies this`pc, mem
      ensures Valid() && (St(), if bail then Bailed else Running) == NativeStep(p, old(St()))
    {
      ghost var n := St();
      hide NativeStep, St;
      bail := BulkMemory(n, Here(), base);
      if !bail { Next(St()); }
    }

    method BulkMemory(ghost n: Native, c: Cell, base: nat) returns (bail: bool)
      requires Valid() && St() == n && c == Here() && (c.op.MemoryFill? || c.op.MemoryCopy?) && BulkAdmits(p, n, c)
      requires mem.Length < W32 && base + mem.Length + 8 <= W32
      modifies mem
      ensures Valid() && NativeStep(p, n) == if bail then (n, Bailed) else (NNext(St()), Running)
      ensures bail ==> St() == n
    {
      hide NativeStep, NSlot, Join, St, Lo32;
      CodeOf();
      PackFrame(n, c.a);
      PackLow(n, c.a, c.op.MemoryCopy?);
      var d, x, k := LdrPack(n, c.a);
      BulkOutcome(p, n, NSlot(n, c.a / 8), NSlot(n, c.a / 8 + 1), NSlot(n, c.a / 8 + 2));
      bail := RunBulk(n, c.op.MemoryCopy?, base, d, x, k);
    }

    lemma PackFrame(n: Native, off: nat)
      requires Valid() && St() == n && Fits(n, off) && Fits(n, off + 8) && Fits(n, off + 16)
      ensures InFrame(off) && InFrame(off + 8) && InFrame(off + 16)
    {
      hide Join;
    }

    method LdrPack(ghost n: Native, off: nat) returns (d: Half, x: Half, k: Half)
      requires Valid() && St() == n && InFrame(off) && InFrame(off + 8) && InFrame(off + 16)
      ensures d == Lo32(NSlot(n, off / 8)) && x == Lo32(NSlot(n, off / 8 + 1)) && k == Lo32(NSlot(n, off / 8 + 2))
    {
      hide Join;
      SlotHalves(off);
      SlotHalves(off + 8);
      SlotHalves(off + 16);
      d, x, k := words[Index(off)], words[Index(off + 8)], words[Index(off + 16)];
    }

    method RunBulk(ghost n: Native, copy: bool, base: nat, d: Half, x: Half, k: Half) returns (bail: bool)
      requires Valid() && St() == n && mem.Length < W32 && base + mem.Length + 8 <= W32
      modifies mem
      ensures Valid() && bail == !(d + k <= |n.mem| && (copy ==> x + k <= |n.mem|))
      ensures St() == if bail then n else n.(mem := if copy then CopyBytes(n.mem, d, x, k) else FillBytes(n.mem, d, x % 256, k))
    {
      if copy {
        bail := CopyWords(mem, base, d, x, k, 32);
      } else {
        bail := FillWords(mem, base, d, x, k, 32);
      }
    }

    // ---- memory ----

    /** A load or store the host can address: 32-bit offset, and a length the page limit
        keeps below 2^32. */
    predicate AtAccess(size: nat)
      reads this
    {
      && AtCell() && (Here().op.Load? || Here().op.Store?) && Here().op.acc.size == size <= 8
      && (Here().op.fused ==> InFrame(Here().c / W32)) && OffsetField(Here()) < W32 && mem.Length < W32
    }

    /** The 32-bit address: one operand, or the wrapped sum of two. */
    method AddressOperand(ghost n: Native) returns (addr: Half)
      requires Valid() && St() == n && (Here().op.Load? || Here().op.Store?) && AtAccess(Here().op.acc.size)
      modifies regs
      ensures Valid() && St() == n && addr + OffsetField(Here()) == Target(Here(), n)
    {
      hide Join, Fetch, Address, NSlot;
      var c := Here();
      AddressIs(c.op.fused, NA(c, n), NSlot(n, PackedSlot(c)), OffsetField(c));
      addr := LowOf(n);
      if c.op.fused {
        var addr2 := SecondAddress();
        addr := Add32(addr, addr2);
      }
    }

    method SecondAddress() returns (t3: Half)
      requires Valid() && InFrame(Here().c / W32)
      ensures t3 == Lo32(NSlot(St(), PackedSlot(Here())))
    {
      SlotHalves(Here().c / W32);
      t3 := words[Index(Here().c / W32)];
    }

    /** The effective address and its two carry guards. */
    method Guarded(ghost n: Native, size: nat) returns (trap: bool, ea: Half)
      requires Valid() && St() == n && AtAccess(size)
      modifies regs
      ensures Valid() && St() == n
      ensures trap == OutOfRange(mem.Length, Target(Here(), n), size) && (!trap ==> ea == Target(Here(), n))
    {
      hide Join, Target, St;
      var addr := AddressOperand(n);
      trap, ea := CheckSltu(mem.Length, OffsetField(Here()), addr, size);
    }

    /** Loads of at most 32 bits, and the full-width load as a pair. */
    method HLoad() returns (trap: bool)
      requires Valid() && Here().op.Load? && AtAccess(Here().op.acc.size)
      requires var k := Here().op.acc; (k.w == I32 && 0 < k.size <= 4) || (k.size == 8 && !k.signed)
      requires Here().vd != ToAcc ==> InFrame(8 * DstSlot(Here())) && (if Here().op.fused then Here().c % W32 else Here().c) % 8 == 0
      modifies this`pc, words, regs
      ensures Valid() && (St(), if trap then Trapped(OutOfBounds) else Running) == NativeStep(p, old(St()))
    {
      ghost var n := St();
      LoadCell(p, n);
      hide NativeStep, Join, Interp.Finish, Fetch, Address, Value, ExtendFrom, Pow2;
      var ea;
      trap, ea := Guarded(n, Here().op.acc.size);
      if !trap { LandLoad(n, Here().op.acc, ea); }
    }

    method LandLoad(ghost n: Native, k: Access, ea: nat)
      requires Valid() && St() == n && AtCell() && Here().op.Load? && ea + k.size <= mem.Length
      requires (k.w == I32 && 0 < k.size <= 4) || (k.size == 8 && !k.signed)
      requires Here().vd != ToAcc ==> InFrame(8 * DstSlot(Here()))
      modifies this`pc, words, regs
      ensures Valid() && var v := LoadVal(k, n.mem, ea);
              v.Done? && St() == NNext(Interp.Finish(n, DstSlot(old(Here())), old(Here()).vd, v.v))
    {
      hide Join, Interp.Finish, Value, ExtendFrom, Pow2;
      var c := Here();
      if k.size == 8 {
        PairValue(mem[ea..ea + 8]);
        SetPairWide(n, c.vd, 8 * DstSlot(c), Value(mem[ea..ea + 8][..4]), Value(mem[ea..ea + 8][4..]));
      } else {
        NarrowValue(mem[ea..ea + k.size]);
        SetNarrow(n, c.vd, 8 * DstSlot(c), LoadedNarrow(k, mem[ea..ea + k.size]));
      }
    }

    method SetPairWide(ghost n: Native, d: DstCls, off: nat, lo: Half, hi: Half)
      requires Valid() && St() == n && d != ToL1 && (d != ToAcc ==> InFrame(off)) && pc / 32 + 1 < |p.cells|
      modifies this`pc, words, regs
      ensures Valid() && St() == NNext(Interp.Finish(n, off / 8, d, Join(lo, hi)))
    {
      hide Join;
      regs[DstLo(d)] := lo;
      regs[DstHi(d)] := hi;
      Finish(n, d, off, Join(lo, hi), true);
    }

    /** Stores: the low half, or both halves for the full-width form. */
    method HStore() returns (trap: bool)
      requires Valid() && Here().op.Store? && AtAccess(Here().op.acc.size) && (Here().op.acc.size <= 4 || Here().op.acc.size == 8)
      modifies this`pc, mem, regs
      ensures Valid() && (St(), if trap then Trapped(OutOfBounds) else Running) == NativeStep(p, old(St()))
    {
      ghost var n := St();
      StoreCellTo(p, n);
      hide NativeStep, Join, Fetch, Target, Bytes, St;
      var ea;
      trap, ea := Guarded(n, Here().op.acc.size);
      if trap { return; }
      StoreAndNext(n, Here(), ea);
    }

    method StoreAndNext(ghost n: Native, c: Cell, ea: nat)
      requires Valid() && St() == n && c == Here() && AtCell() && c.op.Store?
      requires (c.op.acc.size <= 4 || c.op.acc.size == 8) && ea + c.op.acc.size <= mem.Length
      modifies this`pc, mem, regs
      ensures Valid() && ea + c.op.acc.size <= |n.mem|
      ensures St() == n.(mem := n.mem[..ea] + Bytes(NB(c, n), c.op.acc.size) + n.mem[ea + c.op.acc.size..], pc := n.pc + 1)
    {
      hide Fetch, Bytes, St;
      MemoryLength();
      StoreValue(n, c, ea);
      Next(St());
    }

    method StoreValue(ghost n: Native, c: Cell, ea: nat)
      requires Valid() && St() == n && c == Here() && AtCell() && c.op.Store?
      requires (c.op.acc.size <= 4 || c.op.acc.size == 8) && ea + c.op.acc.size <= mem.Length
      modifies mem, regs
      ensures Valid() && St() == n.(mem := n.mem[..ea] + Bytes(NB(c, n), c.op.acc.size) + n.mem[ea + c.op.acc.size..])
    {
      hide Join, Bytes, St, Fetch;
      MemoryLength();
      if c.op.acc.size == 8 {
        var lo, hi := Pair(n, c.vb, c.b, T1, T2);
        PairBytes(regs[lo], regs[hi]);
        StoreBytes(n, ea, Bytes(regs[lo], 4));
        StoreBytes(St(), ea + 4, Bytes(regs[hi], 4));
        StoredTwice(n.mem, ea, Bytes(regs[lo], 4), Bytes(regs[hi], 4));
      } else {
        var rb := Src(n, c.vb, c.b, T1);
        NarrowBytes(NB(c, n), c.op.acc.size);
        StoreBytes(n, ea, Bytes(regs[rb], c.op.acc.size));
      }
    }

    lemma MemoryLength()
      requires Valid()
      ensures |St().mem| == mem.Length
    {
      hide Join;
    }

    method StoreBytes(ghost n: Native, ea: nat, q: seq<Byte>)
      requires Valid() && St() == n && ea + |q| <= mem.Length
      modifies mem
      ensures Valid() && St() == n.(mem := n.mem[..ea] + q + n.mem[ea + |q|..])
    {
      hide Join;
      forall i | 0 <= i < |q| {
        mem[ea + i] := q[i];
      }
      assert mem[..] == n.mem[..ea] + q + n.mem[ea + |q|..];
    }

    // ---- subtract and branch ----

    predicate AtSubBr(w: Width)
      reads this
    {
      && AtCell() && Here().op == SubBrIf(w) && (Here().va == Slot || Here().va == L0) && InFrame(Here().a)
      && Here().c % 32 == 0 && Here().c / 32 < |p.cells|
    }

    /** Subtract in place, and branch while not zero. */
    method HSubBrIf(w: Width)
      requires Valid() && AtSubBr(w) && p.backend.subBrAcc
      modifies this`pc, words, regs
      ensures Valid() && (St(), Running) == NativeStep(p, old(St()))
    {
      ghost var n := St();
      CodeOf();
      SubBrGoes(p, n, w);
      hide NativeStep, BinVal, St, SubBrWritten, Fetch, AtSubBr, InFrame;
      SubAndBranch(n, w, Here());
    }

    method SubAndBranch(ghost n: Native, w: Width, c: Cell)
      requires Valid() && St() == n && c == Here() && AtSubBr(w) && p.backend.subBrAcc
      modifies this`pc, words, regs
      ensures Valid()
      ensures var v := BinVal(w, Sub, NA(c, n), NB(c, n)); St() == SubBrWritten(p, w, c, n, v).(pc := if v != 0 then c.c / 32 else n.pc + 1)
    {
      hide BinVal, St, SubBrWritten, Fetch;
      CodeOf();
      ghost var m := SubBrWritten(p, w, c, n, BinVal(w, Sub, NA(c, n), NB(c, n)));
      KeepsPc(p, w, c, n, BinVal(w, Sub, NA(c, n), NB(c, n)));
      var nz := WriteBack(n, w, c);
      Branch(m, nz, c.c);
    }

    method WriteBack(ghost n: Native, w: Width, c: Cell) returns (nz: Half)
      requires Valid() && St() == n && c == Here() && AtSubBr(w) && p.backend.subBrAcc
      modifies words, regs
      ensures Valid() && var v := BinVal(w, Sub, NA(c, n), NB(c, n)); St() == SubBrWritten(p, w, c, n, v) && (nz == 0 <==> v == 0)
    {
      hide BinVal, St, SubBrWritten, Fetch;
      if w == I64 { nz := WriteWide(n, c); } else { nz := WriteNarrow(n, c); }
    }

    /** The 64-bit form computes in scratch and leaves the accumulator alone. */
    method WriteWide(ghost n: Native, c: Cell) returns (nz: Half)
      requires Valid() && St() == n && c == Here() && AtSubBr(I64)
      modifies words, regs
      ensures Valid() && var v := BinVal(I64, Sub, NA(c, n), NB(c, n)); St() == SubBrWritten(p, I64, c, n, v) && (nz == 0 <==> v == 0)
    {
      hide BinVal, Join, PinPut, Fetch, St;
      SubPair(n);
      nz := StoreInPlace(n, c);
    }

    /** To the target, or to the next cell. */
    method Branch(ghost n: Native, nz: Half, target: nat)
      requires Valid() && St() == n && TargetFits(p, target) && pc / 32 + 1 < |p.cells|
      modifies this`pc
      ensures Valid() && St() == n.(pc := if nz != 0 then target / 32 else n.pc + 1)
    {
      pc := if nz == 0 then pc + 32 else target;
    }

    method SubPair(ghost n: Native)
      requires Valid() && St() == n && AtSubBr(I64)
      modifies regs
      ensures Valid() && St() == n
      ensures Join(regs[A2], regs[A3]) == BinVal(I64, Sub, NA(Here(), n), NB(Here(), n))
    {
      hide BinVal, Join;
      var c := Here();
      var xl, xh := Pair(n, c.va, c.a, T1, T2);
      var yl, yh := Pair(n, c.vb, c.b, T3, T4);
      SubHalves(n, xl, xh, yl, yh);
    }

    /** The borrow chain; the operands may be in any registers but the results'. */
    method SubHalves(ghost n: Native, xl: nat, xh: nat, yl: nat, yh: nat)
      requires Valid() && St() == n && xl < 32 && xh < 32 && yl < 32 && yh < 32
      requires A2 !in [xl, xh, yl, yh] && A3 !in [xl, xh, yl, yh] && A4 !in [xl, xh, yl, yh]
      modifies regs
      ensures Valid() && St() == n
      ensures Join(regs[A2], regs[A3]) == BinVal(I64, Sub, old(Join(regs[xl], regs[xh])), old(Join(regs[yl], regs[yh])))
    {
      hide BinVal, Join, Add32, Sub32, Below;
      PairSub(regs[xl], regs[xh], regs[yl], regs[yh]);
      regs[A2] := Sub32(regs[xl], regs[yl]);
      regs[A4] := Below(regs[xl], regs[yl]);
      regs[A3] := Sub32(regs[xh], regs[yh]);
      regs[A3] := Sub32(regs[A3], regs[A4]);
    }

    /** Write the difference through, and fold it for the test. */
    method StoreInPlace(ghost n: Native, c: Cell) returns (nz: Half)
      requires Valid() && St() == n && InFrame(c.a) && (c.va == Slot || c.va == L0)
      modifies words, regs
      ensures Valid() && St() == PinPut(n, c.a / 8, InPlaceDst(c.va), old(Join(regs[A2], regs[A3])))
      ensures nz == 0 <==> old(Join(regs[A2], regs[A3])) == 0
    {
      hide Join, Bitwise, NSlot, PinPut, Set;
      PairZero(regs[A2], regs[A3]);
      InPlace(n, c.va, c.a / 8, Join(regs[A2], regs[A3]));
      StoreSlot(n, c.a, regs[A2], regs[A3]);
      if c.va == L0 { SetL0(St(), regs[A2], regs[A3]); }
      regs[A4] := Bitwise(BitOr, regs[A2], regs[A3]);
      nz := regs[A4];
    }

    method SetL0(ghost n: Native, lo: Half, hi: Half)
      requires Valid() && St() == n
      modifies regs
      ensures Valid() && St() == n.(l0 := Join(lo, hi))
      ensures forall i :: 0 <= i < 32 && i != L0R && i != L0_HI ==> regs[i] == old(regs[i])
    {
      hide Join;
      regs[L0R] := lo;
      regs[L0_HI] := hi;
    }

    /** The 32-bit form computes in the pinned pair or in the accumulator pair, and its
        high half is zero in both register and slot. */
    method WriteNarrow(ghost n: Native, c: Cell) returns (nz: Half)
      requires Valid() && St() == n && c == Here() && AtSubBr(I32) && p.backend.subBrAcc
      modifies words, regs
      ensures Valid() && var v := BinVal(I32, Sub, NA(c, n), NB(c, n)); St() == SubBrWritten(p, I32, c, n, v) && (nz == 0 <==> v == 0)
    {
      hide BinVal, Join, PinPut, Fetch, St;
      nz := Low32(n, Sub);
      StoreNarrowInPlace(n, c, nz);
    }

    method StoreNarrowInPlace(ghost n: Native, c: Cell, v: Half)
      requires Valid() && St() == n && InFrame(c.a) && (c.va == Slot || c.va == L0)
      modifies words, regs
      ensures Valid()
      ensures var n1 := PinPut(n, c.a / 8, InPlaceDst(c.va), v); St() == if c.va == L0 then n1 else n1.(acc := v)
    {
      hide Join, NSlot, PinPut, Set;
      JoinParts(v);
      InPlace(n, c.va, c.a / 8, v);
      ghost var m := if c.va == L0 then n.(l0 := v) else n.(acc := v);
      SetPair(n, c.va == L0, v);
      StoreSlot(m, c.a, v, 0);
    }

    /** `sub rd; li hi, 0` */
    method SetPair(ghost n: Native, pinned: bool, v: Half)
      requires Valid() && St() == n
      modifies regs
      ensures Valid() && St() == if pinned then n.(l0 := v) else n.(acc := v)
    {
      hide Join;
      JoinParts(v);
      regs[if pinned then L0R else ACC] := v;
      regs[if pinned then L0_HI else ACC_HI] := 0;
    }

    // ---- dispatch ----

    lemma ValueInFrame(c: Cell)
      requires Valid() && Here() == c && c.native && IsValueOp(c.op) && NoL1(c)
      requires OperandsAdmit(St(), c) && ValueAdmits(p, St(), c)
      ensures AtCell()
      ensures InFrame(DstField(c)) && InFrame(8 * DstSlot(c)) && DstField(c) % 8 == 0
      ensures (c.op.GlobalGet? ==> InGlobals(c.b)) && (ReadsPacked(c.op) ==> InFrame(c.c / W32))
    {
      hide Join;
    }

    lemma OthersInFrame(c: Cell)
      requires Valid() && Here() == c && NoL1(c) && OperandsAdmit(St(), c)
      ensures ReadsA(c.op) && c.va == Slot ==> InFrame(c.a)
      ensures (ReadsB(c.op) || c.op.MovPair?) && c.vb == Slot ==> InFrame(c.b)
      ensures ReadsPacked(c.op) ==> InFrame(c.c / W32)
    {
      hide Join;
    }

    /** The handler of a one-result cell. */
    method DispatchValue() returns (status: Status)
      requires Valid() && Here().native && IsValueOp(Here().op) && VariantOk(Here()) && Rv32Cell(Here())
      requires OperandsAdmit(St(), Here()) && ValueAdmits(p, St(), Here()) && OperandsHold(Here(), St())
      requires p.backend.remBails && mem.Length < W32
      modifies this`pc, words, regs
      ensures Valid() && (St(), status) == NativeStep(p, old(St()))
    {
      hide NativeStep, St, Fetch, OperandsAdmit, ValueAdmits, InFrame, Join;
      ValueInFrame(Here());
      status := Running;
      match Here().op {
        case MovSlot => HMov();
        case MovConst => HMov();
        case Select => HSelect();
        case GlobalGet => HGlobalGet();
        case Bin(w, f) => if w == I32 { HBin32(f); } else { HBin64(f); }
        case Cmp(w, f) => if w == I32 { HCmp32(f); } else { HCmp64(f); }
        case Un(w, u) => HUn(w, u);
        case Div(_, v) => var bail := HDiv(v); if bail { status := Bailed; }
        case Load(_, _) => var trap := HLoad(); if trap { status := Trapped(OutOfBounds); }
      }
    }

    method DispatchBranch()
      requires Valid() && Here().native && IsBranchOp(Here().op) && Rv32Cell(Here())
      requires OperandsAdmit(St(), Here()) && BranchAdmits(p, St(), Here())
      modifies this`pc, regs
      ensures Valid() && (St(), Running) == NativeStep(p, old(St()))
    {
      hide NativeStep, St, Fetch, OperandsAdmit, InFrame, Join, TableFits;
      OthersInFrame(Here());
      CodeOf();
      if Here().op.BrCmp? {
        if Here().op.w == I32 { HBrCmp32(Here().op.cmp); } else { HBrCmp64(Here().op.cmp); }
      } else {
        HBranch();
      }
    }

    /** The handler of the current cell. */
    method Dispatch(base: nat) returns (status: Status)
      requires Valid() && Here().native && Admits(p, St()) && OperandsHold(Here(), St()) && Rv32Cell(Here())
      requires p.backend == Backend(true, true) && rets == [] && mem.Length < W32 && base + mem.Length + 8 <= W32
      modifies this`pc, words, glob, mem, regs
      ensures Valid() && (St(), status) == NativeStep(p, old(St()))
    {
      hide NativeStep, St, Fetch, OperandsAdmit, ValueAdmits, BranchAdmits, BulkAdmits, ReturnAdmits, OperandsHold, InFrame, Join;
      CodeOf();
      status := Running;
      if IsValueOp(Here().op) {
        status := DispatchValue();
      } else if IsBranchOp(Here().op) {
        DispatchBranch();
      } else {
        status := DispatchOther(base);
      }
    }

    method DispatchOther(base: nat) returns (status: Status)
      requires Valid() && Here().native && Admits(p, St()) && Rv32Cell(Here()) && !IsValueOp(Here().op) && !IsBranchOp(Here().op)
      requires p.backend == Backend(true, true) && rets == [] && mem.Length < W32 && base + mem.Length + 8 <= W32
      modifies this`pc, words, glob, mem, regs
      ensures Valid() && (St(), status) == NativeStep(p, old(St()))
    {
      hide NativeStep, St, Fetch, BulkAdmits, ReturnAdmits, Join;
      CodeOf();
      OthersInFrame(Here());
      PlacesInFrame(Here());
      status := Running;
      match Here().op {
        case MovPair => HMovPair();
        case SubBrIf(w) => HSubBrIf(w);
        case GlobalSet => HGlobalSet();
        case Store(_, _) => var trap := HStore(); if trap { status := Trapped(OutOfBounds); }
        case Return => HReturn(); status := Exited;
        case MemoryFill => var bail := HBulk(base); if bail { status := Bailed; }
        case MemoryCopy => var bail := HBulk(base); if bail { status := Bailed; }
      }
    }

    /** The native cell reached after `k` dispatches. */
    method Once(base: nat, ghost n: Native, ghost r: Ref, ghost k: nat) returns (status: Status)
      requires Valid() && Linked(p) && Typed(p) && Rv32Code(p) && Coherent(p, n, r)
      requires DriveRun(p, n, k) == (St(), Running) && Here().native
      requires p.backend == Backend(true, true) && rets == [] && mem.Length < W32 && base + mem.Length + 8 <= W32
      modifies this`pc, words, glob, mem, regs
      ensures Valid()
      ensures if status == Bailed then St() == old(St()) && NativeStep(p, St()).1 == Bailed
              else DriveRun(p, n, k + 1) == (St(), status)
    {
      hide NativeStep, Linked, Typed, Coherent, Admits, OperandsHold, DriveRun, St;
      ghost var m := St();
      CodeOf();
      assert Rv32Cell(p.cells[pc / 32]);
      RunAdmits(p, n, r, k);
      OperandsHoldOnEveryRun(p, n, r, k);
      RunExtends(p, n, k);
      BailsUntouched(p, m);
      NativeDrives(p, m);
      status := Dispatch(base);
    }

    /** RV32 handlers chained from any coherent state of linked, typed code agree with the
        slot-only machine after every dispatch, in every register pair and slot the
        annotation speaks of. `Bailed` hands an untouched cell to the driver. */
    method Chain(base: nat, fuel: nat, ghost r: Ref) returns (status: Status, k: nat)
      requires Valid() && Linked(p) && Typed(p) && Rv32Code(p) && Coherent(p, St(), r)
      requires p.backend == Backend(true, true) && rets == [] && mem.Length < W32 && base + mem.Length + 8 <= W32
      modifies this`pc, words, glob, mem, regs
      ensures Valid() && k <= fuel && (status == Running ==> k == fuel)
      ensures status == Bailed ==> !Here().native || NativeStep(p, St()).1 == Bailed
      ensures var reached := if status == Bailed then Running else status;
              && DriveRun(p, old(St()), k) == (St(), reached)
              && Agree(p, St(), reached, RefRun(p, r, k).0, RefRun(p, r, k).1)
    {
      hide NativeStep, Linked, Typed, Rv32Code, Coherent, DriveRun, RefRun, Agree, St;
      ghost var n := St();
      status, k := Running, 0;
      RunStarts(p, n);
      while status == Running && k < fuel
        invariant Valid() && k <= fuel
        invariant DriveRun(p, n, k) == (St(), if status == Bailed then Running else status)
        invariant status == Bailed ==> !Here().native || NativeStep(p, St()).1 == Bailed
        decreases fuel - k, status == Running
      {
        if Here().native {
          status := Once(base, n, r, k);
          if status != Bailed { k := k + 1; }
        } else {
          status := Bailed;
        }
      }
      RunRefines(p, n, r, k);
    }

    lemma PlacesInFrame(c: Cell)
      requires Valid() && Here() == c && Admits(p, St())
      ensures c.op.MovPair? ==> InFrame(c.c / W32) && InFrame(c.c % W32) && pc / 32 + 1 < |p.cells|
      ensures c.op.SubBrIf? ==> InFrame(c.a) && TargetFits(p, c.c) && pc / 32 + 1 < |p.cells|
      ensures c.op.GlobalSet? ==> InGlobals(c.b) && pc / 32 + 1 < |p.cells|
      ensures c.op.Store? ==> pc / 32 + 1 < |p.cells|
    {
      hide Join;
    }
  }

  function PairRegs(cls: Cls, loTmp: nat, hiTmp: nat): (r: (nat, nat)) {
    if cls == Acc then (ACC, ACC_HI) else if cls == L0 then (L0R, L0_HI) else (loTmp, hiTmp)
  }

  function DstLo(d: DstCls): (k: nat) {
    if d == ToL0 then L0R else ACC
  }

  function DstHi(d: DstCls): (k: nat) {
    if d == ToL0 then L0_HI else ACC_HI
  }

  lemma JoinParts(x: Word)
    ensures Join(x % W32, x / W32) == x
    ensures x < W32 ==> Join(x, 0) == x
  {
  }

  lemma HighIsZero(lo: Half, hi: Half, v: Word)
    requires Join(lo, hi) == v < W32
    ensures hi == 0 && lo == v
  {
  }

  /** A load of at most four bytes as a zero-extended i32. */
  function LoadedNarrow(k: Access, s: seq<Byte>): (v: Half)
    requires k.w == I32 && 0 < |s| <= 4
  {
    NarrowValue(s);
    if k.signed then ExtendFrom(I32, Pow2(8 * |s|), Value(s)) else Value(s)
  }

  lemma LoadCell(p: Prog, n: Native)
    requires n.pc < |p.cells| && p.cells[n.pc].op.Load?
    ensures var c := p.cells[n.pc];
            var v := LoadVal(c.op.acc, n.mem, Address(c.op.fused, NA(c, n), NSlot(n, PackedSlot(c)), c.b));
            NativeStep(p, n) == if v.Trap? then (n, Trapped(v.kind)) else (NNext(Finish(n, DstSlot(c), c.vd, v.v)), Running)
  {
    ValueCell(p, n);
    hide NativeStep, LoadVal, Address, Finish;
  }

  lemma StoreCellTo(p: Prog, n: Native)
    requires n.pc < |p.cells| && p.cells[n.pc].op.Store?
    ensures var (c, k) := (p.cells[n.pc], p.cells[n.pc].op.acc);
            var ea := Target(c, n);
            NativeStep(p, n) ==
              if ea + k.size > |n.mem| then (n, Trapped(OutOfBounds))
              else (n.(mem := n.mem[..ea] + Bytes(NB(c, n), k.size) + n.mem[ea + k.size..], pc := n.pc + 1), Running)
  {
    StoreCell(p, n);
    hide NativeStep, Address, Bytes;
  }

  /** The low half of a zero-extended condition decides. */
  lemma SelectByLow(p: Prog, n: Native, t6: Half)
    requires n.pc < |p.cells| && p.cells[n.pc].op.Select? && var s := NSlot(n, PackedSlot(p.cells[n.pc])); Holds(I32, s) && t6 == Lo32(s)
    ensures var c := p.cells[n.pc];
            NativeStep(p, n) == (NNext(Finish(n, c.c % W32 / 8, c.vd, if t6 != 0 then NA(c, n) else NB(c, n))), Running)
  {
    SelectCell(p, n);
    hide NativeStep, Finish, NSlot, Fetch;
  }

  /** Nothing on a bail, otherwise the result. */
  predicate Divided(p: Prog, v: DivOp, x: Word, y: Word, r: Option<nat>) {
    if DivBails(p, I32, v, x, y) then r.None?
    else r.Some? && var q := IDiv(I32, v, Trunc(I32, x), Trunc(I32, y)); q.Done? && q.v == r.value
  }

  /** The low halves decide an i32 division, bails included. */
  lemma LowDivides(p: Prog, v: DivOp, x: Word, y: Word, r: Option<nat>)
    requires p.backend.remBails
    requires r == if MinRemMinusOne(I32, v, Lo32(x), Lo32(y)) then None else WasmDiv(I32, v, Lo32(x), Lo32(y))
    ensures Divided(p, v, x, y, r)
  {
    hide IDiv, Pow2;
    BailsAre(p, I32, v, x, y);
    ModOfMod(x, W32, 1);
    ModOfMod(y, W32, 1);
  }

  predicate NoL1Pair(vp: PairDstCls) {
    First(vp) != ToL1 && Second(vp) != ToL1
  }

  /** Only the low byte of a fill value matters; the other operands are their low halves. */
  lemma PackLow(n: Native, field: nat, copy: bool)
    requires PackFits(n, field, copy)
    ensures Lo32(NSlot(n, field / 8)) == NSlot(n, field / 8) && Lo32(NSlot(n, field / 8 + 2)) == NSlot(n, field / 8 + 2)
    ensures copy ==> Lo32(NSlot(n, field / 8 + 1)) == NSlot(n, field / 8 + 1)
    ensures Lo32(NSlot(n, field / 8 + 1)) % 256 == NSlot(n, field / 8 + 1) % 256
  {
    ModOfMod(NSlot(n, field / 8 + 1), 256, 0x100_0000);
  }

  predicate IsAccess(op: Op) {
    op.Load? || op.Store?
  }

  function OffsetField(c: Cell): (o: nat)
    requires IsAccess(c.op)
  {
    if c.op.Load? then c.b else if c.op.fused then c.c % W32 else c.c
  }

  /** The effective address of a load or store. */
  function Target(c: Cell, n: Native): (ea: nat)
    requires IsAccess(c.op)
  {
    Address(c.op.fused, NA(c, n), NSlot(n, PackedSlot(c)), OffsetField(c))
  }

  lemma AddressIs(fused: bool, x: Word, y: Word, offset: nat)
    ensures Address(fused, x, y, offset) == offset + if fused then Add32(Lo32(x), Lo32(y)) else Lo32(x)
  {
  }

  lemma TakenIs(p: Prog, n: Native, cc: CmpOp, taken: bool)
    requires n.pc < |p.cells| && p.cells[n.pc].op == BrCmp(I32, cc)
    requires taken == CmpVal(I32, cc, NA(p.cells[n.pc], n), NB(p.cells[n.pc], n))
    ensures NativeStep(p, n) == (n.(pc := if taken then p.cells[n.pc].c / 32 else n.pc + 1), Running)
  {
    BrCmpCell(p, n, I32, cc);
  }

  /** The slot, and the register pinned to it. */
  lemma InPlace(n: Native, va: Cls, i: nat, v: Word)
    requires va == Slot || va == L0
    ensures var n1 := n.(stack := Set(n.stack, n.fp + i, v));
            PinPut(n, i, InPlaceDst(va), v) == if va == L0 then n1.(l0 := v) else n1
  {
  }

  lemma StoredTwice(m: seq<Byte>, ea: nat, q: seq<Byte>, q': seq<Byte>)
    requires ea + |q| + |q'| <= |m|
    ensures var m1 := m[..ea] + q + m[ea + |q|..];
            m1[..ea + |q|] + q' + m1[ea + |q| + |q'|..] == m[..ea] + (q + q') + m[ea + |q| + |q'|..]
  {
  }

  lemma KeepsPc(p: Prog, w: Width, c: Cell, n: Native, v: Word)
    ensures SubBrWritten(p, w, c, n, v).pc == n.pc
  {
  }

  lemma WholeWords(x: Word, y: Word)
    ensures Trunc(I64, x) == x && Trunc(I64, y) == y
  {
  }

  predicate UnNative32(w: Width, u: UnOp) {
    u == Eqz || (u == WrapI64 && w == I64) || (w == I32 && (u == ExtendI32U || u == ExtendI32S || u == Extend8S || u == Extend16S))
  }

  /** `slli; srai` by the register width less the operand's. */
  lemma NarrowExtension(u: UnOp, x: Half)
    requires u == Extend8S || u == Extend16S
    ensures ShiftPair(I32, x, if u == Extend8S then 24 else 16) == IUn(I32, u, x) < W32
  {
    Pow2Values();
    hide Pow2, ShiftPair;
    ShiftPairSigns(I32, x, if u == Extend8S then 24 else 16);
  }

  lemma WordExtension(x: Half, y: Word)
    requires x == Lo32(y)
    ensures ExtendFrom(I64, W32, x) == IUn(I32, ExtendI32S, Trunc(I32, y))
  {
  }

  lemma LowTwice(w: Width, x: Word)
    ensures Trunc(w, x) % W32 == x % W32
  {
    hide Pow2;
    ModOfMod(x, W32, if w == I32 then 1 else W32);
  }

  /** 32-bit registers hold exactly the low halves the operation reads. */
  lemma NarrowRegister(f: BinOp, x: Half, y: Half, a: Word, b: Word)
    requires x == Lo32(a) && y == Lo32(b)
    ensures Carries(32, I32) && x < Pow2(32) && y < Pow2(32)
    ensures BinReg(I32, 32, f, x, y) == BinVal(I32, f, a, b) < W32
  {
    Pow2Values();
    hide Pow2, BinReg, IBin;
    RegisterIsWasm(I32, 32, f, x, y);
    ModOfMod(a, W32, 1);
    ModOfMod(b, W32, 1);
  }

  lemma NarrowCompare(c: CmpOp, x: Half, y: Half, a: Word, b: Word)
    requires x == Lo32(a) && y == Lo32(b)
    ensures Carries(32, I32) && x < Pow2(32) && y < Pow2(32)
    ensures CmpReg(I32, 32, c, x, y) == CmpVal(I32, c, a, b)
  {
    Pow2Values();
    hide Pow2, CmpReg, ICmp;
    CompareIsWasm(I32, 32, c, x, y);
    ModOfMod(a, W32, 1);
    ModOfMod(b, W32, 1);
  }
}
