/** The RV64 integer handlers over a register file. */
module Rv64 {
  import opened Words
  import opened WasmNum
  import opened Interp
  import opened WellFormed
  import opened Division
  import opened RiscV

  const T1 := 6
  const T2 := 7
  const L0R := 8  // s0
  const ACC := 9  // s1
  const L1R := 10 // a0
  const A2 := 12

  class Engine {
    const p: Prog
    const stack: array<Word>
    const glob: array<Word>
    const mem: array<Byte>
    const regs: array<Word>
    var pc: nat        // address of the current cell
    var frame: nat     // address of the frame
    var code: nat      // cell base of the running function
    var rets: seq<Rec> // return records below the cursor

    ghost predicate Valid()
      reads this
    {
      && regs.Length == 32 && regs != stack && regs != glob && stack != glob
      && mem as object != stack && mem as object != glob && mem as object != regs
      && pc % 32 == 0 && pc / 32 < |p.cells| && frame % 8 == 0
    }

    ghost function St(): (n: Native)
      requires Valid()
      reads this, stack, glob, mem, regs
    {
      Native(stack[..], frame / 8, mem[..], glob[..], pc / 32, rets, code, regs[ACC], regs[L0R], regs[L1R])
    }

    function Here(): (c: Cell)
      requires pc / 32 < |p.cells|
      reads this
    {
      p.cells[pc / 32]
    }

    predicate InFrame(off: nat)
      reads this
    {
      off % 8 == 0 && (frame + off) / 8 < stack.Length
    }

    predicate AtCell()
      reads this
    {
      pc / 32 + 1 < |p.cells| && Here().native
      && (ReadsA(Here().op) && Here().va == Slot ==> InFrame(Here().a))
      && (ReadsB(Here().op) && Here().vb == Slot ==> InFrame(Here().b))
    }

    method Src(cls: Cls, field: Word, tmp: nat) returns (k: nat)
      requires Valid() && (tmp == T1 || tmp == T2) && (cls == Slot ==> InFrame(field))
      modifies regs
      ensures k == (match cls case Acc => ACC case L0 => L0R case L1 => L1R case _ => tmp)
      ensures regs[k] == old(Fetch(St(), cls, field))
      ensures forall i :: 0 <= i < 32 && i != tmp ==> regs[i] == old(regs[i])
    {
      match cls {
        case Acc => k := ACC;
        case L0 => k := L0R;
        case L1 => k := L1R;
        case Const => regs[tmp] := field; k := tmp;
        case Slot => regs[tmp] := stack[(frame + field) / 8]; k := tmp;
      }
    }

    method SrcAB() returns (x: nat, y: nat)
      requires Valid() && AtCell() && ReadsA(Here().op) && ReadsB(Here().op)
      modifies regs
      ensures x < 32 && y < 32 && x != A2 && y != A2
      ensures regs[x] == old(NA(Here(), St())) && regs[y] == old(NB(Here(), St()))
      ensures forall i :: 0 <= i < 32 && i != T1 && i != T2 ==> regs[i] == old(regs[i])
    {
      x := Src(Here().va, Here().a, T1);
      y := Src(Here().vb, Here().b, T2);
    }

    function DstTarget(d: DstCls): (k: nat)
    {
      match d
      case ToL0 => L0R
      case ToL1 => L1R
      case _ => ACC
    }

    /** The result register to its target and, unless the accumulator keeps it, to its slot. */
    method Land(ghost n: Native, d: DstCls, off: nat, v: Word)
      requires Valid() && St() == n && (d != ToAcc ==> InFrame(off)) && pc / 32 + 1 < |p.cells|
      modifies this`pc, stack, regs
      ensures Valid() && St() == NNext(Finish(n, off / 8, d, v))
    {
      regs[DstTarget(d)] := v;
      if d != ToAcc { stack[(frame + off) / 8] := v; }
      pc := pc + 32;
    }

    /** Binary operations of both widths; `narrow` operands where the registers are used
        whole. */
    method HBin(w: Width, f: BinOp)
      requires Valid() && AtCell() && Here().op == Bin(w, f) && (Here().vd != ToAcc ==> InFrame(Here().c))
      requires Holds(w, NA(Here(), St())) && Holds(w, NB(Here(), St()))
      modifies this`pc, stack, regs
      ensures Valid() && (St(), Running) == NativeStep(p, old(St()))
      ensures Holds(w, BinVal(w, f, NA(old(Here()), old(St())), NB(old(Here()), old(St()))))
    {
      ghost var n := St();
      BinCell(p, n, w, f);
      hide NativeStep, BinVal, BinReg, Finish, Pow2, Fetch, Holds;
      var c := Here();
      var x, y := SrcAB();
      FullRegister(regs[x]);
      FullRegister(regs[y]);
      RegisterIsWasm(w, 64, f, regs[x], regs[y]);
      Land(n, c.vd, c.c, BinReg(w, 64, f, regs[x], regs[y]));
    }

    /** The compare of the current cell's operands. */
    method Compare(w: Width, cc: CmpOp) returns (taken: bool)
      requires Valid() && AtCell() && ReadsA(Here().op) && ReadsB(Here().op) && Holds(w, NA(Here(), St())) && Holds(w, NB(Here(), St()))
      modifies regs
      ensures Valid() && St() == old(St())
      ensures taken == CmpVal(w, cc, NA(Here(), St()), NB(Here(), St()))
    {
      hide CmpVal, CmpReg, Pow2, Fetch, Holds;
      var x, y := SrcAB();
      FullRegister(regs[x]);
      FullRegister(regs[y]);
      CompareIsWasm(w, 64, cc, regs[x], regs[y]);
      taken := CmpReg(w, 64, cc, regs[x], regs[y]);
    }

    /** Compares to 0 or 1. */
    method HCmp(w: Width, cc: CmpOp)
      requires Valid() && AtCell() && Here().op == Cmp(w, cc) && (Here().vd != ToAcc ==> InFrame(Here().c))
      requires Holds(w, NA(Here(), St())) && Holds(w, NB(Here(), St()))
      modifies this`pc, stack, regs
      ensures Valid() && (St(), Running) == NativeStep(p, old(St()))
    {
      ghost var n := St();
      CmpCell(p, n, w, cc);
      hide NativeStep, CmpVal, Finish, Fetch, Holds;
      var taken := Compare(w, cc);
      Land(n, Here().vd, Here().c, if taken then 1 else 0);
    }

    /** Unary operations; any register contents will do. */
    method HUn(w: Width, u: UnOp)
      requires Valid() && AtCell() && Here().op == Un(w, u) && (Here().vd != ToAcc ==> InFrame(Here().c))
      requires UnNative(w, u) && (w == I64 <== u == WrapI64) && (w == I32 <== u == ExtendI32U || u == ExtendI32S)
      modifies this`pc, stack, regs
      ensures Valid() && (St(), Running) == NativeStep(p, old(St()))
    {
      ghost var n := St();
      ValueCell(p, n);
      hide NativeStep, IUn, UnReg, Finish, Fetch;
      var c := Here();
      var x := Src(c.va, c.a, T1);
      UnaryIsWasm(w, u, regs[x]);
      Land(n, c.vd, c.c, UnReg(w, u, regs[x]));
    }

    /** Fused compare and branch. */
    method HBrCmp(w: Width, cc: CmpOp)
      requires Valid() && AtCell() && Here().op == BrCmp(w, cc) && Here().c % 32 == 0 && Here().c / 32 < |p.cells|
      requires Holds(w, NA(Here(), St())) && Holds(w, NB(Here(), St()))
      modifies this`pc, regs
      ensures Valid() && (St(), Running) == NativeStep(p, old(St()))
    {
      BrCmpCell(p, St(), w, cc);
      hide NativeStep, CmpVal, Fetch, Holds;
      var taken := Compare(w, cc);
      pc := if taken then Here().c else pc + 32;
    }

    /** Subtract in place and branch while not zero. The i32 form of a slot works in the
        accumulator; the i64 form in scratch. */
    method HSubBrIf(w: Width)
      requires Valid() && AtCell() && Here().op == SubBrIf(w) && p.backend.subBrAcc
      requires (Here().va == Slot || Here().va == L0 || Here().va == L1) && InFrame(Here().a)
      requires Here().c % 32 == 0 && Here().c / 32 < |p.cells|
      modifies this`pc, stack, regs
      ensures Valid() && (St(), Running) == NativeStep(p, old(St()))
    {
      ghost var n := St();
      SubBrGoes(p, n, w);
      hide NativeStep, BinVal, Fetch, SubBrWritten;
      var v := Difference(n, w);
      StoreInPlace(n, w, Here(), v);
      Go(St(), if v == 0 then pc + 32 else Here().c);
    }

    method Difference(ghost n: Native, w: Width) returns (v: Word)
      requires Valid() && St() == n && AtCell() && Here().op == SubBrIf(w)
      modifies regs
      ensures Valid() && St() == n && v == BinVal(w, Sub, NA(Here(), n), NB(Here(), n))
    {
      hide BinVal, BinReg, Fetch, Pow2;
      var x, y := SrcAB();
      FullRegister(regs[x]);
      FullRegister(regs[y]);
      RegisterIsWasm(w, 64, Sub, regs[x], regs[y]);
      v := BinReg(w, 64, Sub, regs[x], regs[y]);
    }

    method StoreInPlace(ghost n: Native, w: Width, c: Cell, v: Word)
      requires Valid() && St() == n && p.backend.subBrAcc && InFrame(c.a) && (c.va == Slot || c.va == L0 || c.va == L1)
      modifies stack, regs
      ensures Valid() && St() == SubBrWritten(p, w, c, n, v)
    {
      regs[if c.va == L0 then L0R else if c.va == L1 then L1R else if w == I32 then ACC else A2] := v;
      stack[(frame + c.a) / 8] := v;
    }

    method Go(ghost n: Native, target: nat)
      requires Valid() && St() == n && target % 32 == 0 && target / 32 < |p.cells|
      modifies this`pc
      ensures Valid() && St() == n.(pc := target / 32)
    {
      pc := target;
    }

    /** Divisions bail on every trap and on MIN rem -1; otherwise the cell completes. */
    method HDiv(w: Width, v: DivOp) returns (bail: bool)
      requires Valid() && AtCell() && Here().op == Div(w, v) && (Here().vd != ToAcc ==> InFrame(Here().c)) && p.backend.remBails
      modifies this`pc, stack, regs
      ensures Valid() && (St(), if bail then Bailed else Running) == NativeStep(p, old(St()))
    {
      ghost var n := St();
      ValueCell(p, n);
      hide NativeStep, IDiv, Finish, Fetch;
      var c := Here();
      var x, y := SrcAB();
      BailsAre(p, w, v, regs[x], regs[y]);
      var r := DivRv64(w, v, regs[x], regs[y]);
      if r.None? { return true; }
      Land(n, c.vd, c.c, r.value);
      bail := false;
    }
  }

  lemma FullRegister(x: Word)
    ensures x < Pow2(64)
  {
    Pow2Values();
  }
}
