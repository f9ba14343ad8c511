/** The x86-64 handlers whose instructions destroy an operand. Registers are numbered
    cells of one file, so every aliasing of destination and operands is a case of the
    same method. */
module X86 {
  import opened Words
  import opened Bits
  import opened WasmNum
  import opened Interp

  const RAX := 0
  const RCX := 1
  const RDX := 2
  const RSI := 6
  const R8 := 8
  const L1R := 10
  const L0R := 11
  const ACC := 12

  /** The ALU forms whose operands may be exchanged. */
  predicate Commutes(f: BinOp) {
    f == Add || f == Mul || f == BitAnd || f == BitOr || f == BitXor
  }

  /** Shifts and rotates, whose count is in `cl`. */
  predicate CountInCl(f: BinOp) {
    f == Shl || f == ShrU || f == ShrS || f == Rotl || f == Rotr
  }

  lemma OperandsExchange(w: Width, f: BinOp, x: Word, y: Word)
    requires Commutes(f)
    ensures BinVal(w, f, x, y) == BinVal(w, f, y, x)
  {
    DigitwiseCommutes(Digits(w), Trunc(w, x), Trunc(w, y));
  }

  /** `shr`/`sar`/`shl`/`rol`/`ror r, cl`: the low byte of `rcx`, masked by the width. */
  function ShiftByCl(w: Width, f: BinOp, x: Word, rcx: Word): (r: Word)
    requires CountInCl(f)
  {
    BinVal(w, f, x, rcx % 256)
  }

  lemma LowByteCounts(w: Width, f: BinOp, x: Word, y: Word)
    requires CountInCl(f)
    ensures ShiftByCl(w, f, x, y) == BinVal(w, f, x, y)
  {
    var n := Digits(w);
    LowByteMod(w, y);
    assert Trunc(w, y % 256) % n == Trunc(w, y) % n;
  }

  lemma LowByteMod(w: Width, y: Word)
    ensures Trunc(w, y % 256) % Digits(w) == Trunc(w, y) % Digits(w)
  {
    hide Pow2, Modulus;
    LowByteOf(y);
    ModulusIs();
  }

  lemma ModulusIs()
    ensures Modulus(I32) == W32 && Modulus(I64) == W64
  {
  }

  lemma LowByteOf(y: nat)
    ensures y % 256 % W32 % 32 == y % W32 % 32 && y % 256 % W64 % 64 == y % W64 % 64
  {
    ModOfMod(y, 32, 8);
    ModOfMod(y, 32, 0x800_0000);
    ModOfMod(y, 64, 4);
    ModOfMod(y, 64, 0x400_0000_0000_0000);
    var b := y % 256;
    assert b % W32 == b && b % W64 == b;
  }

  class Engine {
    const p: Prog
    const stack: array<Word>
    const glob: array<Word>
    const mem: array<Byte>
    const regs: array<Word>
    var rbx: nat       // address of the current cell
    var rbp: nat       // address of the frame
    var r9: nat        // cell base of the running function
    var rets: seq<Rec> // return records below the cursor

    ghost predicate Valid()
      reads this
    {
      && regs.Length == 16 && regs != stack && regs != glob && stack != glob
      && mem as object != stack && mem as object != glob && mem as object != regs
      && rbx % 32 == 0 && rbx / 32 < |p.cells| && rbp % 8 == 0
    }

    ghost function St(): (n: Native)
      requires Valid()
      reads this, stack, glob, mem, regs
    {
      Native(stack[..], rbp / 8, mem[..], glob[..], rbx / 32, rets, r9, regs[ACC], regs[L0R], regs[L1R])
    }

    function Here(): (c: Cell)
      requires rbx / 32 < |p.cells|
      reads this
    {
      p.cells[rbx / 32]
    }

    predicate InFrame(off: nat)
      reads this
    {
      off % 8 == 0 && (rbp + off) / 8 < stack.Length
    }

    function At(off: nat): (v: Word)
      requires InFrame(off)
      reads this, stack
    {
      stack[(rbp + off) / 8]
    }

    predicate OperandOk(cls: Cls, field: nat)
      reads this
    {
      cls == Slot ==> InFrame(field)
    }

    /** The register an operand ends up in; slots and constants go through `tmp`. */
    function SrcReg(cls: Cls, tmp: nat): (k: nat)
      ensures tmp < 16 ==> k < 16
    {
      match cls
      case Acc => ACC
      case L0 => L0R
      case L1 => L1R
      case _ => tmp
    }

    method Src(cls: Cls, field: Word, tmp: nat) returns (k: nat)
      requires Valid() && (tmp == RAX || tmp == RCX) && OperandOk(cls, field)
      modifies regs
      ensures k == SrcReg(cls, tmp) && regs[k] == old(Fetch(St(), cls, field))
      ensures forall i :: 0 <= i < 16 && i != tmp ==> regs[i] == old(regs[i])
    {
      k := SrcReg(cls, tmp);
      match cls {
        case Const => regs[tmp] := field;
        case Slot =>
          regs[tmp] := field;
          regs[tmp] := At(regs[tmp]);
        case _ =>
      }
    }

    method SrcAB(ac: Cls, bc: Cls) returns (ra: nat, rb: nat)
      requires Valid() && OperandOk(ac, Here().a) && OperandOk(bc, Here().b)
      modifies regs
      ensures ra == SrcReg(ac, RAX) && rb == SrcReg(bc, RCX)
      ensures regs[ra] == old(Fetch(St(), ac, Here().a)) && regs[rb] == old(Fetch(St(), bc, Here().b))
      ensures forall i :: 0 <= i < 16 && i != RAX && i != RCX ==> regs[i] == old(regs[i])
    {
      ra := Src(ac, Here().a, RAX);
      rb := Src(bc, Here().b, RCX);
    }

    function DstTarget(d: DstCls): (k: nat)
      ensures k == ACC || k == L0R || k == L1R
    {
      match d
      case ToL0 => L0R
      case ToL1 => L1R
      case _ => ACC
    }

    /** Destructive two-operand arithmetic: `dst := ra op rb` for every aliasing of the
        three registers, touching nothing else but the scratch. */
    method Alu2(w: Width, f: BinOp, dst: nat, ra: nat, rb: nat)
      requires regs.Length == 16 && dst < 16 && ra < 16 && rb < 16 && dst != RSI && ra != RSI && rb != RSI
      requires !CountInCl(f)
      modifies regs
      ensures regs[dst] == BinVal(w, f, old(regs[ra]), old(regs[rb]))
      ensures forall i :: 0 <= i < 16 && i != dst && i != RSI ==> regs[i] == old(regs[i])
    {
      hide BinVal;
      if dst == rb && dst != ra {
        if Commutes(f) {
          OperandsExchange(w, f, regs[ra], regs[rb]);
          regs[dst] := BinVal(w, f, regs[dst], regs[ra]);
        } else {
          regs[RSI] := regs[ra];
          regs[RSI] := BinVal(w, f, regs[RSI], regs[rb]);
          regs[dst] := regs[RSI];
        }
        return;
      }
      if dst != ra { regs[dst] := regs[ra]; }
      regs[dst] := BinVal(w, f, regs[dst], regs[rb]);
    }

    /** Variable shifts and rotates: the count goes through `rcx`, which no operand `ra`
        occupies, and a destination equal to the count's source is already copied. */
    method Shift(w: Width, f: BinOp, dst: nat, ra: nat, rb: nat)
      requires regs.Length == 16 && dst < 16 && ra < 16 && rb < 16 && dst != RSI && ra != RSI && rb != RSI && ra != RCX
      requires CountInCl(f)
      modifies regs
      ensures regs[dst] == BinVal(w, f, old(regs[ra]), old(regs[rb]))
      ensures forall i :: 0 <= i < 16 && i != dst && i != RSI && i != RCX ==> regs[i] == old(regs[i])
    {
      hide BinVal, ShiftByCl;
      LowByteCounts(w, f, regs[ra], regs[rb]);
      if rb != RCX { regs[RCX] := regs[rb]; }
      if dst == RCX {
        regs[RSI] := regs[ra];
        regs[RSI] := ShiftByCl(w, f, regs[RSI], regs[RCX]);
        regs[dst] := regs[RSI];
        return;
      }
      if dst != ra { regs[dst] := regs[ra]; }
      regs[dst] := ShiftByCl(w, f, regs[dst], regs[RCX]);
    }

    /** Store the target register to its slot unless the accumulator keeps it. */
    method StoreResult(d: DstCls, off: nat, k: nat)
      requires Valid() && k == DstTarget(d) && (d != ToAcc ==> InFrame(off))
      modifies stack
      ensures Valid()
      ensures var n := old(St());
              St() == n.(stack := if d == ToAcc then n.stack else Set(n.stack, n.fp + off / 8, old(regs[k])))
    {
      if d != ToAcc { stack[(rbp + off) / 8] := regs[k]; }
    }

    /** The value is in the target register of `d`, the other machine registers are as
        they were: storing it completes `Finish`. */
    ghost predicate Lands(n: Native, d: DstCls, v: Word)
      requires Valid()
      reads this, stack, glob, mem, regs
    {
      && St() == n.(acc := regs[ACC], l0 := regs[L0R], l1 := regs[L1R])
      && regs[DstTarget(d)] == v
      && (DstTarget(d) != ACC ==> regs[ACC] == n.acc)
      && (DstTarget(d) != L0R ==> regs[L0R] == n.l0)
      && (DstTarget(d) != L1R ==> regs[L1R] == n.l1)
    }

    method FinishTail(ghost n: Native, d: DstCls, off: nat, ghost v: Word)
      requires Valid() && Lands(n, d, v) && (d != ToAcc ==> InFrame(off)) && rbx / 32 + 1 < |p.cells|
      modifies this`rbx, stack
      ensures Valid() && St() == NNext(Finish(n, off / 8, d, v))
    {
      StoreResult(d, off, DstTarget(d));
      rbx := rbx + 32;
    }

    predicate AtCell(op: Op)
      reads this
    {
      rbx / 32 + 1 < |p.cells| && Here().op == op && Here().native
      && OperandOk(Here().va, Here().a) && OperandOk(Here().vb, Here().b)
    }

    /** Integer binary ops for every operand and destination class. */
    method HBin(w: Width, f: BinOp)
      requires Valid() && AtCell(Bin(w, f)) && (Here().vd != ToAcc ==> InFrame(Here().c))
      modifies this`rbx, stack, regs
      ensures Valid() && (St(), Running) == NativeStep(p, old(St()))
    {
      ghost var n := St();
      BinCell(p, n, w, f);
      hide BinVal, NativeStep, Finish;
      var c := Here();
      var ra, rb := SrcAB(c.va, c.vb);
      var rd := DstTarget(c.vd);
      if CountInCl(f) { Shift(w, f, rd, ra, rb); } else { Alu2(w, f, rd, ra, rb); }
      FinishTail(n, c.vd, c.c, BinVal(w, f, NA(c, n), NB(c, n)));
    }

    /** `Select` is built in `r8`, so the target may be either operand. */
    method HSelect()
      requires Valid() && AtCell(Select) && InFrame(Here().c / W32) && (Here().vd != ToAcc ==> InFrame(Here().c % W32))
      modifies this`rbx, stack, regs
      ensures Valid() && (St(), Running) == NativeStep(p, old(St()))
    {
      ghost var n := St();
      SelectCell(p, n);
      hide NativeStep, Finish;
      var c := Here();
      var ra, rb := SrcAB(c.va, c.vb);
      CondMove(c, DstTarget(c.vd), ra, rb);
      FinishTail(n, c.vd, c.c % W32, if NSlot(n, c.c / W32 / 8) != 0 then NA(c, n) else NB(c, n));
    }

    /** `test`, `mov`, `cmovne`, `mov`, for every aliasing of the registers. */
    method CondMove(c: Cell, rd: nat, ra: nat, rb: nat)
      requires Valid() && InFrame(c.c / W32) && rd < 16 && ra < 16 && rb < 16
      requires ra != RDX && ra != RSI && ra != R8 && rb != RDX && rb != RSI && rb != R8 && rd != RDX && rd != RSI && rd != R8
      modifies regs
      ensures regs[rd] == if NSlot(old(St()), c.c / W32 / 8) != 0 then old(regs[ra]) else old(regs[rb])
      ensures forall i :: 0 <= i < 16 && i != rd && i != RDX && i != RSI && i != R8 ==> regs[i] == old(regs[i])
    {
      regs[RDX] := c.c;
      regs[RSI] := regs[RDX];
      regs[RSI] := regs[RSI] / W32;
      regs[RSI] := At(regs[RSI]);
      regs[R8] := regs[rb];
      if regs[RSI] != 0 { regs[R8] := regs[ra]; }
      regs[rd] := regs[R8];
    }

    /** Subtract in place, store, and branch while not zero. */
    method HSubBrIf(w: Width)
      requires Valid() && AtCell(SubBrIf(w)) && (Here().va == Slot || Here().va == L0 || Here().va == L1)
      requires InFrame(Here().a) && Here().c % 32 == 0 && Here().c / 32 < |p.cells| && !p.backend.subBrAcc
      modifies this`rbx, stack, regs
      ensures Valid() && (St(), Running) == NativeStep(p, old(St()))
    {
      ghost var n := St();
      SubBrInPlace(p, n);
      hide BinVal, NativeStep, PinPut, Fetch;
      var c := Here();
      var ra := SubBack(n, w, c);
      Go(St(), if regs[ra] == 0 then rbx + 32 else regs[RDX]);
    }

    /** `jmp` to a cell. */
    method Go(ghost n: Native, target: nat)
      requires Valid() && St() == n && target % 32 == 0 && target / 32 < |p.cells|
      modifies this`rbx
      ensures Valid() && St() == n.(pc := target / 32)
    {
      rbx := target;
    }

    method SubBack(ghost n: Native, w: Width, c: Cell) returns (ra: nat)
      requires Valid() && St() == n && InFrame(c.a) && OperandOk(c.vb, c.b) && (c.va == Slot || c.va == L0 || c.va == L1)
      modifies regs, stack
      ensures Valid() && ra < 16 && regs[RDX] == c.c
      ensures var v := BinVal(w, Sub, NA(c, n), NB(c, n)); regs[ra] == v && St() == PinPut(n, c.a / 8, InPlaceDst(c.va), v)
    {
      hide BinVal, PinPut, Fetch;
      regs[RDX] := c.c;
      regs[R8] := c.a;
      ra := InPlaceSource(c);
      SubInPlace(w, c, ra);
    }

    method InPlaceSource(c: Cell) returns (ra: nat)
      requires Valid() && InFrame(c.a) && regs[R8] == c.a && (c.va == Slot || c.va == L0 || c.va == L1)
      modifies regs
      ensures Valid() && St() == old(St()) && regs[R8] == old(regs[R8]) && regs[RDX] == old(regs[RDX])
      ensures ra == (if c.va == L0 then L0R else if c.va == L1 then L1R else RAX) && regs[ra] == NA(c, old(St()))
    {
      ra := SrcReg(c.va, RAX);
      if c.va == Slot { regs[RAX] := At(regs[R8]); }
    }

    /** `sub ra, rb` and the store back; `ra` may also be `rb`. */
    method SubInPlace(w: Width, c: Cell, ra: nat)
      requires Valid() && InFrame(c.a) && OperandOk(c.vb, c.b) && regs[R8] == c.a
      requires ra == (if c.va == L0 then L0R else if c.va == L1 then L1R else RAX)
      modifies regs, stack
      ensures Valid() && regs[RDX] == old(regs[RDX])
      ensures regs[ra] == BinVal(w, Sub, old(regs[ra]), old(Fetch(St(), c.vb, c.b)))
      ensures St() == PinPut(old(St()), c.a / 8, InPlaceDst(c.va), regs[ra])
    {
      hide BinVal;
      var rb := Src(c.vb, c.b, RCX);
      regs[ra] := BinVal(w, Sub, regs[ra], regs[rb]);
      stack[(rbp + regs[R8]) / 8] := regs[ra];
    }

    /** Two ordered copies; the second goes through the accumulator. */
    method HMovPair()
      requires Valid() && AtCell(MovPair) && InFrame(Here().c / W32) && InFrame(Here().c % W32)
      requires !Here().va.Const? && !Here().va.Acc? && !Here().vb.Const? && !Here().vb.Acc?
      modifies this`rbx, stack, regs
      ensures Valid() && (St(), Running) == NativeStep(p, old(St()))
    {
      ghost var n := St();
      PairCell(p, n);
      hide NativeStep, PinPut, Fetch;
      var c := Here();
      regs[RDX] := c.c;
      var v1 := Src(c.va, c.a, RAX);
      regs[RSI] := regs[RDX] / W32;
      PairFirst(n, c, v1);
      PairSecond(PinPut(n, PackedSlot(c), First(c.vp), NA(c, n)), c);
      Go(St(), rbx + 32);
    }

    /** The first copy commits, register included. */
    method PairFirst(ghost n: Native, c: Cell, v1: nat)
      requires Valid() && St() == n && v1 < 16 && InFrame(c.c / W32) && regs[RSI] == c.c / W32
      requires v1 == L0R || v1 == L1R || v1 == RAX
      modifies stack, regs
      ensures Valid() && St() == PinPut(n, PackedSlot(c), First(c.vp), old(regs[v1])) && regs[RDX] == old(regs[RDX])
    {
      stack[(rbp + regs[RSI]) / 8] := regs[v1];
      match First(c.vp) {
        case ToL0 => regs[L0R] := regs[v1];
        case ToL1 => regs[L1R] := regs[v1];
        case _ =>
      }
    }

    method LoadSecond(ghost n1: Native, c: Cell)
      requires Valid() && St() == n1 && OperandOk(c.vb, c.b) && !c.vb.Const? && !c.vb.Acc?
      modifies regs
      ensures Valid() && St() == n1.(acc := Fetch(n1, c.vb, c.b)) && regs[ACC] == Fetch(n1, c.vb, c.b) && regs[RDX] == old(regs[RDX])
    {
      if c.vb == L0 {
        regs[ACC] := regs[L0R];
      } else if c.vb == L1 {
        regs[ACC] := regs[L1R];
      } else {
        regs[RCX] := c.b;
        regs[ACC] := At(regs[RCX]);
      }
    }

    method PairSecond(ghost n1: Native, c: Cell)
      requires Valid() && St() == n1 && InFrame(c.c % W32) && OperandOk(c.vb, c.b) && regs[RDX] == c.c
      requires !c.vb.Const? && !c.vb.Acc?
      modifies stack, regs
      ensures Valid()
      ensures var y := Fetch(n1, c.vb, c.b); St() == PinPut(n1, c.c % W32 / 8, Second(c.vp), y).(acc := y)
    {
      LoadSecond(n1, c);
      regs[RDX] := regs[RDX] % W32;
      stack[(rbp + regs[RDX]) / 8] := regs[ACC];
      match Second(c.vp) {
        case ToL0 => regs[L0R] := regs[ACC];
        case ToL1 => regs[L1R] := regs[ACC];
        case _ =>
      }
    }
  }
}
