/** The arm64 handlers as straight-line register code over the live frame. Each one is
    proved to be the native step of its cell. */
module Arm64 {
  import opened Words
  import opened WasmNum
  import opened LittleEndian
  import opened BulkSpec
  import opened BulkHandlers
  import opened Packing
  import opened Interp
  import opened WellFormed
  import opened Division
  import opened ArmIsa
  import opened Coherence
  import opened Runs
  import opened TypedCode
  import opened Admission
  import opened Supers

  /** The machine's single fill over the union is the Wasm fill and copy. */
  lemma UnionIsFill(m: seq<Byte>, fd: nat, v: Word, fn: nat, cd: nat, cs: nat, cn: nat)
    requires Fusible(|m|, fd, fn, cd, cs, cn)
    ensures var lo := if fd < cd then fd else cd;
            var hi := if fd + fn >= cd + cn then fd + fn else cd + cn;
            && |FillBytes(m, fd, v % 256, fn)| == |m| && FillMem(m, lo, v, hi - lo).Some?
            && FillMem(m, lo, v, hi - lo).value == CopyBytes(FillBytes(m, fd, v % 256, fn), cd, cs, cn)
  {
    var lo := if fd < cd then fd else cd;
    var hi := if fd + fn >= cd + cn then fd + fn else cd + cn;
    FillCopyIsOneFill(m, fd, v % 256, fn, cd, cs, cn, lo, hi);
    MachineBulkIsWasm(m, lo, 0, v, hi - lo);
  }

  /** The fused cell fills, then copies, exactly when its guards pass; otherwise it bails
      with nothing changed. */
  lemma FusedCell(p: Prog, n: Native, fd: Word, v: Word, fn: Word, cd: Word, cs: Word, cn: Word)
    requires n.pc < |p.cells| && p.cells[n.pc].op.MemoryFillCopy?
    requires var i := p.cells[n.pc].a / 8; fd == NSlot(n, i) && v == NSlot(n, i + 1) && fn == NSlot(n, i + 2)
    requires var j := p.cells[n.pc].b / 8; cd == NSlot(n, j) && cs == NSlot(n, j + 1) && cn == NSlot(n, j + 2)
    ensures Fusible(|n.mem|, fd, fn, cd, cs, cn) ==>
              && |FillBytes(n.mem, fd, v % 256, fn)| == |n.mem|
              && NativeStep(p, n) ==
                   (n.(mem := CopyBytes(FillBytes(n.mem, fd, v % 256, fn), cd, cs, cn), pc := n.pc + 1), Running)
    ensures !Fusible(|n.mem|, fd, fn, cd, cs, cn) ==> NativeStep(p, n) == (n, Bailed)
  {
    FillCopyCell(p, n);
    hide NativeStep, NSlot, FillMem;
    if Fusible(|n.mem|, fd, fn, cd, cs, cn) { UnionIsFill(n.mem, fd, v, fn, cd, cs, cn); }
  }

  lemma SumOfLows(x: Word, y: Word)
    ensures (Lo32(x) + Lo32(y)) % W32 == (x + y) % W32
  {
  }

  lemma WordFits(s: seq<Byte>)
    requires |s| == 4
    ensures Value(s) < W32
  {
    Pow2Values();
  }

  lemma ListTailCases(n: Native, dst: nat, target: nat, x6: Word)
    ensures var ea := Lo32(n.l0);
      && (ea + 4 > |n.mem| ==> ListTail(n, dst, target, x6) == (n, Trapped(OutOfBounds)))
      && (ea + 4 <= |n.mem| ==>
            var v := Value(n.mem[ea..ea + 4]) % W64;
            ListTail(n, dst, target, x6) ==
              (Finish(n, dst, ToMem, v).(mem := n.mem[..ea] + Bytes(x6, 4) + n.mem[ea + 4..],
                                         pc := if Lo32(v) != 0 then target else n.pc + 3), Running))
  {
    hide Finish, Value, Bytes;
  }

  lemma FinishKeepsMem(n: Native, dst: nat, v: Word)
    ensures var n' := Finish(n, dst, ToMem, v); n'.mem == n.mem && n'.pc == n.pc
  {
  }

  /** A list step that completes does not depend on the accumulator it starts with. */
  lemma TailForgetsAcc(n: Native, dst: nat, target: nat, x6: Word, acc: Word)
    ensures ListTail(n.(acc := acc), dst, target, x6).1 == ListTail(n, dst, target, x6).1
    ensures ListTail(n, dst, target, x6).1 == Running ==>
              ListTail(n.(acc := acc), dst, target, x6).0 == ListTail(n, dst, target, x6).0
    ensures ListTail(n, dst, target, x6).1 != Running ==>
              ListTail(n.(acc := acc), dst, target, x6).0 == n.(acc := acc) && ListTail(n, dst, target, x6).0 == n
  {
  }

  class Engine {
    const p: Prog
    const stack: array<Word>
    const glob: array<Word>
    const mem: array<Byte>
    const ret: array<Rec>
    /** Host address of memory byte 0. */
    const base: nat
    /** The measured wide-core shapes. */
    const apple: bool

    var x19: nat  // address of the current cell
    var x20: nat  // address of the frame
    var x24: nat  // cell base of the running function
    var x26: nat  // return-stack cursor, in records
    var x8: Word  // accumulator
    var x17: Word // first pinned local
    var x14: Word // second pinned local

    ghost predicate Valid()
      reads this
    {
      && stack != glob && mem as object != stack && mem as object != glob
      && ret as object != stack && ret as object != glob && ret as object != mem
      && base + mem.Length + 128 <= W64
      && x19 % 32 == 0 && x19 / 32 < |p.cells| && x20 % 8 == 0 && x26 <= ret.Length
    }

    ghost function St(): (n: Native)
      requires Valid()
      reads this, stack, glob, mem, ret
    {
      Native(stack[..], x20 / 8, mem[..], glob[..], x19 / 32, ret[..x26], x24, x8, x17, x14)
    }

    /** The cell `k` places after the current one. */
    function Here(k: nat): (c: Cell)
      requires x19 / 32 + k < |p.cells|
      reads this
    {
      p.cells[x19 / 32 + k]
    }

    /** `ldr x, [x19, #off]`: a payload word of a cell at or after the current one. */
    function CellWord(off: nat): (v: Word)
      requires x19 / 32 + off / 32 < |p.cells|
      reads this
    {
      var c := Here(off / 32);
      if off % 32 == 8 then c.a else if off % 32 == 16 then c.b else c.c
    }

    predicate InFrame(off: nat)
      reads this
    {
      off % 8 == 0 && (x20 + off) / 8 < stack.Length
    }

    method Ldr(off: nat) returns (v: Word)
      requires Valid() && InFrame(off)
      ensures v == NSlot(St(), off / 8)
    {
      v := stack[(x20 + off) / 8];
    }

    method Str(ghost n: Native, off: nat, v: Word)
      requires Valid() && St() == n && InFrame(off)
      modifies stack
      ensures Valid() && St() == n.(stack := Set(n.stack, n.fp + off / 8, v))
    {
      stack[(x20 + off) / 8] := v;
    }

    predicate OperandOk(cls: Cls, field: nat)
      reads this
    {
      cls == Slot ==> InFrame(field)
    }

    /** One operand: register classes are registers, constants come from the cell. */
    method Src(cls: Cls, off: nat) returns (v: Word)
      requires Valid() && x19 / 32 + off / 32 < |p.cells| && OperandOk(cls, CellWord(off))
      ensures v == Fetch(St(), cls, CellWord(off))
    {
      match cls {
        case Acc => v := x8;
        case L0 => v := x17;
        case L1 => v := x14;
        case Const => v := CellWord(off);
        case Slot =>
          var tmp := CellWord(off);
          v := Ldr(tmp);
      }
    }

    /** Both operands; payload words are read in pairs where that was measured to pay. */
    method SrcAB() returns (ra: Word, rb: Word)
      requires Valid() && OperandOk(Here(0).va, Here(0).a) && OperandOk(Here(0).vb, Here(0).b)
      ensures ra == NA(Here(0), St()) && rb == NB(Here(0), St())
    {
      var ac, bc := Here(0).va, Here(0).vb;
      if (ac == Slot || ac == Const) && (bc == Slot || bc == Const) && (apple || (ac == Slot && bc == Slot)) {
        var x10, x11 := CellWord(8), CellWord(16);
        if ac == Slot { x10 := Ldr(x10); }
        if bc == Slot { x11 := Ldr(x11); }
        ra, rb := x10, x11;
      } else {
        ra := Src(ac, 8);
        rb := Src(bc, 16);
      }
    }

    /** The result is in its target register; every class but the accumulator also
        stores the slot. */
    method Land(ghost n: Native, d: DstCls, off: nat, v: Word)
      requires Valid() && St() == n && (d != ToAcc ==> InFrame(off))
      modifies this`x8, this`x14, this`x17, stack
      ensures Valid() && St() == Finish(n, off / 8, d, v)
    {
      match d {
        case ToL0 => x17 := v;
        case ToL1 => x14 := v;
        case _ => x8 := v;
      }
      if d != ToAcc { Str(St(), off, v); }
    }

    /** A store to a slot, then to the register pinned to it. */
    method StrPinned(ghost n: Native, off: nat, d: DstCls, v: Word)
      requires Valid() && St() == n && InFrame(off)
      modifies this`x14, this`x17, stack
      ensures Valid() && St() == PinPut(n, off / 8, d, v)
    {
      Str(St(), off, v);
      match d {
        case ToL0 => x17 := v;
        case ToL1 => x14 := v;
        case _ =>
      }
    }

    /** The bytes of a value land at linear address `ea`. */
    method StrMem(ea: nat, q: seq<Byte>)
      requires Valid() && ea + |q| <= mem.Length
      modifies mem
      ensures Valid() && St() == old(St()).(mem := old(mem[..])[..ea] + q + old(mem[..])[ea + |q|..])
    {
      ghost var m0 := mem[..];
      forall i | 0 <= i < |q| {
        mem[ea + i] := q[i];
      }
      assert mem[..] == m0[..ea] + q + m0[ea + |q|..];
    }

    /** `br` to a cell. */
    method Jump(ghost n: Native, target: nat)
      requires Valid() && St() == n && TargetFits(p, target)
      modifies this`x19
      ensures Valid() && St() == n.(pc := target / 32)
    {
      x19 := target;
    }

    /** `add x19, x19, #32; br x7` */
    method Next(ghost n: Native)
      requires Valid() && St() == n && x19 / 32 + 1 < |p.cells|
      modifies this`x19
      ensures Valid() && St() == NNext(n)
    {
      x19 := x19 + 32;
    }

    lemma Place()
      requires Valid()
      ensures St().pc == x19 / 32
    {
    }

    ghost predicate AtValueCell()
      requires Valid()
      reads this
    {
      var c := Here(0);
      c.native && (c.vd != ToAcc ==> InFrame(if c.op.Select? || (c.op.Load? && c.op.fused) then c.c % W32 else c.c))
      && x19 / 32 + 1 < |p.cells|
    }

    /** Integer binary ops, every operand and destination class. */
    method HBin()
      requires Valid() && AtValueCell() && Here(0).op.Bin?
      requires OperandOk(Here(0).va, Here(0).a) && OperandOk(Here(0).vb, Here(0).b)
      modifies this, stack
      ensures Valid() && (St(), Running) == NativeStep(p, old(St()))
    {
      hide NativeStep, StoreVal, IDiv, LoadVal, DivBails, CmpVal, IUn;
      hide Execute, BinVal;
      ValueCell(p, St());
      var c := Here(0);
      var ra, rb := SrcAB();
      var (m, rotl) := IntBin(c.op.f);
      InstructionIsWasm(c.op.f, c.op.w, ra, rb);
      if rotl {
        var x11: Word := Minus(c.op.w, 0, rb);
        rb := x11;
      }
      var v := Execute(m, c.op.w, ra, rb);
      Land(St(), c.vd, CellWord(24), v);
      x19 := x19 + 32;
    }

    /** `cmp` and `cset`: compares set the result register to 0 or 1. */
    method HCmp()
      requires Valid() && AtValueCell() && Here(0).op.Cmp?
      requires OperandOk(Here(0).va, Here(0).a) && OperandOk(Here(0).vb, Here(0).b)
      modifies this, stack
      ensures Valid() && (St(), Running) == NativeStep(p, old(St()))
    {
      hide NativeStep, StoreVal, IDiv, LoadVal, DivBails, BinVal, IUn;
      hide CmpVal, ArmIsa.Cmp, Passes;
      ValueCell(p, St());
      var c := Here(0);
      var ra, rb := SrcAB();
      FlagsDecide(c.op.w, c.op.cmp, ra, rb);
      var flags := ArmIsa.Cmp(c.op.w, ra, rb);
      Land(St(), c.vd, CellWord(24), if Passes(IntCmp(c.op.cmp), flags) then 1 else 0);
      x19 := x19 + 32;
    }

    /** `Select`: the condition slot rides in the high half of `c`, the destination in
        the low half. */
    method HSelect()
      requires Valid() && AtValueCell() && Here(0).op.Select? && InFrame(Here(0).c / W32)
      requires OperandOk(Here(0).va, Here(0).a) && OperandOk(Here(0).vb, Here(0).b)
      modifies this, stack
      ensures Valid() && (St(), Running) == NativeStep(p, old(St()))
    {
      hide NativeStep, StoreVal, IDiv, LoadVal, DivBails, BinVal, CmpVal, IUn;
      ValueCell(p, St());
      var c := Here(0);
      var ra, rb := SrcAB();
      var x12 := CellWord(24);
      var x13 := Ldr(x12 / W32);
      var v := if x13 != 0 then ra else rb;
      Land(St(), c.vd, x12 % W32, v);
      x19 := x19 + 32;
    }

    /** `MovPair`: the first destination, register included, commits before the second
        source is read. */
    method HMovPair()
      requires Valid() && Here(0).op.MovPair? && Here(0).native && x19 / 32 + 1 < |p.cells|
      requires OperandOk(Here(0).va, Here(0).a) && OperandOk(Here(0).vb, Here(0).b)
      requires InFrame(Here(0).c / W32) && InFrame(Here(0).c % W32)
      modifies this, stack
      ensures Valid() && (St(), Running) == NativeStep(p, old(St()))
    {
      hide NativeStep, PinPut, Fetch, Get;
      PairCell(p, St());
      var c := Here(0);
      var x12 := CellWord(24);
      var v1 := Src(c.va, 8);
      StrPinned(St(), x12 / W32, First(c.vp), v1);
      var v2 := Src(c.vb, 16);
      PinPutKeepsAcc(St(), x12 % W32 / 8, Second(c.vp), v2);
      x8 := v2;
      StrPinned(St(), x12 % W32, Second(c.vp), x8);
      x19 := x19 + 32;
    }

    /** Subtract in place and branch while the difference is not zero. */
    method HSubBrIf()
      requires Valid() && Here(0).op.SubBrIf? && Here(0).native && x19 / 32 + 1 < |p.cells| && !p.backend.subBrAcc
      requires Here(0).va == Slot || Here(0).va == L0 || Here(0).va == L1
      requires InFrame(Here(0).a) && OperandOk(Here(0).vb, Here(0).b)
      requires Here(0).c % 32 == 0 && Here(0).c / 32 < |p.cells|
      modifies this, stack
      ensures Valid() && (St(), Running) == NativeStep(p, old(St()))
    {
      hide NativeStep, StoreVal, Compute, DivBails;
      hide Execute, BinVal;
      SubBrInPlace(p, St());
      var c := Here(0);
      var x12, x13 := CellWord(24), CellWord(8);
      var ra := Src(c.va, 8);
      var rb := Src(c.vb, 16);
      InstructionIsWasm(Sub, c.op.w, ra, rb);
      var rd := Execute(SUB, c.op.w, ra, rb);
      match c.va {
        case L0 => x17 := rd;
        case L1 => x14 := rd;
        case _ =>
      }
      Str(St(), x13, rd);
      if rd == 0 {
        x19 := x19 + 32;
      } else {
        x19 := x12;
      }
    }

    /** Moves. The paired form takes the destination from the `b` word, which mirrors `c`. */
    method HMov()
      requires Valid() && AtValueCell() && (Here(0).op.MovSlot? || Here(0).op.MovConst?) && VariantOk(Here(0))
      requires OperandOk(Here(0).va, Here(0).a) && (Here(0).op.MovSlot? ==> Here(0).b == Here(0).c)
      modifies this, stack
      ensures Valid() && (St(), Running) == NativeStep(p, old(St()))
    {
      hide NativeStep, Fetch, Finish;
      MovCell(p, St());
      var c := Here(0);
      if apple && c.op.MovSlot? && c.va == Slot && c.vd != ToAcc {
        var x10, x12 := CellWord(8), CellWord(16);
        var v := Ldr(x10);
        SlotFetched(St(), x10);
        Land(St(), c.vd, x12, v);
      } else {
        var v := Src(c.va, 8);
        Land(St(), c.vd, CellWord(24), v);
      }
      x19 := x19 + 32;
    }

    lemma SlotFetched(n: Native, field: Word)
      ensures Fetch(n, Slot, field) == NSlot(n, field / 8)
    {
    }

    predicate InGlobals(addr: nat) {
      addr % 8 == 0 && addr / 8 < glob.Length
    }

    /** `GlobalGet`: `b` is the address of the global's cell. */
    method HGlobalGet()
      requires Valid() && AtValueCell() && Here(0).op.GlobalGet? && InGlobals(Here(0).b)
      modifies this, stack
      ensures Valid() && (St(), Running) == NativeStep(p, old(St()))
    {
      hide NativeStep, Finish;
      GlobalGetCell(p, St());
      var x10 := CellWord(16);
      Land(St(), Here(0).vd, CellWord(24), glob[x10 / 8]);
      x19 := x19 + 32;
    }

    method HGlobalSet()
      requires Valid() && Here(0).native && Here(0).op.GlobalSet? && InGlobals(Here(0).b) && x19 / 32 + 1 < |p.cells|
      requires OperandOk(Here(0).va, Here(0).a)
      modifies this`x19, glob
      ensures Valid() && (St(), Running) == NativeStep(p, old(St()))
    {
      ghost var n := St();
      GlobalCell(p, n);
      hide NativeStep;
      var ra := Src(Here(0).va, 8);
      var x12 := CellWord(16);
      glob[x12 / 8] := ra;
      assert glob[..] == n.glob[x12 / 8 := ra];
      x19 := x19 + 32;
    }

    /** Unary ops; the i32 population count reads the whole register. */
    method HUn()
      requires Valid() && AtValueCell() && Here(0).op.Un? && VariantOk(Here(0)) && OperandOk(Here(0).va, Here(0).a)
      requires Here(0).op == Un(I32, Popcnt) ==> Holds(I32, NA(Here(0), St()))
      modifies this, stack
      ensures Valid() && (St(), Running) == NativeStep(p, old(St()))
    {
      hide NativeStep, IUn, UnArm;
      var c := Here(0);
      UnCell(p, St(), c.op.w, c.op.u);
      var ra := Src(c.va, 8);
      UnaryIsWasm(c.op.w, c.op.u, ra);
      Land(St(), c.vd, CellWord(24), UnArm(c.op.w, c.op.u, ra));
      Next(St());
    }

    /** Division and remainder; `bail` hands the untouched cell to the slow path. */
    method HDiv() returns (bail: bool)
      requires Valid() && AtValueCell() && Here(0).op.Div? && !p.backend.remBails
      requires OperandOk(Here(0).va, Here(0).a) && OperandOk(Here(0).vb, Here(0).b)
      modifies this, stack
      ensures Valid() && (St(), if bail then Bailed else Running) == NativeStep(p, old(St()))
    {
      hide NativeStep, StoreVal, LoadVal, BinVal, CmpVal, IUn;
      hide IDiv;
      ValueCell(p, St());
      var c := Here(0);
      var ra, rb := SrcAB();
      var r := DivArm64(c.op.w, c.op.v, ra, rb);
      if r.None? { return true; }
      Land(St(), c.vd, CellWord(24), r.value);
      x19 := x19 + 32;
      bail := false;
    }

    /** The effective address of a load or store, checked against the memory length. */
    method Address(fused: bool, load: bool, size: nat) returns (ok: bool, ea: nat)
      requires Valid() && OperandOk(Here(0).va, Here(0).a) && (fused ==> InFrame(Here(0).c / W32))
      ensures ea == Interp.Address(fused, NA(Here(0), St()), NSlot(St(), Here(0).c / W32 / 8),
                                   if load then Here(0).b else if fused then Here(0).c % W32 else Here(0).c)
      ensures ok == (ea + size <= mem.Length)
    {
      hide NSlot, Fetch;
      var ra1 := Src(Here(0).va, 8);
      var x12: nat;
      if fused {
        var x11 := CellWord(24);
        var x13 := Ldr(x11 / W32);
        SumOfLows(ra1, x13);
        x13 := (Lo32(ra1) + Lo32(x13)) % W32;
        x12 := if load then CellWord(16) else x11 % W32;
        ea := x12 + x13;
      } else {
        x12 := if load then CellWord(16) else CellWord(24);
        ea := x12 + Lo32(ra1);
      }
      ok := !(ea + size > mem.Length);
    }

    /** Integer loads of every width and sign. */
    method HLoad() returns (trap: bool)
      requires Valid() && AtValueCell() && Here(0).op.Load? && (Here(0).op.fused ==> InFrame(Here(0).c / W32))
      requires OperandOk(Here(0).va, Here(0).a) && AccessOk(Here(0).op.acc)
      modifies this, stack
      ensures Valid() && (St(), if trap then Trapped(OutOfBounds) else Running) == NativeStep(p, old(St()))
    {
      hide NativeStep, StoreVal, BinVal, CmpVal, IUn, IDiv, DivBails, LoadVal, Loaded, MemKind;
      ValueCell(p, St());
      var c := Here(0);
      var k, fused := c.op.acc, c.op.fused;
      var ok, x12 := Address(fused, true, k.size);
      LoadIsWasm(k, mem[..], x12);
      if !ok { return true; }
      assert mem[..][x12..x12 + k.size] == mem[x12..x12 + k.size];
      var v := Loaded(MemKind(k), mem[x12..x12 + k.size]);
      Land(St(), c.vd, if fused then CellWord(24) % W32 else CellWord(24), v);
      x19 := x19 + 32;
      trap := false;
    }

    /** Stores: one bounds check, then the low bytes of the value. */
    method HStore() returns (trap: bool)
      requires Valid() && Here(0).op.Store? && Here(0).native && x19 / 32 + 1 < |p.cells|
      requires OperandOk(Here(0).va, Here(0).a) && OperandOk(Here(0).vb, Here(0).b)
      requires Here(0).op.fused ==> InFrame(Here(0).c / W32)
      modifies this, mem
      ensures Valid() && (St(), if trap then Trapped(OutOfBounds) else Running) == NativeStep(p, old(St()))
    {
      hide NativeStep, Compute, DivBails, BinVal, Bytes;
      StoreCell(p, St());
      var c := Here(0);
      var ok, x12 := Address(c.op.fused, false, c.op.acc.size);
      if !ok { return true; }
      var rb := Src(c.vb, 16);
      StrMem(x12, Bytes(rb, c.op.acc.size));
      x19 := x19 + 32;
      trap := false;
    }

    // ---- control ----

    /** `Br`, `BrIf`, `BrIfNot`, fused compare-and-branch and `BrTable`. */
    method HBranch()
      requires Valid() && Here(0).native && IsBranchOp(Here(0).op) && BranchAdmits(p, St(), Here(0))
      requires (ReadsA(Here(0).op) ==> OperandOk(Here(0).va, Here(0).a)) && (ReadsB(Here(0).op) ==> OperandOk(Here(0).vb, Here(0).b))
      modifies this`x19
      ensures Valid() && (St(), Running) == NativeStep(p, old(St()))
    {
      ghost var n := St();
      BranchCell(p, n);
      hide NativeStep, CmpVal, And, Fetch, BranchTo, TableFits;
      if Here(0).op.BrTable? {
        TableBranch(n);
      } else if Here(0).op.Br? {
        Always(n);
      } else {
        var taken := Condition(n);
        Go(taken, CellWord(24));
      }
    }

    method Always(ghost n: Native)
      requires Valid() && St() == n && Here(0).op.Br? && TargetFits(p, Here(0).c)
      modifies this`x19
      ensures Valid()
      ensures var c := old(Here(0)); St() == n.(pc := BranchTo(p, c, n.pc, n.code, NA(c, n), NB(c, n)))
    {
      var x12 := CellWord(24);
      x19 := x12;
    }

    method Go(taken: bool, x12: nat)
      requires Valid() && TargetFits(p, x12) && x19 / 32 + 1 < |p.cells|
      modifies this`x19
      ensures Valid() && St() == old(St()).(pc := if taken then x12 / 32 else old(St()).pc + 1)
    {
      x19 := if taken then x12 else x19 + 32;
    }

    /** Whether a two-way branch goes to its target: the fused ones test the inverse of
        their condition and fall through on it. */
    method Condition(ghost n: Native) returns (taken: bool)
      requires Valid() && St() == n && IsBranchOp(Here(0).op) && !Here(0).op.BrTable? && !Here(0).op.Br?
      requires OperandOk(Here(0).va, Here(0).a) && (ReadsB(Here(0).op) ==> OperandOk(Here(0).vb, Here(0).b))
      ensures var c := Here(0);
              BranchTo(p, c, n.pc, n.code, NA(c, n), NB(c, n)) == if taken then c.c / 32 else n.pc + 1
    {
      hide CmpVal, And, Fetch, ArmIsa.Cmp;
      var c := Here(0);
      if c.op.BrIf? || c.op.BrIfNot? {
        var ra := Src(c.va, 8);
        taken := (Lo32(ra) != 0) == c.op.BrIf?;
      } else {
        var flags := CompareOrTest();
        var cond := if c.op.BrCmp? then IntCmp(c.op.cmp) else if c.op.negated then EQ else NE;
        InverseFails(cond, flags);
        taken := !Passes(Inverse(cond), flags);
      }
    }

    /** `cmp` or `tst` of the operands of a fused branch. */
    method CompareOrTest() returns (f: Flags)
      requires Valid() && (Here(0).op.BrCmp? || Here(0).op.BrAnd?)
      requires OperandOk(Here(0).va, Here(0).a) && OperandOk(Here(0).vb, Here(0).b)
      ensures var (c, x, y) := (Here(0), NA(Here(0), St()), NB(Here(0), St()));
              if c.op.BrCmp? then Passes(IntCmp(c.op.cmp), f) == CmpVal(c.op.w, c.op.cmp, x, y)
              else f.z == (And(32, Lo32(x), Lo32(y)) == 0)
    {
      hide CmpVal, And, Fetch, ArmIsa.Cmp;
      var ra, rb := SrcAB();
      if Here(0).op.BrCmp? {
        FlagsDecide(Here(0).op.w, Here(0).op.cmp, ra, rb);
        f := ArmIsa.Cmp(Here(0).op.w, ra, rb);
      } else {
        f := Tst(ra, rb);
      }
    }

    /** An index past the table takes its last entry. */
    method TableBranch(ghost n: Native)
      requires Valid() && St() == n && Here(0).op.BrTable? && OperandOk(Here(0).va, Here(0).a) && TableFits(p, n, Here(0))
      modifies this`x19
      ensures Valid()
      ensures var c := old(Here(0)); St() == n.(pc := BranchTo(p, c, n.pc, n.code, NA(c, n), NB(c, n)))
    {
      hide Fetch;
      var x12 := CellWord(24);
      var ra := Src(Here(0).va, 8);
      var x11 := CellWord(16);
      var w10 := if Lo32(ra) < x12 then Lo32(ra) else x12;
      assert TableEntry(p, x24 / 32, x11 / 4 + w10);
      w10 := p.brFlat[x11 / 4 + w10];
      x19 := x24 + 32 * w10;
    }

    /** `str xzr, [x10]`, extending a cleared range by one slot. */
    method Clear(x10: nat, ghost s0: seq<Word>, ghost lo: nat, ghost k: nat)
      requires Valid() && x10 == 8 * k && lo <= k < stack.Length
      requires stack[..] == ZeroSlots(s0, lo, k)
      modifies stack
      ensures Valid() && stack[..] == ZeroSlots(s0, lo, k + 1)
    {
      stack[x10 / 8] := 0;
      assert stack[..] == ZeroSlots(s0, lo, k + 1);
    }

    /** Clear `[x10, x13)` one slot at a time. */
    method ZeroWords(x10: nat, x13: nat, ghost lo: nat, ghost hi: nat)
      requires Valid() && x10 == 8 * lo && x13 == 8 * hi && lo <= hi <= stack.Length
      modifies stack
      ensures Valid() && stack[..] == ZeroSlots(old(stack[..]), lo, hi)
    {
      ghost var s0, k := stack[..], lo;
      var cur := x10;
      assert stack[..] == ZeroSlots(s0, lo, lo);
      hide ZeroSlots;
      while cur < x13
        invariant lo <= k <= hi && cur == 8 * k
        invariant stack[..] == ZeroSlots(s0, lo, k)
      {
        Clear(cur, s0, lo, k);
        cur, k := cur + 8, k + 1;
      }
    }

    /** The wide-core form: an odd leading slot, then pairs. Pairs never overshoot,
        because what is left after the odd slot is a multiple of 16 bytes. */
    method ZeroPairs(x10: nat, x13: nat, ghost lo: nat, ghost hi: nat)
      requires Valid() && x10 == 8 * lo && x13 == 8 * hi && lo <= hi <= stack.Length
      modifies stack
      ensures Valid() && stack[..] == ZeroSlots(old(stack[..]), lo, hi)
    {
      ghost var s0, k := stack[..], lo;
      var cur := x10;
      assert stack[..] == ZeroSlots(s0, lo, lo);
      hide ZeroSlots;
      if cur >= x13 { return; }
      var x16 := x13 - cur;
      ghost var pairs := (hi - lo) / 2;
      assert x16 / 8 == hi - lo == 2 * pairs + (hi - lo) % 2;
      if x16 / 8 % 2 == 1 {
        Clear(cur, s0, lo, k);
        cur, k := cur + 8, k + 1;
        if cur >= x13 { return; }
      }
      var more := true;
      while more
        invariant lo <= k && 0 <= pairs && k + 2 * pairs == hi && cur == 8 * k
        invariant stack[..] == ZeroSlots(s0, lo, k)
        invariant more == (pairs > 0)
        decreases pairs
      {
        Clear(cur, s0, lo, k);
        Clear(cur + 8, s0, lo, k + 1);
        cur, k, pairs := cur + 16, k + 2, pairs - 1;
        more := cur < x13;
      }
    }

    /** Activation entry, shared by both call flavours: limits, record, locals, pins. */
    method CallCore(ghost n: Native, x9: nat, x11: nat, x12: nat) returns (status: Status)
      requires Valid() && St() == n && p.maxRecords <= ret.Length && EntryFits(p, Unpack(x9, x11, x12))
      modifies this, stack, ret
      ensures Valid() && (St(), status) == Enter(p, n, Unpack(x9, x11, x12))
    {
      var i := Unpack(x9, x11, x12);
      hide Unpack, Field, ZeroSlots;
      if x26 >= p.maxRecords { return Trapped(Exhausted); }
      var x10 := x20 + i.args;
      var x13 := x10 + 8 * i.slots;
      if x13 > 8 * stack.Length { return Trapped(Exhausted); }
      status := Running;
      PushRecord(Rec(x19 + 32, x20, x24 + i.callerL0 * W48, i.callerL1));
      EnterFrame(i, x10);
    }

    /** The callee's frame: fresh locals zeroed, pinned locals loaded, first cell next. */
    method EnterFrame(i: CallInfo, x10: nat)
      requires Valid() && x10 % 8 == 0 && x10 / 8 + i.slots <= stack.Length && EntryFits(p, i)
      modifies this`x19, this`x20, this`x24, this`x14, this`x17, stack
      ensures Valid()
      ensures var (n, fp) := (old(St()), x10 / 8);
              var s := ZeroSlots(n.stack, fp + i.params, fp + i.locals);
              St() == Native(s, fp, n.mem, n.glob, i.code / 32, n.rets, i.code, n.acc,
                             Get(s, fp + i.l0 / 8), Get(s, fp + i.l1 / 8))
    {
      hide ZeroSlots;
      x24 := i.code;
      x20 := x10;
      var lo, hi := x20 + 8 * i.params, x20 + 8 * i.locals;
      if apple {
        ZeroPairs(lo, hi, x10 / 8 + i.params, x10 / 8 + i.locals);
      } else {
        ZeroWords(lo, hi, x10 / 8 + i.params, x10 / 8 + i.locals);
      }
      assert (x20 + i.l0) / 8 == x10 / 8 + i.l0 / 8 && (x20 + i.l1) / 8 == x10 / 8 + i.l1 / 8;
      x17 := stack[(x20 + i.l0) / 8];
      x14 := stack[(x20 + i.l1) / 8];
      x19 := x24;
    }

    method PushRecord(rec: Rec)
      requires Valid() && x26 < ret.Length
      modifies this`x26, ret
      ensures Valid() && St() == old(St()).(rets := old(St()).rets + [rec])
    {
      ret[x26] := rec;
      x26 := x26 + 1;
      assert ret[..x26] == old(ret[..x26]) + [rec];
    }

    /** A direct call: the packed words come from the cell. */
    method HCall() returns (status: Status)
      requires Valid() && p.maxRecords <= ret.Length && Here(0).op.Call? && Here(0).native
      requires EntryFits(p, Unpack(Here(0).a, Here(0).b, Here(0).c))
      modifies this, stack, ret
      ensures Valid() && (St(), status) == NativeStep(p, old(St()))
    {
      hide Unpack, Enter, NativeStep, EntryFits, St;
      Place();
      CallCell(p, St());
      var x12, x11, x9 := CellWord(24), CellWord(16), CellWord(8);
      status := CallCore(St(), x9, x11, x12);
    }

    method MoveOne(x10: nat, x12: nat, ghost s0: seq<Word>, ghost lo: nat, ghost hi: nat, ghost k: nat)
      requires Valid() && Moved(s0, stack[..], lo, hi, k) && x10 == 8 * (hi + k) && x12 == 8 * (lo + k) && lo <= hi && hi + k < stack.Length
      modifies this`x8, stack
      ensures Valid() && Moved(s0, stack[..], lo, hi, k + 1) && x8 == stack[lo + k]
    {
      hide Moved;
      ghost var s := stack[..];
      MovedLength(s0, s, lo, hi, k);
      x8 := stack[x10 / 8];
      stack[x12 / 8] := x8;
      MovedOne(s0, s, stack[..], lo, hi, k);
    }

    /** An indirect call: look the callee up, check every guard, compose the call words
        and enter as a direct call does. */
    method HCallIndirect() returns (status: Status)
      requires Valid() && p.maxRecords <= ret.Length && Here(0).op.CallIndirect? && Here(0).native
      requires IndirectAdmits(p, St(), Here(0))
      modifies this, stack, ret
      ensures Valid() && (St(), status) == NativeStep(p, old(St()))
    {
      CallIndirectCell(p, St());
      hide NativeStep, Unpack, Enter, ComposeArm64, NSlot, EntryFits, FieldWord;
      var x9, x10 := CellWord(8), CellWord(16);
      assert Fits(St(), FieldWord(x9, 0, 32));
      var x10t := Ldr(FieldWord(x9, 0, 32));
      var fi := Lookup(x10t, FieldWord(x10, 32, 16));
      if fi.None? { return Bailed; }
      var w := ComposeArm64(x9, x10, p.info[fi.value]);
      status := CallCore(St(), w.a, w.b, w.c);
    }

    /** The guards, in the order the code makes them. */
    method Lookup(x10: Word, w13: nat) returns (fi: Option<nat>)
      requires |p.table| < W32 && |p.info| < W32
      ensures fi == Target(p.table, p.info, x10, w13)
    {
      var w10 := Lo32(x10);
      if w10 >= |p.table| { return None; }
      var x12 := p.table[w10];
      if x12 / W32 != 0 { return None; }
      if x12 >= |p.info| { return None; }
      var e := p.info[x12];
      if Lo32(e.offsets) != w13 { return None; }
      if e.cells == 0 { return None; }
      return Some(x12);
    }

    /** The slots `[from, from+n)` move down onto `[to, to+n)`, lowest first; the
        accumulator is the copy scratch and keeps the last one. */
    method CopyResults(to: nat, from: nat, n: nat)
      requires Valid() && to % 8 == 0 && from % 8 == 0 && to <= from && from / 8 + n <= stack.Length
      modifies this`x8, stack
      ensures Valid() && stack[..] == MoveSlots(old(stack[..]), to / 8, from / 8, n)
      ensures x8 == if n == 0 then old(x8) else stack[to / 8 + n - 1]
    {
      hide Moved, MoveSlots;
      ghost var s0, k := stack[..], 0;
      ghost var lo, hi := to / 8, from / 8;
      assert to == 8 * lo && from == 8 * hi && lo <= hi;
      MovedNone(s0, lo, hi);
      var x10, x11, x12 := from, n, to;
      while x11 != 0
        invariant 0 <= k && k + x11 == n && 0 <= x11 && x10 == 8 * (hi + k) && x12 == 8 * (lo + k)
        invariant Moved(s0, stack[..], lo, hi, k)
        invariant x8 == if k == 0 then old(x8) else stack[lo + k - 1]
        decreases x11
      {
        MoveOne(x10, x12, s0, lo, hi, k);
        x10, x12, x11 := x10 + 8, x12 + 8, x11 - 1;
        k := k + 1;
      }
      MovedAll(s0, stack[..], lo, hi, n);
    }

    /** Results to the frame base, then the record pops; an odd l0 offset flags a
        float-pinned caller. */
    method HReturn() returns (status: Status)
      requires Valid() && Here(0).op.Return? && Here(0).native && Here(0).a % 8 == 0
      requires x20 / 8 + Here(0).a / 8 + Here(0).b <= stack.Length
      requires x26 > 0 ==> RecordFits(p, ret[x26 - 1], stack.Length)
      modifies this, stack
      ensures Valid() && (St(), status) == NativeStep(p, old(St()))
    {
      ghost var n := St();
      ReturnCell(p, n);
      hide NativeStep, MoveSlots, WithResults, Resume, RecordFits;
      MoveResults(n);
      if x26 == 0 { return Exited; }
      Pop(St());
      status := Running;
    }

    method MoveResults(ghost n: Native)
      requires Valid() && St() == n && Here(0).a % 8 == 0 && x20 / 8 + Here(0).a / 8 + Here(0).b <= stack.Length
      modifies this`x8, stack
      ensures Valid() && St() == WithResults(n, Here(0))
    {
      hide MoveSlots;
      CopyResults(x20, x20 + CellWord(8), CellWord(16));
    }

    method Pop(ghost n: Native)
      requires Valid() && St() == n && 0 < x26 && RecordFits(p, ret[x26 - 1], stack.Length)
      modifies this`x26, this`x20, this`x24, this`x17, this`x14, this`x19
      ensures Valid() && n.rets != [] && St() == Resume(n, n.rets[|n.rets| - 1])
    {
      var rec := ret[x26 - 1];
      x26 := x26 - 1;
      assert ret[..x26] == n.rets[..|n.rets| - 1];
      x20 := rec.fp;
      var x11, x10 := rec.codeL0 / W48, rec.l1;
      x24 := rec.codeL0 % W48;
      if x11 % 2 == 1 { x11 := x11 - 1; }
      x17 := stack[(x20 + x11) / 8];
      x14 := stack[(x20 + x10) / 8];
      x19 := rec.pc;
    }

    // ---- bulk memory ----

    /** `memory.fill` and `memory.copy` with three contiguous operands. */
    method HBulk() returns (bail: bool)
      requires Valid() && Here(0).native && (Here(0).op.MemoryFill? || Here(0).op.MemoryCopy?) && BulkAdmits(p, St(), Here(0))
      modifies this`x19, mem
      ensures Valid() && (St(), if bail then Bailed else Running) == NativeStep(p, old(St()))
    {
      hide NativeStep, St;
      Place();
      bail := BulkMemory(St(), Here(0));
      if !bail { Next(St()); }
    }

    method BulkMemory(ghost n: Native, c: Cell) returns (bail: bool)
      requires Valid() && St() == n && c == Here(0) && (c.op.MemoryFill? || c.op.MemoryCopy?) && BulkAdmits(p, n, c)
      modifies mem
      ensures Valid() && NativeStep(p, n) == if bail then (n, Bailed) else (NNext(St()), Running)
      ensures bail ==> St() == n
    {
      hide NativeStep, NSlot, St;
      Place();
      var d, x, k := LdrPack(n, CellWord(8));
      BulkOutcome(p, n, d, x, k);
      bail := RunBulk(n, c.op.MemoryCopy?, d, x, k);
    }

    method RunBulk(ghost n: Native, copy: bool, d: Word, x: Word, k: Word) returns (bail: bool)
      requires Valid() && St() == n && d < W32 && k < W32 && (copy ==> x < W32)
      modifies mem
      ensures Valid() && bail == !(d + k <= |n.mem| && (copy ==> x + k <= |n.mem|))
      ensures St() == if bail then n else n.(mem := if copy then CopyBytes(n.mem, d, x, k) else FillBytes(n.mem, d, x % 256, k))
    {
      if copy {
        bail := CopyArm64(mem, base, d, x, k);
      } else {
        bail := Fill64(mem, base, d, x, k, false);
      }
    }

    /** Three contiguous operands. */
    method LdrPack(ghost m: Native, off: nat) returns (d: Word, x: Word, n: Word)
      requires Valid() && St() == m && Fits(m, off) && Fits(m, off + 8) && Fits(m, off + 16)
      ensures d == NSlot(m, off / 8) && x == NSlot(m, off / 8 + 1) && n == NSlot(m, off / 8 + 2)
    {
      d := Ldr(off);
      x := Ldr(off + 8);
      n := Ldr(off + 16);
    }

    /** The fused fill and copy. */
    method HFillCopy() returns (bail: bool)
      requires Valid() && Here(0).native && Here(0).op.MemoryFillCopy? && BulkAdmits(p, St(), Here(0))
      modifies this`x19, mem
      ensures Valid() && (St(), if bail then Bailed else Running) == NativeStep(p, old(St()))
    {
      hide NativeStep, NSlot, Fusible;
      ghost var n := St();
      var fd, v, fn := LdrPack(n, CellWord(8));
      var cd, cs, cn := LdrPack(n, CellWord(16));
      FusedCell(p, n, fd, v, fn, cd, cs, cn);
      bail := FillCopyArm64(mem, base, fd, v, fn, cd, cs, cn);
      if bail { return; }
      x19 := x19 + 32;
      assert St() == n.(mem := mem[..], pc := n.pc + 1);
    }

    // ---- dispatch ----

    lemma FitsInFrame(c: Cell)
      requires Valid() && OperandsAdmit(St(), c)
      ensures ReadsA(c.op) ==> OperandOk(c.va, c.a)
      ensures ReadsB(c.op) || c.op.MovPair? ==> OperandOk(c.vb, c.b)
      ensures ReadsPacked(c.op) ==> InFrame(c.c / W32)
    {
    }

    lemma ValueInFrame(c: Cell)
      requires Valid() && IsValueOp(c.op) && ValueAdmits(p, St(), c)
      ensures InFrame(DstField(c)) && x19 / 32 + 1 < |p.cells| && (c.op.MovSlot? ==> c.b == c.c)
      ensures c.op.GlobalGet? ==> InGlobals(c.b)
    {
    }

    /** The handler of a one-result cell. */
    method DispatchValue() returns (status: Status)
      requires Valid() && Here(0).native && IsValueOp(Here(0).op) && VariantOk(Here(0)) && !p.backend.remBails
      requires OperandsAdmit(St(), Here(0)) && ValueAdmits(p, St(), Here(0)) && OperandsHold(Here(0), St())
      modifies this, stack
      ensures Valid() && (St(), status) == NativeStep(p, old(St()))
    {
      hide NativeStep, Fetch, OperandsAdmit, ValueAdmits, InFrame;
      FitsInFrame(Here(0));
      ValueInFrame(Here(0));
      status := Running;
      match Here(0).op {
        case MovSlot => HMov();
        case MovConst => HMov();
        case Select => HSelect();
        case GlobalGet => HGlobalGet();
        case Bin(_, _) => HBin();
        case Cmp(_, _) => HCmp();
        case Un(_, _) => HUn();
        case Div(_, _) => var bail := HDiv(); if bail { status := Bailed; }
        case Load(_, _) => var trap := HLoad(); if trap { status := Trapped(OutOfBounds); }
      }
    }

    /** The handler of the current cell. */
    method Dispatch() returns (status: Status)
      requires Valid() && Here(0).native && Admits(p, St()) && OperandsHold(Here(0), St())
      requires !p.backend.remBails && !p.backend.subBrAcc && p.maxRecords <= ret.Length
      modifies this, stack, glob, mem, ret
      ensures Valid() && (St(), status) == NativeStep(p, old(St()))
    {
      hide NativeStep, Fetch, OperandsAdmit, ValueAdmits, BranchAdmits, BulkAdmits, EntryFits, IndirectAdmits, RecordFits, OperandsHold;
      FitsInFrame(Here(0));
      status := Running;
      if IsValueOp(Here(0).op) {
        status := DispatchValue();
      } else if IsBranchOp(Here(0).op) {
        HBranch();
      } else {
        match Here(0).op {
          case MovPair => HMovPair();
          case SubBrIf(_) => HSubBrIf();
          case GlobalSet => HGlobalSet();
          case Store(_, _) => var trap := HStore(); if trap { status := Trapped(OutOfBounds); }
          case Call(_, _) => status := HCall();
          case CallIndirect(_, _, _) => status := HCallIndirect();
          case Return => status := HReturn();
          case MemoryFillCopy => var bail := HFillCopy(); if bail { status := Bailed; }
          case MemoryFill => var bail := HBulk(); if bail { status := Bailed; }
          case MemoryCopy => var bail := HBulk(); if bail { status := Bailed; }
        }
      }
    }

    /** The native cell reached after `k` dispatches. */
    method Once(ghost n: Native, ghost r: Ref, ghost k: nat) returns (status: Status)
      requires Valid() && Linked(p) && Typed(p) && Coherent(p, n, r)
      requires DriveRun(p, n, k) == (St(), Running) && Here(0).native
      requires !p.backend.remBails && !p.backend.subBrAcc && p.maxRecords <= ret.Length
      modifies this, stack, glob, mem, ret
      ensures Valid()
      ensures if status == Bailed then St() == old(St()) && NativeStep(p, St()).1 == Bailed
              else DriveRun(p, n, k + 1) == (St(), status)
    {
      hide NativeStep, Linked, Typed, Coherent, Admits, OperandsHold, DriveRun;
      ghost var m := St();
      RunAdmits(p, n, r, k);
      OperandsHoldOnEveryRun(p, n, r, k);
      RunExtends(p, n, k);
      BailsUntouched(p, m);
      NativeDrives(p, m);
      status := Dispatch();
    }

    /** Handlers chained from any coherent state of linked, typed code: after `k`
        dispatches the registers, frame and memory agree with what the slot-only machine
        reaches. `Bailed` hands an untouched cell to the driver. */
    method Chain(fuel: nat, ghost r: Ref) returns (status: Status, k: nat)
      requires Valid() && Linked(p) && Typed(p) && Coherent(p, St(), r)
      requires !p.backend.remBails && !p.backend.subBrAcc && p.maxRecords <= ret.Length
      modifies this, stack, glob, mem, ret
      ensures Valid() && k <= fuel && (status == Running ==> k == fuel)
      ensures status == Bailed ==> !Here(0).native || NativeStep(p, St()).1 == Bailed
      ensures var reached := if status == Bailed then Running else status;
              && DriveRun(p, old(St()), k) == (St(), reached)
              && Agree(p, St(), reached, RefRun(p, r, k).0, RefRun(p, r, k).1)
    {
      hide NativeStep, Linked, Typed, Coherent, DriveRun, RefRun, Agree;
      ghost var n := St();
      status, k := Running, 0;
      RunStarts(p, n);
      while status == Running && k < fuel
        invariant Valid() && k <= fuel
        invariant DriveRun(p, n, k) == (St(), if status == Bailed then Running else status)
        invariant status == Bailed ==> !Here(0).native || NativeStep(p, St()).1 == Bailed
        decreases fuel - k, status == Running
      {
        if Here(0).native {
          status := Once(n, r, k);
          if status != Bailed { k := k + 1; }
        } else {
          status := Bailed;
        }
      }
      RunRefines(p, n, r, k);
    }

    // ---- superhandlers ----

    /** The ordered copies: old l0 to the first slot, the second source to l0. */
    method ListCopies(ghost l0: nat)
      requires Valid() && InFrame(Here(0).b) && InFrame(Here(0).c / W32) && Here(0).c % W32 == 8 * l0 && InFrame(8 * l0)
      modifies this`x17, stack
      ensures Valid() && St() == ListMoved(old(St()), Here(0).c / W32 / 8, Here(0).b / 8, l0)
    {
      var x6, x10 := x17, CellWord(16);
      var x11 := Ldr(x10);
      var x13 := CellWord(24);
      Str(St(), x13 / W32, x6);
      Str(St(), x13 % W32, x11);
      x17 := x11;
    }

    /** `ldr w8, [x22, x10]` */
    method LdrMem4(ea: nat) returns (v: Word)
      requires Valid() && ea + 4 <= mem.Length
      ensures v == Value(St().mem[ea..ea + 4]) % W64
    {
      WordFits(mem[ea..ea + 4]);
      v := Value(mem[ea..ea + 4]);
    }

    /** The load, the store of `x6` to the same word and the branch, from the load cell. */
    method ListLoad(x6: Word) returns (status: Status)
      requires Valid() && x19 / 32 + 3 < |p.cells| && InFrame(Here(0).c)
      requires Here(2).c % 32 == 0 && Here(2).c / 32 < |p.cells|
      modifies this`x8, this`x14, this`x17, this`x19, stack, mem
      ensures Valid() && (St(), status) == ListTail(old(St()), old(Here(0).c) / 8, old(Here(2).c) / 32, x6)
    {
      hide Value, Bytes, Finish, ListTail;
      ghost var n, dst, target := St(), Here(0).c / 8, Here(2).c / 32;
      ListTailCases(n, dst, target, x6);
      var x12 := CellWord(88);
      var w10 := Lo32(x17);
      if w10 + 4 > mem.Length { return Trapped(OutOfBounds); }
      var v := LdrMem4(w10);
      Exchange(w10, CellWord(24), v, x6);
      x19 := if Lo32(v) == 0 then x19 + 96 else x12;
      status := Running;
    }

    /** The loaded value to its slot, then `x6` over the word it came from. */
    method Exchange(ea: nat, off: nat, v: Word, x6: Word)
      requires Valid() && ea + 4 <= mem.Length && InFrame(off)
      modifies this`x8, this`x14, this`x17, stack, mem
      ensures Valid()
      ensures var n := old(St());
              St() == Finish(n, off / 8, ToMem, v).(mem := n.mem[..ea] + Bytes(x6, 4) + n.mem[ea + 4..])
    {
      hide Bytes, Finish;
      FinishKeepsMem(St(), off / 8, v);
      Land(St(), ToMem, off, v);
      StrWord(ea, x6);
    }

    method StrWord(ea: nat, x: Word)
      requires Valid() && ea + 4 <= mem.Length
      modifies mem
      ensures Valid() && St() == old(St()).(mem := old(St()).mem[..ea] + Bytes(x, 4) + old(St()).mem[ea + 4..])
    {
      StrMem(ea, Bytes(x, 4));
    }

    /** `MovPair -> i32.load -> i32.store -> br_if`. A run of the four cells, except that a
        trap leaves the accumulator alone; it leaves pc at the load with both copies
        committed and the store not done. */
    method SuperListStep(ghost f: Func) returns (status: Status)
      requires Valid() && ListShape(p, x19 / 32, f) && x19 / 32 + 4 < |p.cells|
      requires InFrame(Here(0).b) && InFrame(Here(0).c / W32) && InFrame(8 * f.l0)
      requires Here(3).c % 32 == 0 && Here(3).c / 32 < |p.cells|
      modifies this, stack, mem
      ensures Valid() && status == DriveRun(p, old(St()), 4).1
      ensures St() == if status == Running then DriveRun(p, old(St()), 4).0
                      else DriveRun(p, old(St()), 4).0.(acc := old(x8))
    {
      hide DriveRun, ListTail, ListMoved;
      ghost var n, mov := St(), Here(0);
      ListRuns(p, n, f);
      var x6 := x17;
      ListCopies(f.l0);
      ghost var y := ListMoved(n, mov.c / W32 / 8, mov.b / 8, f.l0).l0;
      x19 := x19 + 32;
      TailForgetsAcc(St(), Here(0).c / 8, Here(2).c / 32, x6, y);
      status := ListLoad(x6);
    }

    /** One of the chained adds: a slot and a register into a pinned local, write-through. */
    method AddInto(slot: nat, x: Word, slotFirst: bool, to: nat, d: DstCls)
      requires Valid() && InFrame(slot) && InFrame(to)
      modifies this`x14, this`x17, stack
      ensures Valid()
      ensures var s := NSlot(old(St()), slot / 8);
              St() == PinPut(old(St()), to / 8, d, if slotFirst then BinVal(I32, Add, s, x) else BinVal(I32, Add, x, s))
    {
      hide Execute, BinVal, PinPut, NSlot;
      var x10 := Ldr(slot);
      InstructionIsWasm(Add, I32, x10, x);
      InstructionIsWasm(Add, I32, x, x10);
      StrPinned(St(), to, d, if slotFirst then Execute(ADD, I32, x10, x) else Execute(ADD, I32, x, x10));
    }

    /** A slot plus a constant back into the slot, the sum staying in the accumulator. */
    method AddInPlace(at: nat, k: Word)
      requires Valid() && InFrame(at)
      modifies this`x8, this`x14, this`x17, stack
      ensures Valid() && St() == Finish(old(St()), at / 8, ToMem, BinVal(I32, Add, NSlot(old(St()), at / 8), k))
    {
      hide Execute, BinVal, Finish, NSlot;
      var w8 := Ldr(at);
      InstructionIsWasm(Add, I32, w8, k);
      Land(St(), ToMem, at, Execute(ADD, I32, w8, k));
    }

    /** The accumulator and the second pinned local. */
    method Add4Head()
      requires Valid() && x19 / 32 + 4 < |p.cells| && InFrame(Here(1).a) && InFrame(Here(1).c)
      modifies this`x8, this`x14, this`x17, stack
      ensures Valid()
      ensures var (n, a1) := (old(St()), p.cells[x19 / 32 + 1]);
              var w8 := BinVal(I32, Add, n.acc, n.l1);
              St() == PinPut(n.(acc := w8), a1.c / 8, ToL1, BinVal(I32, Add, NSlot(n, a1.a / 8), w8))
    {
      hide Execute, BinVal, PinPut;
      ghost var n := St();
      InstructionIsWasm(Add, I32, x8, x14);
      x8 := Execute(ADD, I32, x8, x14);
      assert St() == n.(acc := x8);
      AddInto(CellWord(40), x8, true, CellWord(56), ToL1);
    }

    /** The first pinned local and the counter. */
    method Add4Tail()
      requires Valid() && x19 / 32 + 4 < |p.cells| && InFrame(Here(2).b) && InFrame(Here(2).a) && InFrame(Here(3).a)
      modifies this`x8, this`x14, this`x17, stack
      ensures Valid()
      ensures var (n, a2, a3) := (old(St()), p.cells[x19 / 32 + 2], p.cells[x19 / 32 + 3]);
              var n2 := PinPut(n, a2.a / 8, ToL0, BinVal(I32, Add, n.l0, NSlot(n, a2.b / 8)));
              St() == Finish(n2, a3.a / 8, ToMem, BinVal(I32, Add, NSlot(n2, a3.a / 8), 4))
    {
      hide BinVal, PinPut, Finish, NSlot;
      var at := CellWord(104);
      AddInto(CellWord(80), x17, false, CellWord(72), ToL0);
      AddInPlace(at, 4);
    }

    /** Four i32 adds. */
    method SuperAdd4(ghost f: Func)
      requires Valid() && Add4Shape(p, x19 / 32, f) && x19 / 32 + 4 < |p.cells|
      requires InFrame(Here(1).a) && InFrame(Here(1).c) && InFrame(Here(2).b) && InFrame(Here(2).a) && InFrame(Here(3).a)
      modifies this, stack
      ensures Valid() && (St(), Running) == DriveRun(p, old(St()), 4)
    {
      hide DriveRun, BinVal, PinPut, Finish, NSlot, Add4Shape;
      Add4Explicit(p, St(), f);
      Add4Head();
      Add4Tail();
      x19 := x19 + 128;
    }

    /** In-place constant add and `i32.ne` branch. */
    method SuperAddBrNe(ghost f: Func)
      requires Valid() && AddBrNeShape(p, x19 / 32, f) && x19 / 32 + 2 < |p.cells|
      requires InFrame(Here(0).a) && InFrame(Here(1).a) && Here(1).c % 32 == 0 && Here(1).c / 32 < |p.cells|
      modifies this, stack
      ensures Valid() && (St(), Running) == DriveRun(p, old(St()), 2)
    {
      hide DriveRun, Execute, BinVal, Finish, NSlot;
      AddBrNeRuns(p, St(), f);
      var x10 := CellWord(8);
      var w8 := Ldr(x10);
      var w11 := CellWord(16);
      InstructionIsWasm(Add, I32, w8, w11);
      w8 := Execute(ADD, I32, w8, w11);
      Land(St(), ToMem, x10, w8);
      var x12 := CellWord(56);
      w11 := Ldr(CellWord(40));
      Jump(St(), if Lo32(w11) == Lo32(w8) then x19 + 64 else x12);
    }

    /** Accumulator shift right, then a mask. */
    method SuperShrUAnd(ghost f: Func)
      requires Valid() && ShrUAndShape(p, x19 / 32, f) && x19 / 32 + 2 < |p.cells| && InFrame(Here(1).c)
      modifies this, stack
      ensures Valid() && (St(), Running) == DriveRun(p, old(St()), 2)
    {
      hide DriveRun, Execute, BinVal;
      ShrUAndRuns(p, St(), f);
      var w11 := CellWord(16);
      InstructionIsWasm(ShrU, I32, x8, w11);
      var w8 := Execute(LSR, I32, x8, w11);
      w11 := CellWord(48);
      InstructionIsWasm(BitAnd, I32, w8, w11);
      Land(St(), ToMem, CellWord(56), Execute(AND, I32, w8, w11));
      x19 := x19 + 64;
    }

    /** A mask whose result feeds an equality branch. */
    method SuperAndBrEq(ghost f: Func)
      requires Valid() && AndBrEqShape(p, x19 / 32, f) && x19 / 32 + 2 < |p.cells|
      requires InFrame(Here(0).a) && InFrame(Here(0).c) && Here(1).c % 32 == 0 && Here(1).c / 32 < |p.cells|
      modifies this, stack
      ensures Valid() && (St(), Running) == DriveRun(p, old(St()), 2)
    {
      hide DriveRun, Execute, BinVal, Finish, NSlot, St;
      Place();
      AndBrEqRuns(p, St(), f);
      var w10 := Ldr(CellWord(8));
      var w11 := CellWord(16);
      InstructionIsWasm(BitAnd, I32, w10, w11);
      var w8 := Execute(AND, I32, w10, w11);
      Land(St(), ToMem, CellWord(24), w8);
      var x12 := CellWord(56);
      w11 := CellWord(48);
      Jump(St(), if Lo32(w8) != Lo32(w11) then x19 + 64 else x12);
    }
  }
}
