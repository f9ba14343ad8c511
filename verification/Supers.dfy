/** The multi-cell superhandlers: the shapes the linker admits, and what running their
    ordinary cells in order does. */
module Supers {
  import opened Words
  import opened WasmNum
  import opened LittleEndian
  import opened Interp

  const I32_ACCESS := Access(4, false, I32)

  /** A frame byte offset that is neither pinned slot. */
  predicate Plain(f: Func, off: nat) {
    off % 8 == 0 && (f.pin0 ==> off != 8 * f.l0) && (f.pin1 ==> off != 8 * f.l1)
  }

  predicate AllNative(p: Prog, pc: nat, k: nat) {
    pc + k <= |p.cells| && forall i :: pc <= i < pc + k ==> p.cells[i].native
  }

  /** `MovPair -> i32.load -> i32.store -> br_if` walking a list through l0. */
  predicate ListShape(p: Prog, pc: nat, f: Func) {
    && AllNative(p, pc, 4) && f.pin0 && f.pin1
    && var (mov, load, store, branch) := (p.cells[pc], p.cells[pc + 1], p.cells[pc + 2], p.cells[pc + 3]);
       var (dst1, dst2) := (mov.c / W32, mov.c % W32);
       && mov.op == MovPair && mov.va == L0 && mov.vb == Slot && mov.vp == SecondL0
       && load.op == Load(I32_ACCESS, false) && load.va == L0 && load.vd == ToMem
       && store.op == Store(I32_ACCESS, false) && store.va == L0 && store.vb == Slot
       && branch.op == BrIf && branch.va == Slot
       && mov.a == 8 * f.l0 && dst2 == 8 * f.l0 && Plain(f, mov.b) && Plain(f, dst1)
       && mov.b != dst1
       && load.a == dst2 && load.b == 0 && load.c == mov.b
       && store.a == load.a && store.b == dst1 && store.c == load.b
       && branch.a == load.c
  }

  /** Four i32 adds: `acc+L1->acc`, `slot+acc->L1`, `L0+slot->L0`, `slot+4->slot`. */
  predicate Add4Shape(p: Prog, pc: nat, f: Func) {
    && AllNative(p, pc, 4) && f.pin0 && f.pin1
    && var (a0, a1, a2, a3) := (p.cells[pc], p.cells[pc + 1], p.cells[pc + 2], p.cells[pc + 3]);
       && a0.op == a1.op == a2.op == a3.op == Bin(I32, Add)
       && a0.va == Acc && a0.vb == L1 && a0.vd == ToAcc
       && a1.va == Slot && a1.vb == Acc && a1.vd == ToL1
       && a2.va == L0 && a2.vb == Slot && a2.vd == ToL0
       && a3.va == Slot && a3.vb == Const && a3.vd == ToMem
       && a0.a == a0.c && Plain(f, a0.a) && a0.b == 8 * f.l1
       && a1.b == a0.c && Plain(f, a1.a) && a1.c == 8 * f.l1
       && a2.a == 8 * f.l0 && a2.c == 8 * f.l0 && Plain(f, a2.b)
       && a3.a == a3.c && Plain(f, a3.a) && a3.b == 4
  }

  /** An in-place constant add, then `i32.ne` against the new value in the accumulator. */
  predicate AddBrNeShape(p: Prog, pc: nat, f: Func) {
    && AllNative(p, pc, 2)
    && var (add, branch) := (p.cells[pc], p.cells[pc + 1]);
       && add.op == Bin(I32, Add) && add.va == Slot && add.vb == Const && add.vd == ToMem
       && branch.op == BrCmp(I32, Ne) && branch.va == Slot && branch.vb == Acc
       && add.a == add.c && branch.b == add.c && Plain(f, add.a) && Plain(f, branch.a)
  }

  /** A constant right shift of the accumulator, then a constant mask. */
  predicate ShrUAndShape(p: Prog, pc: nat, f: Func) {
    && AllNative(p, pc, 2)
    && var (shift, mask) := (p.cells[pc], p.cells[pc + 1]);
       && shift.op == Bin(I32, ShrU) && shift.va == Acc && shift.vb == Const && shift.vd == ToAcc
       && mask.op == Bin(I32, BitAnd) && mask.va == Acc && mask.vb == Const && mask.vd == ToMem
       && mask.a == shift.c && Plain(f, shift.a) && Plain(f, shift.c) && Plain(f, mask.c)
  }

  /** A constant mask whose result feeds an equality branch. */
  predicate AndBrEqShape(p: Prog, pc: nat, f: Func) {
    && AllNative(p, pc, 2)
    && var (mask, branch) := (p.cells[pc], p.cells[pc + 1]);
       && mask.op == Bin(I32, BitAnd) && mask.va == Slot && mask.vb == Const && mask.vd == ToMem
       && branch.op == BrCmp(I32, Eq) && branch.va == Acc && branch.vb == Const
       && branch.a == mask.c && Plain(f, mask.a) && Plain(f, mask.c)
  }

  // ---- single ordinary steps ----

  predicate OwnSlot(n: Native, off: nat) {
    off % 8 == 0 && n.fp + off / 8 < |n.stack|
  }

  /** An ordinary handler that neither bails nor runs slow. */
  lemma OneBin(p: Prog, n: Native)
    requires n.pc < |p.cells| && p.cells[n.pc].native && p.cells[n.pc].op.Bin?
    ensures var c := p.cells[n.pc];
            DriveStep(p, n) == (NNext(Finish(n, c.c / 8, c.vd, BinVal(c.op.w, c.op.f, NA(c, n), NB(c, n)))), Running)
  {
    hide BinVal, Finish;
  }

  lemma OneBranch(p: Prog, n: Native)
    requires n.pc < |p.cells| && p.cells[n.pc].native && IsBranchOp(p.cells[n.pc].op)
    ensures var c := p.cells[n.pc];
            DriveStep(p, n) == (n.(pc := BranchTo(p, c, n.pc, n.code, NA(c, n), NB(c, n))), Running)
  {
    hide BranchTo;
  }

  lemma OnePair(p: Prog, n: Native)
    requires n.pc < |p.cells| && p.cells[n.pc].native && p.cells[n.pc].op.MovPair?
    ensures DriveStep(p, n) == (NativePair(p.cells[n.pc], n), Running)
  {
    hide NativePair;
  }

  lemma OneLoad(p: Prog, n: Native)
    requires n.pc < |p.cells| && p.cells[n.pc].native && p.cells[n.pc].op == Load(I32_ACCESS, false)
    ensures var c := p.cells[n.pc];
            var v := LoadVal(I32_ACCESS, n.mem, c.b + Lo32(NA(c, n)));
            DriveStep(p, n) == if v.Trap? then (n, Trapped(v.kind)) else (NNext(Finish(n, c.c / 8, c.vd, v.v)), Running)
  {
    hide LoadVal, Finish;
  }

  lemma OneStore(p: Prog, n: Native)
    requires n.pc < |p.cells| && p.cells[n.pc].native && p.cells[n.pc].op == Store(I32_ACCESS, false)
    ensures var c := p.cells[n.pc];
            var m := StoreVal(I32_ACCESS, n.mem, c.c + Lo32(NA(c, n)), NB(c, n));
            DriveStep(p, n) == if m.None? then (n, Trapped(OutOfBounds)) else (NNext(n.(mem := m.value)), Running)
  {
    hide StoreVal;
  }

  lemma TwoSteps(p: Prog, n: Native)
    requires DriveStep(p, n).1 == Running
    ensures DriveRun(p, n, 2) == (var n1 := DriveStep(p, n).0; var (n2, s2) := DriveStep(p, n1); (n2, s2))
    ensures DriveRun(p, n, 4) == DriveRun(p, DriveStep(p, n).0, 3)
  {
    hide DriveStep;
    var n1 := DriveStep(p, n).0;
    assert DriveRun(p, n, 2) == DriveRun(p, n1, 1);
    var (n2, s2) := DriveStep(p, n1);
    if s2 == Running { assert DriveRun(p, n2, 0) == (n2, Running); }
  }

  lemma FourSteps(p: Prog, n: Native)
    requires DriveStep(p, n).1 == Running && DriveStep(p, DriveStep(p, n).0).1 == Running
    ensures DriveRun(p, n, 4) == DriveRun(p, DriveStep(p, DriveStep(p, n).0).0, 2)
  {
    hide DriveStep;
    var n1 := DriveStep(p, n).0;
    assert DriveRun(p, n, 4) == DriveRun(p, n1, 3);
    assert DriveRun(p, n1, 3) == DriveRun(p, DriveStep(p, n1).0, 2);
  }

  // ---- whole shapes ----

  lemma ShrUAndRuns(p: Prog, n: Native, f: Func)
    requires ShrUAndShape(p, n.pc, f)
    ensures var (shift, mask) := (p.cells[n.pc], p.cells[n.pc + 1]);
            var v := BinVal(I32, BitAnd, BinVal(I32, ShrU, n.acc, shift.b), mask.b);
            DriveRun(p, n, 2) == (Finish(n, mask.c / 8, ToMem, v).(pc := n.pc + 2), Running)
  {
    hide BinVal, DriveStep;
    var n1 := DriveStep(p, n).0;
    OneBin(p, n);
    OneBin(p, n1);
    TwoSteps(p, n);
  }

  lemma AddBrNeRuns(p: Prog, n: Native, f: Func)
    requires AddBrNeShape(p, n.pc, f)
    ensures var (add, branch) := (p.cells[n.pc], p.cells[n.pc + 1]);
            var v := BinVal(I32, Add, NSlot(n, add.a / 8), add.b);
            var n1 := Finish(n, add.a / 8, ToMem, v);
            DriveRun(p, n, 2) == (n1.(pc := if CmpVal(I32, Ne, NSlot(n1, branch.a / 8), v) then branch.c / 32 else n.pc + 2), Running)
  {
    hide BinVal, CmpVal, DriveStep;
    var n1 := DriveStep(p, n).0;
    OneBin(p, n);
    OneBranch(p, n1);
    TwoSteps(p, n);
  }

  lemma AndBrEqRuns(p: Prog, n: Native, f: Func)
    requires AndBrEqShape(p, n.pc, f)
    ensures var (mask, branch) := (p.cells[n.pc], p.cells[n.pc + 1]);
            var v := BinVal(I32, BitAnd, NSlot(n, mask.a / 8), mask.b);
            var n1 := Finish(n, mask.c / 8, ToMem, v);
            DriveRun(p, n, 2) == (n1.(pc := if CmpVal(I32, Eq, v, branch.b) then branch.c / 32 else n.pc + 2), Running)
  {
    hide BinVal, CmpVal, DriveStep;
    var n1 := DriveStep(p, n).0;
    OneBin(p, n);
    OneBranch(p, n1);
    TwoSteps(p, n);
  }

  lemma Add4First(p: Prog, n: Native, f: Func)
    requires Add4Shape(p, n.pc, f)
    ensures DriveStep(p, n).1 == Running
    ensures var w8 := BinVal(I32, Add, n.acc, n.l1);
            DriveStep(p, DriveStep(p, n).0) ==
              (PinPut(n.(acc := w8, pc := n.pc + 2), f.l1, ToL1, BinVal(I32, Add, NSlot(n, p.cells[n.pc + 1].a / 8), w8)), Running)
  {
    hide BinVal, DriveStep;
    OneBin(p, n);
    OneBin(p, DriveStep(p, n).0);
  }

  lemma Add4Second(p: Prog, n: Native, pc: nat, f: Func)
    requires Add4Shape(p, pc, f) && n.pc == pc + 2
    ensures var (a2, a3) := (p.cells[pc + 2], p.cells[pc + 3]);
            var n2 := PinPut(n, f.l0, ToL0, BinVal(I32, Add, n.l0, NSlot(n, a2.b / 8)));
            var n3 := Finish(n2, a3.a / 8, ToMem, BinVal(I32, Add, NSlot(n2, a3.a / 8), 4));
            DriveRun(p, n, 2) == (n3.(pc := pc + 4), Running)
  {
    hide BinVal, DriveStep;
    OneBin(p, n);
    OneBin(p, DriveStep(p, n).0);
    TwoSteps(p, n);
  }

  lemma PinPutKeepsPc(n: Native, i: nat, d: DstCls, v: Word, pc: nat)
    ensures PinPut(n.(pc := pc), i, d, v) == PinPut(n, i, d, v).(pc := pc)
    ensures Finish(n.(pc := pc), i, d, v) == Finish(n, i, d, v).(pc := pc)
  {
  }

  lemma SlotKeepsPc(n: Native, i: nat, pc: nat)
    ensures NSlot(n.(pc := pc), i) == NSlot(n, i)
  {
  }

  lemma Add4Runs(p: Prog, n: Native, f: Func)
    requires Add4Shape(p, n.pc, f)
    ensures DriveRun(p, n, 4) == (Add4State(p, n, f).(pc := n.pc + 4), Running)
  {
    Add4First(p, n, f);
    var pc, a1, a2, a3 := n.pc, p.cells[n.pc + 1], p.cells[n.pc + 2], p.cells[n.pc + 3];
    FourSteps(p, n);
    var w8 := BinVal(I32, Add, n.acc, n.l1);
    var n1 := PinPut(n.(acc := w8), f.l1, ToL1, BinVal(I32, Add, NSlot(n, a1.a / 8), w8));
    PinPutKeepsPc(n.(acc := w8), f.l1, ToL1, BinVal(I32, Add, NSlot(n, a1.a / 8), w8), pc + 2);
    var m := n1.(pc := pc + 2);
    Add4Second(p, m, pc, f);
    hide *;
    SlotKeepsPc(n1, a2.b / 8, pc + 2);
    var y2 := BinVal(I32, Add, n1.l0, NSlot(n1, a2.b / 8));
    PinPutKeepsPc(n1, f.l0, ToL0, y2, pc + 2);
    var n2 := PinPut(n1, f.l0, ToL0, y2);
    SlotKeepsPc(n2, a3.a / 8, pc + 2);
    PinPutKeepsPc(n2, a3.a / 8, ToMem, BinVal(I32, Add, NSlot(n2, a3.a / 8), 4), pc + 2);
    Add4StateIs(p, n, f);
  }

  lemma Add4StateIs(p: Prog, n: Native, f: Func)
    requires Add4Shape(p, n.pc, f)
    ensures var (a1, a2, a3) := (p.cells[n.pc + 1], p.cells[n.pc + 2], p.cells[n.pc + 3]);
            var w8 := BinVal(I32, Add, n.acc, n.l1);
            var n1 := PinPut(n.(acc := w8), f.l1, ToL1, BinVal(I32, Add, NSlot(n, a1.a / 8), w8));
            var n2 := PinPut(n1, f.l0, ToL0, BinVal(I32, Add, n1.l0, NSlot(n1, a2.b / 8)));
            Add4State(p, n, f) == Finish(n2, a3.a / 8, ToMem, BinVal(I32, Add, NSlot(n2, a3.a / 8), 4))
  {
    hide BinVal, PinPut, Finish, NSlot;
  }

  /** Running the four cells, with every field read from its own cell. */
  lemma Add4Explicit(p: Prog, n: Native, f: Func)
    requires Add4Shape(p, n.pc, f)
    ensures n.pc + 4 <= |p.cells|
    ensures var (a1, a2, a3) := (p.cells[n.pc + 1], p.cells[n.pc + 2], p.cells[n.pc + 3]);
            var w8 := BinVal(I32, Add, n.acc, n.l1);
            var n1 := PinPut(n.(acc := w8), a1.c / 8, ToL1, BinVal(I32, Add, NSlot(n, a1.a / 8), w8));
            var n2 := PinPut(n1, a2.a / 8, ToL0, BinVal(I32, Add, n1.l0, NSlot(n1, a2.b / 8)));
            DriveRun(p, n, 4) ==
              (Finish(n2, a3.a / 8, ToMem, BinVal(I32, Add, NSlot(n2, a3.a / 8), 4)).(pc := n.pc + 4), Running)
  {
    hide BinVal, PinPut, Finish, NSlot, DriveRun, Add4State;
    Add4Runs(p, n, f);
    Add4StateIs(p, n, f);
  }

  /** The four additions, each reading what the earlier ones wrote. */
  function Add4State(p: Prog, n: Native, f: Func): (n': Native)
    requires Add4Shape(p, n.pc, f)
  {
    var (a1, a2, a3) := (p.cells[n.pc + 1], p.cells[n.pc + 2], p.cells[n.pc + 3]);
    var w8 := BinVal(I32, Add, n.acc, n.l1);
    var n1 := PinPut(n.(acc := w8), f.l1, ToL1, BinVal(I32, Add, NSlot(n, a1.a / 8), w8));
    var n2 := PinPut(n1, f.l0, ToL0, BinVal(I32, Add, n1.l0, NSlot(n1, a2.b / 8)));
    Finish(n2, a3.a / 8, ToMem, BinVal(I32, Add, NSlot(n2, a3.a / 8), 4))
  }

  /** The ordered copies of the list step. */
  function ListMoved(n: Native, dst1: nat, src2: nat, l0: nat): (n': Native) {
    var y := NSlot(n, src2);
    PinPut(PinPut(n, dst1, ToMem, n.l0), l0, ToL0, y)
  }

  /** From the load cell on: a load through l0, a store of `x6` to the same word, and a
      branch on the loaded value. */
  function ListTail(n: Native, dst: nat, target: nat, x6: Word): (out: (Native, Status)) {
    var ea := Lo32(n.l0);
    if ea + 4 > |n.mem| then (n, Trapped(OutOfBounds))
    else
      var v := Value(n.mem[ea..ea + 4]) % W64;
      (Finish(n, dst, ToMem, v).(mem := n.mem[..ea] + Bytes(x6, 4) + n.mem[ea + 4..],
                                 pc := if Lo32(v) != 0 then target else n.pc + 3), Running)
  }

  /** Running the four ordinary cells: both copies, then the load; out of bounds stops
      at the load cell, otherwise the old l0 replaces the word just read. */
  lemma ListRuns(p: Prog, n: Native, f: Func)
    requires ListShape(p, n.pc, f)
    requires OwnSlot(n, p.cells[n.pc].b) && OwnSlot(n, p.cells[n.pc].c / W32) && OwnSlot(n, 8 * f.l0)
    ensures var (mov, branch) := (p.cells[n.pc], p.cells[n.pc + 3]);
            var (dst1, src2) := (mov.c / W32 / 8, mov.b / 8);
            var y := ListMoved(n, dst1, src2, f.l0).l0;
            DriveRun(p, n, 4) == ListTail(ListMoved(n, dst1, src2, f.l0).(acc := y, pc := n.pc + 1), src2, branch.c / 32, n.l0)
  {
    ListFirst(p, n, f);
    var m := ListMoved(n, p.cells[n.pc].c / W32 / 8, p.cells[n.pc].b / 8, f.l0);
    hide DriveStep, DriveRun, ListTail, NSlot, ListMoved, ListShape;
    ListAfter(p, n, m, f);
  }

  lemma ListAfter(p: Prog, n: Native, m: Native, f: Func)
    requires ListShape(p, n.pc, f) && OwnSlot(n, p.cells[n.pc].b) && OwnSlot(n, p.cells[n.pc].c / W32)
    requires DriveStep(p, n) == (m.(acc := m.l0, pc := n.pc + 1), Running)
    requires m.fp == n.fp && |m.stack| == |n.stack| && m.stack[n.fp + p.cells[n.pc].c / W32 / 8] == n.l0
    ensures DriveRun(p, n, 4) ==
              ListTail(m.(acc := m.l0, pc := n.pc + 1), p.cells[n.pc].b / 8, p.cells[n.pc + 3].c / 32, n.l0)
  {
    hide DriveStep, DriveRun, ListTail;
    TwoSteps(p, n);
    ListRest(p, m.(acc := m.l0, pc := n.pc + 1), n.pc, f, n.l0);
  }

  lemma ListFirst(p: Prog, n: Native, f: Func)
    requires ListShape(p, n.pc, f)
    requires OwnSlot(n, p.cells[n.pc].b) && OwnSlot(n, p.cells[n.pc].c / W32) && OwnSlot(n, 8 * f.l0)
    ensures var mov := p.cells[n.pc];
            var m := ListMoved(n, mov.c / W32 / 8, mov.b / 8, f.l0);
            && DriveStep(p, n) == (m.(acc := m.l0, pc := n.pc + 1), Running)
            && m == Native(m.stack, n.fp, n.mem, n.glob, n.pc, n.rets, n.code, n.acc, NSlot(n, mov.b / 8), n.l1)
            && |m.stack| == |n.stack| && m.stack[n.fp + mov.c / W32 / 8] == n.l0
  {
    hide DriveStep;
    OnePair(p, n);
  }

  /** From the load cell on, with `x6` the value the first copy left in `dst1`. */
  lemma ListRest(p: Prog, n: Native, pc: nat, f: Func, x6: Word)
    requires ListShape(p, pc, f) && n.pc == pc + 1
    requires OwnSlot(n, p.cells[pc].b) && OwnSlot(n, p.cells[pc].c / W32)
    requires n.stack[n.fp + p.cells[pc].c / W32 / 8] == x6
    ensures DriveRun(p, n, 3) == ListTail(n, p.cells[pc].b / 8, p.cells[pc + 3].c / 32, x6)
  {
    hide Value, Bytes, DriveStep;
    OneLoad(p, n);
    if DriveStep(p, n).1 == Running {
      var v := DriveStep(p, n).0.acc;
      ThreeSteps(p, n);
      ListLast(p, DriveStep(p, n).0, pc, f, x6, v);
    } else {
      StopsThere(p, n, 3);
    }
  }

  lemma ThreeSteps(p: Prog, n: Native)
    requires DriveStep(p, n).1 == Running
    ensures DriveRun(p, n, 3) == DriveRun(p, DriveStep(p, n).0, 2)
  {
    hide DriveStep;
  }

  lemma ListLast(p: Prog, n: Native, pc: nat, f: Func, x6: Word, v: Word)
    requires ListShape(p, pc, f) && n.pc == pc + 2 && Lo32(n.l0) + 4 <= |n.mem|
    requires NSlot(n, p.cells[pc].c / W32 / 8) == x6 && NSlot(n, p.cells[pc].b / 8) == v
    ensures var ea := Lo32(n.l0);
            DriveRun(p, n, 2) == (n.(mem := n.mem[..ea] + Bytes(x6, 4) + n.mem[ea + 4..],
                                     pc := if Lo32(v) != 0 then p.cells[pc + 3].c / 32 else pc + 4), Running)
  {
    hide Bytes, DriveStep;
    OneStore(p, n);
    TwoSteps(p, n);
    OneBranch(p, DriveStep(p, n).0);
  }

  lemma StopsThere(p: Prog, n: Native, k: nat)
    requires 0 < k && DriveStep(p, n).1 != Running
    ensures DriveRun(p, n, k) == DriveStep(p, n)
  {
    hide DriveStep;
  }
}
