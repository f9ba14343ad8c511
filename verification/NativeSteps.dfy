/** Each native handler takes coherent states to coherent states. */
module NativeSteps {
  import opened Words
  import opened WasmNum
  import opened LittleEndian
  import opened Interp
  import opened WellFormed
  import opened Coherence

  lemma LoadNarrow(k: Access, mem: seq<Byte>, ea: nat)
    requires if k.signed then k.w == I32 else k.size <= 4
    ensures LoadVal(k, mem, ea).Done? ==> LoadVal(k, mem, ea).v < W32
  {
    hide Pow2;
    Pow2Values();
    if ea + k.size <= |mem| && !k.signed {
      Pow2Grows(8 * k.size, 32);
    }
  }

  /** A claimed zero-extended result is one. */
  lemma ResultIsNarrow(p: Prog, f: Func, a: Ann, c: Cell, slow: bool, x: Word, y: Word, cond: bool, addr2: Word,
                       mem: seq<Byte>, glob: seq<Word>)
    requires IsValueOp(c.op) && ResultNarrow(p, f, a, c, slow) && GlobalsHold(p, glob)
    requires c.op.MovSlot? || c.op.Select? ==> x < W32
    requires c.op.Select? ==> y < W32
    ensures Compute(c, x, y, cond, addr2, mem, glob).Done? ==> Compute(c, x, y, cond, addr2, mem, glob).v < W32
  {
    hide IBin, ICmp, IUn;
    if c.op.Load? {
      LoadNarrow(c.op.acc, mem, Address(c.op.fused, x, addr2, c.b));
    }
  }

  /** A cell's result depends only on the operands it reads. */
  lemma ComputeAgrees(c: Cell, x: Word, y: Word, s: Word, x': Word, y': Word, s': Word, mem: seq<Byte>, glob: seq<Word>)
    requires IsValueOp(c.op)
    requires ReadsA(c.op) ==> x == x'
    requires ReadsB(c.op) ==> y == y'
    requires ReadsPacked(c.op) ==> s == s'
    requires c.op.Select? ==> s < W32
    ensures Compute(c, x, y, s != 0, s, mem, glob) == Compute(c, x', y', Lo32(s') != 0, s', mem, glob)
  {
    hide IBin, ICmp, IUn, IDiv, LoadVal;
  }

  lemma OperandsAgree(p: Prog, n: Native, r: Ref, f: Func, a: Ann, c: Cell)
    requires Local(f, a, n, r) && OperandsOk(p, f, a, c, false)
    ensures ReadsA(c.op) ==> NA(c, n) == RA(c, r)
    ensures ReadsB(c.op) ==> NB(c, n) == RB(c, r)
    ensures ReadsPacked(c.op) ==> NSlot(n, PackedSlot(c)) == RSlot(r, PackedSlot(c))
    ensures c.op.Select? ==> NSlot(n, PackedSlot(c)) < W32
  {
    if ReadsA(c.op) { FetchAgrees(f, a, n, r, c.va, c.a, false); }
    if ReadsB(c.op) { FetchAgrees(f, a, n, r, c.vb, c.b, false); }
    if ReadsPacked(c.op) { SlotAgrees(f, a, n.stack, r.stack, n.fp, c.c / W32, c.op.Select?); }
  }

  /** The operands a zero-extended move or select copies are zero-extended. */
  lemma CopiedOperandsNarrow(p: Prog, n: Native, r: Ref, f: Func, a: Ann, c: Cell)
    requires Local(f, a, n, r) && ResultNarrow(p, f, a, c, false)
    ensures c.op.MovSlot? || c.op.Select? ==> NA(c, n) < W32
    ensures c.op.Select? ==> NB(c, n) < W32
  {
    if c.op.MovSlot? || c.op.Select? { FetchAgrees(f, a, n, r, c.va, c.a, true); }
    if c.op.Select? { FetchAgrees(f, a, n, r, c.vb, c.b, true); }
  }

  lemma ValueStep(p: Prog, n: Native, r: Ref)
    requires Linked(p) && Coherent(p, n, r)
    requires p.cells[r.pc].native && IsValueOp(p.cells[r.pc].op)
    requires NativeStep(p, n).1 != Bailed
    ensures Agree(p, NativeStep(p, n).0, NativeStep(p, n).1, RefStep(p, r).0, RefStep(p, r).1)
  {
    hide Compute, DivBails, FrameHolds, AccHolds, PinsHold, Suspended, AnnLeq, ReadOk, KnownSlot, GlobalsHold;
    hide NativeCall, RefCall, NativeReturn, RefReturn, NativeFillCopy, RefFillCopy, NativeBulk, RefBulk, StoreVal;
    hide IBin, BranchTo, ResultNarrow, OperandsOk, Put, PinPut;
    var c, f, a := p.cells[r.pc], Fn(p, r.pc), p.ann[r.pc];
    assert CellOk(p, r.pc) && FuncOk(p, f) && ValueCellOk(p, r.pc, false);
    FrameBounds(f, a, n, r);
    OperandsAgree(p, n, r, f, a, c);
    var x, y, s := NA(c, n), NB(c, n), NSlot(n, PackedSlot(c));
    ComputeAgrees(c, x, y, s, RA(c, r), RB(c, r), RSlot(r, PackedSlot(c)), r.mem, r.glob);
    var v := Compute(c, x, y, s != 0, s, n.mem, n.glob);
    if v.Done? {
      var narrow := ResultNarrow(p, f, a, c, false);
      if narrow {
        CopiedOperandsNarrow(p, n, r, f, a, c);
        ResultIsNarrow(p, f, a, c, false, x, y, s != 0, s, n.mem, n.glob);
      }
      FinishAgrees(f, a, n, r, DstSlot(c), c.vd, v.v, narrow);
      FinishFrame(n, DstSlot(c), c.vd, v.v);
      Arrive(p, n, r, NNext(Finish(n, DstSlot(c), c.vd, v.v)), RNext(RPut(r, DstSlot(c), v.v)),
             After(a, DstSlot(c), c.vd, narrow));
    }
  }

  /** Landing a result touches only the slot and the registers. */
  lemma FinishFrame(n: Native, i: nat, d: DstCls, v: Word)
    ensures var n' := Finish(n, i, d, v);
            && n' == n.(stack := n'.stack, acc := n'.acc, l0 := n'.l0, l1 := n'.l1)
            && |n'.stack| == |n.stack|
            && forall k :: 0 <= k < |n.stack| && k != n.fp + i ==> n'.stack[k] == n.stack[k]
    ensures var m := PinPut(n, i, d, v);
            && m == n.(stack := m.stack, l0 := m.l0, l1 := m.l1)
            && |m.stack| == |n.stack|
            && forall k :: 0 <= k < |n.stack| && k != n.fp + i ==> m.stack[k] == n.stack[k]
  {
  }

  lemma BranchAgrees(p: Prog, c: Cell, pc: nat, code: nat, x: Word, y: Word, x': Word, y': Word)
    requires IsBranchOp(c.op) && (ReadsA(c.op) ==> x == x') && (ReadsB(c.op) ==> y == y')
    ensures BranchTo(p, c, pc, code, x, y) == BranchTo(p, c, pc, code, x', y')
  {
    hide CmpVal;
  }

  lemma BranchStep(p: Prog, n: Native, r: Ref)
    requires Linked(p) && Coherent(p, n, r)
    requires p.cells[r.pc].native && IsBranchOp(p.cells[r.pc].op)
    ensures Agree(p, NativeStep(p, n).0, NativeStep(p, n).1, RefStep(p, r).0, RefStep(p, r).1)
  {
    hide BranchTo, Compute, DivBails, StoreVal, IBin, FrameHolds, AccHolds, PinsHold, Suspended, AnnLeq, ReadOk;
    hide KnownSlot, GlobalsHold, NativeCall, RefCall, NativeReturn, RefReturn, NativeFillCopy, RefFillCopy;
    hide NativeBulk, RefBulk, OperandsOk;
    var c, f, a := p.cells[r.pc], Fn(p, r.pc), p.ann[r.pc];
    assert CellOk(p, r.pc) && BranchCellOk(p, r.pc, false);
    FrameBounds(f, a, n, r);
    OperandsAgree(p, n, r, f, a, c);
    BranchAgrees(p, c, n.pc, n.code, NA(c, n), NB(c, n), RA(c, r), RB(c, r));
    BranchLands(p, r.pc, NA(c, n), NB(c, n), false);
    var t := BranchTo(p, c, n.pc, n.code, NA(c, n), NB(c, n));
    Arrive(p, n, r, n.(pc := t), r.(pc := t), a);
  }

  /** Every branch target is a successor the annotation allows. */
  lemma BranchLands(p: Prog, pc: nat, x: Word, y: Word, slow: bool)
    requires Linked(p) && pc < |p.cells| && IsBranchOp(p.cells[pc].op) && BranchCellOk(p, pc, slow)
    ensures Flow(p, pc, Settled(p.ann[pc], slow), BranchTo(p, p.cells[pc], pc, 32 * Fn(p, pc).base, x, y))
  {
    hide CmpVal, Flow, OperandsOk, CellOk;
    var c := p.cells[pc];
    if c.op.BrTable? { TableLands(p, pc, x, y, slow); }
  }

  lemma TableLands(p: Prog, pc: nat, x: Word, y: Word, slow: bool)
    requires Linked(p) && pc < |p.cells| && p.cells[pc].op.BrTable? && BranchCellOk(p, pc, slow)
    ensures Flow(p, pc, Settled(p.ann[pc], slow), BranchTo(p, p.cells[pc], pc, 32 * Fn(p, pc).base, x, y))
  {
    hide Flow, OperandsOk, CellOk;
    var c, base := p.cells[pc], Fn(p, pc).base;
    var i := c.b / 4 + if Lo32(x) < c.c then Lo32(x) else c.c;
    assert c.b / 4 <= i <= c.b / 4 + c.c;
    assert TableFlow(p, pc, Settled(p.ann[pc], slow), i);
    assert (32 * base + 32 * p.brFlat[i]) / 32 == base + p.brFlat[i];
  }

  lemma PairFacts(p: Prog, pc: nat)
    requires Linked(p) && pc < |p.cells| && p.cells[pc].native && p.cells[pc].op.MovPair?
    ensures pc < |p.owner| == |p.ann| && p.owner[pc] < |p.funcs| && AnnOk(Fn(p, pc), p.ann[pc])
    ensures FuncOk(p, Fn(p, pc)) && PairCellOk(p, pc, false)
  {
    hide PairCellOk, FuncOk, AnnOk;
    assert CellOk(p, pc);
  }

  /** What is known after both ordered copies. */
  function PairAnn(f: Func, a: Ann, c: Cell): (b: Ann)
    requires PackedSlot(c) < |a.slots| && c.c % W32 / 8 < |a.slots|
  {
    var a1 := Put(a, PackedSlot(c), NarrowOperand(f, a, c.va, c.a));
    var (d2, narrow) := (c.c % W32 / 8, NarrowOperand(f, a1, c.vb, c.b));
    Put(a1, d2, narrow).(acc := AccOf(d2, narrow))
  }

  /** The ordered copies keep the frames in agreement whatever slots they alias. */
  lemma PairLocal(f: Func, a: Ann, n: Native, r: Ref, c: Cell)
    requires Local(f, a, n, r) && (f.pin0 && f.pin1 ==> f.l0 != f.l1) && |a.slots| == f.frameSlots
    requires ReadOk(f, a, c.va, c.a, false) && First(c.vp) != ToAcc && Second(c.vp) != ToAcc
    requires DstOk(f, First(c.vp), PackedSlot(c)) && DstOk(f, Second(c.vp), c.c % W32 / 8)
    requires ReadOk(f, Put(a, PackedSlot(c), NarrowOperand(f, a, c.va, c.a)), c.vb, c.b, false)
    ensures Local(f, PairAnn(f, a, c), NativePair(c, n), RefPair(c, r))
  {
    hide FrameHolds, AccHolds, PinsHold, ReadOk, PinPut, Put;
    var d1, d2 := PackedSlot(c), c.c % W32 / 8;
    var x := NA(c, n);
    FrameBounds(f, a, n, r);
    var narrow1 := NarrowOperand(f, a, c.va, c.a);
    FetchAgrees(f, a, n, r, c.va, c.a, narrow1);
    PinPutAgrees(f, a, n, r, d1, First(c.vp), x, narrow1);
    FinishFrame(n, d1, First(c.vp), x);
    var n1, r1, a1 := PinPut(n, d1, First(c.vp), x), RPut(r, d1, x), Put(a, d1, narrow1);
    var y := NB(c, n1);
    var narrow2 := NarrowOperand(f, a1, c.vb, c.b);
    FetchAgrees(f, a1, n1, r1, c.vb, c.b, narrow2);
    PinPutAgrees(f, a1, n1, r1, d2, Second(c.vp), y, narrow2);
    FinishFrame(n1, d2, Second(c.vp), y);
    var n2, r2, a2 := PinPut(n1, d2, Second(c.vp), y), RPut(r1, d2, y), Put(a1, d2, narrow2);
    AccDrop(f, a2, n2, r2, y);
    assert RSlot(r2, d2) == y;
    AccSet(f, a2.(acc := NoAcc), n2.(acc := y), r2, d2, narrow2);
  }

  lemma PairFrame(n: Native, r: Ref, c: Cell)
    ensures var (n', r') := (NativePair(c, n), RefPair(c, r));
            && n' == Native(n'.stack, n.fp, n.mem, n.glob, n.pc + 1, n.rets, n.code, n'.acc, n'.l0, n'.l1)
            && r' == Ref(r'.stack, r.fp, r.mem, r.glob, r.pc + 1, r.rets)
            && |n'.stack| == |n.stack| && |r'.stack| == |r.stack|
            && forall i :: 0 <= i < r.fp && i < |r.stack| ==> r'.stack[i] == r.stack[i]
    ensures forall i :: 0 <= i < n.fp && i < |n.stack| ==> NativePair(c, n).stack[i] == n.stack[i]
  {
    hide PinPut;
    var n1 := PinPut(n, PackedSlot(c), First(c.vp), NA(c, n));
    FinishFrame(n, PackedSlot(c), First(c.vp), NA(c, n));
    FinishFrame(n1, c.c % W32 / 8, Second(c.vp), NB(c, n1));
  }

  lemma PairStep(p: Prog, n: Native, r: Ref)
    requires Linked(p) && Coherent(p, n, r)
    requires p.cells[r.pc].native && p.cells[r.pc].op.MovPair?
    ensures Agree(p, NativeStep(p, n).0, NativeStep(p, n).1, RefStep(p, r).0, RefStep(p, r).1)
  {
    hide Linked, CellOk, ModeOk, NativeStep, RefStep, FrameHolds, AccHolds, PinsHold, Suspended, AnnLeq, ReadOk;
    hide GlobalsHold, PinPut, NativePair, RefPair, Put;
    PairCell(p, n);
    RefCells(p, r);
    PairFacts(p, r.pc);
    var c, f, a := p.cells[r.pc], Fn(p, r.pc), p.ann[r.pc];
    PairLocal(f, a, n, r, c);
    PairFrame(n, r, c);
    FrameBounds(f, a, n, r);
    Arrive(p, n, r, NativePair(c, n), RefPair(c, r), PairAnn(f, a, c));
  }

  lemma FrameBounds(f: Func, a: Ann, n: Native, r: Ref)
    requires Local(f, a, n, r)
    ensures |n.stack| == |r.stack| && r.fp + f.frameSlots <= |r.stack|
  {
  }

  lemma SubBrFacts(p: Prog, pc: nat)
    requires Linked(p) && pc < |p.cells| && p.cells[pc].native && p.cells[pc].op.SubBrIf?
    ensures pc < |p.owner| == |p.ann| && p.owner[pc] < |p.funcs| && AnnOk(Fn(p, pc), p.ann[pc])
    ensures FuncOk(p, Fn(p, pc)) && SubBrCellOk(p, pc, false)
  {
    hide SubBrCellOk, FuncOk, AnnOk, TablesOk;
    assert CellOk(p, pc);
  }

  /** In place, write-through; whatever the accumulator holds afterwards is forgotten. */
  lemma SubBrLocal(p: Prog, f: Func, a: Ann, n: Native, r: Ref, c: Cell)
    requires Local(f, a, n, r) && (f.pin0 && f.pin1 ==> f.l0 != f.l1) && |a.slots| == f.frameSlots
    requires c.op.SubBrIf? && OperandsOk(p, f, a, c, false) && SlotOk(f, c.a) && DstOk(f, InPlaceDst(c.va), c.a / 8)
    ensures NA(c, n) == RA(c, r) && NB(c, n) == RB(c, r)
    ensures Local(f, Settled(Put(a, c.a / 8, c.op.w == I32), true), NativeSubBr(p, c.op.w, c, n), RefSubBr(c.op.w, c, r))
  {
    hide FrameHolds, AccHolds, PinsHold, ReadOk, PinPut, Put, BinVal;
    OperandsAgree(p, n, r, f, a, c);
    var v := BinVal(c.op.w, Sub, NA(c, n), NB(c, n));
    NarrowDifference(c.op.w, NA(c, n), NB(c, n));
    FrameBounds(f, a, n, r);
    PinPutAgrees(f, a, n, r, c.a / 8, InPlaceDst(c.va), v, c.op.w == I32);
    FinishFrame(n, c.a / 8, InPlaceDst(c.va), v);
    AccDrop(f, Put(a, c.a / 8, c.op.w == I32), PinPut(n, c.a / 8, InPlaceDst(c.va), v), RPut(r, c.a / 8, v), NativeSubBr(p, c.op.w, c, n).acc);
  }

  lemma NarrowDifference(w: Width, x: Word, y: Word)
    ensures w == I32 ==> BinVal(w, Sub, x, y) < W32
  {
    hide Pow2;
  }

  lemma SubBrFrame(p: Prog, n: Native, r: Ref, c: Cell)
    requires c.op.SubBrIf?
    ensures var (n', r') := (NativeSubBr(p, c.op.w, c, n), RefSubBr(c.op.w, c, r));
            && n' == Native(n'.stack, n.fp, n.mem, n.glob, n'.pc, n.rets, n.code, n'.acc, n'.l0, n'.l1)
            && r' == Ref(r'.stack, r.fp, r.mem, r.glob, r'.pc, r.rets)
            && |n'.stack| == |n.stack| && |r'.stack| == |r.stack|
            && forall i :: 0 <= i < r.fp && i < |r.stack| ==> r'.stack[i] == r.stack[i]
    ensures forall i :: 0 <= i < n.fp && i < |n.stack| ==> NativeSubBr(p, c.op.w, c, n).stack[i] == n.stack[i]
  {
    hide PinPut, BinVal;
    FinishFrame(n, c.a / 8, InPlaceDst(c.va), BinVal(c.op.w, Sub, NA(c, n), NB(c, n)));
  }

  lemma SubBrStep(p: Prog, n: Native, r: Ref)
    requires Linked(p) && Coherent(p, n, r)
    requires p.cells[r.pc].native && p.cells[r.pc].op.SubBrIf?
    ensures Agree(p, NativeStep(p, n).0, NativeStep(p, n).1, RefStep(p, r).0, RefStep(p, r).1)
  {
    hide Linked, CellOk, ModeOk, NativeStep, RefStep, FrameHolds, AccHolds, PinsHold, Suspended, AnnLeq, OperandsOk;
    hide GlobalsHold, PinPut, Put, BinVal, TablesOk;
    SubBrCell(p, n);
    RefCells(p, r);
    SubBrFacts(p, r.pc);
    var c, f, a := p.cells[r.pc], Fn(p, r.pc), p.ann[r.pc];
    SubBrLocal(p, f, a, n, r, c);
    SubBrFrame(p, n, r, c);
    FrameBounds(f, a, n, r);
    Arrive(p, n, r, NativeSubBr(p, c.op.w, c, n), RefSubBr(c.op.w, c, r), Settled(Put(a, c.a / 8, c.op.w == I32), true));
  }

  lemma StoreStep(p: Prog, n: Native, r: Ref)
    requires Linked(p) && Coherent(p, n, r)
    requires p.cells[r.pc].native && p.cells[r.pc].op.Store?
    ensures Agree(p, NativeStep(p, n).0, NativeStep(p, n).1, RefStep(p, r).0, RefStep(p, r).1)
  {
    hide Compute, DivBails, StoreVal, BranchTo, IBin, FrameHolds, AccHolds, PinsHold, Suspended, AnnLeq, ReadOk;
    hide KnownSlot, GlobalsHold, NativeCall, RefCall, NativeReturn, RefReturn, NativeFillCopy, RefFillCopy;
    hide NativeBulk, RefBulk, OperandsOk, Address;
    var c, f, a := p.cells[r.pc], Fn(p, r.pc), p.ann[r.pc];
    assert CellOk(p, r.pc) && StoreCellOk(p, r.pc, false);
    FrameBounds(f, a, n, r);
    OperandsAgree(p, n, r, f, a, c);
    var k, offset := c.op.acc, if c.op.fused then c.c % W32 else c.c;
    var ea := Address(c.op.fused, NA(c, n), NSlot(n, PackedSlot(c)), offset);
    assert ea == Address(c.op.fused, RA(c, r), RSlot(r, PackedSlot(c)), offset) by { AddressAgrees(c, n, r, offset); }
    var m := StoreVal(k, n.mem, ea, NB(c, n));
    if m.Some? {
      Arrive(p, n, r, NNext(n.(mem := m.value)), RNext(r.(mem := m.value)), a);
    }
  }

  lemma AddressAgrees(c: Cell, n: Native, r: Ref, offset: nat)
    requires c.op.Store? && NA(c, n) == RA(c, r)
    requires c.op.fused ==> NSlot(n, PackedSlot(c)) == RSlot(r, PackedSlot(c))
    ensures Address(c.op.fused, NA(c, n), NSlot(n, PackedSlot(c)), offset)
         == Address(c.op.fused, RA(c, r), RSlot(r, PackedSlot(c)), offset)
  {
  }

  lemma GlobalStep(p: Prog, n: Native, r: Ref)
    requires Linked(p) && Coherent(p, n, r)
    requires p.cells[r.pc].native && p.cells[r.pc].op.GlobalSet?
    ensures Agree(p, NativeStep(p, n).0, NativeStep(p, n).1, RefStep(p, r).0, RefStep(p, r).1)
  {
    hide Compute, DivBails, StoreVal, BranchTo, IBin, FrameHolds, AccHolds, PinsHold, Suspended, AnnLeq, ReadOk;
    hide KnownSlot, NativeCall, RefCall, NativeReturn, RefReturn, NativeFillCopy, RefFillCopy, NativeBulk, RefBulk;
    hide OperandsOk;
    var c, f, a := p.cells[r.pc], Fn(p, r.pc), p.ann[r.pc];
    assert CellOk(p, r.pc) && StoreCellOk(p, r.pc, false);
    FrameBounds(f, a, n, r);
    OperandsAgree(p, n, r, f, a, c);
    if c.b / 8 < |p.narrowGlob| && p.narrowGlob[c.b / 8] { FetchAgrees(f, a, n, r, c.va, c.a, true); }
    var g := Set(n.glob, c.b / 8, NA(c, n));
    Arrive(p, n, r, NNext(n.(glob := g)), RNext(r.(glob := g)), a);
  }

  lemma PackAgrees(f: Func, a: Ann, ns: seq<Word>, rs: seq<Word>, fp: nat, field: nat, copy: bool)
    requires FrameHolds(f, a, ns, rs, fp) && PackOk(f, a, field, copy)
    ensures Get(ns, fp + field / 8) == Get(rs, fp + field / 8) < W32
    ensures Get(ns, fp + field / 8 + 1) == Get(rs, fp + field / 8 + 1)
    ensures copy ==> Get(rs, fp + field / 8 + 1) < W32
    ensures Get(ns, fp + field / 8 + 2) == Get(rs, fp + field / 8 + 2) < W32
  {
    SlotAgrees(f, a, ns, rs, fp, field, true);
    SlotAgrees(f, a, ns, rs, fp, field + 8, copy);
    SlotAgrees(f, a, ns, rs, fp, field + 16, true);
  }

  lemma BulkStep(p: Prog, n: Native, r: Ref)
    requires Linked(p) && Coherent(p, n, r)
    requires p.cells[r.pc].native && (p.cells[r.pc].op.MemoryFill? || p.cells[r.pc].op.MemoryCopy?)
    requires NativeStep(p, n).1 != Bailed
    ensures Agree(p, NativeStep(p, n).0, NativeStep(p, n).1, RefStep(p, r).0, RefStep(p, r).1)
  {
    hide NativeStep, RefStep, FrameHolds, AccHolds, PinsHold, Suspended, AnnLeq, ReadOk, KnownSlot, GlobalsHold;
    hide FillMem, CopyMem, PackOk, Compute, DivBails, StoreVal, BranchTo, IBin, NativeCall, RefCall, NativeReturn;
    hide RefReturn, NativeValue, RefValue, NativeStore, RefStore, Enter, ValueCellOk, BranchCellOk, StoreCellOk;
    hide CallCellOk, ReturnCellOk, NativeFillCopy, RefFillCopy, PairCellOk, SubBrCellOk, NativePair, RefPair;
    hide NativeSubBr, RefSubBr;
    BulkCell(p, n);
    RefCells(p, r);
    var c, f, a := p.cells[r.pc], Fn(p, r.pc), p.ann[r.pc];
    assert CellOk(p, r.pc) && BulkCellOk(p, r.pc);
    PackAgrees(f, a, n.stack, r.stack, r.fp, c.a, c.op.MemoryCopy?);
    AccDrop(f, a, n, r, n.acc);
    Arrive(p, n, r, NativeBulk(c, n).0, RefBulk(c, r).0, Settled(a, true));
  }

  ghost predicate PackSame(n: Native, r: Ref, i: nat) {
    NSlot(n, i) == RSlot(r, i) < W32 && NSlot(n, i + 1) == RSlot(r, i + 1) && NSlot(n, i + 2) == RSlot(r, i + 2) < W32
  }

  /** The fused fill over the union is the fill followed by the copy. */
  lemma FillCopyAgrees(c: Cell, n: Native, r: Ref)
    requires n.mem == r.mem && NativeFillCopy(c, n).1 != Bailed
    requires PackSame(n, r, c.a / 8) && PackSame(n, r, c.b / 8) && RSlot(r, c.b / 8 + 1) < W32
    ensures RefFillCopy(c, r).1 == NativeFillCopy(c, n).1 == Running
    ensures RefFillCopy(c, r).0 == RNext(r.(mem := (RefFillCopy(c, r).0).mem))
    ensures NativeFillCopy(c, n).0 == NNext(n.(mem := (RefFillCopy(c, r).0).mem))
  {
    hide FillMem, CopyMem, NSlot, RSlot;
    var (i, j) := (c.a / 8, c.b / 8);
    UnionFill(r.mem, RSlot(r, i), RSlot(r, i + 1), RSlot(r, i + 2), RSlot(r, j), RSlot(r, j + 1), RSlot(r, j + 2));
  }

  lemma FillCopyStep(p: Prog, n: Native, r: Ref)
    requires Linked(p) && Coherent(p, n, r)
    requires p.cells[r.pc].native && p.cells[r.pc].op.MemoryFillCopy?
    requires NativeStep(p, n).1 != Bailed
    ensures Agree(p, NativeStep(p, n).0, NativeStep(p, n).1, RefStep(p, r).0, RefStep(p, r).1)
  {
    hide NativeStep, RefStep, FrameHolds, AccHolds, PinsHold, Suspended, AnnLeq, ReadOk, KnownSlot, GlobalsHold;
    hide NativeFillCopy, RefFillCopy, PackOk, Compute, DivBails, StoreVal, BranchTo, IBin, NativeCall, RefCall;
    hide NativeReturn, RefReturn, NativeValue, RefValue, NativeStore, RefStore, Enter, ValueCellOk, BranchCellOk;
    hide StoreCellOk, CallCellOk, ReturnCellOk, NativeBulk, RefBulk, PairCellOk, SubBrCellOk, NativePair, RefPair;
    hide NativeSubBr, RefSubBr;
    FillCopyCell(p, n);
    RefCells(p, r);
    var c, f, a := p.cells[r.pc], Fn(p, r.pc), p.ann[r.pc];
    assert CellOk(p, r.pc) && BulkCellOk(p, r.pc);
    PackAgrees(f, a, n.stack, r.stack, r.fp, c.a, false);
    PackAgrees(f, a, n.stack, r.stack, r.fp, c.b, true);
    FillCopyAgrees(c, n, r);
    AccDrop(f, a, n, r, n.acc);
    FrameBounds(f, a, n, r);
    Arrive(p, n, r, NativeFillCopy(c, n).0, RefFillCopy(c, r).0, Settled(a, true));
  }

  lemma UnionFill(m: seq<Byte>, fd: nat, v: Word, fn: nat, cd: nat, cs: nat, cn: nat)
    requires fd + fn <= |m| && cd + cn <= |m| && fd <= cs && cs + cn <= fd + fn && cd <= fd + fn && fd <= cd + cn
    ensures FillMem(m, fd, v, fn).Some? && CopyMem(FillMem(m, fd, v, fn).value, cd, cs, cn).Some?
    ensures var lo := if fd < cd then fd else cd;
            var hi := if fd + fn >= cd + cn then fd + fn else cd + cn;
            FillMem(m, lo, v, hi - lo) == CopyMem(FillMem(m, fd, v, fn).value, cd, cs, cn)
  {
    var lo := if fd < cd then fd else cd;
    var hi := if fd + fn >= cd + cn then fd + fn else cd + cn;
    var f := FillMem(m, fd, v, fn).value;
    var g := CopyMem(f, cd, cs, cn).value;
    var h := FillMem(m, lo, v, hi - lo).value;
    forall i | 0 <= i < |m|
      ensures g[i] == h[i]
    {
      if cd <= i < cd + cn {
        assert g[i] == f[cs..cs + cn][i - cd] == f[cs + (i - cd)];
      } else {
        assert g[i] == f[i];
      }
    }
    assert h == g;
  }
}
