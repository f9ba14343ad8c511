/** A cell finished by the shared executor: it runs on the native machine's own slots,
    and the pinned registers are reloaded afterwards. */
module SlowSteps {
  import opened Words
  import opened WasmNum
  import opened Interp
  import opened WellFormed
  import opened Coherence
  import opened NativeSteps
  import opened CallSteps

  /** The executor's view of the native machine. */
  function View(n: Native): (r: Ref) {
    Ref(n.stack, n.fp, n.mem, n.glob, n.pc, [])
  }

  lemma OperandAgrees(f: Func, a: Ann, q: Ref, r: Ref, cls: Cls, field: Word, narrow: bool)
    requires q.fp == r.fp && FrameHolds(f, a, q.stack, r.stack, r.fp) && ReadOk(f, a, AtCls(cls, true), field, narrow)
    ensures var x := if cls.Const? then field else RSlot(r, field / 8);
            x == (if cls.Const? then field else RSlot(q, field / 8)) && (narrow ==> x < W32)
  {
    if !cls.Const? { SlotAgrees(f, a, q.stack, r.stack, r.fp, field, narrow); }
  }

  lemma SlowOperandsAgree(p: Prog, f: Func, a: Ann, q: Ref, r: Ref, c: Cell)
    requires q.fp == r.fp && FrameHolds(f, a, q.stack, r.stack, r.fp) && OperandsOk(p, f, a, c, true)
    ensures ReadsA(c.op) ==> RA(c, q) == RA(c, r)
    ensures ReadsB(c.op) ==> RB(c, q) == RB(c, r)
    ensures ReadsPacked(c.op) ==> RSlot(q, PackedSlot(c)) == RSlot(r, PackedSlot(c))
  {
    if ReadsA(c.op) { OperandAgrees(f, a, q, r, c.va, c.a, false); }
    if ReadsB(c.op) { OperandAgrees(f, a, q, r, c.vb, c.b, false); }
    if ReadsPacked(c.op) { SlotAgrees(f, a, q.stack, r.stack, r.fp, c.c / W32, c.op.Select?); }
  }

  lemma PutAgrees(f: Func, a: Ann, q: Ref, r: Ref, slot: nat, v: Word, narrow: bool)
    requires q.fp == r.fp && FrameHolds(f, a, q.stack, r.stack, r.fp) && slot < f.frameSlots && (narrow ==> v < W32)
    ensures FrameHolds(f, Put(a, slot, narrow), RPut(q, slot, v).stack, RPut(r, slot, v).stack, r.fp)
  {
    var b, q', r' := Put(a, slot, narrow), RPut(q, slot, v), RPut(r, slot, v);
    forall i | 0 <= i < f.frameSlots
      ensures KnowHolds(b.slots[i], q'.stack[r.fp + i], r'.stack[r.fp + i])
    {
      assert KnowHolds(a.slots[i], q.stack[r.fp + i], r.stack[r.fp + i]);
    }
  }

  /** Re-entering the chain after the executor: nothing is claimed of the accumulator. */
  lemma SlowArrive(p: Prog, n: Native, r: Ref, q': Ref, r': Ref, b: Ann)
    requires Linked(p) && Coherent(p, n, r) && b.acc == NoAcc && Flow(p, r.pc, b, r'.pc)
    requires FrameHolds(Fn(p, r.pc), b, q'.stack, r'.stack, r.fp)
    requires q'.pc == r'.pc && q'.mem == r'.mem && q'.glob == r'.glob && GlobalsHold(p, r'.glob)
    requires r'.fp == r.fp && r'.rets == r.rets
    requires SameBelow(n.stack, q'.stack, r.fp) && SameBelow(r.stack, r'.stack, r.fp)
    ensures Coherent(p, Reload(p, n.(stack := q'.stack, mem := q'.mem, glob := q'.glob, pc := q'.pc)), r')
  {
    var f := Fn(p, r.pc);
    PinsReload(f, b, q'.stack, r'.stack, r.fp);
    NoAccHolds(f, n.acc, r'.stack, r.fp);
    FrameBounds(f, p.ann[r.pc], n, r);
    hide FrameHolds, AccHolds, PinsHold, Suspended, AnnLeq, GlobalsHold;
    Arrive(p, n, r, Reload(p, n.(stack := q'.stack, mem := q'.mem, glob := q'.glob, pc := q'.pc)), r', b);
  }

  lemma PutBelow(r: Ref, slot: nat, v: Word)
    ensures SameBelow(r.stack, RPut(r, slot, v).stack, r.fp)
  {
  }

  ghost predicate SlowAgrees(p: Prog, n: Native, r: Ref)
    requires Shape(p)
  {
    Agree(p, SlowStep(p, n).0, SlowStep(p, n).1, RefStep(p, r).0, RefStep(p, r).1)
  }

  lemma CoherentFrame(p: Prog, n: Native, r: Ref)
    requires Linked(p) && Coherent(p, n, r)
    ensures r.pc < |p.cells| == |p.owner| == |p.ann| && p.owner[r.pc] < |p.funcs|
    ensures n.fp == r.fp && FrameHolds(Fn(p, r.pc), p.ann[r.pc], n.stack, r.stack, r.fp)
    ensures n.pc == r.pc && n.mem == r.mem && n.glob == r.glob && GlobalsHold(p, r.glob)
    ensures n.code == CodeBase(p, r.pc)
  {
  }

  lemma SlowNarrow(p: Prog, f: Func, a: Ann, q: Ref, r: Ref, c: Cell)
    requires q.fp == r.fp && FrameHolds(f, a, q.stack, r.stack, r.fp) && ResultNarrow(p, f, a, c, true)
    ensures c.op.MovSlot? || c.op.Select? ==> RA(c, r) < W32
    ensures c.op.Select? ==> RB(c, r) < W32
  {
    if c.op.MovSlot? || c.op.Select? { OperandAgrees(f, a, q, r, c.va, c.a, true); }
    if c.op.Select? { OperandAgrees(f, a, q, r, c.vb, c.b, true); }
  }

  /** A one-result cell computes the same value or the same trap from both stacks. */
  lemma SlowCompute(p: Prog, f: Func, a: Ann, q: Ref, r: Ref, c: Cell)
    requires IsValueOp(c.op) && q.fp == r.fp && FrameHolds(f, a, q.stack, r.stack, r.fp) && OperandsOk(p, f, a, c, true)
    requires q.mem == r.mem && q.glob == r.glob && GlobalsHold(p, r.glob)
    ensures var (s, s') := (RSlot(q, PackedSlot(c)), RSlot(r, PackedSlot(c)));
            var v := Compute(c, RA(c, r), RB(c, r), Lo32(s') != 0, s', r.mem, r.glob);
            && Compute(c, RA(c, q), RB(c, q), Lo32(s) != 0, s, q.mem, q.glob) == v
            && (v.Done? && ResultNarrow(p, f, a, c, true) ==> v.v < W32)
  {
    hide IBin, ICmp, IUn, IDiv, LoadVal, ResultNarrow, FrameHolds, OperandsOk;
    SlowOperandsAgree(p, f, a, q, r, c);
    if ResultNarrow(p, f, a, c, true) {
      SlowNarrow(p, f, a, q, r, c);
      var s' := RSlot(r, PackedSlot(c));
      ResultIsNarrow(p, f, a, c, true, RA(c, r), RB(c, r), Lo32(s') != 0, s', r.mem, r.glob);
    }
  }

  lemma SlowValue(p: Prog, n: Native, r: Ref)
    requires Linked(p) && Coherent(p, n, r) && IsValueOp(p.cells[r.pc].op) && ValueCellOk(p, r.pc, true)
    ensures SlowAgrees(p, n, r)
  {
    hide Compute, GlobalsHold, FrameHolds, Local, Suspended, OperandsOk, ResultNarrow, SameBelow, RPut;
    hide RefCall, RefReturn, RefFillCopy, RefBulk, StoreVal, IBin, BranchTo, Reload, Put;
    var c, f, a, q := p.cells[r.pc], Fn(p, r.pc), p.ann[r.pc], View(n);
    CoherentFrame(p, n, r);
    SlowCompute(p, f, a, q, r, c);
    var s' := RSlot(r, PackedSlot(c));
    var v := Compute(c, RA(c, r), RB(c, r), Lo32(s') != 0, s', r.mem, r.glob);
    if v.Done? {
      SlowPut(p, n, r, DstSlot(c), v.v, ResultNarrow(p, f, a, c, true), r.pc + 1);
      PutFields(q, DstSlot(c), v.v);
      PutFields(r, DstSlot(c), v.v);
    } else {
      ReloadInPlace(p, n);
    }
  }

  lemma PutFields(r: Ref, slot: nat, v: Word)
    ensures var r' := RPut(r, slot, v);
            r' == Ref(r'.stack, r.fp, r.mem, r.glob, r.pc, r.rets)
  {
  }

  lemma ReloadInPlace(p: Prog, n: Native)
    ensures var n' := Reload(p, n); n'.mem == n.mem && n'.glob == n.glob && n'.pc == n.pc
  {
  }

  /** One slot written, control moves to `t`. */
  lemma SlowPut(p: Prog, n: Native, r: Ref, slot: nat, v: Word, narrow: bool, t: nat)
    requires Linked(p) && Coherent(p, n, r) && slot < Fn(p, r.pc).frameSlots && (narrow ==> v < W32)
    requires Flow(p, r.pc, Put(p.ann[r.pc], slot, narrow).(acc := NoAcc), t)
    ensures var q := RPut(View(n), slot, v);
            Coherent(p, Reload(p, n.(stack := q.stack, mem := n.mem, glob := n.glob, pc := t)), RPut(r, slot, v).(pc := t))
  {
    hide GlobalsHold, FrameHolds, Local, Suspended, SameBelow, AnnLeq, Reload;
    var f, a, q := Fn(p, r.pc), p.ann[r.pc], View(n);
    CoherentFrame(p, n, r);
    PutAgrees(f, a, q, r, slot, v, narrow);
    PutBelow(q, slot, v);
    PutBelow(r, slot, v);
    FrameForgets(f, Put(a, slot, narrow), RPut(q, slot, v).stack, RPut(r, slot, v).stack, r.fp);
    SlowArrive(p, n, r, RPut(q, slot, v).(pc := t), RPut(r, slot, v).(pc := t), Put(a, slot, narrow).(acc := NoAcc));
  }

  lemma FrameForgets(f: Func, a: Ann, ns: seq<Word>, rs: seq<Word>, fp: nat)
    requires FrameHolds(f, a, ns, rs, fp)
    ensures FrameHolds(f, a.(acc := NoAcc), ns, rs, fp)
  {
  }

  lemma BelowItself(s: seq<Word>, k: nat)
    ensures SameBelow(s, s, k)
  {
  }

  /** No slot written: control moves to `t` with the memory and globals of `r'`. */
  lemma SlowMove(p: Prog, n: Native, r: Ref, mem: seq<Byte>, glob: seq<Word>, t: nat)
    requires Linked(p) && Coherent(p, n, r) && Flow(p, r.pc, Settled(p.ann[r.pc], true), t) && GlobalsHold(p, glob)
    ensures Coherent(p, Reload(p, n.(stack := n.stack, mem := mem, glob := glob, pc := t)), r.(mem := mem, glob := glob, pc := t))
  {
    hide GlobalsHold, FrameHolds, Local, Suspended, SameBelow, AnnLeq, Reload;
    CoherentFrame(p, n, r);
    FrameForgets(Fn(p, r.pc), p.ann[r.pc], n.stack, r.stack, r.fp);
    BelowItself(n.stack, r.fp);
    BelowItself(r.stack, r.fp);
    SlowArrive(p, n, r, View(n).(mem := mem, glob := glob, pc := t), r.(mem := mem, glob := glob, pc := t),
               Settled(p.ann[r.pc], true));
  }

  lemma SlowBranch(p: Prog, n: Native, r: Ref)
    requires Linked(p) && Coherent(p, n, r) && IsBranchOp(p.cells[r.pc].op) && BranchCellOk(p, r.pc, true)
    ensures SlowAgrees(p, n, r)
  {
    hide Compute, GlobalsHold, FrameHolds, Local, Suspended, OperandsOk, BranchTo, AnnLeq, Reload;
    hide RefCall, RefReturn, RefFillCopy, RefBulk, StoreVal, IBin;
    var c, f, a, q := p.cells[r.pc], Fn(p, r.pc), p.ann[r.pc], View(n);
    CoherentFrame(p, n, r);
    SlowOperandsAgree(p, f, a, q, r, c);
    BranchAgrees(p, c, r.pc, CodeBase(p, r.pc), RA(c, q), RB(c, q), RA(c, r), RB(c, r));
    BranchLands(p, r.pc, RA(c, r), RB(c, r), true);
    SlowMove(p, n, r, r.mem, r.glob, BranchTo(p, c, r.pc, CodeBase(p, r.pc), RA(c, r), RB(c, r)));
  }

  lemma SlowPair(p: Prog, n: Native, r: Ref)
    requires Linked(p) && Coherent(p, n, r) && p.cells[r.pc].op.MovPair? && PairCellOk(p, r.pc, true)
    ensures SlowAgrees(p, n, r)
  {
    hide Compute, GlobalsHold, FrameHolds, Local, Suspended, ReadOk, SameBelow, Reload, AnnLeq, Put;
    hide RefCall, RefReturn, RefFillCopy, RefBulk, StoreVal, IBin, BranchTo;
    var c, f, a, q := p.cells[r.pc], Fn(p, r.pc), p.ann[r.pc], View(n);
    var d1, d2 := PackedSlot(c), c.c % W32 / 8;
    CoherentFrame(p, n, r);
    var narrow1 := NarrowOperand(f, a, AtCls(c.va, true), c.a);
    OperandAgrees(f, a, q, r, c.va, c.a, narrow1);
    var x := RA(c, r);
    PutAgrees(f, a, q, r, d1, x, narrow1);
    var q1, r1, a1 := RPut(q, d1, x), RPut(r, d1, x), Put(a, d1, narrow1);
    var narrow2 := NarrowOperand(f, a1, AtCls(c.vb, true), c.b);
    OperandAgrees(f, a1, q1, r1, c.vb, c.b, narrow2);
    var y := RB(c, r1);
    PutAgrees(f, a1, q1, r1, d2, y, narrow2);
    PutTwiceBelow(q, d1, x, d2, y);
    PutTwiceBelow(r, d1, x, d2, y);
    var q2, r2, b := RPut(q1, d2, y), RPut(r1, d2, y), Put(a1, d2, narrow2);
    FrameForgets(f, b, q2.stack, r2.stack, r.fp);
    SlowArrive(p, n, r, RNext(q2), RNext(r2), b.(acc := NoAcc));
  }

  lemma PutTwiceBelow(r: Ref, i: nat, x: Word, j: nat, y: Word)
    ensures SameBelow(r.stack, RPut(RPut(r, i, x), j, y).stack, r.fp)
  {
  }

  lemma SlowSubBr(p: Prog, n: Native, r: Ref)
    requires Linked(p) && Coherent(p, n, r) && p.cells[r.pc].op.SubBrIf? && SubBrCellOk(p, r.pc, true)
    ensures SlowAgrees(p, n, r)
  {
    hide Compute, GlobalsHold, FrameHolds, Local, Suspended, OperandsOk, IBin, Reload, AnnLeq, RPut, Put;
    hide RefCall, RefReturn, RefFillCopy, RefBulk, StoreVal, BranchTo;
    var c, f, a, q := p.cells[r.pc], Fn(p, r.pc), p.ann[r.pc], View(n);
    CoherentFrame(p, n, r);
    SlowOperandsAgree(p, f, a, q, r, c);
    var v := BinVal(c.op.w, Sub, RA(c, r), RB(c, r));
    PutFields(q, c.a / 8, v);
    PutFields(r, c.a / 8, v);
    SlowPut(p, n, r, c.a / 8, v, c.op.w == I32, if v != 0 then c.c / 32 else r.pc + 1);
  }

  lemma SlowStore(p: Prog, n: Native, r: Ref)
    requires Linked(p) && Coherent(p, n, r) && p.cells[r.pc].op.Store? && StoreCellOk(p, r.pc, true)
    ensures SlowAgrees(p, n, r)
  {
    hide Compute, GlobalsHold, FrameHolds, Local, Suspended, OperandsOk, IBin, Reload, AnnLeq, StoreVal, RSlot;
    hide RefCall, RefReturn, RefFillCopy, RefBulk, BranchTo;
    var c, f, a, q := p.cells[r.pc], Fn(p, r.pc), p.ann[r.pc], View(n);
    CoherentFrame(p, n, r);
    SlowOperandsAgree(p, f, a, q, r, c);
    var offset := if c.op.fused then c.c % W32 else c.c;
    var m := StoreVal(c.op.acc, r.mem, Address(c.op.fused, RA(c, r), RSlot(r, PackedSlot(c)), offset), RB(c, r));
    if m.Some? {
      SlowMove(p, n, r, m.value, r.glob, r.pc + 1);
    } else {
      ReloadInPlace(p, n);
    }
  }

  lemma SlowGlobal(p: Prog, n: Native, r: Ref)
    requires Linked(p) && Coherent(p, n, r) && p.cells[r.pc].op.GlobalSet? && StoreCellOk(p, r.pc, true)
    ensures SlowAgrees(p, n, r)
  {
    hide Compute, FrameHolds, Local, Suspended, OperandsOk, IBin, Reload, AnnLeq, StoreVal;
    hide RefCall, RefReturn, RefFillCopy, RefBulk, BranchTo;
    var c, f, a, q := p.cells[r.pc], Fn(p, r.pc), p.ann[r.pc], View(n);
    CoherentFrame(p, n, r);
    SlowOperandsAgree(p, f, a, q, r, c);
    if c.b / 8 < |p.narrowGlob| && p.narrowGlob[c.b / 8] { OperandAgrees(f, a, q, r, c.va, c.a, true); }
    SlowMove(p, n, r, r.mem, Set(r.glob, c.b / 8, RA(c, r)), r.pc + 1);
  }

  lemma SlowBulk(p: Prog, n: Native, r: Ref)
    requires Linked(p) && Coherent(p, n, r) && BulkCellOk(p, r.pc)
    requires p.cells[r.pc].op.MemoryFill? || p.cells[r.pc].op.MemoryCopy?
    ensures SlowAgrees(p, n, r)
  {
    hide Linked, CellOk, ModeOk, RefStep, RefCall, RefReturn, RefStore, RefValue, RefPair, RefSubBr, GlobalsHold;
    hide FrameHolds;
    hide Local, Suspended, Reload, AnnLeq, PackOk, FillMem, CopyMem, Compute, StoreVal, BranchTo, SameBelow;
    hide RefFillCopy;
    CoherentFrame(p, n, r);
    RefCells(p, View(n));
    RefCells(p, r);
    var c, f, a := p.cells[r.pc], Fn(p, r.pc), p.ann[r.pc];
    PackAgrees(f, a, n.stack, r.stack, r.fp, c.a, c.op.MemoryCopy?);
    var (r', sr) := RefBulk(c, r);
    if sr == Running {
      SlowMove(p, n, r, r'.mem, r.glob, r.pc + 1);
    } else {
      ReloadInPlace(p, n);
    }
  }

  lemma SlowFillCopy(p: Prog, n: Native, r: Ref)
    requires Linked(p) && Coherent(p, n, r) && BulkCellOk(p, r.pc) && p.cells[r.pc].op.MemoryFillCopy?
    ensures SlowAgrees(p, n, r)
  {
    hide Linked, CellOk, ModeOk, RefStep, RefCall, RefReturn, RefStore, RefValue, RefPair, RefSubBr, GlobalsHold;
    hide FrameHolds;
    hide Local, Suspended, Reload, AnnLeq, PackOk, FillMem, CopyMem, Compute, StoreVal, BranchTo, SameBelow, RefBulk;
    CoherentFrame(p, n, r);
    RefCells(p, View(n));
    RefCells(p, r);
    var c, f, a := p.cells[r.pc], Fn(p, r.pc), p.ann[r.pc];
    PackAgrees(f, a, n.stack, r.stack, r.fp, c.a, false);
    PackAgrees(f, a, n.stack, r.stack, r.fp, c.b, true);
    var (r', sr) := RefFillCopy(c, r);
    if sr == Running {
      SlowMove(p, n, r, r'.mem, r.glob, r.pc + 1);
    } else {
      ReloadInPlace(p, n.(mem := r'.mem));
    }
  }
}
