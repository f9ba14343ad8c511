/** Whole runs: the cached machine, with any mix of native handlers, slow cells and
    bails, reaches the state the slot-only machine reaches. */
module Runs {
  import opened Words
  import opened WasmNum
  import opened Packing
  import opened Interp
  import opened WellFormed
  import opened Coherence
  import opened NativeSteps
  import opened CallSteps
  import opened Indirect
  import opened SlowSteps

  lemma NativeRefines(p: Prog, n: Native, r: Ref)
    requires Linked(p) && Coherent(p, n, r) && p.cells[r.pc].native && NativeStep(p, n).1 != Bailed
    ensures Agree(p, NativeStep(p, n).0, NativeStep(p, n).1, RefStep(p, r).0, RefStep(p, r).1)
  {
    var op := p.cells[r.pc].op;
    hide NativeStep, RefStep, Linked, Coherent, Agree;
    if IsValueOp(op) { ValueStep(p, n, r); }
    else if IsBranchOp(op) { BranchStep(p, n, r); }
    else {
      match op {
        case MovPair => PairStep(p, n, r);
        case SubBrIf(_) => SubBrStep(p, n, r);
        case Store(_, _) => StoreStep(p, n, r);
        case GlobalSet => GlobalStep(p, n, r);
        case Call(_, _) => CallStep(p, n, r);
        case CallIndirect(_, _, _) => CallIndirectStep(p, n, r);
        case Return => ReturnStep(p, n, r);
        case MemoryFillCopy => FillCopyStep(p, n, r);
        case MemoryFill => BulkStep(p, n, r);
        case MemoryCopy => BulkStep(p, n, r);
      }
    }
  }

  lemma SlowRefines(p: Prog, n: Native, r: Ref)
    requires Linked(p) && Coherent(p, n, r) && ModeOk(p, r.pc, true)
    ensures SlowAgrees(p, n, r)
  {
    var op := p.cells[r.pc].op;
    hide SlowAgrees, Linked, Coherent, ValueCellOk, BranchCellOk, PairCellOk, SubBrCellOk, StoreCellOk, BulkCellOk;
    if IsValueOp(op) { SlowValue(p, n, r); }
    else if IsBranchOp(op) { SlowBranch(p, n, r); }
    else {
      match op {
        case MovPair => SlowPair(p, n, r);
        case SubBrIf(_) => SlowSubBr(p, n, r);
        case Store(_, _) => SlowStore(p, n, r);
        case GlobalSet => SlowGlobal(p, n, r);
        case MemoryFillCopy => SlowFillCopy(p, n, r);
        case MemoryFill => SlowBulk(p, n, r);
        case MemoryCopy => SlowBulk(p, n, r);
      }
    }
  }

  /** Only divisions, bulk operations and indirect calls bail. */
  lemma WhoBails(p: Prog, n: Native)
    requires n.pc < |p.cells| && NativeStep(p, n).1 == Bailed
    ensures var op := p.cells[n.pc].op; op.MemoryFill? || op.MemoryCopy? || op.MemoryFillCopy? || op.Div? || op.CallIndirect?
    ensures var c := p.cells[n.pc]; c.op.Div? ==> DivBails(p, c.op.w, c.op.v, NA(c, n), NB(c, n))
  {
    var c := p.cells[n.pc];
    CallsNeverBail(p, n, c);
    if IsValueOp(c.op) { ValueCell(p, n); }
    else if c.op.Call? { CallCell(p, n); }
    else if c.op.Return? { ReturnCell(p, n); }
    else if c.op.MovPair? || c.op.SubBrIf? || c.op.Store? || c.op.GlobalSet? || IsBranchOp(c.op) { StoreNeverBails(p, n); }
    hide NativeStep, Compute, DivBails, Finish, NativeReturn, Enter;
  }

  /** A handler that bails has changed nothing. */
  lemma BailsUntouched(p: Prog, n: Native)
    requires n.pc < |p.cells|
    ensures NativeStep(p, n).1 == Bailed ==> NativeStep(p, n).0 == n
  {
    hide Compute, DivBails, Finish, Enter, NativeStep;
    if NativeStep(p, n).1 == Bailed {
      WhoBails(p, n);
      var op := p.cells[n.pc].op;
      if op.Div? { ValueCell(p, n); }
      else if op.CallIndirect? { CallIndirectCell(p, n); IndirectUntouched(p, n); }
      else if op.MemoryFillCopy? { FillCopyCell(p, n); }
      else { BulkCell(p, n); }
    }
  }

  lemma IndirectUntouched(p: Prog, n: Native)
    requires n.pc < |p.cells|
    ensures NativeCallIndirect(p, p.cells[n.pc], n).1 == Bailed ==> NativeCallIndirect(p, p.cells[n.pc], n).0 == n
  {
    hide Enter, ComposeArm64, Target, FieldWord, Unpack;
    var c := p.cells[n.pc];
    var fi := Target(p.table, p.info, NSlot(n, FieldWord(c.a, 0, 32) / 8), FieldWord(c.b, 32, 16));
    if fi.Some? {
      var w := ComposeArm64(c.a, c.b, p.info[fi.value]);
      EnterNeverBails(p, n, Unpack(w.a, w.b, w.c));
    }
  }

  lemma NativeDrives(p: Prog, n: Native)
    requires n.pc < |p.cells| && p.cells[n.pc].native
    ensures NativeStep(p, n).1 != Bailed ==> DriveStep(p, n) == NativeStep(p, n)
  {
    hide NativeStep, SlowStep;
  }

  lemma CallsNeverBail(p: Prog, n: Native, c: Cell)
    ensures NativeCall(p, n, c.a, c.b, c.c).1 != Bailed && NativeReturn(n, c).1 != Bailed
  {
  }

  /** A division that bails on a Wasm trap traps in the shared executor too. */
  lemma DivisionTraps(p: Prog, n: Native, r: Ref)
    requires Linked(p) && Coherent(p, n, r) && p.cells[r.pc].native && p.cells[r.pc].op.Div?
    requires NativeStep(p, n).1 == Bailed && !BailCanSucceed(p, p.cells[r.pc])
    ensures SlowAgrees(p, n, r)
  {
    hide IBin, GlobalsHold, FrameHolds, Suspended, OperandsOk, SameBelow, RPut, ResultNarrow, Reload;
    hide RefCall, RefReturn, RefFillCopy, RefBulk, StoreVal, BranchTo, IDiv, AccHolds, PinsHold, ValueCellOk;
    hide Enter, Resume;
    var c, f, a := p.cells[r.pc], Fn(p, r.pc), p.ann[r.pc];
    assert CellOk(p, r.pc);
    WhoBails(p, n);
    CoherentFrame(p, n, r);
    DivisionOperands(p, n, r);
    SlowCompute(p, f, a, View(n), r, c);
    ReloadInPlace(p, n);
  }

  /** A failed guard of an indirect call traps in the shared executor too. */
  lemma IndirectTraps(p: Prog, n: Native, r: Ref)
    requires Linked(p) && Coherent(p, n, r) && p.cells[r.pc].native && p.cells[r.pc].op.CallIndirect?
    requires NativeStep(p, n).1 == Bailed
    ensures SlowAgrees(p, n, r)
  {
    hide NativeStep, RefStep, Linked, Coherent, Reload;
    IndirectBailTraps(p, n, r);
    CoherentFrame(p, n, r);
    ReloadInPlace(p, n);
  }

  lemma DivisionOperands(p: Prog, n: Native, r: Ref)
    requires Linked(p) && Coherent(p, n, r) && p.cells[r.pc].native && p.cells[r.pc].op.Div?
    ensures var c := p.cells[r.pc]; NA(c, n) == RA(c, r) && NB(c, n) == RB(c, r)
  {
    hide Suspended, FrameHolds, AccHolds, PinsHold, GlobalsHold, AnnLeq, ReadOk;
    assert CellOk(p, r.pc) && ValueCellOk(p, r.pc, false);
    OperandsAgree(p, n, r, Fn(p, r.pc), p.ann[r.pc], p.cells[r.pc]);
  }

  /** One dispatch, native or slow, is one reference step. */
  lemma StepRefines(p: Prog, n: Native, r: Ref)
    requires Linked(p) && Coherent(p, n, r)
    ensures Agree(p, DriveStep(p, n).0, DriveStep(p, n).1, RefStep(p, r).0, RefStep(p, r).1)
  {
    hide NativeStep, RefStep, ModeOk, OperandsOk, SlowStep, Agree, Local, Suspended, GlobalsHold;
    assert n.pc == r.pc < |p.cells| && CellOk(p, r.pc);
    var c := p.cells[r.pc];
    if !c.native {
      SlowRefines(p, n, r);
    } else if NativeStep(p, n).1 == Bailed {
      WhoBails(p, n);
      if BailCanSucceed(p, c) {
        SlowRefines(p, n, r);
      } else if c.op.CallIndirect? {
        IndirectTraps(p, n, r);
      } else {
        DivisionTraps(p, n, r);
      }
    } else {
      NativeRefines(p, n, r);
    }
  }

  /** Every run: same status, memory, globals and pc, and coherence at every dispatch. */
  lemma {:induction false} RunRefines(p: Prog, n: Native, r: Ref, k: nat)
    requires Linked(p) && Coherent(p, n, r)
    ensures Agree(p, DriveRun(p, n, k).0, DriveRun(p, n, k).1, RefRun(p, r, k).0, RefRun(p, r, k).1)
    decreases k
  {
    hide DriveStep, RefStep, Coherent, Linked;
    if k == 0 {
      CoherentAgrees(p, n, r);
    } else {
      StepRefines(p, n, r);
      if RefStep(p, r).1 == Running {
        RunRefines(p, DriveStep(p, n).0, RefStep(p, r).0, k - 1);
      }
    }
  }

  lemma CoherentAgrees(p: Prog, n: Native, r: Ref)
    requires Linked(p) && Coherent(p, n, r)
    ensures Agree(p, n, Running, r, Running)
  {
  }

  /** The chain as the driver enters it at a function's first cell: pinned registers
      loaded from their slots, whatever the accumulator holds. */
  function Boot(p: Prog, r: Ref, acc: Word): (n: Native) {
    Reload(p, Native(r.stack, r.fp, r.mem, r.glob, r.pc, [], CodeBase(p, r.pc), acc, 0, 0))
  }

  /** The entry state is coherent, so the run theorem applies from there. */
  lemma BootCoherent(p: Prog, r: Ref, acc: Word)
    requires Linked(p) && r.pc < |p.cells| && r.rets == [] && GlobalsHold(p, r.glob)
    requires r.fp + Fn(p, r.pc).frameSlots <= |r.stack| && p.ann[r.pc].acc == NoAcc
    requires forall i :: 0 <= i < |p.ann[r.pc].slots| && p.ann[r.pc].slots[i] == Narrow ==> RSlot(r, i) < W32
    ensures Coherent(p, Boot(p, r, acc), r)
  {
    var f, a := Fn(p, r.pc), p.ann[r.pc];
    assert AnnOk(f, a);
    forall i | 0 <= i < f.frameSlots
      ensures KnowHolds(a.slots[i], r.stack[r.fp + i], r.stack[r.fp + i])
    {
      assert RSlot(r, i) == r.stack[r.fp + i];
    }
    PinsReload(f, a, r.stack, r.stack, r.fp);
  }

  // ---- the accumulator across a remainder that bails ----

  /** On a backend whose remainder handler bails on MIN rem -1, the shared executor
      finishes the cell without touching the accumulator. Whether the remainder is also
      stored or lives in the accumulator alone, it is there afterwards exactly when the
      handler did not bail, or the accumulator already held zero. */
  lemma RemainderLeavesAccumulator(p: Prog, n: Native)
    requires p.backend.remBails && n.pc < |p.cells| && p.cells[n.pc].native
    requires p.cells[n.pc].op.Div? && p.cells[n.pc].op.v == RemS && (p.cells[n.pc].vd.ToMem? || p.cells[n.pc].vd.ToAcc?)
    requires !p.cells[n.pc].va.Acc? && !p.cells[n.pc].vb.Acc? && NA(p.cells[n.pc], n) == RA(p.cells[n.pc], View(n))
    requires NB(p.cells[n.pc], n) == RB(p.cells[n.pc], View(n))
    requires DriveStep(p, n).1 == Running
    ensures var (c, w) := (p.cells[n.pc], p.cells[n.pc].op.w);
            var (x, y) := (Trunc(w, NA(c, n)), Trunc(w, NB(c, n)));
            IDiv(w, RemS, x, y).Done?
            && (DriveStep(p, n).0.acc == IDiv(w, RemS, x, y).v
                <==> !(SignedAt(w, x) == -(Modulus(w) / 2) && SignedAt(w, y) == -1) || n.acc == 0)
  {
    var c := p.cells[n.pc];
    var w := c.op.w;
    var x, y := Trunc(w, NA(c, n)), Trunc(w, NB(c, n));
    if SignedAt(w, x) == -(Modulus(w) / 2) && SignedAt(w, y) == -1 {
      assert IDiv(w, RemS, x, y) == Done(0);
    }
  }
}
