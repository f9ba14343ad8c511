/** What the linked form and a coherent state give each handler: the bounds the handler
    classes ask of their callers, so every native dispatch of a run meets them. */
module Admission {
  import opened Words
  import opened Packing
  import opened Interp
  import opened WellFormed
  import opened Coherence
  import opened NativeSteps
  import opened CallSteps
  import opened Indirect
  import opened Runs

  /** An aligned slot of the live frame. */
  predicate Fits(n: Native, field: nat) {
    field % 8 == 0 && n.fp + field / 8 < |n.stack|
  }

  predicate TargetFits(p: Prog, field: nat) {
    field % 32 == 0 && field / 32 < |p.cells|
  }

  predicate GlobalFits(n: Native, field: nat) {
    field % 8 == 0 && field / 8 < |n.glob|
  }

  /** Three contiguous operands; addresses and lengths are 32-bit values. */
  predicate PackFits(n: Native, field: nat, copy: bool) {
    && Fits(n, field) && Fits(n, field + 8) && Fits(n, field + 16)
    && NSlot(n, field / 8) < W32 && (copy ==> NSlot(n, field / 8 + 1) < W32) && NSlot(n, field / 8 + 2) < W32
  }

  /** A callee's unpacked words describe a frame and a first cell. */
  predicate EntryFits(p: Prog, i: CallInfo) {
    && i.args % 8 == 0 && i.params <= i.locals <= i.slots
    && i.l0 % 8 == 0 && i.l1 % 8 == 0 && i.l0 / 8 < i.slots && i.l1 / 8 < i.slots
    && i.code % 32 == 0 && i.code / 32 < |p.cells|
  }

  /** A record names a cell, a frame and two pinned slots inside the stack. */
  predicate RecordFits(p: Prog, rec: Rec, len: nat) {
    var l0 := rec.codeL0 / W48 - rec.codeL0 / W48 % 2;
    && 0 <= rec.pc && rec.pc % 32 == 0 && rec.pc / 32 < |p.cells|
    && 0 <= rec.fp && rec.fp % 8 == 0 && 0 <= rec.codeL0 && 0 <= rec.l1 && rec.l1 % 8 == 0
    && l0 % 8 == 0 && (rec.fp + l0) / 8 < len && (rec.fp + rec.l1) / 8 < len
  }

  predicate TableEntry(p: Prog, base: nat, i: nat) {
    i < |p.brFlat| && base + p.brFlat[i] < |p.cells|
  }

  /** Every entry a table branch can pick is a cell. */
  predicate TableFits(p: Prog, n: Native, c: Cell) {
    && n.code % 32 == 0
    && forall i :: c.b / 4 <= i <= c.b / 4 + c.c ==> TableEntry(p, n.code / 32, i)
  }

  predicate HasNext(p: Prog, n: Native) {
    n.pc + 1 < |p.cells|
  }

  predicate ValueAdmits(p: Prog, n: Native, c: Cell) {
    && HasNext(p, n) && Fits(n, DstField(c))
    && (c.op.MovSlot? ==> c.b == c.c) && (c.op.GlobalGet? ==> GlobalFits(n, c.b))
  }

  predicate BranchAdmits(p: Prog, n: Native, c: Cell) {
    if c.op.BrTable? then TableFits(p, n, c)
    else TargetFits(p, c.c) && (!c.op.Br? ==> HasNext(p, n))
  }

  /** The words an indirect call would compose, if its guards pass, fit. */
  predicate IndirectAdmits(p: Prog, n: Native, c: Cell) {
    && Fits(n, FieldWord(c.a, 0, 32)) && |p.table| < W32 && |p.info| < W32
    && var fi := Target(p.table, p.info, NSlot(n, FieldWord(c.a, 0, 32) / 8), FieldWord(c.b, 32, 16));
       fi.Some? ==> var w := ComposeArm64(c.a, c.b, p.info[fi.value]); EntryFits(p, Unpack(w.a, w.b, w.c))
  }

  predicate ReturnAdmits(p: Prog, n: Native, c: Cell) {
    && c.a % 8 == 0 && n.fp + c.a / 8 + c.b <= |n.stack|
    && (n.rets != [] ==> RecordFits(p, n.rets[|n.rets| - 1], |n.stack|))
  }

  predicate OperandsAdmit(n: Native, c: Cell) {
    && (ReadsA(c.op) && c.va == Slot ==> Fits(n, c.a))
    && ((ReadsB(c.op) || c.op.MovPair?) && c.vb == Slot ==> Fits(n, c.b))
    && (ReadsPacked(c.op) ==> Fits(n, c.c / W32))
  }

  /** Everything the handler of the cell at `n.pc` relies on. */
  predicate Admits(p: Prog, n: Native)
    requires n.pc < |p.cells|
  {
    var c := p.cells[n.pc];
    && VariantOk(c) && OperandsAdmit(n, c)
    && if IsValueOp(c.op) then ValueAdmits(p, n, c)
       else if IsBranchOp(c.op) then BranchAdmits(p, n, c)
       else if c.op.MovPair? then Fits(n, c.c / W32) && Fits(n, c.c % W32) && HasNext(p, n)
       else if c.op.SubBrIf? then
         Fits(n, c.a) && (c.va == Slot || c.va == L0 || c.va == L1) && TargetFits(p, c.c) && HasNext(p, n)
       else if c.op.GlobalSet? then GlobalFits(n, c.b) && HasNext(p, n)
       else if c.op.Store? then HasNext(p, n)
       else if c.op.Call? then EntryFits(p, Unpack(c.a, c.b, c.c))
       else if c.op.CallIndirect? then IndirectAdmits(p, n, c)
       else if c.op.Return? then ReturnAdmits(p, n, c)
       else BulkAdmits(p, n, c)
  }

  predicate BulkAdmits(p: Prog, n: Native, c: Cell) {
    && PackFits(n, c.a, c.op.MemoryCopy?) && HasNext(p, n)
    && (c.op.MemoryFillCopy? ==> PackFits(n, c.b, true))
  }

  lemma OperandFits(f: Func, a: Ann, n: Native, cls: Cls, field: Word)
    requires n.fp + f.frameSlots <= |n.stack| && ReadOk(f, a, cls, field, false)
    ensures cls == Slot ==> Fits(n, field)
  {
  }

  lemma ReadsFit(p: Prog, f: Func, a: Ann, n: Native, c: Cell)
    requires n.fp + f.frameSlots <= |n.stack| && OperandsOk(p, f, a, c, false) && !c.op.MovPair?
    ensures OperandsAdmit(n, c)
  {
    if ReadsA(c.op) { OperandFits(f, a, n, c.va, c.a); }
    if ReadsB(c.op) { OperandFits(f, a, n, c.vb, c.b); }
  }

  /** The cells whose bounds are their own operands and successors. */
  lemma LocalAdmits(p: Prog, n: Native)
    requires Shape(p) && n.pc < |p.cells| && ModeOk(p, n.pc, false) && n.fp + Fn(p, n.pc).frameSlots <= |n.stack|
    requires |n.glob| == |p.narrowGlob| && !IsBranchOp(p.cells[n.pc].op) && VariantOk(p.cells[n.pc])
    requires var op := p.cells[n.pc].op; IsValueOp(op) || op.MovPair? || op.SubBrIf? || op.GlobalSet? || op.Store?
    ensures Admits(p, n)
  {
    hide OperandsOk, ReadOk, FuncOk, AnnLeq, TablesOk, OperandsAdmit, CallCellOk, ReturnCellOk, BulkCellOk, BranchCellOk;
    var c, f, a := p.cells[n.pc], Fn(p, n.pc), p.ann[n.pc];
    if c.op.MovPair? {
      PairFits(f, a, n, c);
    } else {
      ReadsFit(p, f, a, n, c);
    }
  }

  lemma PairFits(f: Func, a: Ann, n: Native, c: Cell)
    requires n.fp + f.frameSlots <= |n.stack| && c.op.MovPair? && PackedSlot(c) < |a.slots|
    requires ReadOk(f, a, c.va, c.a, false)
    requires ReadOk(f, Put(a, PackedSlot(c), NarrowOperand(f, a, c.va, c.a)), c.vb, c.b, false)
    ensures OperandsAdmit(n, c)
  {
    OperandFits(f, a, n, c.va, c.a);
    OperandFits(f, Put(a, PackedSlot(c), NarrowOperand(f, a, c.va, c.a)), n, c.vb, c.b);
  }

  lemma BranchesAdmit(p: Prog, n: Native)
    requires Shape(p) && n.pc < |p.cells| && ModeOk(p, n.pc, false) && n.fp + Fn(p, n.pc).frameSlots <= |n.stack|
    requires IsBranchOp(p.cells[n.pc].op) && n.code == 32 * Fn(p, n.pc).base
    ensures Admits(p, n)
  {
    hide OperandsOk, FuncOk, AnnLeq, TablesOk, OperandsAdmit, CallCellOk, ReturnCellOk, BulkCellOk, ValueCellOk;
    hide ReadsA, ReadsB, TableFits;
    var c, f := p.cells[n.pc], Fn(p, n.pc);
    ReadsFit(p, f, p.ann[n.pc], n, c);
    if c.op.BrTable? { EntriesFit(p, n, c); }
  }

  lemma EntriesFit(p: Prog, n: Native, c: Cell)
    requires Shape(p) && n.pc < |p.cells| && p.cells[n.pc] == c && c.op.BrTable? && BranchCellOk(p, n.pc, false)
    requires n.code == 32 * Fn(p, n.pc).base
    ensures TableFits(p, n, c)
  {
    forall i | c.b / 4 <= i <= c.b / 4 + c.c
      ensures TableEntry(p, n.code / 32, i)
    {
      TableEntryFits(p, n.pc, i);
    }
  }

  lemma TableEntryFits(p: Prog, pc: nat, i: nat)
    requires Shape(p) && pc < |p.cells| && p.cells[pc].op.BrTable? && BranchCellOk(p, pc, false)
    requires p.cells[pc].b / 4 <= i <= p.cells[pc].b / 4 + p.cells[pc].c
    ensures TableEntry(p, Fn(p, pc).base, i)
  {
    hide OperandsOk, AnnLeq;
    assert TableFlow(p, pc, Settled(p.ann[pc], false), i);
  }

  lemma BulkCellAdmits(p: Prog, n: Native, r: Ref)
    requires Linked(p) && Coherent(p, n, r) && p.cells[n.pc].native
    requires var op := p.cells[n.pc].op; op.MemoryFill? || op.MemoryCopy? || op.MemoryFillCopy?
    ensures Admits(p, n)
  {
    hide AccHolds, PinsHold, GlobalsHold, Suspended, FrameHolds, AnnLeq, TablesOk, FuncOk, AnnOk;
    assert CellOk(p, n.pc) && BulkCellOk(p, n.pc);
    var c, f, a := p.cells[n.pc], Fn(p, n.pc), p.ann[n.pc];
    FrameBounds(f, a, n, r);
    PackAgrees(f, a, n.stack, r.stack, r.fp, c.a, c.op.MemoryCopy?);
    if c.op.MemoryFillCopy? { PackAgrees(f, a, n.stack, r.stack, r.fp, c.b, true); }
  }

  lemma EntryOfCallee(p: Prog, f: Func, g: Func, argBase: nat)
    requires FuncOk(p, g)
    ensures EntryFits(p, CalleeInfo(f, g, argBase))
  {
  }

  lemma CallsAdmit(p: Prog, n: Native, r: Ref)
    requires Linked(p) && Coherent(p, n, r) && p.cells[n.pc].native && IsCallOp(p.cells[n.pc].op)
    ensures Admits(p, n)
  {
    hide CallTo, Unpack, CalleeInfo, EntryFits, FuncOk, ComposeArm64, Target, Callee, FieldWord, Coherent, TablesOk, OperandsAdmit;
    SamePlace(p, n, r);
    var c, f := p.cells[n.pc], Fn(p, n.pc);
    NoOperands(n, c);
    if c.op.Call? {
      DirectCell(p, n.pc);
      CallSite(p, n.pc, c.op.callee);
      EntryOfCallee(p, f, p.funcs[c.op.callee], c.op.argBase);
    } else {
      IndirectSite(p, n, r);
      IndexFits(p, n, r);
      TargetIsCallee(p, c.op, NSlot(n, c.op.indexSlot));
      var fi := Callee(p, c.op, NSlot(n, c.op.indexSlot));
      TableSizes(p);
      if fi.Some? {
        CallSite(p, n.pc, fi.value);
        WordsUnpack(p, c, f, fi.value);
        EntryOfCallee(p, f, p.funcs[fi.value], c.op.argBase);
      }
    }
  }

  lemma TableSizes(p: Prog)
    requires TablesOk(p)
    ensures |p.table| < W32 && |p.info| < W32
  {
  }

  lemma NoOperands(n: Native, c: Cell)
    requires IsCallOp(c.op) || c.op.Return?
    ensures OperandsAdmit(n, c)
  {
  }

  lemma SamePlace(p: Prog, n: Native, r: Ref)
    requires Linked(p) && Coherent(p, n, r)
    ensures n.pc == r.pc < |p.cells| == |p.owner| == |p.ann| && p.owner[n.pc] < |p.funcs|
  {
  }

  lemma IndexFits(p: Prog, n: Native, r: Ref)
    requires Linked(p) && Coherent(p, n, r) && p.cells[n.pc].native && p.cells[n.pc].op.CallIndirect?
    ensures Fits(n, FieldWord(p.cells[n.pc].a, 0, 32))
  {
    hide CallTo, FuncOk, TablesOk, AccHolds, PinsHold, GlobalsHold, Suspended, FieldWord, AnnOk;
    assert CellOk(p, n.pc) && CallCellOk(p, n.pc);
    var c, f := p.cells[n.pc], Fn(p, n.pc);
    SiteFields(c.a, c.b, f, c.op.indexSlot, c.op.expected, c.op.argBase);
    FrameBounds(f, p.ann[n.pc], n, r);
  }

  lemma RecordOfFrame(p: Prog, rec: Frame, len: nat)
    requires rec.pc < |p.cells| == |p.owner| && p.owner[rec.pc] < |p.funcs| && FuncOk(p, Fn(p, rec.pc))
    requires rec.fp + Fn(p, rec.pc).frameSlots <= len
    ensures RecordFits(p, PackRec(p, rec), len)
  {
    var f := Fn(p, rec.pc);
    RecordFields(f);
    OffsetsInside(p, f, rec.fp, len);
    hide FuncOk, L0Word, L0Off, L1Off;
    assert PackRec(p, rec).codeL0 / W48 == L0Word(f);
  }

  lemma OffsetsInside(p: Prog, f: Func, fp: nat, len: nat)
    requires FuncOk(p, f) && fp + f.frameSlots <= len
    ensures L0Off(f) % 8 == 0 && L1Off(f) % 8 == 0 && (8 * fp + L0Off(f)) / 8 < len && (8 * fp + L1Off(f)) / 8 < len
  {
  }

  lemma ReturnsAdmit(p: Prog, n: Native, r: Ref)
    requires Linked(p) && Coherent(p, n, r) && p.cells[n.pc].native && p.cells[n.pc].op.Return?
    ensures Admits(p, n)
  {
    hide AccHolds, PinsHold, GlobalsHold, FrameHolds, TablesOk, RecordFits, PackRec, ResumeOk, SuspendedAt, AnnOk, L0Word;
    assert CellOk(p, n.pc) && ReturnCellOk(p, n.pc);
    var c, f := p.cells[n.pc], Fn(p, n.pc);
    NoOperands(n, c);
    FrameBounds(f, p.ann[n.pc], n, r);
    SameSizes(p, n, r);
    if r.rets != [] {
      TopRecord(p, n, r);
      RecordOfFrame(p, r.rets[|r.rets| - 1], |n.stack|);
    }
  }

  lemma CellAdmits(p: Prog, n: Native, r: Ref)
    requires Linked(p) && Coherent(p, n, r) && p.cells[n.pc].native
    ensures Admits(p, n)
  {
    hide Admits, ModeOk, Suspended, GlobalsHold, AnnOk, FuncOk, TablesOk, AccHolds, PinsHold;
    var op := p.cells[n.pc].op;
    assert CellOk(p, n.pc);
    FrameBounds(Fn(p, n.pc), p.ann[n.pc], n, r);
    GlobalCount(p, r);
    if IsBranchOp(op) { BranchesAdmit(p, n); }
    else if IsCallOp(op) { CallsAdmit(p, n, r); }
    else if op.Return? { ReturnsAdmit(p, n, r); }
    else if op.MemoryFill? || op.MemoryCopy? || op.MemoryFillCopy? { BulkCellAdmits(p, n, r); }
    else { LocalAdmits(p, n); }
  }

  lemma GlobalCount(p: Prog, r: Ref)
    requires GlobalsHold(p, r.glob)
    ensures |r.glob| == |p.narrowGlob|
  {
  }

  /** Every native dispatch of every run meets the bounds its handler relies on. */
  lemma RunAdmits(p: Prog, n: Native, r: Ref, k: nat)
    requires Linked(p) && Coherent(p, n, r) && DriveRun(p, n, k).1 == Running
    ensures var n' := DriveRun(p, n, k).0;
            n'.pc < |p.cells| && (p.cells[n'.pc].native ==> Admits(p, n'))
  {
    hide DriveRun, RefRun, Admits, ModeOk, Linked, Coherent;
    RunRefines(p, n, r, k);
    var n', r' := DriveRun(p, n, k).0, RefRun(p, r, k).0;
    SamePlace(p, n', r');
    if p.cells[n'.pc].native { CellAdmits(p, n', r'); }
  }
}
