/** Typed code keeps the zero-extension convention along every run: the handlers that
    read an i32 operand as a whole register find no stray high digits. */
module TypedCode {
  import opened Words
  import opened WasmNum
  import opened Interp
  import opened WellFormed
  import opened Coherence
  import opened Runs

  /** The operand width of a cell that computes on integers. */
  function OperandWidth(op: Op): (w: Width) {
    match op
    case Bin(w, _) => w
    case Cmp(w, _) => w
    case Un(w, _) => w
    case Div(w, _) => w
    case BrCmp(w, _) => w
    case SubBrIf(w) => w
    case _ => I64
  }

  /** Typed code: an i32 operand is one that an i32 producer left, so it is known to be
      zero-extended where it is read. */
  ghost predicate TypedCell(p: Prog, pc: nat)
    requires Shape(p) && pc < |p.cells|
  {
    var (c, f, a) := (p.cells[pc], Fn(p, pc), p.ann[pc]);
    c.native && OperandWidth(c.op) == I32 ==>
      (ReadsA(c.op) ==> ReadOk(f, a, c.va, c.a, true)) && (ReadsB(c.op) ==> ReadOk(f, a, c.vb, c.b, true))
  }

  ghost predicate Typed(p: Prog)
    requires Shape(p)
  {
    forall pc :: 0 <= pc < |p.cells| ==> TypedCell(p, pc)
  }

  /** Every integer operand is within its width, and a select condition is an i32. */
  predicate OperandsHold(c: Cell, n: Native) {
    && (c.op.Select? ==> Holds(I32, NSlot(n, PackedSlot(c))))
    && (ReadsA(c.op) ==> Holds(OperandWidth(c.op), NA(c, n)))
    && (ReadsB(c.op) ==> Holds(OperandWidth(c.op), NB(c, n)))
  }

  lemma ConditionHolds(p: Prog, n: Native, r: Ref)
    requires Linked(p) && Coherent(p, n, r) && p.cells[r.pc].native && p.cells[r.pc].op.Select?
    ensures Holds(I32, NSlot(n, PackedSlot(p.cells[r.pc])))
  {
    hide AccHolds, PinsHold, Suspended, GlobalsHold, TablesOk, FrameHolds, ReadOk, KnownSlot;
    assert CellOk(p, r.pc) && ValueCellOk(p, r.pc, false);
    SlotAgrees(Fn(p, r.pc), p.ann[r.pc], n.stack, r.stack, r.fp, p.cells[r.pc].c / W32, true);
  }

  lemma DispatchedOperandsHold(p: Prog, n: Native, r: Ref)
    requires Linked(p) && Typed(p) && Coherent(p, n, r) && p.cells[r.pc].native
    ensures n.pc < |p.cells| && OperandsHold(p.cells[n.pc], n)
  {
    var c, f, a := p.cells[r.pc], Fn(p, r.pc), p.ann[r.pc];
    assert TypedCell(p, r.pc);
    hide FrameHolds, AccHolds, PinsHold, Suspended, GlobalsHold, KnownSlot, Linked, Shape;
    if c.op.Select? { ConditionHolds(p, n, r); }
    if OperandWidth(c.op) == I32 {
      if ReadsA(c.op) { FetchAgrees(f, a, n, r, c.va, c.a, true); }
      if ReadsB(c.op) { FetchAgrees(f, a, n, r, c.vb, c.b, true); }
    }
  }

  /** Along any run of typed code, through native handlers, slow cells and calls, every
      i32 operand a handler reads is below 2^32. */
  lemma OperandsHoldOnEveryRun(p: Prog, n: Native, r: Ref, k: nat)
    requires Linked(p) && Typed(p) && Coherent(p, n, r) && DriveRun(p, n, k).1 == Running
    ensures var n' := DriveRun(p, n, k).0;
            n'.pc < |p.cells| && (p.cells[n'.pc].native ==> OperandsHold(p.cells[n'.pc], n'))
  {
    hide DriveRun, RefRun, Linked, Typed, Coherent, OperandsHold;
    RunRefines(p, n, r, k);
    var n', r' := DriveRun(p, n, k).0, RefRun(p, r, k).0;
    SamePc(p, n', r');
    if p.cells[n'.pc].native { DispatchedOperandsHold(p, n', r'); }
  }

  lemma SamePc(p: Prog, n: Native, r: Ref)
    requires Linked(p) && Coherent(p, n, r)
    ensures n.pc == r.pc < |p.cells|
  {
  }
}
