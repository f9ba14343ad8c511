/** What the predecoder and the linker guarantee about linked cells, as a per-cell
    predicate over an annotation of every program point. */
module WellFormed {
  import opened Words
  import opened WasmNum
  import opened Packing
  import opened Interp

  ghost predicate KnowHolds(k: Know, nv: Word, rv: Word) {
    && (k != Junk ==> nv == rv)
    && (k == Narrow ==> rv < W32)
  }

  predicate KnowLeq(k: Know, j: Know) {
    k == Junk || k == j || (k == Same && j == Narrow)
  }

  predicate AccLeq(k: AccKnow, j: AccKnow) {
    k == NoAcc || (j.AccOf? && k.slot == j.slot && (k.narrow ==> j.narrow))
  }

  /** `a` claims no more than `b`. */
  ghost predicate AnnLeq(a: Ann, b: Ann) {
    && |a.slots| == |b.slots| && AccLeq(a.acc, b.acc)
    && forall i :: 0 <= i < |a.slots| ==> KnowLeq(a.slots[i], b.slots[i])
  }

  function L0Off(f: Func): (o: nat) {
    if f.pin0 then 8 * f.l0 else 0
  }

  function L1Off(f: Func): (o: nat) {
    if f.pin1 then 8 * f.l1 else 0
  }

  /** The recorded l0 offset, whose free bit 0 carries the float-pinned flag. */
  function L0Word(f: Func): (o: nat) {
    L0Off(f) + if f.fpPinned then 1 else 0
  }

  ghost predicate FuncOk(p: Prog, f: Func) {
    && f.nParams <= f.nLocals <= f.frameSlots < W16 && 0 < f.frameSlots
    && (f.pin0 ==> f.l0 < f.nLocals) && (f.pin1 ==> f.l1 < f.nLocals)
    && (f.pin0 && f.pin1 ==> f.l0 != f.l1)
    && (f.pin0 ==> f.l0 < 8192) && (f.pin1 ==> f.l1 < 8192)
    && 32 * f.base < W48 && f.base < |p.cells|
  }

  /** The three words of a direct call cell from `f` to `g`. */
  function CallA(f: Func, g: Func): (a: nat) {
    L1Off(f) * W48 + 32 * g.base
  }

  function CallB(g: Func, base: nat): (b: nat) {
    L1Off(g) * W48 + L0Off(g) * W32 + (if g.fpPinned then W31 else 0) + 8 * base
  }

  function CallC(f: Func, g: Func): (c: nat) {
    L0Word(f) * W48 + FrameMeta(g)
  }

  function FrameMeta(g: Func): (m: nat) {
    g.frameSlots * W32 + g.nLocals * W16 + g.nParams
  }

  function FpBit(g: Func): (b: nat) {
    if g.fpPinned then 1 else 0
  }

  /** The entry the fixup pass stores for `g`. */
  predicate EntryFor(e: Info, g: Func, canon: nat) {
    && canon < W32
    && e.cells == 32 * g.base + FpBit(g)
    && e.offsets == L1Off(g) * W48 + L0Off(g) * W32 + canon
    && e.meta == FrameMeta(g)
  }

  /** The two payload words of an indirect call site in `f`. */
  predicate SiteFor(a: Word, b: Word, f: Func, indexSlot: nat, expected: nat, argBase: nat) {
    && 8 * indexSlot < W32 && expected < W16 && 8 * argBase < W31
    && a == L1Off(f) * W48 + 8 * indexSlot
    && b == L0Word(f) * W48 + expected * W32 + 8 * argBase
  }

  /** Every function's entry is the one the fixup pass stores, all zero when its type is
      none that a call site names; a plain handle names a function. */
  ghost predicate TablesOk(p: Prog) {
    && |p.info| == |p.canon| == |p.funcs| < W32 && |p.table| < W32
    && (forall t :: 0 <= t < |p.table| ==> p.table[t] >= W32 || p.table[t] < |p.funcs|)
    && (forall i :: 0 <= i < |p.funcs| ==> InfoOk(p, i))
  }

  ghost predicate InfoOk(p: Prog, i: nat)
    requires i < |p.funcs| && i < |p.info| && i < |p.canon|
  {
    if p.canon[i] < W32 then EntryFor(p.info[i], p.funcs[i], p.canon[i]) && p.info[i].cells != 0
    else p.info[i] == Info(0, 0, 0)
  }

  /** The pinned slots are always written through, so they are never unknown. */
  ghost predicate AnnOk(f: Func, a: Ann) {
    && |a.slots| == f.frameSlots
    && (f.pin0 ==> f.l0 < |a.slots| && a.slots[f.l0] != Junk)
    && (f.pin1 ==> f.l1 < |a.slots| && a.slots[f.l1] != Junk)
  }

  ghost predicate Shape(p: Prog) {
    && |p.owner| == |p.ann| == |p.cells| && TablesOk(p)
    && (forall i :: 0 <= i < |p.cells| ==> p.owner[i] < |p.funcs|)
    && (forall i :: 0 <= i < |p.funcs| ==> FuncOk(p, p.funcs[i]))
    && (forall i :: 0 <= i < |p.cells| ==> AnnOk(p.funcs[p.owner[i]], p.ann[i]))
  }

  function Fn(p: Prog, pc: nat): (f: Func)
    requires pc < |p.owner| && p.owner[pc] < |p.funcs|
  {
    p.funcs[p.owner[pc]]
  }

  // ---- operands ----

  /** Slot offsets are multiples of 8 inside the frame. */
  predicate SlotOk(f: Func, field: nat) {
    field % 8 == 0 && field / 8 < f.frameSlots
  }

  predicate KnownSlot(f: Func, a: Ann, field: nat, narrow: bool) {
    && SlotOk(f, field) && field / 8 < |a.slots|
    && a.slots[field / 8] != Junk && (narrow ==> a.slots[field / 8] == Narrow)
  }

  /** An operand's class agrees with where its value is. */
  predicate ReadOk(f: Func, a: Ann, cls: Cls, field: Word, narrow: bool) {
    match cls
    case Const => narrow ==> field < W32
    case Slot => KnownSlot(f, a, field, narrow)
    case Acc => SlotOk(f, field) && a.acc.AccOf? && a.acc.slot == field / 8 && (narrow ==> a.acc.narrow)
    case L0 => f.pin0 && field == 8 * f.l0 && KnownSlot(f, a, field, narrow)
    case L1 => f.pin1 && field == 8 * f.l1 && KnownSlot(f, a, field, narrow)
  }

  /** A destination is classed to a pinned register exactly when its slot is pinned. */
  predicate DstOk(f: Func, d: DstCls, slot: nat) {
    && slot < f.frameSlots
    && (d == ToL0 <==> f.pin0 && slot == f.l0)
    && (d == ToL1 <==> f.pin1 && slot == f.l1)
  }

  predicate ReadsA(op: Op) {
    !(op.MovConst? || op.GlobalGet? || op.Br? || op.MemoryFill? || op.MemoryCopy? || op.MemoryFillCopy? || IsCallOp(op) || op.Return?)
  }

  predicate ReadsB(op: Op) {
    op.Select? || op.Bin? || op.Cmp? || op.Div? || op.Store? || op.BrCmp? || op.BrAnd? || op.SubBrIf?
  }

  predicate ReadsPacked(op: Op) {
    op.Select? || (op.Load? && op.fused) || (op.Store? && op.fused)
  }

  /** The slow path finds every non-constant operand in its slot. */
  function AtCls(cls: Cls, slow: bool): (c: Cls) {
    if slow && !cls.Const? then Slot else cls
  }

  predicate OperandsOk(p: Prog, f: Func, a: Ann, c: Cell, slow: bool) {
    && (ReadsA(c.op) ==> ReadOk(f, a, AtCls(c.va, slow), c.a, false))
    && (ReadsB(c.op) ==> ReadOk(f, a, AtCls(c.vb, slow), c.b, false))
    && (ReadsPacked(c.op) ==> KnownSlot(f, a, c.c / W32, c.op.Select?))
  }

  // ---- results ----

  function KnowOf(narrow: bool): (k: Know) {
    if narrow then Narrow else Same
  }

  /** After a write-through store. */
  function Put(a: Ann, slot: nat, narrow: bool): (b: Ann)
    requires slot < |a.slots|
    ensures |b.slots| == |a.slots|
  {
    Ann(a.slots[slot := KnowOf(narrow)], if a.acc.AccOf? && a.acc.slot == slot then NoAcc else a.acc)
  }

  /** After a result lands with destination class `d`. */
  function After(a: Ann, slot: nat, d: DstCls, narrow: bool): (b: Ann)
    requires slot < |a.slots|
  {
    match d
    case ToAcc => Ann(a.slots[slot := Junk], AccOf(slot, narrow))
    case ToMem => Put(a, slot, narrow).(acc := AccOf(slot, narrow))
    case _ => Put(a, slot, narrow)
  }

  predicate NarrowOperand(f: Func, a: Ann, cls: Cls, field: Word) {
    ReadOk(f, a, cls, field, true)
  }

  /** Whether a one-result cell is known to produce a zero-extended 32-bit value. */
  predicate ResultNarrow(p: Prog, f: Func, a: Ann, c: Cell, slow: bool) {
    match c.op
    case MovSlot => NarrowOperand(f, a, AtCls(c.va, slow), c.a)
    case MovConst => c.a < W32
    case Select => NarrowOperand(f, a, AtCls(c.va, slow), c.a) && NarrowOperand(f, a, AtCls(c.vb, slow), c.b)
    case GlobalGet => c.b / 8 < |p.narrowGlob| && p.narrowGlob[c.b / 8]
    case Bin(w, _) => w == I32
    case Cmp(_, _) => true
    case Un(w, u) => NarrowUn(w, u)
    case Div(w, _) => w == I32
    case Load(k, _) => if k.signed then k.w == I32 else k.size <= 4
    case _ => false
  }

  /** Control may go from `pc` to `t`, where no more is claimed than `b` provides. */
  ghost predicate Flow(p: Prog, pc: nat, b: Ann, t: nat)
    requires Shape(p) && pc < |p.cells|
  {
    t < |p.cells| && p.owner[t] == p.owner[pc] && AnnLeq(p.ann[t], b)
  }

  /** An aligned global cell. */
  predicate GlobalOk(p: Prog, field: nat) {
    field % 8 == 0 && field / 8 < |p.narrowGlob|
  }

  /** A cell with one result: `b` must cover every way the handler can finish. */
  ghost predicate ValueCellOk(p: Prog, pc: nat, slow: bool)
    requires Shape(p) && pc < |p.cells| && IsValueOp(p.cells[pc].op)
  {
    var (c, f, a) := (p.cells[pc], Fn(p, pc), p.ann[pc]);
    && OperandsOk(p, f, a, c, slow)
    && (c.op.MovSlot? ==> c.b == c.c) && (c.op.GlobalGet? ==> GlobalOk(p, c.b))
    && DstField(c) % 8 == 0 && DstOk(f, if slow then PinOf(f, DstSlot(c)) else c.vd, DstSlot(c))
    && Flow(p, pc, if slow then Put(a, DstSlot(c), ResultNarrow(p, f, a, c, slow)).(acc := NoAcc)
                   else After(a, DstSlot(c), c.vd, ResultNarrow(p, f, a, c, slow)), pc + 1)
  }

  function PinOf(f: Func, slot: nat): (d: DstCls) {
    if f.pin0 && slot == f.l0 then ToL0 else if f.pin1 && slot == f.l1 then ToL1 else ToMem
  }

  function Settled(a: Ann, slow: bool): (b: Ann) {
    if slow then a.(acc := NoAcc) else a
  }

  ghost predicate BranchCellOk(p: Prog, pc: nat, slow: bool)
    requires Shape(p) && pc < |p.cells| && IsBranchOp(p.cells[pc].op)
  {
    var (c, f, b) := (p.cells[pc], Fn(p, pc), Settled(p.ann[pc], slow));
    && OperandsOk(p, f, p.ann[pc], c, slow)
    && (!c.op.BrTable? ==> c.c % 32 == 0)
    && (!c.op.Br? && !c.op.BrTable? ==> Flow(p, pc, b, pc + 1))
    && (!c.op.BrTable? ==> Flow(p, pc, b, c.c / 32))
    && (c.op.BrTable? ==> forall i :: c.b / 4 <= i <= c.b / 4 + c.c ==> TableFlow(p, pc, b, i))
  }

  /** Control may go to the cell an entry of the flat table names. */
  ghost predicate TableFlow(p: Prog, pc: nat, b: Ann, i: nat)
    requires Shape(p) && pc < |p.cells|
  {
    i < |p.brFlat| && Flow(p, pc, b, Fn(p, pc).base + p.brFlat[i])
  }

  /** `MovPair`: the second source is read after the first store, and its destinations
      carry the classes of their slots. */
  ghost predicate PairCellOk(p: Prog, pc: nat, slow: bool)
    requires Shape(p) && pc < |p.cells| && p.cells[pc].op.MovPair?
  {
    var (c, f, a) := (p.cells[pc], Fn(p, pc), p.ann[pc]);
    var (d1, d2) := (PackedSlot(c), c.c % W32 / 8);
    && ReadOk(f, a, AtCls(c.va, slow), c.a, false)
    && c.c / W32 % 8 == 0 && c.c % W32 % 8 == 0 && d1 < f.frameSlots && d2 < f.frameSlots
    && (!slow ==> DstOk(f, First(c.vp), d1) && DstOk(f, Second(c.vp), d2) && First(c.vp) != ToAcc && Second(c.vp) != ToAcc)
    && var a1 := Put(a, d1, NarrowOperand(f, a, AtCls(c.va, slow), c.a));
       && ReadOk(f, a1, AtCls(c.vb, slow), c.b, false)
       && var narrow := NarrowOperand(f, a1, AtCls(c.vb, slow), c.b);
          Flow(p, pc, Put(a1, d2, narrow).(acc := if slow then NoAcc else AccOf(d2, narrow)), pc + 1)
  }

  /** `SubBrIf` updates its first operand in place. */
  ghost predicate SubBrCellOk(p: Prog, pc: nat, slow: bool)
    requires Shape(p) && pc < |p.cells| && p.cells[pc].op.SubBrIf?
  {
    var (c, f, a) := (p.cells[pc], Fn(p, pc), p.ann[pc]);
    && OperandsOk(p, f, a, c, slow)
    && !c.va.Const? && !c.va.Acc? && SlotOk(f, c.a) && c.c % 32 == 0
    && (!slow ==> DstOk(f, InPlaceDst(c.va), c.a / 8))
    && var b := Settled(Put(a, c.a / 8, c.op.w == I32), true);
       Flow(p, pc, b, pc + 1) && Flow(p, pc, b, c.c / 32)
  }

  ghost predicate StoreCellOk(p: Prog, pc: nat, slow: bool)
    requires Shape(p) && pc < |p.cells| && (p.cells[pc].op.Store? || p.cells[pc].op.GlobalSet?)
  {
    var (c, f, a) := (p.cells[pc], Fn(p, pc), p.ann[pc]);
    && OperandsOk(p, f, a, c, slow)
    && (c.op.GlobalSet? ==> GlobalOk(p, c.b))
    && (c.op.GlobalSet? && c.b / 8 < |p.narrowGlob| && p.narrowGlob[c.b / 8] ==> NarrowOperand(f, a, AtCls(c.va, slow), c.a))
    && Flow(p, pc, Settled(a, slow), pc + 1)
  }

  /** Three contiguous bulk operands; addresses and lengths are i32 values. */
  predicate PackOk(f: Func, a: Ann, field: nat, copy: bool) {
    && field % 8 == 0
    && KnownSlot(f, a, field, true) && KnownSlot(f, a, field + 8, copy) && KnownSlot(f, a, field + 16, true)
  }

  ghost predicate BulkCellOk(p: Prog, pc: nat)
    requires Shape(p) && pc < |p.cells|
  {
    var (c, f, a) := (p.cells[pc], Fn(p, pc), p.ann[pc]);
    && PackOk(f, a, c.a, c.op.MemoryCopy?)
    && (c.op.MemoryFillCopy? ==> PackOk(f, a, c.b, true))
    && Flow(p, pc, Settled(a, true), pc + 1)
  }

  /** `callee` may be what the cell calls. */
  predicate Calls(p: Prog, op: Op, callee: nat) {
    && IsCallOp(op) && callee < |p.funcs| && callee < |p.canon|
    && (op.Call? ==> op.callee == callee)
    && (op.CallIndirect? ==> p.canon[callee] == op.expected)
  }

  /** What a call site knows fits what the callee expects and leaves. */
  ghost predicate CallTo(p: Prog, pc: nat, callee: nat)
    requires Shape(p) && pc < |p.cells| && IsCallOp(p.cells[pc].op) && callee < |p.funcs|
  {
    var (f, a, g, base) := (Fn(p, pc), p.ann[pc], p.funcs[callee], p.cells[pc].op.argBase);
    && base + g.nParams <= f.frameSlots && base + |g.narrowResults| <= f.frameSlots
    && g.base < |p.cells| && p.owner[g.base] == callee
    && EntryOk(g, p.ann[g.base], a, base)
    && pc + 1 < |p.cells| && p.owner[pc + 1] == p.owner[pc]
    && ResumeOk(g, p.ann[pc + 1], a, base)
  }

  /** A call cell as the fixup pass packs it; an indirect one suits every function of its
      type. */
  ghost predicate CallCellOk(p: Prog, pc: nat)
    requires Shape(p) && pc < |p.cells| && IsCallOp(p.cells[pc].op)
  {
    var (c, f, a) := (p.cells[pc], Fn(p, pc), p.ann[pc]);
    && c.native && 8 * c.op.argBase < W31
    && (forall callee :: 0 <= callee < |p.funcs| && Calls(p, c.op, callee) ==> CallTo(p, pc, callee))
    && (c.op.Call? ==> c.op.callee < |p.funcs| && DirectCellOk(c, f, p.funcs[c.op.callee]))
    && (c.op.CallIndirect? ==>
          && SiteFor(c.a, c.b, f, c.op.indexSlot, c.op.expected, c.op.argBase)
          && KnownSlot(f, a, 8 * c.op.indexSlot, false))
  }

  predicate DirectCellOk(c: Cell, f: Func, g: Func)
    requires c.op.Call?
  {
    c.a == CallA(f, g) && c.b == CallB(g, c.op.argBase) && c.c == CallC(f, g)
  }

  /** At entry only parameters and zeroed locals are known. */
  ghost predicate EntryOk(g: Func, e: Ann, a: Ann, base: nat) {
    && |e.slots| == g.frameSlots && g.nParams <= g.nLocals <= |e.slots| && base + g.nParams <= |a.slots|
    && e.acc == NoAcc
    && (forall i :: 0 <= i < g.nParams ==> KnowLeq(e.slots[i], a.slots[base + i]))
    && (forall i :: g.nLocals <= i < |e.slots| ==> e.slots[i] == Junk)
  }

  /** After the call the slots below the arguments are as before, the results are known,
      everything above them was the callee's, and a single result is also in the
      accumulator. */
  ghost predicate ResumeOk(g: Func, e: Ann, a: Ann, base: nat) {
    var res := g.narrowResults;
    && |e.slots| == |a.slots| && base + |res| <= |e.slots|
    && (forall i :: 0 <= i < base ==> KnowLeq(e.slots[i], a.slots[i]))
    && (forall i :: base <= i < base + |res| ==> KnowLeq(e.slots[i], KnowOf(res[i - base])))
    && (forall i :: base + |res| <= i < |e.slots| ==> e.slots[i] == Junk)
    && (e.acc.AccOf? ==> |res| == 1 && e.acc.slot == base && (e.acc.narrow ==> res[0]))
  }

  ghost predicate ReturnCellOk(p: Prog, pc: nat)
    requires Shape(p) && pc < |p.cells|
  {
    var (c, f, a) := (p.cells[pc], Fn(p, pc), p.ann[pc]);
    c.native && c.a % 8 == 0 && c.b == |f.narrowResults| && ResultsOk(f, a, c.a / 8)
  }

  /** The result slots are known well enough for what the function promises. */
  ghost predicate ResultsOk(g: Func, a: Ann, from: nat) {
    && from + |g.narrowResults| <= g.frameSlots <= |a.slots|
    && forall i :: 0 <= i < |g.narrowResults| ==>
         a.slots[from + i] != Junk && (g.narrowResults[i] ==> a.slots[from + i] == Narrow)
  }

  /** A cell is sound in the given mode. */
  ghost predicate ModeOk(p: Prog, pc: nat, slow: bool)
    requires Shape(p) && pc < |p.cells|
  {
    var c := p.cells[pc];
    if IsValueOp(c.op) then ValueCellOk(p, pc, slow)
    else if IsBranchOp(c.op) then BranchCellOk(p, pc, slow)
    else match c.op
      case MovPair => PairCellOk(p, pc, slow)
      case SubBrIf(_) => SubBrCellOk(p, pc, slow)
      case Store(_, _) => StoreCellOk(p, pc, slow)
      case GlobalSet => StoreCellOk(p, pc, slow)
      case Call(_, _) => !slow && CallCellOk(p, pc)
      case CallIndirect(_, _, _) => !slow && CallCellOk(p, pc)
      case Return => !slow && ReturnCellOk(p, pc)
      case _ => BulkCellOk(p, pc)
  }

  /** Whether a native handler may hand the cell back without a trap following. Such a
      cell must also be sound when the slow path finishes it. */
  predicate BailCanSucceed(p: Prog, c: Cell) {
    c.op.MemoryFill? || c.op.MemoryCopy? || c.op.MemoryFillCopy? || (p.backend.remBails && c.op.Div? && c.op.v == RemS)
  }

  /** The variants there are handlers for: a constant is never moved as a slot, and a pair
      move has neither a constant nor the accumulator for a source. */
  predicate VariantOk(c: Cell) {
    match c.op
    case MovSlot => !c.va.Const?
    case MovConst => c.va.Const?
    case MovPair => !c.va.Const? && !c.va.Acc? && !c.vb.Const? && !c.vb.Acc?
    case Load(k, _) => AccessOk(k)
    case Store(k, _) => AccessOk(k)
    case Un(w, u) => UnForm(w, u)
    case _ => true
  }

  lemma MovCell(p: Prog, n: Native)
    requires n.pc < |p.cells| && (p.cells[n.pc].op.MovSlot? || p.cells[n.pc].op.MovConst?) && VariantOk(p.cells[n.pc])
    ensures var c := p.cells[n.pc]; NativeStep(p, n) == (NNext(Finish(n, c.c / 8, c.vd, NA(c, n))), Running)
  {
    ValueCell(p, n);
    hide NativeStep, Finish;
  }

  ghost predicate CellOk(p: Prog, pc: nat)
    requires Shape(p) && pc < |p.cells|
  {
    var c := p.cells[pc];
    && (c.native ==> VariantOk(c) && ModeOk(p, pc, false))
    && (!c.native || BailCanSucceed(p, c) ==> ModeOk(p, pc, true))
    && (c.native && c.op.Div? ==> !c.va.Acc? && !c.vb.Acc? && OperandsOk(p, Fn(p, pc), p.ann[pc], c, true))
  }

  ghost predicate Linked(p: Prog) {
    && Shape(p)
    && forall pc :: 0 <= pc < |p.cells| ==> CellOk(p, pc)
  }
}
