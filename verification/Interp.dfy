/** Linked dispatch cells, the slot-only reference machine and the register-cached
    native machine. Both run the same cells over one overlapped value stack. Slots are
    counted in 8-byte units from the start of the stack, cells in 32-byte units from the
    start of the cell arena; cell fields hold byte offsets and byte addresses. */
module Interp {
  import opened Words
  import opened WasmNum
  import opened LittleEndian
  import opened BulkSpec
  import opened Packing

  /** Where a handler finds an operand. */
  datatype Cls = Slot | Const | Acc | L0 | L1
  /** Where a handler leaves its result; pinned destinations write the slot as well. */
  datatype DstCls = ToMem | ToAcc | ToL0 | ToL1
  /** Residency of the two ordered destinations of a pair move. */
  datatype PairDstCls = NonePinned | FirstL0 | FirstL1 | SecondL0 | SecondL1 | L0L1 | L1L0

  function First(p: PairDstCls): (d: DstCls) {
    match p
    case FirstL0 | L0L1 => ToL0
    case FirstL1 | L1L0 => ToL1
    case _ => ToMem
  }

  function Second(p: PairDstCls): (d: DstCls) {
    match p
    case SecondL0 | L1L0 => ToL0
    case SecondL1 | L0L1 => ToL1
    case _ => ToMem
  }

  /** A memory access of `size` bytes; a load extends to `w`, by sign if `signed`. */
  datatype Access = Access(size: nat, signed: bool, w: Width)

  /** The accesses there are ops for. */
  predicate AccessOk(k: Access) {
    && (k.size == 1 || k.size == 2 || k.size == 4 || k.size == 8)
    && (k.signed ==> k.size <= 2 || (k.size == 4 && k.w == I64))
  }

  /** The operand widths a unary op comes in. */
  predicate UnForm(w: Width, u: UnOp) {
    && (u == WrapI64 || u == Extend32S ==> w == I64)
    && (u == ExtendI32S || u == ExtendI32U ==> w == I32)
  }

  datatype Op =
    | MovSlot | MovConst | MovPair | Select | GlobalGet | GlobalSet
    | Bin(w: Width, f: BinOp) | Cmp(w: Width, cmp: CmpOp) | Un(w: Width, u: UnOp) | Div(w: Width, v: DivOp)
    | Load(acc: Access, fused: bool) | Store(acc: Access, fused: bool)
    | Br | BrIf | BrIfNot | BrCmp(w: Width, cmp: CmpOp) | BrAnd(negated: bool) | SubBrIf(w: Width) | BrTable
    | MemoryFill | MemoryCopy | MemoryFillCopy
    | Call(callee: nat, argBase: nat) | CallIndirect(indexSlot: nat, expected: nat, argBase: nat) | Return

  datatype Cell = Cell(op: Op, va: Cls, vb: Cls, vd: DstCls, vp: PairDstCls, native: bool, a: Word, b: Word, c: Word)

  /** A function's frame: `[params|locals|temps]`, and up to two pinned locals. */
  datatype Func = Func(base: nat, len: nat, frameSlots: nat, nParams: nat, nLocals: nat, narrowResults: seq<bool>,
                       pin0: bool, l0: nat, pin1: bool, l1: nat, fpPinned: bool)

  /** What is known of a frame slot in the native machine: nothing, that it equals the
      reference slot, or also that this value is a zero-extended 32-bit one. */
  datatype Know = Junk | Same | Narrow
  datatype AccKnow = NoAcc | AccOf(slot: nat, narrow: bool)
  datatype Ann = Ann(slots: seq<Know>, acc: AccKnow)

  /** What differs between backends. `remBails`: the remainder handler leaves MIN rem -1
      to the slow path. `subBrAcc`: the i32 subtract-and-branch of a slot works in the
      accumulator. */
  datatype Backend = Backend(remBails: bool, subBrAcc: bool)

  /** `table` holds function handles, `info` and `canon` an entry and a type class per
      function. */
  datatype Prog = Prog(cells: seq<Cell>, owner: seq<nat>, funcs: seq<Func>, ann: seq<Ann>, brFlat: seq<nat>,
                       narrowGlob: seq<bool>, table: seq<Word>, info: seq<Info>, canon: seq<nat>,
                       maxRecords: nat, backend: Backend)

  datatype Frame = Frame(pc: nat, fp: nat)
  datatype Ref = Ref(stack: seq<Word>, fp: nat, mem: seq<Byte>, glob: seq<Word>, pc: nat, rets: seq<Frame>)

  /** A return record: resume address, caller frame address, caller cell base in the low
      48 bits under its l0 offset, caller l1 offset. */
  datatype Rec = Rec(pc: int, fp: int, codeL0: int, l1: int)
  datatype Native = Native(stack: seq<Word>, fp: nat, mem: seq<Byte>, glob: seq<Word>, pc: nat, rets: seq<Rec>,
                           code: nat, acc: Word, l0: Word, l1: Word)

  datatype Status = Running | Trapped(kind: TrapKind) | Exited | Bailed

  // ---- total accesses ----

  function Get(s: seq<Word>, i: nat): (v: Word) {
    if i < |s| then s[i] else 0
  }

  function Set(s: seq<Word>, i: nat, v: Word): (s': seq<Word>)
    ensures |s'| == |s|
  {
    if i < |s| then s[i := v] else s
  }

  // ---- what a cell computes from its operand values ----

  function BinVal(w: Width, f: BinOp, x: Word, y: Word): (r: Word) {
    IBin(w, f, Trunc(w, x), Trunc(w, y))
  }

  function CmpVal(w: Width, c: CmpOp, x: Word, y: Word): (r: bool) {
    ICmp(w, c, Trunc(w, x), Trunc(w, y))
  }

  /** Effective address: a 32-bit address, plus a second one modulo 2^32 when fused,
      plus the static offset, unbounded. */
  function Address(fused: bool, x: Word, addr2: Word, offset: nat): (ea: nat) {
    offset + if fused then (x + addr2) % W32 else Lo32(x)
  }

  function LoadVal(k: Access, mem: seq<Byte>, ea: nat): (r: Result) {
    if ea + k.size > |mem| then Trap(OutOfBounds)
    else
      var v := Value(mem[ea..ea + k.size]);
      Done(if k.signed && k.size != 0 then ExtendFrom(k.w, Pow2(8 * k.size), v) else v % W64)
  }

  function StoreVal(k: Access, mem: seq<Byte>, ea: nat, v: Word): (r: Option<seq<Byte>>) {
    if ea + k.size > |mem| then None else Some(mem[..ea] + Bytes(v, k.size) + mem[ea + k.size..])
  }

  /** The byte offset of a one-result cell's destination. */
  function DstField(c: Cell): (o: nat) {
    if c.op.Select? || (c.op.Load? && c.op.fused) then c.c % W32 else c.c
  }

  function DstSlot(c: Cell): (i: nat) {
    DstField(c) / 8
  }

  /** The second slot packed in the high half of `c`: a condition or a second address. */
  function PackedSlot(c: Cell): (i: nat) {
    c.c / W32 / 8
  }

  predicate IsValueOp(op: Op) {
    op.MovSlot? || op.MovConst? || op.Select? || op.GlobalGet? || op.Bin? || op.Cmp? || op.Un? || op.Div? || op.Load?
  }

  /** The result of a one-result cell: `x`, `y` are its operands, `cond` the select
      condition, `addr2` the second address. */
  function Compute(c: Cell, x: Word, y: Word, cond: bool, addr2: Word, mem: seq<Byte>, glob: seq<Word>): (r: Result)
    requires IsValueOp(c.op)
  {
    match c.op
    case MovSlot => Done(x)
    case MovConst => Done(c.a)
    case Select => Done(if cond then x else y)
    case GlobalGet => Done(Get(glob, c.b / 8))
    case Bin(w, f) => Done(BinVal(w, f, x, y))
    case Cmp(w, f) => Done(if CmpVal(w, f, x, y) then 1 else 0)
    case Un(w, u) => Done(IUn(w, u, Trunc(w, x)))
    case Div(w, f) => IDiv(w, f, Trunc(w, x), Trunc(w, y))
    case Load(k, fused) => LoadVal(k, mem, Address(fused, x, addr2, c.b))
  }

  predicate IsBranchOp(op: Op) {
    op.Br? || op.BrIf? || op.BrIfNot? || op.BrCmp? || op.BrAnd? || op.BrTable?
  }

  /** Where a branch goes. */
  function BranchTo(p: Prog, c: Cell, pc: nat, code: nat, x: Word, y: Word): (t: nat)
    requires IsBranchOp(c.op)
  {
    var taken := c.c / 32;
    match c.op
    case Br => taken
    case BrIf => if Lo32(x) != 0 then taken else pc + 1
    case BrIfNot => if Lo32(x) == 0 then taken else pc + 1
    case BrCmp(w, f) => if CmpVal(w, f, x, y) then taken else pc + 1
    case BrAnd(negated) => if (And(32, Lo32(x), Lo32(y)) != 0) != negated then taken else pc + 1
    case BrTable =>
      var i := c.b / 4 + if Lo32(x) < c.c then Lo32(x) else c.c;
      (code + 32 * (if i < |p.brFlat| then p.brFlat[i] else 0)) / 32
  }

  // ---- the reference machine: every operand and result in its slot ----

  function RSlot(r: Ref, i: nat): (v: Word) {
    Get(r.stack, r.fp + i)
  }

  function RA(c: Cell, r: Ref): (v: Word) {
    if c.va.Const? then c.a else RSlot(r, c.a / 8)
  }

  function RB(c: Cell, r: Ref): (v: Word) {
    if c.vb.Const? then c.b else RSlot(r, c.b / 8)
  }

  function RPut(r: Ref, i: nat, v: Word): (r': Ref) {
    r.(stack := Set(r.stack, r.fp + i, v))
  }

  function RNext(r: Ref): (r': Ref) {
    r.(pc := r.pc + 1)
  }

  /** `MemoryFill`/`MemoryCopy` operands in three contiguous slots. */
  function FillMem(m: seq<Byte>, d: nat, v: Word, n: nat): (r: Option<seq<Byte>>) {
    if d + n > |m| then None
    else Some(seq(|m|, i requires 0 <= i < |m| => if d <= i < d + n then v % 256 else m[i]))
  }

  function CopyMem(m: seq<Byte>, d: nat, s: nat, n: nat): (r: Option<seq<Byte>>) {
    if d + n > |m| || s + n > |m| then None else Some(m[..d] + m[s..s + n] + m[d + n..])
  }

  function RefBulk(c: Cell, r: Ref): (out: (Ref, Status))
  {
    var i := c.a / 8;
    var (d, x, n) := (Lo32(RSlot(r, i)), RSlot(r, i + 1), Lo32(RSlot(r, i + 2)));
    var m := if c.op.MemoryFill? then FillMem(r.mem, d, x, n) else CopyMem(r.mem, d, Lo32(x), n);
    if m.None? then (r, Trapped(OutOfBounds)) else (RNext(r.(mem := m.value)), Running)
  }

  /** Fill, then copy; the fill stays committed when the copy traps. */
  function RefFillCopy(c: Cell, r: Ref): (out: (Ref, Status)) {
    var (i, j) := (c.a / 8, c.b / 8);
    var m := FillMem(r.mem, Lo32(RSlot(r, i)), RSlot(r, i + 1), Lo32(RSlot(r, i + 2)));
    if m.None? then (r, Trapped(OutOfBounds))
    else
      var m2 := CopyMem(m.value, Lo32(RSlot(r, j)), Lo32(RSlot(r, j + 1)), Lo32(RSlot(r, j + 2)));
      if m2.None? then (r.(mem := m.value), Trapped(OutOfBounds)) else (RNext(r.(mem := m2.value)), Running)
  }

  /** Slots `[from, from+n)` moved down onto `[to, to+n)`. */
  function MoveSlots(s: seq<Word>, to: nat, from: nat, n: nat): (s': seq<Word>)
    ensures |s'| == |s|
  {
    if to + n <= |s| && from + n <= |s| then s[..to] + s[from..from + n] + s[to + n..] else s
  }

  function ZeroSlots(s: seq<Word>, from: nat, to: nat): (s': seq<Word>)
    ensures |s'| == |s|
  {
    if from <= to <= |s| then s[..from] + seq(to - from, _ => 0) + s[to..] else s
  }

  predicate IsCallOp(op: Op) {
    op.Call? || op.CallIndirect?
  }

  /** The function a call cell calls when its table operand is `index`: a null or special
      handle, or one of another type, has no callee. */
  function Callee(p: Prog, op: Op, index: Word): (fi: Option<nat>)
    requires IsCallOp(op)
  {
    if op.Call? then Some(op.callee)
    else
      var t := Lo32(index);
      if t >= |p.table| || p.table[t] >= |p.canon| || p.canon[p.table[t]] != op.expected then None else Some(p.table[t])
  }

  function RefEnter(p: Prog, callee: nat, argBase: nat, r: Ref): (out: (Ref, Status)) {
    if callee >= |p.funcs| then (r, Exited)
    else
      var g := p.funcs[callee];
      var fp' := r.fp + argBase;
      if |r.rets| >= p.maxRecords || fp' + g.frameSlots > |r.stack| then (r, Trapped(Exhausted))
      else
        (Ref(ZeroSlots(r.stack, fp' + g.nParams, fp' + g.nLocals), fp', r.mem, r.glob, g.base,
             r.rets + [Frame(r.pc + 1, r.fp)]), Running)
  }

  function RefCall(p: Prog, c: Cell, r: Ref): (out: (Ref, Status))
    requires IsCallOp(c.op)
  {
    var fi := Callee(p, c.op, if c.op.Call? then 0 else RSlot(r, c.op.indexSlot));
    if fi.None? then (r, Trapped(UndefinedElement)) else RefEnter(p, fi.value, c.op.argBase, r)
  }

  function RefReturn(c: Cell, r: Ref): (out: (Ref, Status)) {
    var s := MoveSlots(r.stack, r.fp, r.fp + c.a / 8, c.b);
    if r.rets == [] then (r.(stack := s), Exited)
    else
      var top := r.rets[|r.rets| - 1];
      (r.(stack := s, fp := top.fp, pc := top.pc, rets := r.rets[..|r.rets| - 1]), Running)
  }

  function CodeBase(p: Prog, pc: nat): (a: nat) {
    if pc < |p.owner| && p.owner[pc] < |p.funcs| then 32 * p.funcs[p.owner[pc]].base else 0
  }

  function RefValue(c: Cell, r: Ref): (out: (Ref, Status))
    requires IsValueOp(c.op)
  {
    var s := RSlot(r, PackedSlot(c));
    var v := Compute(c, RA(c, r), RB(c, r), Lo32(s) != 0, s, r.mem, r.glob);
    if v.Trap? then (r, Trapped(v.kind)) else (RNext(RPut(r, DstSlot(c), v.v)), Running)
  }

  /** Two ordered copies: the second source is read after the first store. */
  function RefPair(c: Cell, r: Ref): (r': Ref) {
    var r1 := RPut(r, PackedSlot(c), RA(c, r));
    RNext(RPut(r1, c.c % W32 / 8, RB(c, r1)))
  }

  function RefSubBr(w: Width, c: Cell, r: Ref): (r': Ref) {
    var v := BinVal(w, Sub, RA(c, r), RB(c, r));
    RPut(r, c.a / 8, v).(pc := if v != 0 then c.c / 32 else r.pc + 1)
  }

  function RefStore(k: Access, fused: bool, c: Cell, r: Ref): (out: (Ref, Status)) {
    var m := StoreVal(k, r.mem, Address(fused, RA(c, r), RSlot(r, PackedSlot(c)), if fused then c.c % W32 else c.c), RB(c, r));
    if m.None? then (r, Trapped(OutOfBounds)) else (RNext(r.(mem := m.value)), Running)
  }

  function RefStep(p: Prog, r: Ref): (out: (Ref, Status)) {
    if r.pc >= |p.cells| then (r, Exited)
    else
      var c := p.cells[r.pc];
      if IsValueOp(c.op) then RefValue(c, r)
      else if IsBranchOp(c.op) then
        (r.(pc := BranchTo(p, c, r.pc, CodeBase(p, r.pc), RA(c, r), RB(c, r))), Running)
      else
        match c.op
        case MovPair => (RefPair(c, r), Running)
        case GlobalSet => (RNext(r.(glob := Set(r.glob, c.b / 8, RA(c, r)))), Running)
        case SubBrIf(w) => (RefSubBr(w, c, r), Running)
        case Store(k, fused) => RefStore(k, fused, c, r)
        case MemoryFillCopy => RefFillCopy(c, r)
        case Call(_, _) => RefCall(p, c, r)
        case CallIndirect(_, _, _) => RefCall(p, c, r)
        case Return => RefReturn(c, r)
        case _ => RefBulk(c, r)
  }

  // ---- the native machine: operands by class, write-through results ----

  function NSlot(n: Native, i: nat): (v: Word) {
    Get(n.stack, n.fp + i)
  }

  function Fetch(n: Native, cls: Cls, field: Word): (v: Word) {
    match cls
    case Acc => n.acc
    case L0 => n.l0
    case L1 => n.l1
    case Const => field
    case Slot => NSlot(n, field / 8)
  }

  function NA(c: Cell, n: Native): (v: Word) {
    Fetch(n, c.va, c.a)
  }

  function NB(c: Cell, n: Native): (v: Word) {
    Fetch(n, c.vb, c.b)
  }

  /** A store to a slot together with the register pinned to it. */
  function PinPut(n: Native, i: nat, d: DstCls, v: Word): (n': Native) {
    var n1 := n.(stack := Set(n.stack, n.fp + i, v));
    if d == ToL0 then n1.(l0 := v) else if d == ToL1 then n1.(l1 := v) else n1
  }

  /** Landing a result: unpinned results are computed in the accumulator, and an
      accumulator-only result skips the store. */
  function Finish(n: Native, i: nat, d: DstCls, v: Word): (n': Native) {
    match d
    case ToAcc => n.(acc := v)
    case ToMem => PinPut(n, i, d, v).(acc := v)
    case _ => PinPut(n, i, d, v)
  }

  function NNext(n: Native): (n': Native) {
    n.(pc := n.pc + 1)
  }

  /** The pinned register an in-place operand lives in. */
  function InPlaceDst(cls: Cls): (d: DstCls) {
    if cls == L0 then ToL0 else if cls == L1 then ToL1 else ToMem
  }

  /** A division hands these operands to the slow path. */
  predicate DivBails(p: Prog, w: Width, f: DivOp, x: Word, y: Word) {
    || IDiv(w, f, Trunc(w, x), Trunc(w, y)).Trap?
    || (p.backend.remBails && f == RemS && SignedAt(w, Trunc(w, x)) == -(Modulus(w) / 2) && SignedAt(w, Trunc(w, y)) == -1)
  }

  /** Bit field `[lo, lo+len)` of a packed word. */
  function Field(x: nat, lo: nat, len: nat): (r: nat)
    ensures r < Pow2(len)
  {
    x / Pow2(lo) % Pow2(len)
  }

  /** The packed call words, unpacked: caller offsets, callee cell base and pinned
      offsets, argument area, frame size, locals and parameters. */
  datatype CallInfo = CallInfo(callerL0: nat, callerL1: nat, code: nat, l0: nat, l1: nat,
                               args: nat, slots: nat, locals: nat, params: nat)

  function Unpack(a: nat, b: nat, c: nat): (i: CallInfo) {
    CallInfo(c / W48, a / W48, Field(a, 0, 48), Field(b, 32, 16), b / W48,
             Field(b, 0, 31), Field(c, 32, 16), Field(c, 16, 16), Field(c, 0, 16))
  }

  /** Activation entry, shared by direct and indirect calls. */
  function Enter(p: Prog, n: Native, i: CallInfo): (out: (Native, Status)) {
    if |n.rets| >= p.maxRecords then (n, Trapped(Exhausted))
    else
      var fp' := n.fp + i.args / 8;
      if fp' + i.slots > |n.stack| then (n, Trapped(Exhausted))
      else
        var rec := Rec(32 * (n.pc + 1), 8 * n.fp, n.code + i.callerL0 * W48, i.callerL1);
        var s := ZeroSlots(n.stack, fp' + i.params, fp' + i.locals);
        (Native(s, fp', n.mem, n.glob, i.code / 32, n.rets + [rec], i.code, n.acc,
                Get(s, fp' + i.l0 / 8), Get(s, fp' + i.l1 / 8)), Running)
  }

  function NativeCall(p: Prog, n: Native, a: nat, b: nat, c: nat): (out: (Native, Status)) {
    Enter(p, n, Unpack(a, b, c))
  }

  /** The lookup, its guards, and entry by composed words; a failed guard bails. */
  function NativeCallIndirect(p: Prog, c: Cell, n: Native): (out: (Native, Status)) {
    var fi := Target(p.table, p.info, NSlot(n, FieldWord(c.a, 0, 32) / 8), FieldWord(c.b, 32, 16));
    if fi.None? then (n, Bailed)
    else
      var w := ComposeArm64(c.a, c.b, p.info[fi.value]);
      NativeCall(p, n, w.a, w.b, w.c)
  }

  /** Results to the frame base, then the top record. An odd l0 offset flags a
      float-pinned caller. */
  function NativeReturn(n: Native, c: Cell): (out: (Native, Status)) {
    var n1 := WithResults(n, c);
    if n.rets == [] then (n1, Exited)
    else (Resume(n1, n.rets[|n.rets| - 1]), Running)
  }

  function WithResults(n: Native, c: Cell): (n': Native) {
    var s := MoveSlots(n.stack, n.fp, n.fp + c.a / 8, c.b);
    n.(stack := s, acc := if c.b == 0 then n.acc else Get(s, n.fp + c.b - 1))
  }

  function Resume(n: Native, rec: Rec): (n': Native)
    requires n.rets != []
  {
    var off := rec.codeL0 / W48;
    var fp := AsNat(rec.fp / 8);
    n.(fp := fp, pc := AsNat(rec.pc / 32), rets := n.rets[..|n.rets| - 1], code := AsNat(rec.codeL0 % W48),
       l0 := Get(n.stack, fp + AsNat((off - off % 2) / 8)), l1 := Get(n.stack, fp + AsNat(rec.l1 / 8)))
  }

  function AsNat(x: int): (r: nat) {
    if x < 0 then 0 else x
  }

  /** Bulk operations bail on any failed guard. */
  function NativeBulk(c: Cell, n: Native): (out: (Native, Status))
  {
    var i := c.a / 8;
    var (d, x, k) := (NSlot(n, i), NSlot(n, i + 1), NSlot(n, i + 2));
    var m := if c.op.MemoryFill? then FillMem(n.mem, d, x, k) else CopyMem(n.mem, d, x, k);
    if m.None? then (n, Bailed) else (NNext(n.(mem := m.value)), Running)
  }

  function NativeFillCopy(c: Cell, n: Native): (out: (Native, Status)) {
    var (i, j) := (c.a / 8, c.b / 8);
    var (fd, v, fn) := (NSlot(n, i), NSlot(n, i + 1), NSlot(n, i + 2));
    var (cd, cs, cn) := (NSlot(n, j), NSlot(n, j + 1), NSlot(n, j + 2));
    if fd + fn <= |n.mem| && cd + cn <= |n.mem| && fd <= cs && cs + cn <= fd + fn && cd <= fd + fn && fd <= cd + cn then
      var lo := if fd < cd then fd else cd;
      var hi := if fd + fn >= cd + cn then fd + fn else cd + cn;
      var m := FillMem(n.mem, lo, v, hi - lo);
      if m.None? then (n, Bailed) else (NNext(n.(mem := m.value)), Running)
    else (n, Bailed)
  }

  function NativeValue(p: Prog, c: Cell, n: Native): (out: (Native, Status))
    requires IsValueOp(c.op)
  {
    if c.op.Div? && DivBails(p, c.op.w, c.op.v, NA(c, n), NB(c, n)) then (n, Bailed)
    else
      var s := NSlot(n, PackedSlot(c));
      var v := Compute(c, NA(c, n), NB(c, n), s != 0, s, n.mem, n.glob);
      if v.Trap? then (n, Trapped(v.kind)) else (NNext(Finish(n, DstSlot(c), c.vd, v.v)), Running)
  }

  /** The first destination, register included, commits before the second source is
      read; the second value also lands in the accumulator. */
  function NativePair(c: Cell, n: Native): (n': Native) {
    var n1 := PinPut(n, PackedSlot(c), First(c.vp), NA(c, n));
    var y := NB(c, n1);
    NNext(PinPut(n1, c.c % W32 / 8, Second(c.vp), y).(acc := y))
  }

  /** The difference in place, and on some backends in the accumulator. */
  function SubBrWritten(p: Prog, w: Width, c: Cell, n: Native, v: Word): (n': Native) {
    var n1 := PinPut(n, c.a / 8, InPlaceDst(c.va), v);
    if p.backend.subBrAcc && w == I32 && c.va == Slot then n1.(acc := v) else n1
  }

  function NativeSubBr(p: Prog, w: Width, c: Cell, n: Native): (n': Native) {
    var v := BinVal(w, Sub, NA(c, n), NB(c, n));
    SubBrWritten(p, w, c, n, v).(pc := if v != 0 then c.c / 32 else n.pc + 1)
  }

  function NativeStore(k: Access, fused: bool, c: Cell, n: Native): (out: (Native, Status)) {
    var m := StoreVal(k, n.mem, Address(fused, NA(c, n), NSlot(n, PackedSlot(c)), if fused then c.c % W32 else c.c), NB(c, n));
    if m.None? then (n, Trapped(OutOfBounds)) else (NNext(n.(mem := m.value)), Running)
  }

  /** One native handler. */
  function NativeStep(p: Prog, n: Native): (out: (Native, Status)) {
    if n.pc >= |p.cells| then (n, Exited)
    else
      var c := p.cells[n.pc];
      if IsValueOp(c.op) then NativeValue(p, c, n)
      else if IsBranchOp(c.op) then (n.(pc := BranchTo(p, c, n.pc, n.code, NA(c, n), NB(c, n))), Running)
      else
        match c.op
        case MovPair => (NativePair(c, n), Running)
        case GlobalSet => (NNext(n.(glob := Set(n.glob, c.b / 8, NA(c, n)))), Running)
        case SubBrIf(w) => (NativeSubBr(p, w, c, n), Running)
        case Store(k, fused) => NativeStore(k, fused, c, n)
        case MemoryFillCopy => NativeFillCopy(c, n)
        case Call(_, _) => NativeCall(p, n, c.a, c.b, c.c)
        case CallIndirect(_, _, _) => NativeCallIndirect(p, c, n)
        case Return => NativeReturn(n, c)
        case _ => NativeBulk(c, n)
  }

  /** The shared executor runs the cell on the frame slots, the accumulator survives
      untouched, and re-entry reloads the pinned registers from their slots. */
  function SlowStep(p: Prog, n: Native): (out: (Native, Status)) {
    var (r, st) := RefStep(p, Ref(n.stack, n.fp, n.mem, n.glob, n.pc, []));
    (Reload(p, n.(stack := r.stack, mem := r.mem, glob := r.glob, pc := r.pc)), st)
  }

  function Reload(p: Prog, n: Native): (n': Native) {
    if n.pc < |p.owner| && p.owner[n.pc] < |p.funcs| then
      var f := p.funcs[p.owner[n.pc]];
      n.(l0 := NSlot(n, if f.pin0 then f.l0 else 0), l1 := NSlot(n, if f.pin1 then f.l1 else 0))
    else n
  }

  /** The driver: native handlers where there are any, the slow path for the rest and
      for every bail. */
  function DriveStep(p: Prog, n: Native): (out: (Native, Status)) {
    if n.pc < |p.cells| && !p.cells[n.pc].native then SlowStep(p, n)
    else
      var (n', st) := NativeStep(p, n);
      if st == Bailed then SlowStep(p, n) else (n', st)
  }

  function RefRun(p: Prog, r: Ref, k: nat): (out: (Ref, Status))
    decreases k
  {
    if k == 0 then (r, Running)
    else
      var (r', st) := RefStep(p, r);
      if st == Running then RefRun(p, r', k - 1) else (r', st)
  }

  function DriveRun(p: Prog, n: Native, k: nat): (out: (Native, Status))
    decreases k
  {
    if k == 0 then (n, Running)
    else
      var (n', st) := DriveStep(p, n);
      if st == Running then DriveRun(p, n', k - 1) else (n', st)
  }

  /** The first `k` slots have moved from `hi` down onto `lo`. */
  ghost predicate Moved(s0: seq<Word>, s: seq<Word>, lo: nat, hi: nat, k: nat) {
    && |s0| == |s| && lo <= hi && hi + k <= |s0|
    && (forall i :: lo <= i < lo + k ==> s[i] == s0[hi + (i - lo)])
    && (forall i :: 0 <= i < lo ==> s[i] == s0[i])
    && (forall i :: lo + k <= i < |s| ==> s[i] == s0[i])
  }

  /** The next slot up is still what it was at the start. */
  lemma MovedOne(s0: seq<Word>, s: seq<Word>, s': seq<Word>, lo: nat, hi: nat, k: nat)
    requires Moved(s0, s, lo, hi, k) && hi + k < |s0| && s' == s[lo + k := s[hi + k]]
    ensures Moved(s0, s', lo, hi, k + 1) && s'[lo + k] == s0[hi + k]
  {
  }

  /** Moving upward one slot at a time reads every source before it is overwritten. */
  lemma MovedAll(s0: seq<Word>, s: seq<Word>, lo: nat, hi: nat, n: nat)
    requires Moved(s0, s, lo, hi, n)
    ensures s == MoveSlots(s0, lo, hi, n)
  {
    var t := MoveSlots(s0, lo, hi, n);
    assert t == s0[..lo] + s0[hi..hi + n] + s0[lo + n..];
    forall i | 0 <= i < |s|
      ensures s[i] == t[i]
    {
      if i < lo { assert t[i] == s0[i]; }
      else if i < lo + n { assert t[i] == s0[hi..hi + n][i - lo]; }
      else { assert t[i] == s0[i]; }
    }
  }

  lemma MovedNone(s: seq<Word>, lo: nat, hi: nat)
    requires lo <= hi <= |s|
    ensures Moved(s, s, lo, hi, 0)
  {
  }

  lemma SetIs(s: seq<Word>, i: nat, j: nat, v: Word)
    requires i < |s| && j < |s| && v == Get(s, j)
    ensures Set(s, i, v) == s[i := s[j]] && Get(Set(s, i, v), i) == v
  {
  }

  lemma MovedLength(s0: seq<Word>, s: seq<Word>, lo: nat, hi: nat, k: nat)
    requires Moved(s0, s, lo, hi, k)
    ensures |s| == |s0|
  {
  }

  lemma RunStarts(p: Prog, n: Native)
    ensures DriveRun(p, n, 0) == (n, Running)
  {
  }

  /** One more dispatch of a run. */
  lemma {:induction false} RunExtends(p: Prog, n: Native, k: nat)
    requires DriveRun(p, n, k).1 == Running
    ensures DriveRun(p, n, k + 1) == DriveStep(p, DriveRun(p, n, k).0)
    decreases k
  {
    hide DriveStep;
    if k == 0 {
      assert DriveRun(p, DriveStep(p, n).0, 0) == (DriveStep(p, n).0, Running);
    } else {
      RunExtends(p, DriveStep(p, n).0, k - 1);
    }
  }

  // A cell's native step, by kind of cell.

  lemma ValueCell(p: Prog, n: Native)
    requires n.pc < |p.cells| && IsValueOp(p.cells[n.pc].op)
    ensures NativeStep(p, n) == NativeValue(p, p.cells[n.pc], n)
  {
  }

  lemma PairCell(p: Prog, n: Native)
    requires n.pc < |p.cells| && p.cells[n.pc].op.MovPair?
    ensures NativeStep(p, n) == (NativePair(p.cells[n.pc], n), Running)
  {
  }

  lemma SubBrCell(p: Prog, n: Native)
    requires n.pc < |p.cells| && p.cells[n.pc].op.SubBrIf?
    ensures NativeStep(p, n) == (NativeSubBr(p, p.cells[n.pc].op.w, p.cells[n.pc], n), Running)
  {
  }

  /** Where the accumulator is left alone. */
  lemma SubBrInPlace(p: Prog, n: Native)
    requires n.pc < |p.cells| && p.cells[n.pc].op.SubBrIf?
    requires var c := p.cells[n.pc]; !(p.backend.subBrAcc && c.op.w == I32 && c.va == Slot)
    ensures var c := p.cells[n.pc];
            var v := BinVal(c.op.w, Sub, NA(c, n), NB(c, n));
            NativeStep(p, n) ==
              (PinPut(n, c.a / 8, InPlaceDst(c.va), v).(pc := if v != 0 then c.c / 32 else n.pc + 1), Running)
  {
    SubBrCell(p, n);
    hide NativeStep, BinVal, PinPut;
  }

  lemma SubBrGoes(p: Prog, n: Native, w: Width)
    requires n.pc < |p.cells| && p.cells[n.pc].op == SubBrIf(w)
    ensures var c := p.cells[n.pc];
            var v := BinVal(w, Sub, NA(c, n), NB(c, n));
            NativeStep(p, n) == (SubBrWritten(p, w, c, n, v).(pc := if v != 0 then c.c / 32 else n.pc + 1), Running)
  {
    SubBrCell(p, n);
    hide NativeStep, BinVal, SubBrWritten;
  }

  lemma StoreCell(p: Prog, n: Native)
    requires n.pc < |p.cells| && p.cells[n.pc].op.Store?
    ensures NativeStep(p, n) == NativeStore(p.cells[n.pc].op.acc, p.cells[n.pc].op.fused, p.cells[n.pc], n)
  {
  }

  lemma GlobalCell(p: Prog, n: Native)
    requires n.pc < |p.cells| && p.cells[n.pc].op.GlobalSet?
    ensures var c := p.cells[n.pc]; NativeStep(p, n) == (NNext(n.(glob := Set(n.glob, c.b / 8, NA(c, n)))), Running)
  {
  }

  lemma BranchCell(p: Prog, n: Native)
    requires n.pc < |p.cells| && IsBranchOp(p.cells[n.pc].op)
    ensures var c := p.cells[n.pc];
            NativeStep(p, n) == (n.(pc := BranchTo(p, c, n.pc, n.code, NA(c, n), NB(c, n))), Running)
  {
  }

  lemma CallCell(p: Prog, n: Native)
    requires n.pc < |p.cells| && p.cells[n.pc].op.Call?
    ensures var c := p.cells[n.pc]; NativeStep(p, n) == Enter(p, n, Unpack(c.a, c.b, c.c))
  {
  }

  lemma CallIndirectCell(p: Prog, n: Native)
    requires n.pc < |p.cells| && p.cells[n.pc].op.CallIndirect?
    ensures NativeStep(p, n) == NativeCallIndirect(p, p.cells[n.pc], n)
  {
    hide NativeCallIndirect;
  }

  lemma ReturnCell(p: Prog, n: Native)
    requires n.pc < |p.cells| && p.cells[n.pc].op.Return?
    ensures NativeStep(p, n) == NativeReturn(n, p.cells[n.pc])
  {
  }

  lemma BulkCell(p: Prog, n: Native)
    requires n.pc < |p.cells| && (p.cells[n.pc].op.MemoryFill? || p.cells[n.pc].op.MemoryCopy?)
    ensures NativeStep(p, n) == NativeBulk(p.cells[n.pc], n)
  {
  }

  lemma FillCopyCell(p: Prog, n: Native)
    requires n.pc < |p.cells| && p.cells[n.pc].op.MemoryFillCopy?
    ensures NativeStep(p, n) == NativeFillCopy(p.cells[n.pc], n)
  {
  }

  lemma StoreNeverBails(p: Prog, n: Native)
    requires n.pc < |p.cells|
    requires var op := p.cells[n.pc].op; op.MovPair? || op.SubBrIf? || op.Store? || op.GlobalSet? || IsBranchOp(op)
    ensures NativeStep(p, n).1 != Bailed
  {
    hide NativePair, NativeSubBr, StoreVal, BranchTo;
  }

  // A cell's reference step.

  lemma RefCells(p: Prog, r: Ref)
    requires r.pc < |p.cells|
    ensures var c := p.cells[r.pc];
      && (c.op.MovPair? ==> RefStep(p, r) == (RefPair(c, r), Running))
      && (c.op.SubBrIf? ==> RefStep(p, r) == (RefSubBr(c.op.w, c, r), Running))
      && (c.op.MemoryFill? || c.op.MemoryCopy? ==> RefStep(p, r) == RefBulk(c, r))
      && (c.op.MemoryFillCopy? ==> RefStep(p, r) == RefFillCopy(c, r))
      && (IsCallOp(c.op) ==> RefStep(p, r) == RefCall(p, c, r))
      && (c.op.Return? ==> RefStep(p, r) == RefReturn(c, r))
  {
    hide RefPair, RefSubBr, RefBulk, RefFillCopy, RefCall, RefReturn, RefStore, RefValue, BranchTo;
  }

  lemma SelectCell(p: Prog, n: Native)
    requires n.pc < |p.cells| && p.cells[n.pc].op.Select?
    ensures var c := p.cells[n.pc];
            NativeStep(p, n) == (NNext(Finish(n, c.c % W32 / 8, c.vd, if NSlot(n, c.c / W32 / 8) != 0 then NA(c, n) else NB(c, n))), Running)
  {
    ValueCell(p, n);
    hide NativeStep, Finish;
  }

  lemma PinPutKeepsAcc(n: Native, i: nat, d: DstCls, v: Word)
    ensures PinPut(n.(acc := v), i, d, v) == PinPut(n, i, d, v).(acc := v)
  {
  }

  lemma DivCell(p: Prog, n: Native, w: Width, v: DivOp)
    requires n.pc < |p.cells| && p.cells[n.pc].op == Div(w, v)
    ensures var c := p.cells[n.pc];
            var r := IDiv(w, v, Trunc(w, NA(c, n)), Trunc(w, NB(c, n)));
            if DivBails(p, w, v, NA(c, n), NB(c, n)) then NativeStep(p, n) == (n, Bailed)
            else r.Done? && NativeStep(p, n) == (NNext(Finish(n, c.c / 8, c.vd, r.v)), Running)
  {
    ValueCell(p, n);
    hide NativeStep, IDiv, Finish, DivBails;
  }

  lemma GlobalGetCell(p: Prog, n: Native)
    requires n.pc < |p.cells| && p.cells[n.pc].op.GlobalGet?
    ensures var c := p.cells[n.pc]; NativeStep(p, n) == (NNext(Finish(n, c.c / 8, c.vd, Get(n.glob, c.b / 8))), Running)
  {
    ValueCell(p, n);
    hide NativeStep, Finish;
  }

  lemma BinCell(p: Prog, n: Native, w: Width, f: BinOp)
    requires n.pc < |p.cells| && p.cells[n.pc].op == Bin(w, f)
    ensures var c := p.cells[n.pc];
            NativeStep(p, n) == (NNext(Finish(n, c.c / 8, c.vd, BinVal(w, f, NA(c, n), NB(c, n)))), Running)
  {
    ValueCell(p, n);
    hide NativeStep, BinVal, Finish;
  }

  lemma CmpCell(p: Prog, n: Native, w: Width, f: CmpOp)
    requires n.pc < |p.cells| && p.cells[n.pc].op == Cmp(w, f)
    ensures var c := p.cells[n.pc];
            NativeStep(p, n) == (NNext(Finish(n, c.c / 8, c.vd, if CmpVal(w, f, NA(c, n), NB(c, n)) then 1 else 0)), Running)
  {
    ValueCell(p, n);
    hide NativeStep, CmpVal, Finish;
  }

  lemma UnCell(p: Prog, n: Native, w: Width, u: UnOp)
    requires n.pc < |p.cells| && p.cells[n.pc].op == Un(w, u)
    ensures var c := p.cells[n.pc];
            NativeStep(p, n) == (NNext(Finish(n, c.c / 8, c.vd, IUn(w, u, Trunc(w, NA(c, n))))), Running)
  {
    ValueCell(p, n);
    hide NativeStep, IUn, Finish;
  }

  lemma BrCmpCell(p: Prog, n: Native, w: Width, f: CmpOp)
    requires n.pc < |p.cells| && p.cells[n.pc].op == BrCmp(w, f)
    ensures var c := p.cells[n.pc];
            NativeStep(p, n) == (n.(pc := if CmpVal(w, f, NA(c, n), NB(c, n)) then c.c / 32 else n.pc + 1), Running)
  {
    BranchCell(p, n);
    hide NativeStep, CmpVal;
  }

  /** The fill and copy memories of the machines are the Wasm ones. */
  lemma MachineBulkIsWasm(m: seq<Byte>, d: nat, s: nat, v: Word, n: nat)
    ensures FillMem(m, d, v, n).Some? <==> d + n <= |m|
    ensures d + n <= |m| ==> FillMem(m, d, v, n).value == FillBytes(m, d, v % 256, n)
    ensures CopyMem(m, d, s, n).Some? <==> d + n <= |m| && s + n <= |m|
    ensures d + n <= |m| && s + n <= |m| ==> CopyMem(m, d, s, n).value == CopyBytes(m, d, s, n)
  {
    if d + n <= |m| {
      FillUnique(m, FillMem(m, d, v, n).value, d, v % 256, n);
      if s + n <= |m| { CopyUnique(m, CopyMem(m, d, s, n).value, d, s, n); }
    }
  }

  /** The bulk cells write what the specification's fill and copy write, or bail with
      nothing changed. */
  lemma BulkOutcome(p: Prog, n: Native, d: Word, x: Word, k: Word)
    requires n.pc < |p.cells| && (p.cells[n.pc].op.MemoryFill? || p.cells[n.pc].op.MemoryCopy?)
    requires var i := p.cells[n.pc].a / 8; d == NSlot(n, i) && x == NSlot(n, i + 1) && k == NSlot(n, i + 2)
    ensures var ok := d + k <= |n.mem| && (p.cells[n.pc].op.MemoryCopy? ==> x + k <= |n.mem|);
            && (!ok ==> NativeStep(p, n) == (n, Bailed))
            && (ok && p.cells[n.pc].op.MemoryFill? ==>
                  NativeStep(p, n) == (n.(mem := FillBytes(n.mem, d, x % 256, k), pc := n.pc + 1), Running))
            && (ok && p.cells[n.pc].op.MemoryCopy? ==>
                  NativeStep(p, n) == (n.(mem := CopyBytes(n.mem, d, x, k), pc := n.pc + 1), Running))
  {
    BulkCell(p, n);
    hide NativeStep, NSlot, FillMem, CopyMem;
    MachineBulkIsWasm(n.mem, d, x, x, k);
  }
}
