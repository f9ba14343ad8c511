/** `call_indirect`: the runtime lookup, its guards, and the call words each backend
    composes from the caller's cell and the callee's table entry. */
module Indirect {
  import opened Words
  import opened Bits
  import opened WasmNum
  import opened Packing
  import opened Interp
  import opened WellFormed
  import opened Coherence
  import opened CallSteps
  import opened Rotations

  /** What the site's fields are. */
  lemma SiteFields(a: Word, b: Word, f: Func, indexSlot: nat, expected: nat, argBase: nat)
    requires SiteFor(a, b, f, indexSlot, expected, argBase)
    ensures FieldWord(a, 0, 32) == 8 * indexSlot && FieldWord(b, 32, 16) == expected
  {
    hide FieldWord;
    LowField(a, L1Off(f) * W16, 8 * indexSlot);
    Pow2Values();
    hide Pow2;
    assert FieldWord(b, 32, 16) == Field(b, 32, 16) by { FieldsAgree(b, 32, 16); }
    FieldAt(b, 32, 16, L0Word(f), expected, 8 * argBase);
  }

  lemma FieldsAgree(x: Word, lo: nat, len: nat)
    ensures FieldWord(x, lo, len) == Field(x, lo, len)
  {
  }

  // ---- shifts and merges of packed words ----

  /** Shifting the high part down and up again clears the low part. */
  lemma HighPart(x: Word, k: nat, hi: nat, lo: nat)
    requires k < 64 && x == hi * Pow2(k) + lo && lo < Pow2(k)
    ensures ShrWord(x, k) == hi && ShlWord(ShrWord(x, k), k) == hi * Pow2(k)
  {
    hide Pow2;
    DivModUnique(x, Pow2(k), hi, lo);
    var y := hi * Pow2(k);
    assert 0 <= y <= x by { MulMono(hi, 0, Pow2(k)); }
  }

  /** Or-ing a part below `2^k` with a multiple of `2^k` adds them, in either order. */
  lemma Merge(k: nat, lo: Word, hi: nat)
    requires k <= 64 && lo < Pow2(k) && hi < Pow2(64 - k)
    ensures hi * Pow2(k) + lo < W64
    ensures var h: nat := hi * Pow2(k); Or64(lo, h) == Or64(h, lo) == h + lo
  {
    hide Pow2, Or;
    UpIsProduct(k, hi);
    OrDisjoint(k, 64 - k, lo, hi);
    OrBounded(64, lo, hi * Pow2(k));
    Pow2Values();
  }

  lemma LowField(x: Word, hi: nat, lo: nat)
    requires x == hi * W32 + lo && lo < W32
    ensures FieldWord(x, 0, 32) == Lo32(x) == ShrWord(ShlWord(x, 32), 32) == lo
  {
    Pow2Values();
    assert Pow2(0) == 1;
    hide Pow2;
    DivModUnique(x, W32, hi, lo);
    var y := x * W32;
    assert y == hi * W64 + lo * W32;
    DivModUnique(y, W64, hi, lo * W32);
    DivModUnique(lo * W32, W32, lo, 0);
  }

  lemma FlagBit(cells: Word, base: nat, fp: nat)
    requires cells == 32 * base + fp && fp < 2
    ensures FieldWord(cells, 0, 1) == cells % 2 == fp && ShlWord(fp, 31) == fp * W31
  {
    Pow2Values();
    assert Pow2(0) == 1 && Pow2(1) == 2;
    hide Pow2;
    DivModUnique(cells, 2, 16 * base, fp);
    assert fp * W31 < W64;
  }

  lemma Powers()
    ensures Pow2(5) == 32 && Pow2(64 - 48) == W16 && Pow2(64 - 32) == W32 && Pow2(64 - 31) == 0x2_0000_0000
  {
    Pow2Values();
    assert Pow2(5) == 2 * Pow2(4) == 4 * Pow2(3) == 8 * Pow2(2) == 16 * Pow2(1) == 32 * Pow2(0);
    assert Pow2(33) == 2 * Pow2(32);
  }

  /** The parts of the composed words. */
  lemma Parts(a: Word, b: Word, e: Info, f: Func, g: Func, indexSlot: nat, expected: nat, argBase: nat, canon: nat)
    requires SiteFor(a, b, f, indexSlot, expected, argBase) && EntryFor(e, g, canon)
    ensures ShlWord(ShrWord(a, 48), 48) == L1Off(f) * W48
    ensures ShlWord(ShrWord(b, 48), 48) == L0Word(f) * W48
    ensures ShlWord(ShrWord(e.cells, 5), 5) == 32 * g.base
    ensures ShlWord(ShrWord(e.offsets, 32), 32) == (L1Off(g) * W16 + L0Off(g)) * W32
    ensures FieldWord(b, 0, 32) == Lo32(b) == ShrWord(ShlWord(b, 32), 32) == 8 * argBase
    ensures FieldWord(e.cells, 0, 1) == e.cells % 2 == FpBit(g) && ShlWord(FpBit(g), 31) == FpBit(g) * W31
  {
    hide ShlWord, ShrWord, FieldWord, L0Word, L0Off, L1Off;
    Pow2Values();
    Powers();
    hide Pow2;
    HighPart(a, 48, L1Off(f), 8 * indexSlot);
    HighPart(b, 48, L0Word(f), expected * W32 + 8 * argBase);
    HighPart(e.cells, 5, g.base, FpBit(g));
    HighPart(e.offsets, 32, L1Off(g) * W16 + L0Off(g), canon);
    LowField(b, L0Word(f) * W16 + expected, 8 * argBase);
    FlagBit(e.cells, g.base, FpBit(g));
  }

  /** Merging the parts in whatever order gives the direct call's words. */
  lemma Merges(f: Func, g: Func, argBase: nat)
    requires 32 * g.base < W48 && L1Off(f) < W16 && L0Word(f) < W16 && L1Off(g) < W16 && L0Off(g) < W16
    requires g.frameSlots < W16 && g.nLocals < W16 && g.nParams < W16 && 8 * argBase < W31
    ensures CallA(f, g) < W64 && CallB(g, argBase) < W64 && CallC(f, g) < W64
    ensures var hi: nat, lo: nat := L1Off(f) * W48, 32 * g.base; hi < W64 && lo < W64 && Or64(lo, hi) == Or64(hi, lo) == CallA(f, g)
    ensures var hi: nat, lo: nat := L0Word(f) * W48, FrameMeta(g); hi < W64 && lo < W64 && Or64(lo, hi) == Or64(hi, lo) == CallC(f, g)
    ensures var hi: nat, lo: nat, fp: nat := (L1Off(g) * W16 + L0Off(g)) * W32, 8 * argBase, FpBit(g) * W31;
            hi < W64 && lo < W64 && fp < W64 && Or64(Or64(hi, lo), fp) == CallB(g, argBase)
  {
    hide Or64, L0Word, L0Off, L1Off;
    Pow2Values();
    Powers();
    hide Pow2;
    Merge(48, 32 * g.base, L1Off(f));
    Merge(48, FrameMeta(g), L0Word(f));
    MergeB(L1Off(g) * W16 + L0Off(g), FpBit(g), 8 * argBase);
  }

  /** The flag lands at bit 31, between the offsets and the argument area. */
  lemma MergeB(hi: nat, fp: nat, args: nat)
    requires hi < W32 && fp < 2 && args < W31
    ensures var h: nat, p: nat := hi * W32, fp * W31;
            h < W64 && p < W64 && h + args < W64 && h + args + p < W64 && Or64(Or64(h, args), p) == h + p + args
  {
    hide Or64;
    Pow2Values();
    Powers();
    hide Pow2;
    Merge(32, args, hi);
    InsertBit(hi, fp, args);
  }

  lemma InsertBit(hi: nat, fp: nat, args: nat)
    requires hi < W32 && fp < 2 && args < W31
    ensures hi * W32 + args < W64 && Or64(hi * W32 + args, fp * W31) == hi * W32 + fp * W31 + args
  {
    hide Pow2, Up, Or;
    Pow2Values();
    Powers();
    var top := 2 * hi;
    UpIsProduct(31, top);
    UpIsProduct(31, fp);
    SplitOr(31, 33, args, top, 0, fp);
    OrZero(31, args);
    EvenOr(33, hi, fp);
    UpIsProduct(31, top + fp);
  }

  lemma EvenOr(k: nat, hi: nat, fp: nat)
    requires 0 < k && hi < Pow2(k - 1) && fp < 2
    ensures Or(k, 2 * hi, fp) == 2 * hi + fp
  {
    OrZero(k - 1, hi);
    assert Or(k, 2 * hi, fp) == 2 * Or(k - 1, hi, 0) + OrDigit(0, fp);
  }

  // ---- the composed words are the direct call's ----

  /** On every backend an indirect call composes, bit for bit, the three words of a
      direct call cell from the same caller to the same callee. */
  lemma ComposedIsDirect(p: Prog, a: Word, b: Word, e: Info, f: Func, g: Func, indexSlot: nat, expected: nat, argBase: nat, canon: nat)
    requires FuncOk(p, f) && FuncOk(p, g)
    requires SiteFor(a, b, f, indexSlot, expected, argBase) && EntryFor(e, g, canon)
    ensures var w := ComposeArm64(a, b, e);
            && w.a == CallA(f, g) && w.b == CallB(g, argBase) && w.c == CallC(f, g)
            && w == ComposeX86(a, b, e) == ComposeRv64(a, b, e)
  {
    Parts(a, b, e, f, g, indexSlot, expected, argBase, canon);
    Merges(f, g, argBase);
    hide Or64, ShlWord, ShrWord, FieldWord, CallA, CallB, CallC, FrameMeta, L0Word, L0Off, L1Off;
  }

  // ---- an indirect call as a step ----

  /** The guards accept exactly the handles the specification accepts, and name the same
      function. */
  lemma TargetIsCallee(p: Prog, op: Op, index: Word)
    requires TablesOk(p) && op.CallIndirect? && op.expected < W16
    ensures Target(p.table, p.info, index, op.expected) == Callee(p, op, index)
    ensures Callee(p, op, index).Some? ==> Calls(p, op, Callee(p, op, index).value) && p.canon[Callee(p, op, index).value] < W32
  {
    var t := Lo32(index);
    if t < |p.table| && p.table[t] < W32 {
      var i := p.table[t];
      assert InfoOk(p, i);
      if p.canon[i] < W32 { OffsetsType(p.info[i], p.funcs[i], p.canon[i]); }
    }
  }

  lemma OffsetsType(e: Info, g: Func, canon: nat)
    requires EntryFor(e, g, canon)
    ensures Lo32(e.offsets) == canon
  {
    DivModUnique(e.offsets, W32, L1Off(g) * W16 + L0Off(g), canon);
  }

  /** What an indirect call site guarantees. */
  lemma IndirectSite(p: Prog, n: Native, r: Ref)
    requires Linked(p) && Coherent(p, n, r) && p.cells[r.pc].op.CallIndirect? && p.cells[r.pc].native
    ensures var (c, f) := (p.cells[r.pc], Fn(p, r.pc));
            && SiteFor(c.a, c.b, f, c.op.indexSlot, c.op.expected, c.op.argBase) && FuncOk(p, f) && TablesOk(p)
            && FieldWord(c.a, 0, 32) / 8 == c.op.indexSlot && FieldWord(c.b, 32, 16) == c.op.expected
            && NSlot(n, c.op.indexSlot) == RSlot(r, c.op.indexSlot)
  {
    hide CallTo, FuncOk, TablesOk, AccHolds, PinsHold, GlobalsHold, Suspended, FieldWord;
    assert CellOk(p, r.pc) && CallCellOk(p, r.pc);
    var (c, f, a) := (p.cells[r.pc], Fn(p, r.pc), p.ann[r.pc]);
    SiteFields(c.a, c.b, f, c.op.indexSlot, c.op.expected, c.op.argBase);
    SlotAgrees(f, a, n.stack, r.stack, r.fp, 8 * c.op.indexSlot, false);
  }

  /** The machine's indirect call is entry with the callee's words, or a bail. */
  lemma IndirectEnters(p: Prog, n: Native, r: Ref)
    requires Linked(p) && Coherent(p, n, r) && p.cells[r.pc].op.CallIndirect? && p.cells[r.pc].native
    ensures var (c, fi) := (p.cells[r.pc], Callee(p, p.cells[r.pc].op, RSlot(r, p.cells[r.pc].op.indexSlot)));
            if fi.None? then NativeCallIndirect(p, c, n) == (n, Bailed)
            else
              && Calls(p, c.op, fi.value)
              && NativeCallIndirect(p, c, n) == Enter(p, n, CalleeInfo(Fn(p, r.pc), p.funcs[fi.value], c.op.argBase))
  {
    IndirectSite(p, n, r);
    var (c, f) := (p.cells[r.pc], Fn(p, r.pc));
    var index := RSlot(r, c.op.indexSlot);
    TargetIsCallee(p, c.op, index);
    var fi := Callee(p, c.op, index);
    if fi.Some? { WordsUnpack(p, c, f, fi.value); }
    hide Linked, Coherent, ComposeArm64, Unpack, Enter, Target, Callee, CalleeInfo, FieldWord, FuncOk, TablesOk;
  }

  lemma WordsUnpack(p: Prog, c: Cell, f: Func, callee: nat)
    requires TablesOk(p) && FuncOk(p, f) && callee < |p.funcs| && p.canon[callee] < W32
    requires c.op.CallIndirect? && SiteFor(c.a, c.b, f, c.op.indexSlot, c.op.expected, c.op.argBase) && FuncOk(p, p.funcs[callee])
    ensures var w := ComposeArm64(c.a, c.b, p.info[callee]);
            Unpack(w.a, w.b, w.c) == CalleeInfo(f, p.funcs[callee], c.op.argBase)
  {
    hide ComposeArm64, Unpack, CalleeInfo, FuncOk;
    assert InfoOk(p, callee);
    ComposedIsDirect(p, c.a, c.b, p.info[callee], f, p.funcs[callee], c.op.indexSlot, c.op.expected, c.op.argBase, p.canon[callee]);
    DirectUnpacks(p, f, p.funcs[callee], c.op.argBase);
  }

  lemma CallIndirectStep(p: Prog, n: Native, r: Ref)
    requires Linked(p) && Coherent(p, n, r) && p.cells[r.pc].op.CallIndirect? && p.cells[r.pc].native
    requires NativeStep(p, n).1 != Bailed
    ensures Agree(p, NativeStep(p, n).0, NativeStep(p, n).1, RefStep(p, r).0, RefStep(p, r).1)
  {
    hide NativeStep, RefStep, Agree, NativeCallIndirect, Enter, RefEnter, Callee, CalleeInfo, CellOk, TablesOk, Local, Suspended;
    CallIndirectCell(p, n);
    RefCells(p, r);
    IndirectEnters(p, n, r);
    var c := p.cells[r.pc];
    var fi := Callee(p, c.op, RSlot(r, c.op.indexSlot));
    if fi.Some? { EnterAgrees(p, n, r, fi.value); }
  }

  /** The executor, looking at the native machine's own slots, traps whenever the native
      handler bailed. */
  lemma IndirectViewTraps(p: Prog, n: Native)
    requires Linked(p) && n.pc < |p.cells| && p.cells[n.pc].op.CallIndirect? && p.cells[n.pc].native && NativeStep(p, n).1 == Bailed
    ensures RefStep(p, Ref(n.stack, n.fp, n.mem, n.glob, n.pc, [])).1 == Trapped(UndefinedElement)
  {
    hide CallTo, FuncOk, NativeStep, RefStep, FieldWord, TablesOk, Target, Enter, Unpack, ComposeArm64;
    var (c, f) := (p.cells[n.pc], Fn(p, n.pc));
    assert CellOk(p, n.pc) && CallCellOk(p, n.pc);
    SiteFields(c.a, c.b, f, c.op.indexSlot, c.op.expected, c.op.argBase);
    CallIndirectCell(p, n);
    TargetIsCallee(p, c.op, NSlot(n, c.op.indexSlot));
    RefCells(p, Ref(n.stack, n.fp, n.mem, n.glob, n.pc, []));
    var fi := Target(p.table, p.info, NSlot(n, c.op.indexSlot), c.op.expected);
    if fi.Some? {
      var w := ComposeArm64(c.a, c.b, p.info[fi.value]);
      EnterNeverBails(p, n, Unpack(w.a, w.b, w.c));
    }
  }

  /** A failed guard is a trap of the specification, which the shared executor raises
      with nothing changed. */
  lemma IndirectBailTraps(p: Prog, n: Native, r: Ref)
    requires Linked(p) && Coherent(p, n, r) && p.cells[r.pc].op.CallIndirect? && p.cells[r.pc].native
    requires NativeStep(p, n).1 == Bailed
    ensures RefStep(p, r) == (r, Trapped(UndefinedElement))
    ensures n.pc == r.pc && RefStep(p, Ref(n.stack, n.fp, n.mem, n.glob, n.pc, [])) ==
              (Ref(n.stack, n.fp, n.mem, n.glob, n.pc, []), Trapped(UndefinedElement))
  {
    hide NativeStep, RefStep, NativeCallIndirect, Enter, RefEnter, Callee, CalleeInfo, CellOk, TablesOk, Local, Suspended;
    CallIndirectCell(p, n);
    IndirectSite(p, n, r);
    IndirectEnters(p, n, r);
    RefCells(p, r);
    RefCells(p, Ref(n.stack, n.fp, n.mem, n.glob, n.pc, []));
    var fi := Callee(p, p.cells[r.pc].op, RSlot(r, p.cells[r.pc].op.indexSlot));
    if fi.Some? { EnterNeverBails(p, n, CalleeInfo(Fn(p, r.pc), p.funcs[fi.value], p.cells[r.pc].op.argBase)); }
  }

  lemma EnterNeverBails(p: Prog, n: Native, i: CallInfo)
    ensures Enter(p, n, i).1 != Bailed
  {
  }

  // ---- RV64: fields by shift pairs ----

  /** `slli 64-len; srli 64-len` */
  function LowByShifts(x: Word, len: nat): (r: Word)
    requires 0 < len < 64
  {
    ShrWord(ShlWord(x, 64 - len), 64 - len)
  }

  lemma ShiftsKeepLow(x: Word, len: nat)
    requires 0 < len < 64
    ensures LowByShifts(x, len) == x % Pow2(len)
  {
    Pow2Values();
    ShiftedPiece(64, x, 64 - len);
    hide Pow2;
    DivModUnique(x % Pow2(len) * Pow2(64 - len), Pow2(64 - len), x % Pow2(len), 0);
  }

  /** The RV64 activation entry takes the call words apart with shift pairs. */
  function UnpackRv64(a2: Word, a3: Word, t6: Word): (i: CallInfo) {
    CallInfo(ShrWord(t6, 48), ShrWord(a2, 48), LowByShifts(a2, 48), LowByShifts(ShrWord(a3, 32), 16), ShrWord(a3, 48),
             LowByShifts(a3, 31), LowByShifts(ShrWord(t6, 32), 16), LowByShifts(ShrWord(t6, 16), 16), LowByShifts(t6, 16))
  }

  /** The shift pairs find the same fields as arm64's bit-field extracts. */
  lemma Rv64UnpacksAlike(a: Word, b: Word, c: Word)
    ensures UnpackRv64(a, b, c) == Unpack(a, b, c)
  {
    hide LowByShifts;
    ShiftsKeepLow(a, 48);
    ShiftsKeepLow(ShrWord(b, 32), 16);
    ShiftsKeepLow(b, 31);
    ShiftsKeepLow(ShrWord(c, 32), 16);
    ShiftsKeepLow(ShrWord(c, 16), 16);
    ShiftsKeepLow(c, 16);
    Pow2Values();
    ByOne();
    hide Pow2;
  }

  lemma ByOne()
    ensures Pow2(0) == 1 && forall x: nat :: x / 1 == x
  {
  }
}
