/** Calls and returns are last-in first-out over every run. */
module Lifo {
  import opened Words
  import opened WasmNum
  import opened Interp
  import opened WellFormed
  import opened Coherence
  import opened CallSteps
  import opened NativeSteps
  import opened SlowSteps
  import opened Runs
  import opened Packing
  import opened Indirect

  /** What one dispatch can do to the stacks: nothing below the current frame changes,
      and at most one record is pushed or popped, the latter only by a return, which
      moves its results to the frame base. */
  ghost predicate StackStep(p: Prog, n: Native, n': Native)
    requires n.pc < |p.cells|
  {
    var c := p.cells[n.pc];
    && SameBelow(n.stack, n'.stack, n.fp)
    && ( || (n'.rets == n.rets && n'.fp == n.fp)
         || (|n'.rets| == |n.rets| + 1 && n'.rets[..|n.rets|] == n.rets)
         || (n.rets != [] && n'.rets == n.rets[..|n.rets| - 1]
             && c.op.Return? && n'.stack == MoveSlots(n.stack, n.fp, n.fp + c.a / 8, c.b)))
  }

  lemma CallStackStep(p: Prog, n: Native, i: CallInfo)
    requires n.pc < |p.cells| && Enter(p, n, i).1 == Running
    ensures StackStep(p, n, Enter(p, n, i).0)
  {
  }

  lemma ReturnStackStep(p: Prog, n: Native)
    requires n.pc < |p.cells| && p.cells[n.pc].op.Return? && NativeReturn(n, p.cells[n.pc]).1 == Running
    ensures StackStep(p, n, NativeReturn(n, p.cells[n.pc]).0)
  {
    var c := p.cells[n.pc];
    var s := MoveSlots(n.stack, n.fp, n.fp + c.a / 8, c.b);
    assert SameBelow(n.stack, s, n.fp);
  }

  /** A step that writes at most slots of the current frame. */
  lemma LocalStackStep(p: Prog, n: Native, n': Native)
    requires n.pc < |p.cells| && n'.rets == n.rets && n'.fp == n.fp && |n'.stack| == |n.stack|
    requires forall k :: 0 <= k < n.fp && k < |n.stack| ==> n'.stack[k] == n.stack[k]
    ensures StackStep(p, n, n')
  {
  }

  lemma ValueStackStep(p: Prog, n: Native)
    requires n.pc < |p.cells| && IsValueOp(p.cells[n.pc].op) && NativeValue(p, p.cells[n.pc], n).1 == Running
    ensures StackStep(p, n, NativeValue(p, p.cells[n.pc], n).0)
  {
    hide Compute, DivBails, Finish, StackStep;
    var c := p.cells[n.pc];
    var s := NSlot(n, PackedSlot(c));
    var v := Compute(c, NA(c, n), NB(c, n), s != 0, s, n.mem, n.glob);
    FinishFrame(n, DstSlot(c), c.vd, v.v);
    LocalStackStep(p, n, NativeValue(p, c, n).0);
  }

  lemma PairStackStep(p: Prog, n: Native)
    requires n.pc < |p.cells| && p.cells[n.pc].op.MovPair?
    ensures StackStep(p, n, NativePair(p.cells[n.pc], n))
  {
    hide PinPut, StackStep;
    var c := p.cells[n.pc];
    var n1 := PinPut(n, PackedSlot(c), First(c.vp), NA(c, n));
    FinishFrame(n, PackedSlot(c), First(c.vp), NA(c, n));
    FinishFrame(n1, c.c % W32 / 8, Second(c.vp), NB(c, n1));
    LocalStackStep(p, n, NativePair(c, n));
  }

  lemma SubBrStackStep(p: Prog, n: Native)
    requires n.pc < |p.cells| && p.cells[n.pc].op.SubBrIf?
    ensures StackStep(p, n, NativeSubBr(p, p.cells[n.pc].op.w, p.cells[n.pc], n))
  {
    hide PinPut, StackStep, BinVal;
    var c := p.cells[n.pc];
    FinishFrame(n, c.a / 8, InPlaceDst(c.va), BinVal(c.op.w, Sub, NA(c, n), NB(c, n)));
    LocalStackStep(p, n, NativeSubBr(p, c.op.w, c, n));
  }

  lemma IndirectStackStep(p: Prog, n: Native, c: Cell)
    requires n.pc < |p.cells| && NativeCallIndirect(p, c, n).1 == Running
    ensures StackStep(p, n, NativeCallIndirect(p, c, n).0)
  {
    hide Enter, Unpack, ComposeArm64, Target, FieldWord, StackStep;
    var fi := Target(p.table, p.info, NSlot(n, FieldWord(c.a, 0, 32) / 8), FieldWord(c.b, 32, 16));
    if fi.Some? {
      var w := ComposeArm64(c.a, c.b, p.info[fi.value]);
      CallStackStep(p, n, Unpack(w.a, w.b, w.c));
    }
  }

  /** The remaining handlers never touch the frame. */
  lemma FramelessStep(p: Prog, n: Native)
    requires n.pc < |p.cells|
    requires var op := p.cells[n.pc].op;
             !IsValueOp(op) && !IsCallOp(op) && !op.Return? && !op.MovPair? && !op.SubBrIf?
    ensures var n' := NativeStep(p, n).0; n'.stack == n.stack && n'.rets == n.rets && n'.fp == n.fp
  {
    hide StoreVal, BranchTo, Fetch, NSlot, FillMem, CopyMem, Address;
  }

  lemma NativeStackStep(p: Prog, n: Native)
    requires n.pc < |p.cells| && NativeStep(p, n).1 == Running
    ensures StackStep(p, n, NativeStep(p, n).0)
  {
    var c := p.cells[n.pc];
    hide NativeStep, NativeValue, NativePair, NativeSubBr, Enter, Unpack, NativeReturn, NativeCallIndirect, StackStep;
    if IsValueOp(c.op) {
      ValueCell(p, n);
      ValueStackStep(p, n);
    } else if c.op.Call? {
      CallCell(p, n);
      CallStackStep(p, n, Unpack(c.a, c.b, c.c));
    } else if c.op.CallIndirect? {
      CallIndirectCell(p, n);
      IndirectStackStep(p, n, c);
    } else if c.op.Return? {
      ReturnCell(p, n);
      ReturnStackStep(p, n);
    } else if c.op.MovPair? {
      PairCell(p, n);
      PairStackStep(p, n);
    } else if c.op.SubBrIf? {
      SubBrCell(p, n);
      SubBrStackStep(p, n);
    } else {
      FramelessStep(p, n);
      LocalStackStep(p, n, NativeStep(p, n).0);
    }
  }

  lemma RefStackStep(p: Prog, r: Ref)
    requires r.pc < |p.cells| && !IsCallOp(p.cells[r.pc].op) && !p.cells[r.pc].op.Return?
    ensures SameBelow(r.stack, RefStep(p, r).0.stack, r.fp)
  {
    hide Compute, StoreVal, BranchTo, IBin, RefCall, RefReturn, FillMem, CopyMem;
  }

  lemma DriveStackStep(p: Prog, n: Native)
    requires Linked(p) && n.pc < |p.cells| && DriveStep(p, n).1 == Running
    ensures StackStep(p, n, DriveStep(p, n).0)
  {
    hide NativeStep, RefStep, StackStep, SameBelow, ValueCellOk, CallCellOk, ReturnCellOk;
    var c := p.cells[n.pc];
    assert CellOk(p, n.pc);
    if c.native && NativeStep(p, n).1 != Bailed {
      NativeStackStep(p, n);
    } else {
      if c.native { WhoBails(p, n); }
      if c.op.CallIndirect? { IndirectViewTraps(p, n); }
      RefStackStep(p, View(n));
      SlowStackStep(p, n);
    }
  }

  lemma SlowStackStep(p: Prog, n: Native)
    requires n.pc < |p.cells| && SameBelow(n.stack, RefStep(p, View(n)).0.stack, n.fp)
    ensures StackStep(p, n, SlowStep(p, n).0)
  {
    hide RefStep;
  }

  /** The next `k` states exist and lie deeper than `d` records. */
  ghost predicate StaysAbove(p: Prog, n: Native, d: nat, k: nat)
    decreases k
  {
    k == 0 || (|n.rets| > d && DriveStep(p, n).1 == Running && StaysAbove(p, DriveStep(p, n).0, d, k - 1))
  }

  /** Inside a callee run: the caller's record and everything below the callee's frame
      are as they were when the call was made. */
  ghost predicate Inside(p: Prog, n0: Native, r0: Ref, base: nat, d: nat, n: Native, r: Ref)
    requires Shape(p)
  {
    && Coherent(p, n, r) && |r.rets| > d && |n.rets| == |r.rets|
    && n.rets[..d] == n0.rets && r.rets[..d] == r0.rets
    && r.rets[d] == Frame(r0.pc + 1, r0.fp)
    && SameBelow(n0.stack, n.stack, base)
    && base <= r.fp && (|r.rets| == d + 1 ==> r.fp == base)
  }

  /** The caller's record fixes where its callee's frame starts. */
  lemma CalleeBase(p: Prog, n: Native, r: Ref, d: nat, base: nat)
    requires Linked(p) && Coherent(p, n, r) && d < |r.rets|
    requires 0 < r.rets[d].pc <= |p.cells| && IsCallOp(p.cells[r.rets[d].pc - 1].op)
    requires base == r.rets[d].fp + p.cells[r.rets[d].pc - 1].op.argBase
    ensures base <= r.fp && (|r.rets| == d + 1 ==> r.fp == base) && |n.rets| == |r.rets|
  {
    assert SuspendedAt(p, n.stack, r.stack, n.rets[d], r.rets[d], BaseAfter(r.rets, d, r.fp), OwnerOf(p, PcAfter(r.rets, d, r.pc)));
  }

  lemma CoherentDepth(p: Prog, n: Native, r: Ref)
    requires Linked(p) && Coherent(p, n, r)
    ensures |n.rets| == |r.rets| && n.pc == r.pc && n.fp == r.fp && n.pc < |p.cells|
  {
  }

  /** The reference pops or pushes exactly when the native machine does. */
  lemma RefRetsStep(p: Prog, r: Ref)
    requires RefStep(p, r).1 == Running
    ensures var r' := RefStep(p, r).0;
            || r'.rets == r.rets
            || (|r'.rets| == |r.rets| + 1 && r'.rets[..|r.rets|] == r.rets)
            || (r.rets != [] && r'.rets == r.rets[..|r.rets| - 1]
                && r'.pc == r.rets[|r.rets| - 1].pc && r'.fp == r.rets[|r.rets| - 1].fp)
  {
    hide Compute, StoreVal, BranchTo, IBin, FillMem, CopyMem, ZeroSlots, MoveSlots;
  }

  lemma InsideStep(p: Prog, n0: Native, r0: Ref, base: nat, d: nat, n: Native, r: Ref)
    requires Linked(p) && Inside(p, n0, r0, base, d, n, r)
    requires 0 < r0.pc + 1 <= |p.cells| && IsCallOp(p.cells[r0.pc].op) && base == r0.fp + p.cells[r0.pc].op.argBase
    requires DriveStep(p, n).1 == Running && |DriveStep(p, n).0.rets| > d
    ensures Inside(p, n0, r0, base, d, DriveStep(p, n).0, RefStep(p, r).0)
  {
    hide DriveStep, RefStep, Coherent, Linked;
    var n', r' := DriveStep(p, n).0, RefStep(p, r).0;
    StepRefines(p, n, r);
    CoherentDepth(p, n, r);
    CoherentDepth(p, n', r');
    DriveStackStep(p, n);
    RefRetsStep(p, r);
    CalleeBase(p, n', r', d, base);
  }

  /** `n'` is `n` after a return moved its function's results, slot by slot, to the frame
      base and changed no other slot. */
  ghost predicate Returned(p: Prog, n: Native, n': Native)
    requires Shape(p) && n.pc < |p.cells|
  {
    var c := p.cells[n.pc];
    && c.op.Return? && c.b == |Fn(p, n.pc).narrowResults|
    && |n'.stack| == |n.stack| && n.fp + c.a / 8 + c.b <= |n.stack|
    && forall i :: 0 <= i < |n.stack| ==>
         n'.stack[i] == if n.fp <= i < n.fp + c.b then n.stack[i + c.a / 8] else n.stack[i]
  }

  lemma ReturnPlaces(p: Prog, n: Native, r: Ref, n': Native)
    requires Linked(p) && Coherent(p, n, r) && p.cells[n.pc].op.Return?
    requires n'.stack == MoveSlots(n.stack, n.fp, n.fp + p.cells[n.pc].a / 8, p.cells[n.pc].b)
    ensures Returned(p, n, n')
  {
    hide AccHolds, PinsHold, GlobalsHold, Suspended, TablesOk, FuncOk;
    assert CellOk(p, n.pc) && ReturnCellOk(p, n.pc);
    var c := p.cells[n.pc];
    LocalParts(Fn(p, n.pc), p.ann[n.pc], n, r);
    MoveAt(n.stack, n.fp, n.fp + c.a / 8, c.b);
  }

  /** Leaving: the record that pops is the caller's. */
  lemma InsideEnds(p: Prog, n0: Native, r0: Ref, base: nat, d: nat, n: Native, r: Ref)
    requires Linked(p) && Inside(p, n0, r0, base, d, n, r)
    requires DriveStep(p, n).1 == Running && |DriveStep(p, n).0.rets| <= d
    ensures var (n', r') := (DriveStep(p, n).0, RefStep(p, r).0);
            && Coherent(p, n', r') && r'.pc == r0.pc + 1 && r'.fp == r0.fp && n'.rets == n0.rets && r'.rets == r0.rets
            && SameBelow(n0.stack, n'.stack, base)
    ensures |n.rets| == d + 1 && n.fp == base && n.pc < |p.cells| && Returned(p, n, DriveStep(p, n).0)
  {
    hide DriveStep, RefStep, Coherent, Linked, Returned;
    var n', r' := DriveStep(p, n).0, RefStep(p, r).0;
    StepRefines(p, n, r);
    CoherentDepth(p, n, r);
    CoherentDepth(p, n', r');
    DriveStackStep(p, n);
    RefRetsStep(p, r);
    ReturnPlaces(p, n, r, n');
  }

  lemma {:induction false} InsideRun(p: Prog, n0: Native, r0: Ref, base: nat, d: nat, n: Native, r: Ref, k: nat)
    returns (last: Native)
    requires Linked(p) && Inside(p, n0, r0, base, d, n, r)
    requires 0 < r0.pc + 1 <= |p.cells| && IsCallOp(p.cells[r0.pc].op) && base == r0.fp + p.cells[r0.pc].op.argBase
    requires StaysAbove(p, n, d, k) && 0 < k
    requires DriveRun(p, n, k).1 == Running && |DriveRun(p, n, k).0.rets| <= d
    ensures var n' := DriveRun(p, n, k).0;
            && n'.pc == r0.pc + 1 && n'.fp == r0.fp && n'.rets == n0.rets && SameBelow(n0.stack, n'.stack, base)
            && n'.pc < |p.cells| && n'.code == 32 * Fn(p, n'.pc).base
            && PinsHold(Fn(p, n'.pc), n'.l0, n'.l1, n'.stack, n'.fp)
    ensures last == DriveRun(p, n, k - 1).0 && last.fp == base && last.pc < |p.cells| && Returned(p, last, DriveRun(p, n, k).0)
    decreases k
  {
    hide DriveStep, RefStep, Coherent, Linked, Inside;
    if k == 1 {
      last := n;
      assert DriveRun(p, DriveStep(p, n).0, 0).0 == DriveStep(p, n).0;
      InsideFacts(p, n0, r0, base, d, n, r);
      InsideEnds(p, n0, r0, base, d, n, r);
      ResumedPins(p, DriveStep(p, n).0, RefStep(p, r).0);
    } else {
      assert |DriveStep(p, n).0.rets| > d;
      InsideStep(p, n0, r0, base, d, n, r);
      last := InsideRun(p, n0, r0, base, d, DriveStep(p, n).0, RefStep(p, r).0, k - 1);
    }
  }

  lemma InsideFacts(p: Prog, n0: Native, r0: Ref, base: nat, d: nat, n: Native, r: Ref)
    requires Linked(p) && Inside(p, n0, r0, base, d, n, r)
    ensures n.fp == r.fp && |n.rets| > d
  {
  }

  /** A coherent machine's pinned registers equal its own slots. */
  lemma ResumedPins(p: Prog, n: Native, r: Ref)
    requires Linked(p) && Coherent(p, n, r)
    ensures n.pc == r.pc && n.fp == r.fp && n.pc < |p.cells| == |p.owner| && p.owner[n.pc] < |p.funcs|
    ensures n.code == 32 * Fn(p, n.pc).base
    ensures PinsHold(Fn(p, n.pc), n.l0, n.l1, n.stack, n.fp)
  {
    var f, a := Fn(p, r.pc), p.ann[r.pc];
    if f.pin0 { assert KnowHolds(a.slots[f.l0], n.stack[n.fp + f.l0], r.stack[n.fp + f.l0]); }
    if f.pin1 { assert KnowHolds(a.slots[f.l1], n.stack[n.fp + f.l1], r.stack[n.fp + f.l1]); }
  }

  /** From a call, through any callee run that comes back to the caller's depth: the
      caller resumes at the next cell with its frame, cell base, records and every slot
      below the argument area, its pinned registers equal to their slots; and the last
      step, a return from the callee's own frame, is what placed the results. */
  lemma BalancedCall(p: Prog, n: Native, r: Ref, k: nat) returns (last: Native)
    requires Linked(p) && Coherent(p, n, r) && IsCallOp(p.cells[n.pc].op) && p.cells[n.pc].native
    requires DriveStep(p, n).1 == Running && 0 < k
    requires StaysAbove(p, DriveStep(p, n).0, |n.rets|, k)
    requires DriveRun(p, DriveStep(p, n).0, k).1 == Running && |DriveRun(p, DriveStep(p, n).0, k).0.rets| <= |n.rets|
    ensures var n' := DriveRun(p, DriveStep(p, n).0, k).0;
            var base := n.fp + p.cells[n.pc].op.argBase;
            && n'.pc == n.pc + 1 && n'.fp == n.fp && n'.code == n.code && n'.rets == n.rets
            && SameBelow(n.stack, n'.stack, base)
            && PinsHold(Fn(p, n.pc), n'.l0, n'.l1, n'.stack, n'.fp)
    ensures last == DriveRun(p, DriveStep(p, n).0, k - 1).0
    ensures last.fp == n.fp + p.cells[n.pc].op.argBase && last.pc < |p.cells|
    ensures Returned(p, last, DriveRun(p, DriveStep(p, n).0, k).0)
  {
    hide DriveStep, RefStep, Coherent, Linked, Inside;
    CoherentDepth(p, n, r);
    var base, d := n.fp + p.cells[n.pc].op.argBase, |n.rets|;
    var callee := CalleeEntered(p, n, r);
    CallerContinues(p, n.pc, callee);
    InsideStarts(p, n, r);
    ResumedPins(p, n, r);
    last := InsideRun(p, n, r, base, d, DriveStep(p, n).0, RefStep(p, r).0, k);
  }

  lemma CallerContinues(p: Prog, pc: nat, callee: nat)
    requires Linked(p) && pc < |p.cells| && IsCallOp(p.cells[pc].op) && Calls(p, p.cells[pc].op, callee)
    ensures pc + 1 < |p.cells| == |p.owner| && p.owner[pc + 1] == p.owner[pc] < |p.funcs|
  {
    hide EntryOk, ResumeOk, FuncOk, AnnOk, TablesOk;
    CallSite(p, pc, callee);
  }

  lemma InsideStarts(p: Prog, n: Native, r: Ref)
    requires Linked(p) && Coherent(p, n, r) && IsCallOp(p.cells[n.pc].op) && p.cells[n.pc].native && DriveStep(p, n).1 == Running
    ensures Inside(p, n, r, n.fp + p.cells[n.pc].op.argBase, |n.rets|, DriveStep(p, n).0, RefStep(p, r).0)
  {
    hide Coherent, Linked, NativeCall, ZeroSlots, Enter;
    CoherentDepth(p, n, r);
    var c := p.cells[n.pc];
    StepRefines(p, n, r);
    var n', r' := DriveStep(p, n).0, RefStep(p, r).0;
    CoherentDepth(p, n', r');
    CallDepth(p, n, r);
  }

  /** Entering a callee pushes one record and zeroes only locals of the new frame. */
  lemma CallDepth(p: Prog, n: Native, r: Ref)
    requires Linked(p) && Coherent(p, n, r) && IsCallOp(p.cells[n.pc].op) && p.cells[n.pc].native && DriveStep(p, n).1 == Running
    ensures var (n', r') := (DriveStep(p, n).0, RefStep(p, r).0);
            var base := n.fp + p.cells[n.pc].op.argBase;
            && n'.rets[..|n.rets|] == n.rets && r'.rets == r.rets + [Frame(r.pc + 1, r.fp)] && r'.fp == base
            && SameBelow(n.stack, n'.stack, base)
  {
    hide Linked, Coherent, DriveStep, RefStep, ZeroSlots;
    CoherentDepth(p, n, r);
    var callee := CalleeEntered(p, n, r);
    EnterShape(p, n, r, callee);
  }

  lemma EnterShape(p: Prog, n: Native, r: Ref, callee: nat)
    requires Linked(p) && Coherent(p, n, r) && IsCallOp(p.cells[n.pc].op) && Calls(p, p.cells[n.pc].op, callee)
    requires var (g, base) := (p.funcs[callee], p.cells[n.pc].op.argBase);
             Enter(p, n, CalleeInfo(Fn(p, n.pc), g, base)).1 == Running && RefEnter(p, callee, base, r).1 == Running
    ensures var (g, base) := (p.funcs[callee], p.cells[n.pc].op.argBase);
            var (n', r') := (Enter(p, n, CalleeInfo(Fn(p, n.pc), g, base)).0, RefEnter(p, callee, base, r).0);
            && |n'.rets| == |n.rets| + 1 && n'.rets[..|n.rets|] == n.rets && r'.rets == r.rets + [Frame(r.pc + 1, r.fp)]
            && n'.fp == r'.fp == n.fp + base && n'.pc == g.base
            && n'.stack == ZeroSlots(n.stack, n.fp + base + g.nParams, n.fp + base + g.nLocals)
            && n.fp + base + g.frameSlots <= |n.stack| && g.nParams <= g.nLocals <= g.frameSlots
            && SameBelow(n.stack, n'.stack, n.fp + base)
  {
    hide Suspended, FrameHolds, AccHolds, PinsHold, GlobalsHold, CallTo, TablesOk, CellOk, L0Word, L0Off, L1Off, ZeroSlots, Get;
    CoherentDepth(p, n, r);
    CallSite(p, n.pc, callee);
    var g, base := p.funcs[callee], n.fp + p.cells[n.pc].op.argBase;
    ZeroBelow(n.stack, base + g.nParams, base + g.nLocals, base);
  }

  /** Which function a call that runs has entered. */
  lemma CalleeEntered(p: Prog, n: Native, r: Ref) returns (callee: nat)
    requires Linked(p) && Coherent(p, n, r) && IsCallOp(p.cells[n.pc].op) && p.cells[n.pc].native && DriveStep(p, n).1 == Running
    ensures Calls(p, p.cells[n.pc].op, callee)
    ensures DriveStep(p, n) == Enter(p, n, CalleeInfo(Fn(p, n.pc), p.funcs[callee], p.cells[n.pc].op.argBase))
    ensures RefStep(p, r) == RefEnter(p, callee, p.cells[n.pc].op.argBase, r) && RefStep(p, r).1 == Running
  {
    hide Linked, Coherent, NativeStep, RefStep, Enter, RefEnter, Unpack, CalleeInfo, Callee, NativeCallIndirect, SlowStep;
    CoherentDepth(p, n, r);
    StepRefines(p, n, r);
    ResumedPins(p, n, r);
    RefCells(p, r);
    var c := p.cells[n.pc];
    if c.op.Call? {
      callee := c.op.callee;
      DirectCell(p, n.pc);
      CallCell(p, n);
      EnterNeverBails(p, n, CalleeInfo(Fn(p, n.pc), p.funcs[callee], c.op.argBase));
      CallsItself(p, c.op);
    } else {
      IndirectEnters(p, n, r);
      CallIndirectCell(p, n);
      var fi := Callee(p, c.op, RSlot(r, c.op.indexSlot));
      callee := if fi.Some? then fi.value else 0;
      if fi.Some? { EnterNeverBails(p, n, CalleeInfo(Fn(p, n.pc), p.funcs[callee], c.op.argBase)); }
    }
  }

  lemma CallsItself(p: Prog, op: Op)
    requires op.Call?
    ensures Callee(p, op, 0) == Some(op.callee)
  {
  }

  // ---- limits ----

  /** Every live frame, running or suspended, lies inside the stack, and the records fit. */
  ghost predicate WithinLimits(p: Prog, n: Native)
    requires Shape(p)
  {
    && |n.rets| <= p.maxRecords
    && n.pc < |p.cells| && n.fp + Fn(p, n.pc).frameSlots <= |n.stack|
    && forall k :: 0 <= k < |n.rets| ==> RecordWithin(p, n.rets[k], |n.stack|)
  }

  ghost predicate RecordWithin(p: Prog, rec: Rec, len: nat)
    requires Shape(p)
  {
    && 0 <= rec.pc && rec.pc % 32 == 0 && rec.pc / 32 < |p.cells|
    && 0 <= rec.fp && rec.fp % 8 == 0 && rec.fp / 8 + Fn(p, rec.pc / 32).frameSlots <= len
  }

  lemma RecordsWithin(p: Prog, n: Native, r: Ref, k: nat)
    requires Linked(p) && Coherent(p, n, r) && k < |n.rets|
    ensures RecordWithin(p, n.rets[k], |n.stack|)
  {
    hide FrameHolds, AccHolds, PinsHold, GlobalsHold, FuncOk, AnnOk, CellOk, L0Word, L1Off;
    assert SuspendedAt(p, n.stack, r.stack, n.rets[k], r.rets[k], BaseAfter(r.rets, k, r.fp), OwnerOf(p, PcAfter(r.rets, k, r.pc)));
  }

  lemma CoherentWithin(p: Prog, n: Native, r: Ref)
    requires Linked(p) && Coherent(p, n, r) && |r.rets| <= p.maxRecords
    ensures WithinLimits(p, n)
  {
    CoherentDepth(p, n, r);
    FrameInside(p, n, r);
    hide RecordWithin, Linked, Coherent;
    forall k | 0 <= k < |n.rets|
      ensures RecordWithin(p, n.rets[k], |n.stack|)
    {
      RecordsWithin(p, n, r, k);
    }
  }

  lemma FrameInside(p: Prog, n: Native, r: Ref)
    requires Linked(p) && Coherent(p, n, r)
    ensures n.fp + Fn(p, n.pc).frameSlots <= |n.stack|
  {
  }

  lemma RefRetsBounded(p: Prog, r: Ref)
    requires RefStep(p, r).1 == Running && |r.rets| <= p.maxRecords
    ensures |RefStep(p, r).0.rets| <= p.maxRecords && |RefStep(p, r).0.stack| == |r.stack|
  {
    hide RefValue, RefPair, RefSubBr, RefStore, RefBulk, RefFillCopy, BranchTo, ZeroSlots, MoveSlots;
    RefStackKept(p, r);
  }

  lemma RefStackKept(p: Prog, r: Ref)
    ensures |RefStep(p, r).0.stack| == |r.stack|
    ensures r.pc < |p.cells| && !IsCallOp(p.cells[r.pc].op) && !p.cells[r.pc].op.Return? ==> RefStep(p, r).0.rets == r.rets
  {
    hide Compute, StoreVal, BranchTo, IBin, FillMem, CopyMem;
  }

  /** Over every run no live frame or record exceeds its limit, and the stack keeps its
      size: what exhaustion checks refuse is never reached. */
  lemma {:induction false} RunWithinLimits(p: Prog, n: Native, r: Ref, k: nat)
    requires Linked(p) && Coherent(p, n, r) && |n.rets| <= p.maxRecords
    ensures DriveRun(p, n, k).1 == Running ==>
              WithinLimits(p, DriveRun(p, n, k).0) && |DriveRun(p, n, k).0.stack| == |n.stack|
    decreases k
  {
    hide DriveStep, RefStep, Coherent, Linked, WithinLimits;
    CoherentDepth(p, n, r);
    SameStacks(p, n, r);
    CoherentWithin(p, n, r);
    if k != 0 && DriveStep(p, n).1 == Running {
      StepRefines(p, n, r);
      RefRetsBounded(p, r);
      var n', r' := DriveStep(p, n).0, RefStep(p, r).0;
      CoherentDepth(p, n', r');
      SameStacks(p, n', r');
      RunWithinLimits(p, n', r', k - 1);
    }
  }

  lemma SameStacks(p: Prog, n: Native, r: Ref)
    requires Linked(p) && Coherent(p, n, r)
    ensures |n.stack| == |r.stack|
  {
  }

  /** A call clears exactly the callee's fresh locals: parameters, which are the
      caller's argument slots, and everything else keep their values. */
  lemma CallClears(p: Prog, n: Native, r: Ref) returns (callee: nat)
    requires Linked(p) && Coherent(p, n, r) && IsCallOp(p.cells[n.pc].op) && p.cells[n.pc].native && DriveStep(p, n).1 == Running
    ensures Calls(p, p.cells[n.pc].op, callee)
    ensures var (g, base, n') := (p.funcs[callee], n.fp + p.cells[n.pc].op.argBase, DriveStep(p, n).0);
            && n'.fp == base && n'.pc == g.base && |n'.stack| == |n.stack|
            && forall i :: 0 <= i < |n.stack| ==>
                 n'.stack[i] == if base + g.nParams <= i < base + g.nLocals then 0 else n.stack[i]
  {
    hide Linked, Coherent, DriveStep, RefStep, Enter, RefEnter, ZeroSlots;
    CoherentDepth(p, n, r);
    callee := CalleeEntered(p, n, r);
    EnterShape(p, n, r, callee);
    var g, base := p.funcs[callee], n.fp + p.cells[n.pc].op.argBase;
    ZeroAt(n.stack, base + g.nParams, base + g.nLocals);
  }
}
