/** Calls and returns over the overlapping value stack and the packed return records. */
module CallSteps {
  import opened Words
  import opened Bits
  import opened WasmNum
  import opened Interp
  import opened WellFormed
  import opened Coherence

  /** A field sits where it was packed, whatever is above and below it. */
  lemma FieldAt(x: nat, lo: nat, len: nat, hi: nat, mid: nat, low: nat)
    requires x == (hi * Pow2(len) + mid) * Pow2(lo) + low && mid < Pow2(len) && low < Pow2(lo)
    ensures Field(x, lo, len) == mid
  {
    hide Pow2;
    DivModUnique(x, Pow2(lo), hi * Pow2(len) + mid, low);
    DivModUnique(hi * Pow2(len) + mid, Pow2(len), hi, mid);
  }

  /** The packed words of a direct call cell come apart into what was packed. */
  lemma CallWordA(l1Caller: nat, code: nat)
    requires code < W48
    ensures var a := l1Caller * W48 + code; a / W48 == l1Caller && Field(a, 0, 48) == code
  {
    Pow2Values();
    DivModUnique(l1Caller * W48 + code, W48, l1Caller, code);
    FieldAt(l1Caller * W48 + code, 0, 48, l1Caller, code, 0);
  }

  lemma CallWordB(l1: nat, l0: nat, fpBit: bool, args: nat)
    requires l0 < W16 && args < W31
    ensures var b := l1 * W48 + l0 * W32 + (if fpBit then W31 else 0) + args;
            Field(b, 0, 31) == args && Field(b, 32, 16) == l0 && b / W48 == l1
  {
    Pow2Values();
    hide Pow2, Field;
    var low := (if fpBit then W31 else 0) + args;
    var b := l1 * W48 + l0 * W32 + low;
    DivModUnique(b, W48, l1, l0 * W32 + low);
    FieldAt(b, 32, 16, l1, l0, low);
    assert Pow2(0) == 1 by { Pow2Zero(); }
    FieldAt(b, 0, 31, l1 * 0x2_0000 + l0 * 2 + (if fpBit then 1 else 0), args, 0);
  }

  lemma Pow2Zero()
    ensures Pow2(0) == 1
  {
  }

  lemma CallWordC(l0Caller: nat, slots: nat, locals: nat, params: nat)
    requires slots < W16 && locals < W16 && params < W16
    ensures var c := l0Caller * W48 + slots * W32 + locals * W16 + params;
            Field(c, 0, 16) == params && Field(c, 16, 16) == locals && Field(c, 32, 16) == slots && c / W48 == l0Caller
  {
    Pow2Values();
    hide Pow2, Field;
    assert Pow2(0) == 1 by { Pow2Zero(); }
    var c := l0Caller * W48 + slots * W32 + locals * W16 + params;
    DivModUnique(c, W48, l0Caller, slots * W32 + locals * W16 + params);
    FieldAt(c, 0, 16, l0Caller * W32 + slots * W16 + locals, params, 0);
    FieldAt(c, 16, 16, l0Caller * W16 + slots, locals, params);
    FieldAt(c, 32, 16, l0Caller, slots, locals * W16 + params);
  }

  /** A record unpacks to the caller's cell base and offsets. */
  lemma RecordFields(f: Func)
    requires 32 * f.base < W48
    ensures (32 * f.base + L0Word(f) * W48) / W48 == L0Word(f)
    ensures (32 * f.base + L0Word(f) * W48) % W48 == 32 * f.base
    ensures L0Word(f) - L0Word(f) % 2 == L0Off(f)
  {
    FlagParts(f);
    hide L0Word, L0Off;
    DivModUnique(32 * f.base + L0Word(f) * W48, W48, L0Word(f), 32 * f.base);
  }

  lemma FlagParts(f: Func)
    ensures L0Word(f) - L0Word(f) % 2 == L0Off(f)
  {
    var half := if f.pin0 then 4 * f.l0 else 0;
    DivModUnique(L0Word(f), 2, half, if f.fpPinned then 1 else 0);
  }

  ghost predicate SameBelow(s: seq<Word>, s': seq<Word>, k: nat) {
    |s| == |s'| && forall i :: 0 <= i < k && i < |s| ==> s'[i] == s[i]
  }

  /** A suspended activation does not see changes at or above its callee's frame. */
  lemma SuspendedBelow(p: Prog, ns: seq<Word>, rs: seq<Word>, ns': seq<Word>, rs': seq<Word>,
                       nrec: Rec, rec: Frame, base: nat, callee: nat)
    requires Shape(p) && SuspendedAt(p, ns, rs, nrec, rec, base, callee)
    requires SameBelow(ns, ns', base) && SameBelow(rs, rs', base)
    ensures SuspendedAt(p, ns', rs', nrec, rec, base, callee)
  {
    var op := p.cells[rec.pc - 1].op;
    forall i | 0 <= i < op.argBase
      ensures KnowHolds(p.ann[rec.pc].slots[i], ns'[rec.fp + i], rs'[rec.fp + i])
    {
      assert KnowHolds(p.ann[rec.pc].slots[i], ns[rec.fp + i], rs[rec.fp + i]);
    }
  }

  lemma SuspendedPush(p: Prog, ns: seq<Word>, rs: seq<Word>, ns': seq<Word>, rs': seq<Word>,
                      nr: seq<Rec>, rr: seq<Frame>, fp: nat, pc: nat, nrec: Rec, rec: Frame, fp': nat, pc': nat)
    requires Shape(p) && Suspended(p, ns, rs, nr, rr, fp, pc)
    requires rec.fp == fp <= fp' && OwnerOf(p, rec.pc) == OwnerOf(p, pc)
    requires SameBelow(ns, ns', fp) && SameBelow(rs, rs', fp)
    requires SuspendedAt(p, ns', rs', nrec, rec, fp', OwnerOf(p, pc'))
    ensures Suspended(p, ns', rs', nr + [nrec], rr + [rec], fp', pc')
  {
    hide SuspendedAt, SameBelow;
    forall k | 0 <= k < |rr|
      ensures SuspendedAt(p, ns', rs', nr[k], rr[k], BaseAfter(rr + [rec], k, fp'), OwnerOf(p, PcAfter(rr + [rec], k, pc')))
    {
      assert SuspendedAt(p, ns, rs, nr[k], rr[k], BaseAfter(rr, k, fp), OwnerOf(p, PcAfter(rr, k, pc)));
      Shorter(ns, ns', fp, BaseAfter(rr, k, fp));
      Shorter(rs, rs', fp, BaseAfter(rr, k, fp));
      SuspendedBelow(p, ns, rs, ns', rs', nr[k], rr[k], BaseAfter(rr, k, fp), OwnerOf(p, PcAfter(rr, k, pc)));
    }
  }

  lemma Shorter(s: seq<Word>, s': seq<Word>, k: nat, j: nat)
    requires SameBelow(s, s', k) && j <= k
    ensures SameBelow(s, s', j)
  {
  }

  lemma SuspendedPop(p: Prog, ns: seq<Word>, rs: seq<Word>, ns': seq<Word>, rs': seq<Word>,
                     nr: seq<Rec>, rr: seq<Frame>, fp: nat, pc: nat)
    requires Shape(p) && rr != [] && Suspended(p, ns, rs, nr, rr, fp, pc)
    requires SameBelow(ns, ns', rr[|rr| - 1].fp) && SameBelow(rs, rs', rr[|rr| - 1].fp)
    ensures Suspended(p, ns', rs', nr[..|rr| - 1], rr[..|rr| - 1], rr[|rr| - 1].fp, rr[|rr| - 1].pc)
  {
    hide SuspendedAt, SameBelow;
    var top := rr[|rr| - 1];
    var rr' := rr[..|rr| - 1];
    forall k | 0 <= k < |rr'|
      ensures SuspendedAt(p, ns', rs', nr[k], rr'[k], BaseAfter(rr', k, top.fp), OwnerOf(p, PcAfter(rr', k, top.pc)))
      ensures rr'[k].fp <= BaseAfter(rr', k, top.fp) <= top.fp
    {
      assert BaseAfter(rr', k, top.fp) == BaseAfter(rr, k, fp) && PcAfter(rr', k, top.pc) == PcAfter(rr, k, pc);
      assert SuspendedAt(p, ns, rs, nr[k], rr[k], BaseAfter(rr, k, fp), OwnerOf(p, PcAfter(rr, k, pc)));
      Rising(rr, fp, k + 1);
      Shorter(ns, ns', top.fp, BaseAfter(rr, k, fp));
      Shorter(rs, rs', top.fp, BaseAfter(rr, k, fp));
      SuspendedBelow(p, ns, rs, ns', rs', nr[k], rr[k], BaseAfter(rr, k, fp), OwnerOf(p, PcAfter(rr, k, pc)));
    }
  }

  /** Frames rise along the return stack. */
  lemma {:induction false} Rising(rr: seq<Frame>, fp: nat, k: nat)
    requires k < |rr| && forall j :: 0 <= j < |rr| ==> rr[j].fp <= BaseAfter(rr, j, fp)
    ensures rr[k].fp <= rr[|rr| - 1].fp
    decreases |rr| - k
  {
    if k + 1 < |rr| {
      assert rr[k].fp <= BaseAfter(rr, k, fp);
      Rising(rr, fp, k + 1);
    }
  }

  // ---- calls ----

  lemma ZeroAt(s: seq<Word>, from: nat, to: nat)
    requires from <= to <= |s|
    ensures forall i :: 0 <= i < |s| ==> ZeroSlots(s, from, to)[i] == if from <= i < to then 0 else s[i]
  {
  }

  lemma MoveAt(s: seq<Word>, to: nat, from: nat, n: nat)
    requires to + n <= |s| && from + n <= |s|
    ensures forall i :: 0 <= i < |s| ==> MoveSlots(s, to, from, n)[i] == if to <= i < to + n then s[from + (i - to)] else s[i]
  {
  }

  /** The same of one slot. */
  lemma MovedSlot(s: seq<Word>, to: nat, from: nat, n: nat, i: nat)
    requires to + n <= |s| && from + n <= |s| && i < |s|
    ensures MoveSlots(s, to, from, n)[i] == if to <= i < to + n then s[from + (i - to)] else s[i]
  {
  }

  /** The callee starts with its parameters in place and its other locals zero. */
  lemma EntryHolds(p: Prog, f: Func, g: Func, a: Ann, e: Ann, ns: seq<Word>, rs: seq<Word>, fp: nat, base: nat)
    requires FrameHolds(f, a, ns, rs, fp) && EntryOk(g, e, a, base) && AnnOk(g, e) && FuncOk(p, g)
    requires fp + base + g.frameSlots <= |rs|
    ensures var fp' := fp + base;
            FrameHolds(g, e, ZeroSlots(ns, fp' + g.nParams, fp' + g.nLocals), ZeroSlots(rs, fp' + g.nParams, fp' + g.nLocals), fp')
  {
    var fp' := fp + base;
    var ns', rs' := ZeroSlots(ns, fp' + g.nParams, fp' + g.nLocals), ZeroSlots(rs, fp' + g.nParams, fp' + g.nLocals);
    ZeroAt(ns, fp' + g.nParams, fp' + g.nLocals);
    ZeroAt(rs, fp' + g.nParams, fp' + g.nLocals);
    forall i | 0 <= i < g.frameSlots
      ensures KnowHolds(e.slots[i], ns'[fp' + i], rs'[fp' + i])
    {
      if i < g.nParams {
        assert KnowHolds(a.slots[base + i], ns[fp + (base + i)], rs[fp + (base + i)]);
      }
    }
  }

  lemma PinsReload(f: Func, a: Ann, ns: seq<Word>, rs: seq<Word>, fp: nat)
    requires FrameHolds(f, a, ns, rs, fp)
    ensures PinsHold(f, Get(ns, fp + L0Off(f) / 8), Get(ns, fp + L1Off(f) / 8), rs, fp)
  {
    if f.pin0 { assert KnowHolds(a.slots[f.l0], ns[fp + f.l0], rs[fp + f.l0]); }
    if f.pin1 { assert KnowHolds(a.slots[f.l1], ns[fp + f.l1], rs[fp + f.l1]); }
  }

  /** What a call cell guarantees of a function it may call. */
  lemma CallSite(p: Prog, pc: nat, callee: nat)
    requires Linked(p) && pc < |p.cells| && IsCallOp(p.cells[pc].op) && Calls(p, p.cells[pc].op, callee)
    ensures p.cells[pc].native && CallTo(p, pc, callee) && FuncOk(p, Fn(p, pc)) && FuncOk(p, p.funcs[callee]) && 8 * p.cells[pc].op.argBase < W31
    ensures p.funcs[callee].base < |p.cells| && AnnOk(p.funcs[callee], p.ann[p.funcs[callee].base])
  {
    hide CallTo;
    assert CellOk(p, pc) && CallCellOk(p, pc);
    EntryKnown(p, pc, callee);
  }

  lemma EntryKnown(p: Prog, pc: nat, callee: nat)
    requires Shape(p) && pc < |p.cells| && IsCallOp(p.cells[pc].op) && callee < |p.funcs| && CallTo(p, pc, callee)
    ensures p.funcs[callee].base < |p.cells| && AnnOk(p.funcs[callee], p.ann[p.funcs[callee].base])
  {
    hide EntryOk, ResumeOk, FuncOk, TablesOk;
  }

  /** The unpacked words of a call from `f` to `g`. */
  function CalleeInfo(f: Func, g: Func, argBase: nat): (i: CallInfo) {
    CallInfo(L0Word(f), L1Off(f), 32 * g.base, L0Off(g), L1Off(g), 8 * argBase, g.frameSlots, g.nLocals, g.nParams)
  }

  lemma DirectUnpacks(p: Prog, f: Func, g: Func, argBase: nat)
    requires FuncOk(p, f) && FuncOk(p, g) && 8 * argBase < W31
    ensures Unpack(CallA(f, g), CallB(g, argBase), CallC(f, g)) == CalleeInfo(f, g, argBase)
  {
    hide Unpack, L0Word;
    UnpackPacked(L1Off(f), 32 * g.base, L1Off(g), L0Off(g), g.fpPinned, 8 * argBase, L0Word(f), g.frameSlots, g.nLocals, g.nParams);
  }

  lemma UnpackPacked(l1Caller: nat, code: nat, l1: nat, l0: nat, fpBit: bool, args: nat,
                     l0Caller: nat, slots: nat, locals: nat, params: nat)
    requires code < W48 && l0 < W16 && args < W31 && slots < W16 && locals < W16 && params < W16
    ensures Unpack(l1Caller * W48 + code, l1 * W48 + l0 * W32 + (if fpBit then W31 else 0) + args,
                   l0Caller * W48 + slots * W32 + locals * W16 + params)
         == CallInfo(l0Caller, l1Caller, code, l0, l1, args, slots, locals, params)
  {
    hide Field;
    CallWordA(l1Caller, code);
    CallWordB(l1, l0, fpBit, args);
    CallWordC(l0Caller, slots, locals, params);
  }

  /** The callee's activation, entered with its parameters in place. */
  lemma CallEnters(p: Prog, n: Native, r: Ref, callee: nat)
    requires Linked(p) && Coherent(p, n, r)
    requires p.cells[r.pc].native && IsCallOp(p.cells[r.pc].op) && Calls(p, p.cells[r.pc].op, callee)
    requires CallTo(p, r.pc, callee) && RefEnter(p, callee, p.cells[r.pc].op.argBase, r).1 == Running
    ensures var (g, base) := (p.funcs[callee], p.cells[r.pc].op.argBase);
            var (n', r') := (Enter(p, n, CalleeInfo(Fn(p, r.pc), g, base)).0, RefEnter(p, callee, base, r).0);
            && Enter(p, n, CalleeInfo(Fn(p, r.pc), g, base)).1 == Running
            && n'.pc == g.base && n'.code == 32 * g.base && n'.mem == n.mem && n'.glob == n.glob
            && n'.rets == n.rets + [PackRec(p, Frame(r.pc + 1, r.fp))]
            && n'.stack == ZeroSlots(n.stack, r'.fp + g.nParams, r'.fp + g.nLocals)
            && Local(g, p.ann[g.base], n', r')
  {
    hide GlobalsHold, PinsHold, AccHolds, Suspended, FrameHolds, EntryOk, ResumeOk, CellOk, FuncOk, TablesOk;
    hide ZeroSlots, Get, L0Word;
    var f, a := Fn(p, r.pc), p.ann[r.pc];
    var g, base := p.funcs[callee], p.cells[r.pc].op.argBase;
    CallSite(p, r.pc, callee);
    LocalParts(f, a, n, r);
    SuspendedSize(p, n, r);
    EntryHolds(p, f, g, a, p.ann[g.base], n.stack, r.stack, r.fp, base);
    var fp' := r.fp + base;
    PinsReload(g, p.ann[g.base], ZeroSlots(n.stack, fp' + g.nParams, fp' + g.nLocals),
               ZeroSlots(r.stack, fp' + g.nParams, fp' + g.nLocals), fp');
    NoAccHolds(g, n.acc, ZeroSlots(r.stack, fp' + g.nParams, fp' + g.nLocals), fp');
    EntryNoAcc(g, p.ann[g.base], a, base);
  }

  /** Entering a callee agrees with the reference, whichever kind of cell called it. */
  lemma EnterAgrees(p: Prog, n: Native, r: Ref, callee: nat)
    requires Linked(p) && Coherent(p, n, r)
    requires p.cells[r.pc].native && IsCallOp(p.cells[r.pc].op) && Calls(p, p.cells[r.pc].op, callee)
    ensures var (g, base) := (p.funcs[callee], p.cells[r.pc].op.argBase);
            var (native, slots) := (Enter(p, n, CalleeInfo(Fn(p, r.pc), g, base)), RefEnter(p, callee, base, r));
            Agree(p, native.0, native.1, slots.0, slots.1)
  {
    hide GlobalsHold, Local, Suspended, CellOk, FuncOk, ZeroSlots, PackRec, EntryOk, ResumeOk, ResultsAgree, TablesOk;
    CallSite(p, r.pc, callee);
    if RefEnter(p, callee, p.cells[r.pc].op.argBase, r).1 == Running {
      CallEnters(p, n, r, callee);
      CallSuspends(p, n, r, callee);
      OwnBase(p, r.pc, callee);
    } else {
      CallExhausts(p, n, r, callee);
    }
  }

  lemma OwnBase(p: Prog, pc: nat, callee: nat)
    requires Linked(p) && pc < |p.cells| && IsCallOp(p.cells[pc].op) && p.cells[pc].native && Calls(p, p.cells[pc].op, callee)
    ensures p.funcs[callee].base < |p.cells| == |p.owner| && p.owner[p.funcs[callee].base] == callee
  {
    hide EntryOk, ResumeOk, FuncOk, TablesOk;
    CallSite(p, pc, callee);
  }

  lemma CallStep(p: Prog, n: Native, r: Ref)
    requires Linked(p) && Coherent(p, n, r)
    requires p.cells[r.pc].native && p.cells[r.pc].op.Call?
    ensures Agree(p, NativeStep(p, n).0, NativeStep(p, n).1, RefStep(p, r).0, RefStep(p, r).1)
  {
    hide NativeStep, RefStep, Agree, Enter, RefEnter, Unpack, CalleeInfo, CellOk, TablesOk, Local, Suspended;
    var c := p.cells[r.pc];
    DirectCell(p, r.pc);
    EnterAgrees(p, n, r, c.op.callee);
    CallCell(p, n);
    RefCells(p, r);
  }

  /** A direct call cell's words unpack to its caller and callee. */
  lemma DirectCell(p: Prog, pc: nat)
    requires Linked(p) && pc < |p.cells| && p.cells[pc].op.Call? && p.cells[pc].native
    ensures var (c, f) := (p.cells[pc], Fn(p, pc));
            && Calls(p, c.op, c.op.callee)
            && Unpack(c.a, c.b, c.c) == CalleeInfo(f, p.funcs[c.op.callee], c.op.argBase)
  {
    hide Unpack, CallTo, CalleeInfo;
    assert CellOk(p, pc) && CallCellOk(p, pc);
    var c := p.cells[pc];
    assert FuncOk(p, Fn(p, pc)) && FuncOk(p, p.funcs[c.op.callee]);
    DirectUnpacks(p, Fn(p, pc), p.funcs[c.op.callee], c.op.argBase);
  }

  /** Both machines refuse the same activations, and change nothing. */
  lemma CallExhausts(p: Prog, n: Native, r: Ref, callee: nat)
    requires Linked(p) && Coherent(p, n, r)
    requires p.cells[r.pc].native && IsCallOp(p.cells[r.pc].op) && Calls(p, p.cells[r.pc].op, callee)
    requires RefEnter(p, callee, p.cells[r.pc].op.argBase, r).1 != Running
    ensures var (g, base) := (p.funcs[callee], p.cells[r.pc].op.argBase);
            && RefEnter(p, callee, base, r) == (r, Trapped(Exhausted))
            && Enter(p, n, CalleeInfo(Fn(p, r.pc), g, base)) == (n, Trapped(Exhausted))
  {
    hide GlobalsHold, PinsHold, AccHolds, Suspended, FrameHolds, EntryOk, ResumeOk, CellOk, FuncOk, TablesOk;
    LocalParts(Fn(p, r.pc), p.ann[r.pc], n, r);
    SuspendedSize(p, n, r);
  }

  lemma LocalParts(f: Func, a: Ann, n: Native, r: Ref)
    requires Local(f, a, n, r)
    ensures FrameHolds(f, a, n.stack, r.stack, r.fp) && |n.stack| == |r.stack| && r.fp + f.frameSlots <= |r.stack|
    ensures AccHolds(f, a.acc, n.acc, r.stack, r.fp)
  {
  }

  lemma SuspendedSize(p: Prog, n: Native, r: Ref)
    requires Shape(p) && Suspended(p, n.stack, r.stack, n.rets, r.rets, r.fp, r.pc)
    ensures |n.rets| == |r.rets|
  {
  }

  lemma NoAccHolds(f: Func, acc: Word, rs: seq<Word>, fp: nat)
    ensures AccHolds(f, NoAcc, acc, rs, fp)
  {
  }

  lemma EntryNoAcc(g: Func, e: Ann, a: Ann, base: nat)
    requires EntryOk(g, e, a, base)
    ensures e.acc == NoAcc
  {
  }

  lemma ZeroBelow(s: seq<Word>, from: nat, to: nat, k: nat)
    requires k <= from <= to <= |s|
    ensures SameBelow(s, ZeroSlots(s, from, to), k)
  {
    ZeroAt(s, from, to);
  }

  /** The caller's slots below the arguments are as its resume point will claim. */
  lemma CallerSlots(f: Func, g: Func, a: Ann, e: Ann, ns: seq<Word>, rs: seq<Word>, ns': seq<Word>, rs': seq<Word>,
                    fp: nat, base: nat)
    requires FrameHolds(f, a, ns, rs, fp) && ResumeOk(g, e, a, base) && base <= f.frameSlots
    requires SameBelow(ns, ns', fp + base) && SameBelow(rs, rs', fp + base)
    ensures base <= |e.slots| && forall i :: 0 <= i < base ==> KnowHolds(e.slots[i], ns'[fp + i], rs'[fp + i])
  {
    forall i | 0 <= i < base
      ensures KnowHolds(e.slots[i], ns'[fp + i], rs'[fp + i])
    {
      assert KnowHolds(a.slots[i], ns[fp + i], rs[fp + i]);
    }
  }

  /** The caller joins the suspended activations. */
  lemma CallSuspends(p: Prog, n: Native, r: Ref, callee: nat)
    requires Linked(p) && Coherent(p, n, r)
    requires IsCallOp(p.cells[r.pc].op) && p.cells[r.pc].native && Calls(p, p.cells[r.pc].op, callee)
    requires CallTo(p, r.pc, callee) && RefEnter(p, callee, p.cells[r.pc].op.argBase, r).1 == Running
    ensures var (r', _) := RefEnter(p, callee, p.cells[r.pc].op.argBase, r);
            var ns' := ZeroSlots(n.stack, r'.fp + p.funcs[callee].nParams, r'.fp + p.funcs[callee].nLocals);
            Suspended(p, ns', r'.stack, n.rets + [PackRec(p, Frame(r.pc + 1, r.fp))], r'.rets, r'.fp, r'.pc)
  {
    hide Suspended, AccHolds, PinsHold, GlobalsHold, TablesOk, CellOk, EntryOk, KnowHolds, ZeroSlots, FrameHolds;
    var c, f, a, e := p.cells[r.pc], Fn(p, r.pc), p.ann[r.pc], p.ann[r.pc + 1];
    var g := p.funcs[callee];
    CallSite(p, r.pc, callee);
    LocalParts(f, a, n, r);
    var (r', _) := RefEnter(p, callee, c.op.argBase, r);
    var (lo, hi) := (r'.fp + g.nParams, r'.fp + g.nLocals);
    var ns' := ZeroSlots(n.stack, lo, hi);
    var rec := Frame(r.pc + 1, r.fp);
    ZeroBelow(n.stack, lo, hi, r'.fp);
    ZeroBelow(r.stack, lo, hi, r'.fp);
    CallerSlots(f, g, a, e, n.stack, r.stack, ns', r'.stack, r.fp, c.op.argBase);
    assert SuspendedAt(p, ns', r'.stack, PackRec(p, rec), rec, r'.fp, OwnerOf(p, g.base));
    SuspendedPush(p, n.stack, r.stack, ns', r'.stack, n.rets, r.rets, r.fp, r.pc, PackRec(p, rec), rec, r'.fp, r'.pc);
  }

  // ---- returns ----

  /** Each result reads the same in both machines. */
  lemma ResultHolds(g: Func, a: Ann, ns: seq<Word>, rs: seq<Word>, fp: nat, from: nat, j: nat)
    requires FrameHolds(g, a, ns, rs, fp) && ResultsOk(g, a, from) && j < |g.narrowResults|
    ensures ns[fp + (from + j)] == rs[fp + (from + j)] && (g.narrowResults[j] ==> rs[fp + (from + j)] < W32)
  {
    var narrow := g.narrowResults[j];
    assert a.slots[from + j] != Junk && (narrow ==> a.slots[from + j] == Narrow);
    assert KnowHolds(a.slots[from + j], ns[fp + (from + j)], rs[fp + (from + j)]);
  }

  /** One slot of the caller's frame after the results have moved to the argument base. */
  lemma ResumeSlot(g: Func, a: Ann, f: Func, a0: Ann, e: Ann, ns: seq<Word>, rs: seq<Word>, fp0: nat, base: nat, from: nat, i: nat)
    requires FrameHolds(g, a, ns, rs, fp0 + base) && ResultsOk(g, a, from)
    requires AnnOk(f, e) && ResumeOk(g, e, a0, base) && fp0 + f.frameSlots <= |rs| && i < f.frameSlots
    requires i < base ==> KnowHolds(e.slots[i], ns[fp0 + i], rs[fp0 + i])
    ensures var (m, fp) := (|g.narrowResults|, fp0 + base);
            KnowHolds(e.slots[i], MoveSlots(ns, fp, fp + from, m)[fp0 + i], MoveSlots(rs, fp, fp + from, m)[fp0 + i])
  {
    var m, fp := |g.narrowResults|, fp0 + base;
    hide MoveSlots;
    MovedSlot(ns, fp, fp + from, m, fp0 + i);
    MovedSlot(rs, fp, fp + from, m, fp0 + i);
    if base <= i < base + m {
      ResultHolds(g, a, ns, rs, fp, from, i - base);
      assert KnowLeq(e.slots[i], KnowOf(g.narrowResults[i - base]));
    }
  }

  lemma ResumeSizes(g: Func, e: Ann, a0: Ann, base: nat)
    requires ResumeOk(g, e, a0, base)
    ensures base + |g.narrowResults| <= |e.slots|
  {
  }

  /** The caller's frame after the results have moved to the argument base. */
  lemma ResumeFrame(g: Func, a: Ann, f: Func, a0: Ann, e: Ann, ns: seq<Word>, rs: seq<Word>, fp0: nat, base: nat, from: nat)
    requires FrameHolds(g, a, ns, rs, fp0 + base) && ResultsOk(g, a, from)
    requires AnnOk(f, e) && ResumeOk(g, e, a0, base) && fp0 + f.frameSlots <= |rs|
    requires forall i :: 0 <= i < base ==> KnowHolds(e.slots[i], ns[fp0 + i], rs[fp0 + i])
    ensures var (m, fp) := (|g.narrowResults|, fp0 + base);
            FrameHolds(f, e, MoveSlots(ns, fp, fp + from, m), MoveSlots(rs, fp, fp + from, m), fp0)
  {
    var m, fp := |g.narrowResults|, fp0 + base;
    var ns', rs' := MoveSlots(ns, fp, fp + from, m), MoveSlots(rs, fp, fp + from, m);
    hide MoveSlots, ResultsOk, KnowHolds, KnowLeq, ResumeOk;
    ResumeSizes(g, e, a0, base);
    forall i | 0 <= i < f.frameSlots
      ensures KnowHolds(e.slots[i], ns'[fp0 + i], rs'[fp0 + i])
    {
      ResumeSlot(g, a, f, a0, e, ns, rs, fp0, base, from, i);
    }
  }

  /** A single result is left in the accumulator by the copy. */
  lemma ResumeAcc(g: Func, a: Ann, f: Func, a0: Ann, e: Ann, ns: seq<Word>, rs: seq<Word>, fp0: nat, base: nat, from: nat, acc: Word)
    requires FrameHolds(g, a, ns, rs, fp0 + base) && ResultsOk(g, a, from)
    requires AnnOk(f, e) && ResumeOk(g, e, a0, base) && fp0 + f.frameSlots <= |rs|
    ensures var (m, fp) := (|g.narrowResults|, fp0 + base);
            AccHolds(f, e.acc, if m == 0 then acc else Get(MoveSlots(ns, fp, fp + from, m), fp + m - 1),
                     MoveSlots(rs, fp, fp + from, m), fp0)
  {
    hide MoveSlots, FrameHolds, ResultsOk, KnowHolds, KnowLeq;
    var m, fp := |g.narrowResults|, fp0 + base;
    if e.acc.AccOf? {
      ResultSizes(g, a, ns, rs, fp, from);
      MovedSlot(ns, fp, fp + from, m, fp);
      MovedSlot(rs, fp, fp + from, m, fp);
      ResultHolds(g, a, ns, rs, fp, from, 0);
    }
  }

  /** The record on top of the return stack sends a return back to its caller. */
  lemma RecordResumes(p: Prog, n: Native, rec: Frame)
    requires rec.pc < |p.owner| && p.owner[rec.pc] < |p.funcs| && 32 * Fn(p, rec.pc).base < W48
    requires n.rets != [] && n.rets[|n.rets| - 1] == PackRec(p, rec)
    ensures var f := Fn(p, rec.pc);
            Resume(n, n.rets[|n.rets| - 1]) ==
              n.(fp := rec.fp, pc := rec.pc, rets := n.rets[..|n.rets| - 1], code := 32 * f.base,
                 l0 := Get(n.stack, rec.fp + L0Off(f) / 8), l1 := Get(n.stack, rec.fp + L1Off(f) / 8))
  {
    RecordFields(Fn(p, rec.pc));
    hide L0Word, L0Off;
  }

  /** The top record was pushed by a call cell to the running function. */
  lemma TopRecord(p: Prog, n: Native, r: Ref)
    requires Linked(p) && Coherent(p, n, r) && r.rets != []
    ensures |n.rets| == |r.rets|
    ensures var rec := r.rets[|r.rets| - 1];
            && 0 < rec.pc < |p.cells| && p.owner[rec.pc - 1] == p.owner[rec.pc] && rec.fp <= r.fp
            && n.rets[|r.rets| - 1] == PackRec(p, rec)
            && rec.fp + Fn(p, rec.pc).frameSlots <= |r.stack| == |n.stack|
            && r.fp - rec.fp <= Fn(p, rec.pc).frameSlots
            && ResumeOk(Fn(p, r.pc), p.ann[rec.pc], p.ann[rec.pc - 1], r.fp - rec.fp)
            && forall i :: 0 <= i < r.fp - rec.fp ==> KnowHolds(p.ann[rec.pc].slots[i], n.stack[rec.fp + i], r.stack[rec.fp + i])
  {
    hide ResumeOk, KnowHolds, Local, GlobalsHold, EntryOk, L0Word;
    var last := |r.rets| - 1;
    var rec := r.rets[last];
    assert SuspendedAt(p, n.stack, r.stack, n.rets[last], rec, BaseAfter(r.rets, last, r.fp), OwnerOf(p, PcAfter(r.rets, last, r.pc)));
    CallSite(p, rec.pc - 1, p.owner[r.pc]);
  }

  /** The caller resumes with its frame, cell base and pinned locals. */
  lemma ReturnLocal(p: Prog, n: Native, r: Ref)
    requires Linked(p) && Coherent(p, n, r) && r.rets != []
    requires p.cells[r.pc].op.Return? && ReturnCellOk(p, r.pc)
    ensures var (rec, n', r') := (r.rets[|r.rets| - 1], NativeReturn(n, p.cells[r.pc]).0, RefReturn(p.cells[r.pc], r).0);
            && rec.pc < |p.cells|
            && n'.pc == rec.pc && n'.fp == rec.fp && n'.code == 32 * Fn(p, rec.pc).base
            && n'.rets == n.rets[..|n.rets| - 1]
            && Local(Fn(p, rec.pc), p.ann[rec.pc], n', r')
  {
    hide EntryOk, ResumeOk, FrameHolds, AccHolds, PinsHold, GlobalsHold, KnowHolds, Resume, L0Word, ResultsOk;
    hide Suspended;
    hide MoveSlots, Get, L0Off, L1Off, CellOk, PackRec;
    TopRecord(p, n, r);
    var c, g, a := p.cells[r.pc], Fn(p, r.pc), p.ann[r.pc];
    var rec := r.rets[|r.rets| - 1];
    var f, e := Fn(p, rec.pc), p.ann[rec.pc];
    assert FuncOk(p, f) && AnnOk(f, e);
    LocalParts(g, a, n, r);
    ResumeFrame(g, a, f, p.ann[rec.pc - 1], e, n.stack, r.stack, rec.fp, r.fp - rec.fp, c.a / 8);
    ResumeAcc(g, a, f, p.ann[rec.pc - 1], e, n.stack, r.stack, rec.fp, r.fp - rec.fp, c.a / 8, n.acc);
    var s, s' := MoveSlots(n.stack, r.fp, r.fp + c.a / 8, c.b), MoveSlots(r.stack, r.fp, r.fp + c.a / 8, c.b);
    RecordResumes(p, n.(stack := s, acc := if c.b == 0 then n.acc else Get(s, n.fp + c.b - 1)), rec);
    PinsReload(f, e, s, s', rec.fp);
  }

  /** Moving the results does not disturb the remaining suspended activations. */
  lemma ReturnSuspended(p: Prog, n: Native, r: Ref)
    requires Linked(p) && Coherent(p, n, r) && r.rets != []
    requires p.cells[r.pc].op.Return? && ReturnCellOk(p, r.pc)
    ensures var (c, rec) := (p.cells[r.pc], r.rets[|r.rets| - 1]);
            && |n.rets| == |r.rets|
            && Suspended(p, MoveSlots(n.stack, r.fp, r.fp + c.a / 8, c.b), MoveSlots(r.stack, r.fp, r.fp + c.a / 8, c.b),
                         n.rets[..|n.rets| - 1], r.rets[..|r.rets| - 1], rec.fp, rec.pc)
  {
    hide EntryOk, ResumeOk, AccHolds, PinsHold, GlobalsHold, KnowHolds, SuspendedAt;
    TopRecord(p, n, r);
    var c := p.cells[r.pc];
    MoveAt(n.stack, r.fp, r.fp + c.a / 8, c.b);
    MoveAt(r.stack, r.fp, r.fp + c.a / 8, c.b);
    SuspendedPop(p, n.stack, r.stack, MoveSlots(n.stack, r.fp, r.fp + c.a / 8, c.b),
                 MoveSlots(r.stack, r.fp, r.fp + c.a / 8, c.b), n.rets, r.rets, r.fp, r.pc);
  }

  lemma ReturnStep(p: Prog, n: Native, r: Ref)
    requires Linked(p) && Coherent(p, n, r)
    requires p.cells[r.pc].native && p.cells[r.pc].op.Return?
    ensures Agree(p, NativeStep(p, n).0, NativeStep(p, n).1, RefStep(p, r).0, RefStep(p, r).1)
  {
    hide NativeStep, RefStep, GlobalsHold, AccHolds, PinsHold, SuspendedAt, Suspended, Local, EntryOk, ResumeOk, FrameHolds;
    hide Resume, MoveSlots, WithResults, TablesOk, ResultsAgree;
    assert CellOk(p, r.pc) && ReturnCellOk(p, r.pc);
    SameSizes(p, n, r);
    ReturnCell(p, n);
    RefCells(p, r);
    if r.rets != [] {
      ReturnLocal(p, n, r);
      ReturnSuspended(p, n, r);
      ReturnKeeps(p, n, p.cells[r.pc]);
    } else {
      ReturnLeaves(p, n, r);
    }
  }

  /** The last return leaves the same results for the caller of the chain. */
  lemma ReturnLeaves(p: Prog, n: Native, r: Ref)
    requires Linked(p) && Coherent(p, n, r) && r.rets == [] && n.rets == []
    requires p.cells[r.pc].op.Return? && ReturnCellOk(p, r.pc)
    ensures var c := p.cells[r.pc];
            && NativeReturn(n, c).1 == RefReturn(c, r).1 == Exited
            && NativeReturn(n, c).0.(stack := n.stack, acc := n.acc) == n && RefReturn(c, r).0.(stack := r.stack) == r
            && ResultsAgree(p, NativeReturn(n, c).0, RefReturn(c, r).0)
  {
    hide AccHolds, PinsHold, GlobalsHold, Suspended, TablesOk, CellOk, FuncOk, MoveSlots;
    var c, f, a := p.cells[r.pc], Fn(p, r.pc), p.ann[r.pc];
    LocalParts(f, a, n, r);
    ResultsMove(f, a, n.stack, r.stack, r.fp, c.a / 8);
    SingleResult(n, r, c, f.narrowResults);
  }

  lemma SingleResult(n: Native, r: Ref, c: Cell, res: seq<bool>)
    requires c.b == |res| && n.fp == r.fp && n.rets == [] && r.rets == []
    requires ResultsSame(res, MoveSlots(n.stack, n.fp, n.fp + c.a / 8, |res|), MoveSlots(r.stack, r.fp, r.fp + c.a / 8, |res|), r.fp)
    ensures ResultsSame(res, NativeReturn(n, c).0.stack, RefReturn(c, r).0.stack, r.fp)
    ensures |res| == 1 ==> NativeReturn(n, c).0.acc == RefReturn(c, r).0.stack[r.fp]
  {
    hide MoveSlots;
    var ns := MoveSlots(n.stack, n.fp, n.fp + c.a / 8, |res|);
    var rs := MoveSlots(r.stack, r.fp, r.fp + c.a / 8, |res|);
    if |res| == 1 { assert ResultSame(res[0], ns[r.fp + 0], rs[r.fp + 0]); }
  }

  /** Every moved result reads the same in both machines. */
  lemma ResultsMove(g: Func, a: Ann, ns: seq<Word>, rs: seq<Word>, fp: nat, from: nat)
    requires FrameHolds(g, a, ns, rs, fp) && ResultsOk(g, a, from)
    ensures ResultsSame(g.narrowResults, MoveSlots(ns, fp, fp + from, |g.narrowResults|),
                        MoveSlots(rs, fp, fp + from, |g.narrowResults|), fp)
  {
    var ns', rs' := MoveSlots(ns, fp, fp + from, |g.narrowResults|), MoveSlots(rs, fp, fp + from, |g.narrowResults|);
    forall j | 0 <= j < |g.narrowResults|
      ensures ResultSame(g.narrowResults[j], ns'[fp + j], rs'[fp + j])
    {
      MovedResult(g, a, ns, rs, fp, from, j);
    }
  }

  lemma MovedResult(g: Func, a: Ann, ns: seq<Word>, rs: seq<Word>, fp: nat, from: nat, j: nat)
    requires FrameHolds(g, a, ns, rs, fp) && ResultsOk(g, a, from) && j < |g.narrowResults|
    ensures var m := |g.narrowResults|;
            var (ns', rs') := (MoveSlots(ns, fp, fp + from, m), MoveSlots(rs, fp, fp + from, m));
            && ns'[fp + j] == rs'[fp + j] && (g.narrowResults[j] ==> rs'[fp + j] < W32)
  {
    hide MoveSlots, KnowHolds;
    ResultSizes(g, a, ns, rs, fp, from);
    ResultHolds(g, a, ns, rs, fp, from, j);
    hide FrameHolds, ResultsOk;
    MovedSlot(ns, fp, fp + from, |g.narrowResults|, fp + j);
    MovedSlot(rs, fp, fp + from, |g.narrowResults|, fp + j);
  }

  lemma ResultSizes(g: Func, a: Ann, ns: seq<Word>, rs: seq<Word>, fp: nat, from: nat)
    requires FrameHolds(g, a, ns, rs, fp) && ResultsOk(g, a, from)
    ensures |ns| == |rs| && fp + from + |g.narrowResults| <= |rs|
  {
  }

  lemma SameSizes(p: Prog, n: Native, r: Ref)
    requires Linked(p) && Coherent(p, n, r)
    ensures |n.rets| == |r.rets| && n.fp == r.fp
  {
  }

  lemma ReturnKeeps(p: Prog, n: Native, c: Cell)
    requires n.rets != []
    ensures var n' := NativeReturn(n, c).0;
            n'.mem == n.mem && n'.glob == n.glob && n'.stack == MoveSlots(n.stack, n.fp, n.fp + c.a / 8, c.b)
  {
  }
}
