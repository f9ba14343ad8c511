/** The register-cached machine agrees with the slot-only machine on every run. */
module Coherence {
  import opened Words
  import opened Interp
  import opened WellFormed

  // ---- the relation ----

  /** The current frame agrees as far as `a` claims. */
  ghost predicate FrameHolds(f: Func, a: Ann, ns: seq<Word>, rs: seq<Word>, fp: nat) {
    && |ns| == |rs| && fp + f.frameSlots <= |rs| && AnnOk(f, a)
    && forall i :: 0 <= i < f.frameSlots ==> KnowHolds(a.slots[i], ns[fp + i], rs[fp + i])
  }

  ghost predicate AccHolds(f: Func, a: AccKnow, acc: Word, rs: seq<Word>, fp: nat) {
    a.AccOf? ==>
      a.slot < f.frameSlots && fp + a.slot < |rs| && acc == rs[fp + a.slot] && (a.narrow ==> acc < W32)
  }

  /** Each pinned register equals its slot. */
  ghost predicate PinsHold(f: Func, l0: Word, l1: Word, rs: seq<Word>, fp: nat) {
    && (f.pin0 ==> fp + f.l0 < |rs| && l0 == rs[fp + f.l0])
    && (f.pin1 ==> fp + f.l1 < |rs| && l1 == rs[fp + f.l1])
  }

  ghost predicate Local(f: Func, a: Ann, n: Native, r: Ref) {
    && n.fp == r.fp
    && FrameHolds(f, a, n.stack, r.stack, n.fp)
    && AccHolds(f, a.acc, n.acc, r.stack, n.fp)
    && PinsHold(f, n.l0, n.l1, r.stack, n.fp)
  }

  ghost predicate GlobalsHold(p: Prog, glob: seq<Word>) {
    |glob| == |p.narrowGlob| && forall i :: 0 <= i < |glob| && p.narrowGlob[i] ==> glob[i] < W32
  }

  /** The record a call from `rec.pc - 1` pushes. */
  function PackRec(p: Prog, rec: Frame): (r: Rec)
    requires rec.pc < |p.owner| && p.owner[rec.pc] < |p.funcs|
  {
    var f := Fn(p, rec.pc);
    Rec(32 * rec.pc, 8 * rec.fp, 32 * f.base + L0Word(f) * W48, L1Off(f))
  }

  /** A suspended activation: what its resume point will claim about the slots below
      the argument area holds now, and `base` is where its callee's frame starts. */
  ghost predicate SuspendedAt(p: Prog, ns: seq<Word>, rs: seq<Word>, nrec: Rec, rec: Frame, base: nat, callee: nat)
    requires Shape(p)
  {
    && 0 < rec.pc < |p.cells| && p.owner[rec.pc - 1] == p.owner[rec.pc]
    && var op := p.cells[rec.pc - 1].op;
       Calls(p, op, callee) && base == rec.fp + op.argBase
       && nrec == PackRec(p, rec)
       && |ns| == |rs| && rec.fp + Fn(p, rec.pc).frameSlots <= |rs|
       && op.argBase <= Fn(p, rec.pc).frameSlots
       && forall i :: 0 <= i < op.argBase ==> KnowHolds(p.ann[rec.pc].slots[i], ns[rec.fp + i], rs[rec.fp + i])
  }

  function BaseAfter(rr: seq<Frame>, k: nat, fp: nat): (b: nat)
    requires k < |rr|
  {
    if k + 1 < |rr| then rr[k + 1].fp else fp
  }

  function PcAfter(rr: seq<Frame>, k: nat, pc: nat): (b: nat)
    requires k < |rr|
  {
    if k + 1 < |rr| then rr[k + 1].pc else pc
  }

  function OwnerOf(p: Prog, pc: nat): (o: nat) {
    if pc < |p.owner| then p.owner[pc] else |p.funcs|
  }

  ghost predicate Suspended(p: Prog, ns: seq<Word>, rs: seq<Word>, nr: seq<Rec>, rr: seq<Frame>, fp: nat, pc: nat)
    requires Shape(p)
  {
    && |nr| == |rr|
    && (forall k :: 0 <= k < |rr| ==> rr[k].fp <= BaseAfter(rr, k, fp) <= fp)
    && (forall k :: 0 <= k < |rr| ==>
          SuspendedAt(p, ns, rs, nr[k], rr[k], BaseAfter(rr, k, fp), OwnerOf(p, PcAfter(rr, k, pc))))
  }

  ghost predicate Coherent(p: Prog, n: Native, r: Ref)
    requires Shape(p)
  {
    && n.pc == r.pc && n.mem == r.mem && n.glob == r.glob && GlobalsHold(p, r.glob)
    && r.pc < |p.cells|
    && n.code == 32 * Fn(p, r.pc).base
    && Local(Fn(p, r.pc), p.ann[r.pc], n, r)
    && Suspended(p, n.stack, r.stack, n.rets, r.rets, r.fp, r.pc)
  }

  /** After one step of both machines. */
  ghost predicate Agree(p: Prog, n: Native, sn: Status, r: Ref, sr: Status)
    requires Shape(p)
  {
    && sn == sr && n.mem == r.mem && n.glob == r.glob && n.pc == r.pc
    && (sn == Running ==> Coherent(p, n, r))
    && (sn == Exited ==> ResultsAgree(p, n, r))
  }

  /** Both machines left at the same return cell with the same results at the frame base,
      narrow where the function promises it, a single one in the accumulator too. */
  ghost predicate ResultsAgree(p: Prog, n: Native, r: Ref)
    requires Shape(p)
  {
    && n.fp == r.fp && r.pc < |p.cells| && p.cells[r.pc].op.Return?
    && ResultsSame(Fn(p, r.pc).narrowResults, n.stack, r.stack, r.fp)
    && (|Fn(p, r.pc).narrowResults| == 1 ==> n.acc == r.stack[r.fp])
  }

  /** The slots from `fp` hold the same results. */
  ghost predicate ResultsSame(res: seq<bool>, ns: seq<Word>, rs: seq<Word>, fp: nat) {
    && |ns| == |rs| && fp + |res| <= |rs|
    && forall j :: 0 <= j < |res| ==> ResultSame(res[j], ns[fp + j], rs[fp + j])
  }

  ghost predicate ResultSame(narrow: bool, nv: Word, rv: Word) {
    nv == rv && (narrow ==> rv < W32)
  }

  // ---- operands and results ----

  lemma FetchAgrees(f: Func, a: Ann, n: Native, r: Ref, cls: Cls, field: Word, narrow: bool)
    requires Local(f, a, n, r) && ReadOk(f, a, cls, field, narrow)
    ensures Fetch(n, cls, field) == if cls.Const? then field else RSlot(r, field / 8)
    ensures narrow ==> Fetch(n, cls, field) < W32
  {
    if cls == Slot || cls == L0 || cls == L1 {
      var i := field / 8;
      assert KnowHolds(a.slots[i], n.stack[n.fp + i], r.stack[n.fp + i]);
    }
  }

  lemma SlotAgrees(f: Func, a: Ann, ns: seq<Word>, rs: seq<Word>, fp: nat, field: nat, narrow: bool)
    requires FrameHolds(f, a, ns, rs, fp) && KnownSlot(f, a, field, narrow)
    ensures Get(ns, fp + field / 8) == Get(rs, fp + field / 8)
    ensures narrow ==> Get(rs, fp + field / 8) < W32
  {
    var i := field / 8;
    assert KnowHolds(a.slots[i], ns[fp + i], rs[fp + i]);
  }

  lemma PinPutAgrees(f: Func, a: Ann, n: Native, r: Ref, slot: nat, d: DstCls, v: Word, narrow: bool)
    requires Local(f, a, n, r) && DstOk(f, d, slot) && (narrow ==> v < W32) && d != ToAcc
    requires f.pin0 && f.pin1 ==> f.l0 != f.l1
    ensures Local(f, Put(a, slot, narrow), PinPut(n, slot, d, v), RPut(r, slot, v))
  {
    var b, n', r' := Put(a, slot, narrow), PinPut(n, slot, d, v), RPut(r, slot, v);
    forall i | 0 <= i < f.frameSlots
      ensures KnowHolds(b.slots[i], n'.stack[n.fp + i], r'.stack[n.fp + i])
    {
      assert KnowHolds(a.slots[i], n.stack[n.fp + i], r.stack[n.fp + i]);
    }
  }

  lemma FinishAgrees(f: Func, a: Ann, n: Native, r: Ref, slot: nat, d: DstCls, v: Word, narrow: bool)
    requires Local(f, a, n, r) && DstOk(f, d, slot) && (narrow ==> v < W32)
    requires f.pin0 && f.pin1 ==> f.l0 != f.l1
    ensures Local(f, After(a, slot, d, narrow), Finish(n, slot, d, v), RPut(r, slot, v))
  {
    if d == ToAcc {
      var b, r' := After(a, slot, d, narrow), RPut(r, slot, v);
      forall i | 0 <= i < f.frameSlots
        ensures KnowHolds(b.slots[i], n.stack[n.fp + i], r'.stack[n.fp + i])
      {
        assert KnowHolds(a.slots[i], n.stack[n.fp + i], r.stack[n.fp + i]);
      }
    } else {
      PinPutAgrees(f, a, n, r, slot, d, v, narrow);
    }
  }

  lemma Weaken(f: Func, a: Ann, b: Ann, n: Native, r: Ref)
    requires Local(f, b, n, r) && AnnLeq(a, b) && AnnOk(f, a)
    ensures Local(f, a, n, r)
  {
    forall i | 0 <= i < f.frameSlots
      ensures KnowHolds(a.slots[i], n.stack[n.fp + i], r.stack[n.fp + i])
    {
      assert KnowHolds(b.slots[i], n.stack[n.fp + i], r.stack[n.fp + i]);
    }
  }

  /** The accumulator may be claimed to hold a slot's value, or nothing. */
  lemma AccSet(f: Func, a: Ann, n: Native, r: Ref, slot: nat, narrow: bool)
    requires Local(f, a, n, r) && slot < f.frameSlots && n.acc == RSlot(r, slot) && (narrow ==> n.acc < W32)
    ensures Local(f, a.(acc := AccOf(slot, narrow)), n, r)
  {
  }

  lemma AccDrop(f: Func, a: Ann, n: Native, r: Ref, acc: Word)
    requires Local(f, a, n, r)
    ensures Local(f, a.(acc := NoAcc), n.(acc := acc), r)
  {
  }

  /** Writing inside the current frame leaves every suspended activation as it was. */
  lemma SuspendedKept(p: Prog, n: Native, r: Ref, n': Native, r': Ref)
    requires Shape(p) && Suspended(p, n.stack, r.stack, n.rets, r.rets, r.fp, r.pc)
    requires n'.rets == n.rets && r'.rets == r.rets && r'.fp == r.fp
    requires |n'.stack| == |n.stack| && |r'.stack| == |r.stack| && |n.stack| == |r.stack|
    requires forall i :: 0 <= i < r.fp && i < |r.stack| ==> n'.stack[i] == n.stack[i] && r'.stack[i] == r.stack[i]
    requires r.pc < |p.owner| && r'.pc < |p.owner| && p.owner[r'.pc] == p.owner[r.pc]
    ensures Suspended(p, n'.stack, r'.stack, n'.rets, r'.rets, r'.fp, r'.pc)
  {
    forall k | 0 <= k < |r.rets|
      ensures SuspendedAt(p, n'.stack, r'.stack, n'.rets[k], r'.rets[k], BaseAfter(r'.rets, k, r'.fp),
                          OwnerOf(p, PcAfter(r'.rets, k, r'.pc)))
    {
      assert SuspendedAt(p, n.stack, r.stack, n.rets[k], r.rets[k], BaseAfter(r.rets, k, r.fp),
                         OwnerOf(p, PcAfter(r.rets, k, r.pc)));
      var rec, op := r.rets[k], p.cells[r.rets[k].pc - 1].op;
      forall i | 0 <= i < op.argBase
        ensures KnowHolds(p.ann[rec.pc].slots[i], n'.stack[rec.fp + i], r'.stack[rec.fp + i])
      {
        assert KnowHolds(p.ann[rec.pc].slots[i], n.stack[rec.fp + i], r.stack[rec.fp + i]);
      }
    }
  }

  /** Arriving at a successor of a cell inside the same function. */
  lemma Arrive(p: Prog, n: Native, r: Ref, n': Native, r': Ref, b: Ann)
    requires Linked(p) && Coherent(p, n, r) && Flow(p, r.pc, b, r'.pc)
    requires n'.pc == r'.pc && n'.code == n.code && n'.mem == r'.mem && n'.glob == r'.glob && GlobalsHold(p, r'.glob)
    requires n'.rets == n.rets && r'.rets == r.rets && n'.fp == n.fp && r'.fp == r.fp
    requires |n'.stack| == |n.stack| && |r'.stack| == |r.stack|
    requires forall i :: 0 <= i < r.fp && i < |r.stack| ==> n'.stack[i] == n.stack[i] && r'.stack[i] == r.stack[i]
    requires Local(Fn(p, r.pc), b, n', r')
    ensures Coherent(p, n', r')
  {
    Weaken(Fn(p, r.pc), p.ann[r'.pc], b, n', r');
    SuspendedKept(p, n, r, n', r');
  }
}
