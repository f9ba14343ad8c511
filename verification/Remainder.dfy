/** Concrete programs: one the run theorem applies to, and one where a remainder that
    bails is followed by a reader of the accumulator. */
module Remainder {
  import opened Words
  import opened WasmNum
  import opened Packing
  import opened Interp
  import opened WellFormed
  import opened TypedCode
  import opened Supers

  /** `rem_s` of slots 0 and 1 into slot 2, `eqz` of the accumulator into slot 3, and a
      branch to itself. */
  function RemProg(remBails: bool): (p: Prog) {
    var rem := Cell(Div(I32, RemS), Slot, Slot, ToMem, NonePinned, true, 0, 8, 16);
    var eqz := Cell(Un(I32, Eqz), Acc, Slot, ToMem, NonePinned, true, 16, 0, 24);
    var loop := Cell(Br, Slot, Slot, ToMem, NonePinned, true, 0, 0, 64);
    Prog([rem, eqz, loop], [0, 0, 0], [Func(0, 2, 4, 0, 4, [], false, 0, false, 0, false)],
         [Ann([Narrow, Narrow, Narrow, Narrow], NoAcc), Ann([Narrow, Narrow, Narrow, Narrow], AccOf(2, true)),
          Ann([Narrow, Narrow, Narrow, Narrow], NoAcc)],
         [], [], [], [Info(0, 0, 0)], [W32], 0, Backend(remBails, false))
  }

  function RemStart(x: Half, y: Half, acc: Word): (n: Native) {
    Native([x, y, 7, 7], 0, [], [], 0, [], 0, acc, 0, 0)
  }

  /** The reference stores the remainder, then whether it is zero. */
  lemma RefRemainder(p: Prog, x: Half, y: Half)
    requires p == RemProg(p.backend.remBails) && y != 0
    ensures var m := IDiv(I32, RemS, x, y);
            && m.Done?
            && RefRun(p, Ref([x, y, 7, 7], 0, [], [], 0, []), 2).0.stack == [x, y, m.v, if m.v == 0 then 1 else 0]
  {
    hide IDiv, RefStep, RefRun;
    RefFirst(p, x, y);
    var r := Ref([x, y, 7, 7], 0, [], [], 0, []);
    RefSecond(p, RefStep(p, r).0);
    TwoRefSteps(p, r);
    var v := IDiv(I32, RemS, x, y).v;
    assert Trunc(I32, v) == v;
    assert [x, y, v, 7][3 := 0] == [x, y, v, 0] && [x, y, v, 7][3 := 1] == [x, y, v, 1];
  }

  lemma TwoRefSteps(p: Prog, r: Ref)
    requires RefStep(p, r).1 == Running && RefStep(p, RefStep(p, r).0).1 == Running
    ensures RefRun(p, r, 2) == RefStep(p, RefStep(p, r).0)
  {
    hide RefStep;
    var r1 := RefStep(p, r).0;
    assert RefRun(p, r, 2) == RefRun(p, r1, 1);
    assert RefRun(p, RefStep(p, r1).0, 0) == (RefStep(p, r1).0, Running);
  }

  lemma RefFirst(p: Prog, x: Half, y: Half)
    requires p == RemProg(p.backend.remBails) && y != 0
    ensures var m := IDiv(I32, RemS, x, y);
            m.Done? && RefStep(p, Ref([x, y, 7, 7], 0, [], [], 0, [])) == (Ref([x, y, m.v, 7], 0, [], [], 1, []), Running)
  {
    hide IDiv;
    RemainderDefined(x, y);
    var s: seq<Word> := [x, y, 7, 7];
    var v := IDiv(I32, RemS, x, y).v;
    assert s[2 := v] == [x, y, v, 7];
  }

  lemma RefSecond(p: Prog, r: Ref)
    requires p == RemProg(p.backend.remBails) && r.pc == 1 && r.fp == 0 && |r.stack| == 4
    ensures RefStep(p, r).1 == Running
    ensures RefStep(p, r).0.stack == r.stack[3 := if Trunc(I32, r.stack[2]) == 0 then 1 else 0]
  {
  }

  lemma RemainderDefined(x: Half, y: Half)
    requires y != 0
    ensures IDiv(I32, RemS, x, y).Done?
    ensures SignedAt(I32, x) == -W31 && SignedAt(I32, y) == -1 ==> IDiv(I32, RemS, x, y) == Done(0)
  {
  }

  /** The cached machine agrees with the reference on this program exactly when the
      remainder handler does not bail, or the accumulator it leaves behind happens to
      hold zero, as the true remainder does. */
  lemma AccumulatorReaderAfterRemainder(p: Prog, x: Half, y: Half, acc: Word)
    requires p == RemProg(p.backend.remBails) && y != 0
    ensures DriveRun(p, RemStart(x, y, acc), 2).0.stack == RefRun(p, Ref([x, y, 7, 7], 0, [], [], 0, []), 2).0.stack
       <==> !(p.backend.remBails && x == W31 && y == W32 - 1) || Trunc(I32, acc) == 0
  {
    hide IDiv, DriveStep, DriveRun, RefRun;
    RefRemainder(p, x, y);
    RemainderDefined(x, y);
    var n := RemStart(x, y, acc);
    FirstStep(p, x, y, acc);
    var n1, v := DriveStep(p, n).0, IDiv(I32, RemS, x, y).v;
    SecondStep(p, n1);
    assert Trunc(I32, v) == v;
    assert n1.stack[3 := 0] == [x, y, v, 0] && n1.stack[3 := 1] == [x, y, v, 1];
    TwoSteps(p, n);
  }

  /** The slot always holds the remainder; the accumulator holds it unless the handler
      bailed. */
  lemma FirstStep(p: Prog, x: Half, y: Half, acc: Word)
    requires p == RemProg(p.backend.remBails) && y != 0
    ensures var m := IDiv(I32, RemS, x, y);
            var bails := p.backend.remBails && x == W31 && y == W32 - 1;
            && m.Done?
            && DriveStep(p, RemStart(x, y, acc)).1 == Running
            && (var n' := DriveStep(p, RemStart(x, y, acc)).0;
                n' == Native([x, y, m.v, 7], 0, [], [], 1, [], 0, if bails then acc else m.v, n'.l0, n'.l1))
  {
    hide IDiv;
    RemainderDefined(x, y);
  }

  lemma SecondStep(p: Prog, n: Native)
    requires p == RemProg(p.backend.remBails) && n.pc == 1 && n.fp == 0 && |n.stack| == 4
    ensures DriveStep(p, n) == (n.(stack := n.stack[3 := if Trunc(I32, n.acc) == 0 then 1 else 0],
                                   acc := if Trunc(I32, n.acc) == 0 then 1 else 0, pc := 2), Running)
  {
  }

  /** What tells the two cases apart is the linking condition of the run theorem: the
      program is linked when the remainder cannot bail and succeed, and otherwise no
      annotation makes it so, because nothing may be claimed of the accumulator there. */
  lemma LinkedWithoutBail()
    ensures Linked(RemProg(false))
  {
    var p := RemProg(false);
    forall pc | 0 <= pc < |p.cells|
      ensures Shape(p) && CellOk(p, pc)
    {
      if pc == 0 { RemLinked(p); } else if pc == 1 { EqzLinked(p); } else { LoopLinked(p); }
    }
  }

  /** Its operands are typed as well, so chained handlers may start on it. */
  lemma TypedWithoutBail()
    ensures Linked(RemProg(false)) && Typed(RemProg(false))
  {
    LinkedWithoutBail();
    hide Linked, Shape;
    RemShape(false);
    var p := RemProg(false);
    forall pc | 0 <= pc < |p.cells|
      ensures TypedCell(p, pc)
    {
      if pc == 0 { assert ReadOk(Fn(p, 0), p.ann[0], Slot, 0, true) && ReadOk(Fn(p, 0), p.ann[0], Slot, 8, true); }
      else if pc == 1 { assert ReadOk(Fn(p, 1), p.ann[1], Acc, 16, true); }
    }
  }

  lemma RemShape(remBails: bool)
    ensures Shape(RemProg(remBails))
  {
    var p := RemProg(remBails);
    assert FuncOk(p, p.funcs[0]);
    forall i | 0 <= i < |p.cells|
      ensures AnnOk(p.funcs[p.owner[i]], p.ann[i])
    {
    }
  }

  lemma RemLinked(p: Prog)
    requires p == RemProg(false)
    ensures Shape(p) && CellOk(p, 0)
  {
    RemShape(false);
    hide Shape;
    assert ValueCellOk(p, 0, false) by { hide CellOk, ModeOk; }
  }

  lemma EqzLinked(p: Prog)
    requires p == RemProg(false)
    ensures Shape(p) && CellOk(p, 1)
  {
    RemShape(false);
    hide Shape;
    assert ValueCellOk(p, 1, false) by { hide CellOk, ModeOk; }
  }

  lemma LoopLinked(p: Prog)
    requires p == RemProg(false)
    ensures Shape(p) && CellOk(p, 2)
  {
    RemShape(false);
    hide Shape;
    assert BranchCellOk(p, 2, false) by { hide CellOk, ModeOk; }
  }

  lemma NotLinkedWithBail(ann: seq<Ann>)
    ensures !Linked(RemProg(true).(ann := ann))
  {
    var p := RemProg(true).(ann := ann);
    if Linked(p) {
      RemConstraint(p);
      EqzConstraint(p);
      assert false;
    }
  }

  lemma RemConstraint(p: Prog)
    requires p == RemProg(true).(ann := p.ann) && Linked(p)
    ensures |p.ann| == 3 && p.ann[1].acc == NoAcc
  {
    hide OperandsOk, DstOk, After, ResultNarrow, AnnOk, FuncOk;
    assert CellOk(p, 0);
    assert ValueCellOk(p, 0, true);
  }

  lemma EqzConstraint(p: Prog)
    requires p == RemProg(true).(ann := p.ann) && Linked(p)
    ensures |p.ann| == 3 && p.ann[1].acc.AccOf?
  {
    hide Flow, DstOk, After, ResultNarrow, AnnOk, FuncOk;
    assert CellOk(p, 1);
    assert ValueCellOk(p, 1, false);
  }
}
