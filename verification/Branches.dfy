/** Where each branch goes, stated on the steps of both machines. */
module Branches {
  import opened Words
  import opened Bits
  import opened Operators
  import opened Interp

  /** Both machines leave everything but the program counter alone and go to `t`. */
  ghost predicate BothGo(p: Prog, n: Native, r: Ref, tn: nat, tr: nat) {
    NativeStep(p, n) == (n.(pc := tn), Running) && RefStep(p, r) == (r.(pc := tr), Running)
  }

  predicate AtBranch(p: Prog, n: Native, r: Ref) {
    n.pc == r.pc < |p.cells| && IsBranchOp(p.cells[n.pc].op)
  }

  function Target(c: Cell, pc: nat, taken: bool): (t: nat) {
    if taken then c.c / 32 else pc + 1
  }

  /** Unconditional branches are taken; `br_if` on a nonzero i32, its inverse on zero. */
  lemma BranchesOnZero(p: Prog, n: Native, r: Ref)
    requires AtBranch(p, n, r) && (p.cells[n.pc].op.Br? || p.cells[n.pc].op.BrIf? || p.cells[n.pc].op.BrIfNot?)
    ensures var c := p.cells[n.pc];
      && (c.op.Br? ==> BothGo(p, n, r, c.c / 32, c.c / 32))
      && (c.op.BrIf? ==> BothGo(p, n, r, Target(c, n.pc, NA(c, n) % W32 != 0), Target(c, n.pc, RA(c, r) % W32 != 0)))
      && (c.op.BrIfNot? ==> BothGo(p, n, r, Target(c, n.pc, NA(c, n) % W32 == 0), Target(c, n.pc, RA(c, r) % W32 == 0)))
  {
    BranchCell(p, n);
    hide NativeStep;
  }

  /** A place below 32 where both hold a one. */
  ghost predicate Meet(x: Word, y: Word) {
    exists i: nat :: i < 32 && Digit(x, i) == 1 && Digit(y, i) == 1
  }

  /** The and-branch is taken when the operands have a one in common, its negation when
      they have none. */
  lemma BranchesOnCommonOnes(p: Prog, n: Native, r: Ref)
    requires AtBranch(p, n, r) && p.cells[n.pc].op.BrAnd?
    ensures var c := p.cells[n.pc];
            BothGo(p, n, r, Target(c, n.pc, Meet(NA(c, n), NB(c, n)) != c.op.negated),
                   Target(c, n.pc, Meet(RA(c, r), RB(c, r)) != c.op.negated))
  {
    var c := p.cells[n.pc];
    BranchCell(p, n);
    CommonOnes(NA(c, n), NB(c, n));
    CommonOnes(RA(c, r), RB(c, r));
    hide NativeStep, And, Meet;
  }

  lemma CommonOnes(x: Word, y: Word)
    ensures And(32, Lo32(x), Lo32(y)) != 0 <==> Meet(x, y)
  {
    Pow2Values();
    hide Pow2, And, Digit;
    var a := And(32, Lo32(x), Lo32(y));
    AndBounded(32, Lo32(x), Lo32(y));
    forall i: nat | i < 32
      ensures Digit(a, i) == 1 <==> Digit(x, i) == 1 && Digit(y, i) == 1
    {
      BitwiseDigit(32, Lo32(x), Lo32(y), i);
      DigitLow(x, 32, i);
      DigitLow(y, 32, i);
    }
    if a != 0 {
      SomeOne(32, a);
    } else if Meet(x, y) {
      var i: nat :| i < 32 && Digit(x, i) == 1 && Digit(y, i) == 1;
      Constant(0, i);
    }
  }

  /** A word with no one is zero. */
  lemma SomeOne(n: nat, x: nat)
    requires 0 < x < Pow2(n)
    ensures exists i: nat :: i < n && Digit(x, i) == 1
  {
    hide Digit;
    if !exists i: nat :: i < n && Digit(x, i) == 1 {
      forall i | 0 <= i < n
        ensures Digit(x, i) == Digit(0, i)
      {
        Constant(0, i);
      }
      DigitsDecide(n, x, 0);
    }
  }

  /** A table branch goes to the entry its index names, and past the table to the last one. */
  lemma BranchesByTable(p: Prog, n: Native, r: Ref, base: nat, index: nat)
    requires AtBranch(p, n, r) && p.cells[n.pc].op.BrTable? && n.code == CodeBase(p, r.pc) == 32 * base
    requires var c := p.cells[n.pc]; index == NA(c, n) % W32 == RA(c, r) % W32 && c.b / 4 + c.c < |p.brFlat|
    ensures var c := p.cells[n.pc];
            var last := c.c;
            && (index <= last ==> var t := base + p.brFlat[c.b / 4 + index]; BothGo(p, n, r, t, t))
            && (index >= last ==> var t := base + p.brFlat[c.b / 4 + last]; BothGo(p, n, r, t, t))
  {
    BranchCell(p, n);
    hide NativeStep;
    var c := p.cells[n.pc];
    var i := c.b / 4 + if index < c.c then index else c.c;
    assert (32 * base + 32 * p.brFlat[i]) / 32 == base + p.brFlat[i];
  }
}
