/** What arm32 does differently from RV32: carry flags instead of compares, and a fused
    narrow load that does not go through the common result store. */
module Arm32 {
  import opened Words
  import opened Bits
  import opened WasmNum
  import opened Interp
  import opened Pairs
  import opened Bounds
  import opened Division

  /** `adc`: add with the carry flag. */
  function Adc(x: Half, y: Half, carry: bool): (r: Half) {
    (x + y + if carry then 1 else 0) % W32
  }

  /** `subs`: the difference, and a carry flag that is set when there is no borrow. */
  function Subs(x: Half, y: Half): (r: (Half, bool)) {
    var d: int := x - y;
    (d % W32, x >= y)
  }

  /** `sbc`: subtract with the inverted carry flag. */
  function Sbc(x: Half, y: Half, carry: bool): (r: Half) {
    var d: int := x - y - if carry then 0 else 1;
    d % W32
  }

  /** `adds`/`adc` and `subs`/`sbc` on the halves are 64-bit add and subtract. */
  lemma FlagsCarryPairs(xl: Half, xh: Half, yl: Half, yh: Half)
    ensures var (lo, c) := Adds(xl, yl); Join(lo, Adc(xh, yh, c)) == BinVal(I64, Add, Join(xl, xh), Join(yl, yh))
    ensures var (lo, c) := Subs(xl, yl); Join(lo, Sbc(xh, yh, c)) == BinVal(I64, Sub, Join(xl, xh), Join(yl, yh))
  {
    hide BinVal, Join;
    PairAdd(xl, xh, yl, yh);
    PairSub(xl, xh, yl, yh);
    CarryIsCompare(xl, yl);
    AdcIs(xh, yh, xl + yl >= W32);
    SbcIs(xh, yh, xl >= yl);
  }

  /** The carry out of an addition is what the compare with an addend recovers. */
  lemma CarryIsCompare(x: Half, y: Half)
    ensures Below(Add32(x, y), x) == 1 <==> x + y >= W32
  {
  }

  lemma AdcIs(x: Half, y: Half, carry: bool)
    ensures Adc(x, y, carry) == Add32(Add32(x, y), if carry then 1 else 0)
  {
    ModShift((x + y) % W32 + if carry then 1 else 0, (x + y) / W32, W32);
  }

  lemma SbcIs(x: Half, y: Half, carry: bool)
    ensures Sbc(x, y, carry) == Sub32(Sub32(x, y), if carry then 0 else 1)
  {
    var d: int := x - y;
    ModShift(d % W32 - if carry then 0 else 1, d / W32, W32);
  }

  /** The register a result of class `d` lands in. */
  function TargetOf(n: Native, d: DstCls): (v: Word) {
    if d == ToL0 then n.l0 else n.acc
  }

  /** The fused narrow loads: only the low half of the target register is written, while
      the slot gets a zero high half. */
  function FusedNarrowFinish(n: Native, i: nat, d: DstCls, v: Half): (n': Native)
    requires d != ToL1
  {
    var pair := Join(v, TargetOf(n, d) / W32);
    var n1 := if d == ToAcc then n else n.(stack := Set(n.stack, n.fp + i, v));
    if d == ToL0 then n1.(l0 := pair) else n1.(acc := pair)
  }

  /** They land the result as every other handler does exactly when the target register's
      high half was already zero. */
  lemma FusedNarrowLoadKeepsHigh(n: Native, i: nat, d: DstCls, v: Half)
    requires d != ToL1
    ensures FusedNarrowFinish(n, i, d, v) == Finish(n, i, d, v) <==> TargetOf(n, d) < W32
    ensures TargetOf(FusedNarrowFinish(n, i, d, v), d) % W32 == v
  {
    var pair := Join(v, TargetOf(n, d) / W32);
    assert TargetOf(Finish(n, i, d, v), d) == v && TargetOf(FusedNarrowFinish(n, i, d, v), d) == pair;
    DivModUnique(v, W32, 0, v);
  }

  /** A concrete load where it does not: the accumulator held 2^32. */
  lemma StaleHighHalf(n: Native)
    requires n.acc == W32
    ensures FusedNarrowFinish(n, 0, ToAcc, 5).acc == W32 + 5 && Finish(n, 0, ToAcc, 5).acc == 5
  {
    FusedNarrowLoadKeepsHigh(n, 0, ToAcc, 5);
  }
}
