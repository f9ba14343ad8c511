/** The words of a call: the packed fields of a direct call cell, and the words each
    backend composes for an indirect call from its cell and the callee's table entry. */
module Packing {
  import opened Words
  import opened Bits
  import opened WasmNum

  /** A per-function entry: cell base under the float flag, pinned offsets above the
      canonical type, frame metadata. All zero for a callee that must go slow. */
  datatype Info = Info(cells: Word, offsets: Word, meta: Word)
  datatype CallWords = CallWords(a: Word, b: Word, c: Word)

  /** The function a native indirect call enters, if every guard passes: index in the
      table, a plain handle (upper half zero), in the info table, the expected type, and
      linked for native entry. */
  function Target(table: seq<Word>, info: seq<Info>, index: Word, expected: nat): (fi: Option<nat>)
    ensures fi.Some? ==> fi.value < |info| && fi.value in table
  {
    var t := Lo32(index);
    if t >= |table| || table[t] >= W32 || table[t] >= |info| then None
    else
      var e := info[table[t]];
      if Lo32(e.offsets) != expected || e.cells == 0 then None else Some(table[t])
  }

  function ShlWord(x: Word, k: nat): (r: Word) {
    x * Pow2(k) % W64
  }

  function ShrWord(x: Word, k: nat): (r: Word)
  {
    DivShrinks(x, Pow2(k));
    x / Pow2(k)
  }

  function Or64(x: Word, y: Word): (r: Word) {
    OrBounded(64, x, y);
    Pow2Values();
    Or(64, x, y)
  }

  /** arm64: fields by `ubfx`, merged by shifted `orr`. */
  function ComposeArm64(a: Word, b: Word, e: Info): (w: CallWords) {
    var fp := FieldWord(e.cells, 0, 1);
    var x9 := Or64(ShlWord(ShrWord(e.cells, 5), 5), ShlWord(ShrWord(a, 48), 48));
    var x12 := Or64(e.meta, ShlWord(ShrWord(b, 48), 48));
    var x11 := Or64(ShlWord(ShrWord(e.offsets, 32), 32), FieldWord(b, 0, 32));
    CallWords(x9, Or64(x11, ShlWord(fp, 31)), x12)
  }

  /** x86-64: 32-bit moves zero-extend; the same words in another order. */
  function ComposeX86(a: Word, b: Word, e: Info): (w: CallWords) {
    var rax := Or64(ShlWord(ShrWord(e.offsets, 32), 32), Lo32(b));
    var rdi := ShlWord(e.cells % 2, 31);
    var rcx := Or64(ShlWord(ShrWord(b, 48), 48), e.meta);
    CallWords(Or64(ShlWord(ShrWord(a, 48), 48), ShlWord(ShrWord(e.cells, 5), 5)), Or64(rax, rdi), rcx)
  }

  /** RV64: zero extension by a pair of shifts. */
  function ComposeRv64(a: Word, b: Word, e: Info): (w: CallWords) {
    var t1 := Or64(ShlWord(ShrWord(e.cells, 5), 5), ShlWord(ShrWord(a, 48), 48));
    var a3 := Or64(ShlWord(ShrWord(e.offsets, 32), 32), ShrWord(ShlWord(b, 32), 32));
    CallWords(t1, Or64(a3, ShlWord(e.cells % 2, 31)), Or64(ShlWord(ShrWord(b, 48), 48), e.meta))
  }

  function FieldWord(x: Word, lo: nat, len: nat): (r: Word) {
    FieldShrinks(x, Pow2(lo), Pow2(len));
    x / Pow2(lo) % Pow2(len)
  }

  lemma FieldShrinks(x: nat, p: nat, q: nat)
    requires 0 < p && 0 < q
    ensures x / p % q <= x
  {
    DivShrinks(x, p);
    ModShrinks(x / p, q);
  }

  lemma ModShrinks(x: nat, p: nat)
    requires 0 < p
    ensures x % p <= x
  {
    DivShrinks(x, p);
    if x < p { DivModUnique(x, p, 0, x); }
  }
}
