/** The build-time driver: which operand-class combinations a family owns, the packed
    slot of each, and the loop that emits one handler per slot. Ops are numbers; a
    backend is the predicate that says which keys it wants. */
module Generator {
  import opened WasmNum
  import opened Interp

  datatype Family = NoFamily | Fixed | DstOnly | ConstDst | SrcA | SrcADst | SrcAB | SrcABPairDst | SrcABDst | LoadBank | StoreBank

  /** One class combination. */
  datatype Combo = Combo(a: Cls, b: Cls, d: DstCls, p: PairDstCls)
  /** A handler's key: the op, its combination and the bank. */
  datatype Key = Key(op: nat, c: Combo, fused: bool)

  function SlotsOf(f: Family): (n: nat) {
    match f
    case NoFamily => 0
    case Fixed => 1
    case DstOnly => 4
    case ConstDst => 4
    case SrcA => 5
    case SrcADst => 20
    case SrcAB => 25
    case SrcABPairDst => 175
    case SrcABDst => 100
    case LoadBank => 40
    case StoreBank => 50
  }

  predicate HasFusedBank(f: Family) {
    f == LoadBank || f == StoreBank
  }

  function ClsIndex(c: Cls): (i: nat) {
    match c case Slot => 0 case Const => 1 case Acc => 2 case L0 => 3 case L1 => 4
  }

  function DstIndex(d: DstCls): (i: nat) {
    match d case ToMem => 0 case ToAcc => 1 case ToL0 => 2 case ToL1 => 3
  }

  function PairIndex(p: PairDstCls): (i: nat) {
    match p
    case NonePinned => 0
    case FirstL0 => 1
    case FirstL1 => 2
    case SecondL0 => 3
    case SecondL1 => 4
    case L0L1 => 5
    case L1L0 => 6
  }

  /** Index of a combination inside its family. */
  function IndexOf(f: Family, c: Combo, fused: bool): (i: Option<nat>) {
    var (a, b, d) := (ClsIndex(c.a), ClsIndex(c.b), DstIndex(c.d));
    if fused && !HasFusedBank(f) then None
    else match f
      case NoFamily => None
      case Fixed => Some(0)
      case DstOnly => Some(d)
      case ConstDst => if c.a != Const then None else Some(d)
      case SrcA => Some(a)
      case SrcADst => Some(a + 5 * d)
      case SrcAB => Some(a + 5 * b)
      case SrcABPairDst => Some(a + 5 * b + 25 * PairIndex(c.p))
      case SrcABDst => Some(a + 5 * b + 25 * d)
      case LoadBank => Some(a + 5 * d + if fused then 20 else 0)
      case StoreBank => Some(a + 5 * b + if fused then 25 else 0)
  }

  // ---- the combinations of a family ----

  /** The ranges a family's combinations vary over; a coordinate it does not vary is a
      single value. */
  datatype Ranges = Ranges(as_: seq<Cls>, bs: seq<Cls>, ds: seq<DstCls>, ps: seq<PairDstCls>)

  function PairDsts(hasL1: bool): (ps: seq<PairDstCls>) {
    if hasL1 then [NonePinned, FirstL0, FirstL1, SecondL0, SecondL1, L0L1, L1L0] else [NonePinned, FirstL0, SecondL0]
  }

  function RangesOf(f: Family, classes: seq<Cls>, dsts: seq<DstCls>, hasL1: bool): (r: Ranges) {
    match f
    case NoFamily => Ranges([], [], [], [])
    case Fixed => Ranges([Slot], [Slot], [ToMem], [NonePinned])
    case DstOnly => Ranges([Slot], [Slot], dsts, [NonePinned])
    case ConstDst => Ranges([Const], [Slot], dsts, [NonePinned])
    case SrcA => Ranges(classes, [Slot], [ToMem], [NonePinned])
    case SrcADst => Ranges(classes, [Slot], dsts, [NonePinned])
    case LoadBank => Ranges(classes, [Slot], dsts, [NonePinned])
    case SrcAB => Ranges(classes, classes, [ToMem], [NonePinned])
    case StoreBank => Ranges(classes, classes, [ToMem], [NonePinned])
    case SrcABPairDst => Ranges(classes, classes, [ToMem], PairDsts(hasL1))
    case SrcABDst => Ranges(classes, classes, dsts, [NonePinned])
  }

  /** A family owns a combination of its ranges. */
  predicate Owns(r: Ranges, c: Combo) {
    c.a in r.as_ && c.b in r.bs && c.d in r.ds && c.p in r.ps
  }

  predicate Distinct<T(==)>(s: seq<T>) {
    forall i, j :: 0 <= i < j < |s| ==> s[i] != s[j]
  }

  /** The last source of a combination varies fastest, as the nested loops run. */
  method Combos(f: Family, classes: seq<Cls>, dsts: seq<DstCls>, hasL1: bool) returns (out: seq<Combo>)
    requires Distinct(classes) && Distinct(dsts)
    ensures forall c :: c in out <==> Owns(RangesOf(f, classes, dsts, hasL1), c)
    ensures Distinct(out)
  {
    var r := RangesOf(f, classes, dsts, hasL1);
    assert Distinct(r.as_) && Distinct(r.bs) && Distinct(r.ds) && Distinct(r.ps);
    out := [];
    for i := 0 to |r.as_|
      invariant forall c :: c in out <==> Owns(r.(as_ := r.as_[..i]), c)
      invariant Distinct(out)
    {
      var row := Row(r.as_[i], r);
      assert forall c :: c in row ==> c.a == r.as_[i] && c.a !in r.as_[..i];
      out := Joined(out, row);
      assert r.as_[..i + 1] == r.as_[..i] + [r.as_[i]];
    }
    assert r.as_[..|r.as_|] == r.as_;
  }

  /** The combinations with first source `a`. */
  method Row(a: Cls, r: Ranges) returns (out: seq<Combo>)
    requires Distinct(r.bs) && Distinct(r.ds) && Distinct(r.ps)
    ensures forall c :: c in out <==> Owns(r.(as_ := [a]), c)
    ensures Distinct(out)
  {
    out := [];
    for i := 0 to |r.bs|
      invariant forall c :: c in out <==> Owns(r.(as_ := [a], bs := r.bs[..i]), c)
      invariant Distinct(out)
    {
      var cell := Cells(a, r.bs[i], r);
      assert forall c :: c in cell ==> c.b == r.bs[i] && c.b !in r.bs[..i];
      out := Joined(out, cell);
      assert r.bs[..i + 1] == r.bs[..i] + [r.bs[i]];
    }
    assert r.bs[..|r.bs|] == r.bs;
  }

  /** The combinations with sources `a` and `b`. */
  method Cells(a: Cls, b: Cls, r: Ranges) returns (out: seq<Combo>)
    requires Distinct(r.ds) && Distinct(r.ps)
    ensures forall c :: c in out <==> Owns(r.(as_ := [a], bs := [b]), c)
    ensures Distinct(out)
  {
    out := [];
    for i := 0 to |r.ds|
      invariant forall c :: c in out <==> Owns(r.(as_ := [a], bs := [b], ds := r.ds[..i]), c)
      invariant Distinct(out)
    {
      var cell := Pairs(a, b, r.ds[i], r);
      assert forall c :: c in cell ==> c.d == r.ds[i] && c.d !in r.ds[..i];
      out := Joined(out, cell);
      assert r.ds[..i + 1] == r.ds[..i] + [r.ds[i]];
    }
    assert r.ds[..|r.ds|] == r.ds;
  }

  method Pairs(a: Cls, b: Cls, d: DstCls, r: Ranges) returns (out: seq<Combo>)
    requires Distinct(r.ps)
    ensures forall c :: c in out <==> Owns(r.(as_ := [a], bs := [b], ds := [d]), c)
    ensures Distinct(out)
  {
    out := [];
    for i := 0 to |r.ps|
      invariant forall c :: c in out <==> Owns(r.(as_ := [a], bs := [b], ds := [d], ps := r.ps[..i]), c)
      invariant Distinct(out)
    {
      assert forall c :: c in out ==> c.p in r.ps[..i] && r.ps[i] !in r.ps[..i];
      out := Joined(out, [Combo(a, b, d, r.ps[i])]);
      assert r.ps[..i + 1] == r.ps[..i] + [r.ps[i]];
    }
    assert r.ps[..|r.ps|] == r.ps;
  }

  /** Appending combinations not yet listed. */
  function Joined(s: seq<Combo>, t: seq<Combo>): (r: seq<Combo>)
    requires Distinct(s) && Distinct(t) && (forall c :: c in t ==> c !in s)
    ensures Distinct(r) && forall c :: c in r <==> c in s || c in t
  {
    var r := s + t;
    assert forall i, j :: 0 <= i < j < |r| && j >= |s| && i < |s| ==> r[j] in t && r[i] in s;
    r
  }

  // ---- packed slots ----

  /** Where an op's block of slots begins. */
  function Base(fams: seq<Family>, op: nat): (b: nat)
    requires op <= |fams|
    decreases op
  {
    if op == 0 then 0 else Base(fams, op - 1) + SlotsOf(fams[op - 1])
  }

  lemma {:induction false} BasesGrow(fams: seq<Family>, i: nat, j: nat)
    requires i < j <= |fams|
    ensures Base(fams, i) + SlotsOf(fams[i]) <= Base(fams, j)
    decreases j
  {
    if i < j - 1 { BasesGrow(fams, i, j - 1); }
  }

  predicate VariesA(f: Family) {
    f != Fixed && f != DstOnly && f != ConstDst
  }

  predicate VariesB(f: Family) {
    f == SrcAB || f == StoreBank || f == SrcABPairDst || f == SrcABDst
  }

  predicate VariesD(f: Family) {
    f == DstOnly || f == ConstDst || f == SrcADst || f == LoadBank || f == SrcABDst
  }

  /** Every coordinate its family does not vary has its fixed value. */
  predicate Canonical(f: Family, c: Combo) {
    && f != NoFamily
    && (VariesA(f) || c.a == if f == ConstDst then Const else Slot)
    && (VariesB(f) || c.b == Slot)
    && (VariesD(f) || c.d == ToMem)
    && (f == SrcABPairDst || c.p == NonePinned)
  }

  /** The index stays inside the family's block, and distinct keys of the family get
      distinct indices. */
  lemma IndexInjective(f: Family, c: Combo, fused: bool, c': Combo, fused': bool)
    requires Canonical(f, c) && Canonical(f, c') && IndexOf(f, c, fused).Some? && IndexOf(f, c', fused').Some?
    ensures IndexOf(f, c, fused).value < SlotsOf(f)
    ensures IndexOf(f, c, fused) == IndexOf(f, c', fused') ==> c == c' && fused == fused'
  {
    IndexDigits(c, c');
    hide ClsIndex, DstIndex, PairIndex;
    if HasFusedBank(f) {
      BankedInjective(f, c, fused, c', fused');
    } else {
      PlainInjective(f, c, c');
    }
  }

  lemma PlainInjective(f: Family, c: Combo, c': Combo)
    requires Canonical(f, c) && Canonical(f, c') && !HasFusedBank(f)
    ensures IndexOf(f, c, false).Some? && IndexOf(f, c', false).Some? && IndexOf(f, c, false).value < SlotsOf(f)
    ensures IndexOf(f, c, false) == IndexOf(f, c', false) ==> c == c'
  {
    if f == SrcABPairDst { PairInjective(c, c'); }
    else if f == SrcABDst { TripleInjective(c, c'); }
    else {
      IndexDigits(c, c');
      hide ClsIndex, DstIndex, PairIndex;
    }
  }

  lemma PairInjective(c: Combo, c': Combo)
    requires Canonical(SrcABPairDst, c) && Canonical(SrcABPairDst, c')
    ensures var i := IndexOf(SrcABPairDst, c, false); i.Some? && i.value < 175 && (i == IndexOf(SrcABPairDst, c', false) ==> c == c')
  {
    IndexDigits(c, c');
    hide ClsIndex, DstIndex, PairIndex;
    Radix(ClsIndex(c.a), ClsIndex(c.b), PairIndex(c.p), ClsIndex(c'.a), ClsIndex(c'.b), PairIndex(c'.p));
  }

  lemma TripleInjective(c: Combo, c': Combo)
    requires Canonical(SrcABDst, c) && Canonical(SrcABDst, c')
    ensures var i := IndexOf(SrcABDst, c, false); i.Some? && i.value < 100 && (i == IndexOf(SrcABDst, c', false) ==> c == c')
  {
    IndexDigits(c, c');
    hide ClsIndex, DstIndex, PairIndex;
    Radix(ClsIndex(c.a), ClsIndex(c.b), DstIndex(c.d), ClsIndex(c'.a), ClsIndex(c'.b), DstIndex(c'.d));
  }

  lemma Radix(a: nat, b: nat, d: nat, a': nat, b': nat, d': nat)
    requires a < 5 && b < 5 && a' < 5 && b' < 5
    ensures a + 5 * b + 25 * d == a' + 5 * b' + 25 * d' <==> a == a' && b == b' && d == d'
  {
  }

  lemma BankedInjective(f: Family, c: Combo, fused: bool, c': Combo, fused': bool)
    requires Canonical(f, c) && Canonical(f, c') && HasFusedBank(f)
    ensures IndexOf(f, c, fused).Some? && IndexOf(f, c', fused').Some? && IndexOf(f, c, fused).value < SlotsOf(f)
    ensures IndexOf(f, c, fused) == IndexOf(f, c', fused') ==> c == c' && fused == fused'
  {
    IndexDigits(c, c');
    hide ClsIndex, DstIndex, PairIndex;
  }

  lemma IndexDigits(c: Combo, c': Combo)
    ensures ClsIndex(c.a) < 5 && ClsIndex(c.b) < 5 && DstIndex(c.d) < 4 && PairIndex(c.p) < 7
    ensures ClsIndex(c'.a) < 5 && ClsIndex(c'.b) < 5 && DstIndex(c'.d) < 4 && PairIndex(c'.p) < 7
    ensures (ClsIndex(c.a) == ClsIndex(c'.a) <==> c.a == c'.a) && (ClsIndex(c.b) == ClsIndex(c'.b) <==> c.b == c'.b)
    ensures (DstIndex(c.d) == DstIndex(c'.d) <==> c.d == c'.d) && (PairIndex(c.p) == PairIndex(c'.p) <==> c.p == c'.p)
  {
  }

  function SlotOf(fams: seq<Family>, k: Key): (s: nat)
    requires k.op < |fams| && IndexOf(fams[k.op], k.c, k.fused).Some?
  {
    Base(fams, k.op) + IndexOf(fams[k.op], k.c, k.fused).value
  }

  predicate HasSlot(fams: seq<Family>, k: Key) {
    k.op < |fams| && Canonical(fams[k.op], k.c) && IndexOf(fams[k.op], k.c, k.fused).Some?
  }

  /** Packed slots are in range and no two keys share one. */
  lemma SlotsInjective(fams: seq<Family>, k: Key, k': Key)
    requires HasSlot(fams, k) && HasSlot(fams, k')
    ensures SlotOf(fams, k) < Base(fams, |fams|)
    ensures SlotOf(fams, k) == SlotOf(fams, k') ==> k == k'
  {
    hide IndexOf, Canonical, SlotsOf;
    IndexInjective(fams[k.op], k.c, k.fused, k.c, k.fused);
    IndexInjective(fams[k'.op], k'.c, k'.fused, k'.c, k'.fused);
    BasesGrow(fams, k.op, |fams|);
    if k.op < k'.op { BasesGrow(fams, k.op, k'.op); }
    else if k'.op < k.op { BasesGrow(fams, k'.op, k.op); }
    else { IndexInjective(fams[k.op], k.c, k.fused, k'.c, k'.fused); }
  }

  // ---- the driver ----

  datatype Group = Group(ops: seq<nat>, fused: bool)

  /** A handler in the emitted text: its label number, and whose body follows it. */
  datatype Handler = Handler(number: nat, key: Key)

  /** The text holds exactly the recorded handlers. */
  ghost predicate TextOk(text: seq<Handler>, slots: seq<Option<nat>>, owner: map<nat, Key>) {
    && (forall h :: h in text ==> exists s: nat :: Recorded(slots, owner, s, h))
    && (forall s :: s in owner ==> s < |slots| && slots[s].Some? && Handler(slots[s].value, owner[s]) in text)
  }

  predicate Recorded(slots: seq<Option<nat>>, owner: map<nat, Key>, s: nat, h: Handler) {
    s in owner && owner[s] == h.key && s < |slots| && slots[s] == Some(h.number)
  }

  lemma TextGrows(text: seq<Handler>, slots: seq<Option<nat>>, owner: map<nat, Key>, slot: nat, h: nat, k: Key)
    requires TextOk(text, slots, owner) && slot < |slots| && slot !in owner
    ensures TextOk(text + [Handler(h, k)], slots[slot := Some(h)], owner[slot := k])
  {
    var text', slots', owner' := text + [Handler(h, k)], slots[slot := Some(h)], owner[slot := k];
    forall e | e in text'
      ensures exists s: nat :: Recorded(slots', owner', s, e)
    {
      if e in text {
        var s: nat :| Recorded(slots, owner, s, e);
        assert Recorded(slots', owner', s, e);
      } else {
        assert Recorded(slots', owner', slot, e);
      }
    }
  }

  class Table {
    const fams: seq<Family>
    const classes: seq<Cls>
    const dsts: seq<DstCls>
    const hasL1: bool
    /** The keys this backend emits, and the ops whose handlers may exit to the slow path. */
    const wanted: set<Key>
    const slowExits: set<nat>

    var slots: seq<Option<nat>> // label number per packed slot
    var seqNo: nat              // label supply
    var text: seq<Handler>      // handlers in the order they were emitted
    ghost var done: set<Key>
    ghost var owner: map<nat, Key>

    /** The slow path cannot recover an operand that lives only in the accumulator. */
    predicate Emits(k: Key) {
      && !(k.op in slowExits && (k.c.a == Acc || k.c.b == Acc))
      && k in wanted && k.op < |fams| && IndexOf(fams[k.op], k.c, k.fused).Some?
    }

    ghost predicate Valid()
      reads this
    {
      && |slots| == Base(fams, |fams|) && Distinct(classes) && Distinct(dsts)
      && (forall k :: k in done ==> k.op < |fams| && Canonical(fams[k.op], k.c))
      && (forall s :: 0 <= s < |slots| ==> (slots[s].Some? <==> s in owner))
      && (forall s :: s in owner ==> s < |slots| && owner[s] in done && Emits(owner[s]) && SlotOf(fams, owner[s]) == s)
      && (forall k :: k in done && Emits(k) ==> SlotOf(fams, k) in owner && owner[SlotOf(fams, k)] == k)
      && LabelsUnique() && TextOk(text, slots, owner)
    }

    /** Labels were supplied by the counter, each to one slot. */
    ghost predicate LabelsUnique()
      reads this
    {
      && (forall s :: 0 <= s < |slots| && slots[s].Some? ==> slots[s].value <= seqNo)
      && (forall s, t :: 0 <= s < t < |slots| && slots[s].Some? && slots[t].Some? ==> slots[s].value != slots[t].value)
    }

    constructor (fams: seq<Family>, classes: seq<Cls>, dsts: seq<DstCls>, hasL1: bool, wanted: set<Key>, slowExits: set<nat>)
      requires Distinct(classes) && Distinct(dsts)
      ensures Valid() && done == {} && this.fams == fams && this.classes == classes && this.dsts == dsts
      ensures this.hasL1 == hasL1 && this.wanted == wanted && this.slowExits == slowExits
    {
      this.fams, this.classes, this.dsts, this.hasL1 := fams, classes, dsts, hasL1;
      this.wanted, this.slowExits := wanted, slowExits;
      slots := seq(Base(fams, |fams|), _ => None);
      seqNo := 0;
      text := [];
      done := {};
      owner := map[];
    }

    /** A fresh label for a new handler, and whatever labels its body takes. */
    method Fresh(inner: nat) returns (h: nat)
      modifies this`seqNo
      ensures h == old(seqNo) + 1 && seqNo == h + inner
    {
      seqNo := seqNo + 1;
      h := seqNo;
      seqNo := seqNo + inner;
    }

    /** One combination: skipped, or a handler emitted and recorded at its slot. The slot
        is taken exactly when this very handler has been emitted before. `inner` is how many
        labels the handler body takes. */
    method EmitKey(k: Key, inner: nat) returns (ok: bool)
      requires Valid() && k.op < |fams| && Canonical(fams[k.op], k.c)
      modifies this
      ensures ok == !(k in old(done) && Emits(k))
      ensures ok ==> Valid() && done == old(done) + {k}
    {
      if k.op in slowExits && (k.c.a == Acc || k.c.b == Acc) { Skip(k); return true; }
      if k !in wanted { Skip(k); return true; }
      var idx := IndexOf(fams[k.op], k.c, k.fused);
      if idx.None? { Skip(k); return true; }
      var slot := Base(fams, k.op) + idx.value;
      SlotFree(k);
      if slots[slot].Some? { return false; }
      Place(k, slot, inner);
      ok := true;
    }

    method Place(k: Key, slot: nat, inner: nat)
      requires Valid() && k !in done && HasSlot(fams, k) && Emits(k) && slot == SlotOf(fams, k) < |slots| && slot !in owner
      modifies this
      ensures Valid() && done == old(done) + {k}
    {
      hide SlotOf, HasSlot, Emits;
      var h := Fresh(inner);
      Record(k, slot, h);
    }

    method Skip(ghost k: Key)
      requires Valid() && k.op < |fams| && Canonical(fams[k.op], k.c) && !Emits(k)
      modifies this`done
      ensures Valid() && done == old(done) + {k}
    {
      hide TextOk, IndexOf, Canonical, SlotsOf, Emits;
      done := done + {k};
    }

    lemma SlotFree(k: Key)
      requires Valid() && HasSlot(fams, k)
      ensures SlotOf(fams, k) < |slots| && (k !in done ==> SlotOf(fams, k) !in owner)
    {
      hide LabelsUnique, TextOk;
      SlotsInjective(fams, k, k);
      if SlotOf(fams, k) in owner { SlotsInjective(fams, k, owner[SlotOf(fams, k)]); }
    }

    lemma SlotKnown(k: Key)
      requires HasSlot(fams, k)
      ensures k.op < |fams| && Canonical(fams[k.op], k.c) && IndexOf(fams[k.op], k.c, k.fused).Some?
    {
    }

    /** The label and the body go to the text, the label to the slot. */
    method Record(k: Key, slot: nat, h: nat)
      requires Valid() && k !in done && HasSlot(fams, k) && Emits(k) && slot == SlotOf(fams, k)
      requires slot < |slots| && slot !in owner
      requires h <= seqNo && forall s :: 0 <= s < |slots| && slots[s].Some? ==> slots[s].value < h
      modifies this`text, this`slots, this`done, this`owner
      ensures Valid() && done == old(done) + {k}
    {
      hide TextOk, IndexOf, Canonical, SlotsOf, SlotOf, HasSlot, Emits;
      SlotKnown(k);
      TextGrows(text, slots, owner, slot, h, k);
      text := text + [Handler(h, k)];
      slots := slots[slot := Some(h)];
      done := done + {k};
      owner := owner[slot := k];
    }

    lemma ClassesDistinct()
      requires Valid()
      ensures Distinct(classes) && Distinct(dsts)
    {
    }

    /** All combinations of one op in one bank: fails exactly when one of them is a handler
        already emitted. */
    method EmitOp(op: nat, fused: bool, inner: nat) returns (ok: bool)
      requires Valid() && op < |fams|
      modifies this
      ensures ok <==> !exists k :: k in old(done) && k.op == op && k.fused == fused && Visits(k) && Emits(k)
      ensures ok ==> Valid() && forall k :: k in done <==> k in old(done) || (k.op == op && k.fused == fused && Visits(k))
    {
      ClassesDistinct();
      hide Valid, Emits, Canonical, Owns, RangesOf;
      if fused && !HasFusedBank(fams[op]) { return true; }
      ghost var before := done;
      var combos := Combos(fams[op], classes, dsts, hasL1);
      for i := 0 to |combos|
        invariant Valid()
        invariant forall k :: k in done <==> k in before || (k.op == op && k.fused == fused && k.c in combos[..i])
        invariant forall j :: 0 <= j < i ==> !(Key(op, combos[j], fused) in before && Emits(Key(op, combos[j], fused)))
      {
        var k := Key(op, combos[i], fused);
        OwnedIsCanonical(fams[op], classes, dsts, hasL1, combos[i]);
        assert k in done <==> k in before by { assert combos[i] !in combos[..i]; }
        ok := EmitKey(k, inner);
        if !ok { return; }
        assert combos[..i + 1] == combos[..i] + [combos[i]];
      }
      assert combos[..|combos|] == combos;
      ok := true;
    }

    /** The op at this place of the order has been visited before in the same bank, and
        there is a handler it would emit again. */
    predicate Clashes(order: seq<Group>, g: nat, i: nat, k: Key)
      requires g < |order| && i < |order[g].ops|
    {
      && k.op == order[g].ops[i] && k.fused == order[g].fused && Visits(k) && Emits(k)
      && Before(order, g, i, k.op, k.fused)
    }

    ghost predicate NoClash(order: seq<Group>, g: nat, i: nat)
      requires g < |order| && i < |order[g].ops|
    {
      forall k :: !Clashes(order, g, i, k)
    }

    /** Every group in order, every op of a group. The duplicate check fires exactly when
        the order names again, in the same bank, an op with a handler to emit. */
    method Generate(order: seq<Group>, inner: nat) returns (ok: bool)
      requires Valid() && done == {}
      requires forall g, i :: 0 <= g < |order| && 0 <= i < |order[g].ops| ==> order[g].ops[i] < |fams|
      modifies this
      ensures ok <==> forall g, i :: 0 <= g < |order| && 0 <= i < |order[g].ops| ==> NoClash(order, g, i)
      ensures ok ==> Valid() && forall k :: k in done <==> Listed(order, k.op, k.fused) && Visits(k)
    {
      hide NoClash, Before, Listed, Visits, Valid;
      NoneBefore(order);
      for g := 0 to |order|
        invariant Valid()
        invariant forall k :: k in done <==> Listed(order[..g], k.op, k.fused) && Visits(k)
        invariant forall h, i :: 0 <= h < g && 0 <= i < |order[h].ops| ==> NoClash(order, h, i)
      {
        GroupEnds(order, g);
        ok := EmitGroup(order, g, inner);
        if !ok { return; }
      }
      assert order[..|order|] == order;
      ok := true;
    }

    /** The op at one place of the order. */
    method EmitPlace(order: seq<Group>, g: nat, i: nat, inner: nat) returns (ok: bool)
      requires Valid() && g < |order| && i < |order[g].ops| && order[g].ops[i] < |fams|
      requires forall k :: k in done <==> Before(order, g, i, k.op, k.fused) && Visits(k)
      modifies this
      ensures ok == NoClash(order, g, i)
      ensures ok ==> Valid() && forall k :: k in done <==> Before(order, g, i + 1, k.op, k.fused) && Visits(k)
    {
      hide Visits, Emits;
      ghost var before := done;
      var group := order[g];
      assert group.ops[..i + 1] == group.ops[..i] + [group.ops[i]];
      ok := EmitOp(group.ops[i], group.fused, inner);
      if ok {
        assert forall k :: Clashes(order, g, i, k) ==> k in before;
      } else {
        ghost var k :| k in before && k.op == group.ops[i] && k.fused == group.fused && Visits(k) && Emits(k);
        assert Clashes(order, g, i, k);
      }
    }

    method EmitGroup(order: seq<Group>, g: nat, inner: nat) returns (ok: bool)
      requires Valid() && g < |order| && forall i :: 0 <= i < |order[g].ops| ==> order[g].ops[i] < |fams|
      requires forall k :: k in done <==> Before(order, g, 0, k.op, k.fused) && Visits(k)
      modifies this
      ensures ok <==> forall i :: 0 <= i < |order[g].ops| ==> NoClash(order, g, i)
      ensures ok ==> Valid() && forall k :: k in done <==> Before(order, g, |order[g].ops|, k.op, k.fused) && Visits(k)
    {
      hide NoClash, Before, Visits, Valid;
      for i := 0 to |order[g].ops|
        invariant Valid()
        invariant forall k :: k in done <==> Before(order, g, i, k.op, k.fused) && Visits(k)
        invariant forall j :: 0 <= j < i ==> NoClash(order, g, j)
      {
        ok := EmitPlace(order, g, i, inner);
        if !ok { return; }
      }
      ok := true;
    }

    /** An order that names no op twice in one bank passes. */
    lemma OrderPasses(order: seq<Group>, g: nat, i: nat)
      requires OrderOk(order, |fams|) && g < |order| && i < |order[g].ops|
      ensures NoClash(order, g, i)
    {
      NotListedBefore(order, |fams|, g, i);
    }

    /** The finished table: a slot is filled exactly when it is the slot of a listed key
        the backend emits; its label stands in the text before that key's own handler and
        before no other; and no op that may exit slow has a handler reading the
        accumulator. */
    lemma Finished(order: seq<Group>, k: Key, s: nat)
      requires Valid() && (forall k :: k in done <==> Listed(order, k.op, k.fused) && Visits(k))
      ensures Listed(order, k.op, k.fused) && Visits(k) && Emits(k) ==>
                var t := SlotOf(fams, k); t < |slots| && slots[t].Some? && Handler(slots[t].value, k) in text
      ensures s < |slots| && slots[s].Some? ==> s in owner && TableEntry(order, s, owner[s])
    {
      hide IndexOf, Canonical, SlotsOf, Visits;
      if Listed(order, k.op, k.fused) && Visits(k) && Emits(k) {
        assert k in done && SlotOf(fams, k) in owner;
      }
      if s < |slots| && slots[s].Some? {
        assert owner[s] in done;
        forall h | h in text && h.number == slots[s].value
          ensures h.key == owner[s]
        {
          var t: nat :| Recorded(slots, owner, t, h);
          assert t == s;
        }
      }
    }

    /** Slot `s` holds the label of `k`'s handler and of no other. */
    ghost predicate TableEntry(order: seq<Group>, s: nat, k: Key)
      requires s < |slots| && slots[s].Some?
      reads this
    {
      && Emits(k) && SlotOf(fams, k) == s && Visits(k) && Listed(order, k.op, k.fused)
      && (k.op in slowExits ==> k.c.a != Acc && k.c.b != Acc)
      && Handler(slots[s].value, k) in text
      && forall h :: h in text && h.number == slots[s].value ==> h.key == k
    }

    /** The driver reaches this key. */
    predicate Visits(k: Key) {
      && k.op < |fams| && (k.fused ==> HasFusedBank(fams[k.op]))
      && Owns(RangesOf(fams[k.op], classes, dsts, hasL1), k.c)
    }
  }

  lemma OwnedIsCanonical(f: Family, classes: seq<Cls>, dsts: seq<DstCls>, hasL1: bool, c: Combo)
    requires Owns(RangesOf(f, classes, dsts, hasL1), c)
    ensures Canonical(f, c)
  {
  }

  /** A pair move names no second pinned local where there is none. */
  predicate PairFits(p: PairDstCls, hasL1: bool) {
    hasL1 || (First(p) != ToL1 && Second(p) != ToL1)
  }

  /** A family owns every combination of the backend's classes in the coordinates it
      varies, and nothing else. */
  lemma OwnsExactly(f: Family, classes: seq<Cls>, dsts: seq<DstCls>, hasL1: bool, c: Combo)
    ensures Owns(RangesOf(f, classes, dsts, hasL1), c) <==>
              && Canonical(f, c)
              && (VariesA(f) ==> c.a in classes) && (VariesB(f) ==> c.b in classes) && (VariesD(f) ==> c.d in dsts)
              && (f == SrcABPairDst ==> PairFits(c.p, hasL1))
  {
    hide PairDsts, PairFits;
    PairsFit(c.p, hasL1);
    assert c.a in [Slot] <==> c.a == Slot;
    assert c.a in [Const] <==> c.a == Const;
    assert c.b in [Slot] <==> c.b == Slot;
    assert c.d in [ToMem] <==> c.d == ToMem;
    assert c.p in [NonePinned] <==> c.p == NonePinned;
  }

  lemma PairsFit(p: PairDstCls, hasL1: bool)
    ensures p in PairDsts(hasL1) <==> PairFits(p, hasL1)
  {
    var all := PairDsts(true);
    assert all[0] == NonePinned && all[1] == FirstL0 && all[2] == FirstL1 && all[3] == SecondL0;
    assert all[4] == SecondL1 && all[5] == L0L1 && all[6] == L1L0;
    var some := PairDsts(false);
    assert some[0] == NonePinned && some[1] == FirstL0 && some[2] == SecondL0;
  }

  /** Every slot of a family's block is some combination's: the packing leaves no gap. */
  lemma NoGap(f: Family, i: nat)
    requires i < SlotsOf(f)
    ensures exists c, fused :: Canonical(f, c) && IndexOf(f, c, fused) == Some(i)
  {
    Places(i);
    if HasFusedBank(f) {
      BankHasNoGap(f, i);
    } else {
      var c := Combo(if VariesA(f) then ClsAt(i % 5) else if f == ConstDst then Const else Slot,
                     if VariesB(f) then ClsAt(i / 5 % 5) else Slot,
                     if f == DstOnly || f == ConstDst then DstAt(i) else if f == SrcADst then DstAt(i / 5)
                     else if f == SrcABDst then DstAt(i / 25) else ToMem,
                     if f == SrcABPairDst then PairAt(i / 25) else NonePinned);
      hide ClsIndex, DstIndex, PairIndex, ClsAt, DstAt, PairAt;
      assert Canonical(f, c) && IndexOf(f, c, false) == Some(i);
    }
  }

  lemma BankHasNoGap(f: Family, i: nat)
    requires HasFusedBank(f) && i < SlotsOf(f)
    ensures exists c, fused :: Canonical(f, c) && IndexOf(f, c, fused) == Some(i)
  {
    Places(i);
    var c := Combo(ClsAt(i % 5), if f == StoreBank then ClsAt(i / 5 % 5) else Slot,
                   if f == LoadBank then DstAt(i / 5 % 4) else ToMem, NonePinned);
    var fused := if f == LoadBank then i >= 20 else i >= 25;
    hide ClsIndex, DstIndex, PairIndex, ClsAt, DstAt;
    assert Canonical(f, c) && IndexOf(f, c, fused) == Some(i);
  }

  /** A slot number in the mixed places of the families. */
  lemma Places(i: nat)
    ensures i == i % 5 + 5 * (i / 5) && i / 5 == i / 5 % 5 + 5 * (i / 25) && i / 5 == i / 5 % 4 + 4 * (i / 20)
    ensures i % 5 < 5 && i / 5 % 5 < 5 && i / 5 % 4 < 4
  {
  }

  function ClsAt(i: nat): (c: Cls)
    ensures i < 5 ==> ClsIndex(c) == i
  {
    if i == 0 then Slot else if i == 1 then Const else if i == 2 then Acc else if i == 3 then L0 else L1
  }

  function DstAt(i: nat): (d: DstCls)
    ensures i < 4 ==> DstIndex(d) == i
  {
    if i == 0 then ToMem else if i == 1 then ToAcc else if i == 2 then ToL0 else ToL1
  }

  function PairAt(i: nat): (p: PairDstCls)
    ensures i < 7 ==> PairIndex(p) == i
  {
    if i == 0 then NonePinned else if i == 1 then FirstL0 else if i == 2 then FirstL1 else if i == 3 then SecondL0
    else if i == 4 then SecondL1 else if i == 5 then L0L1 else L1L0
  }

  /** The emission order names this op in this bank. */
  predicate Listed(order: seq<Group>, op: nat, fused: bool) {
    exists g :: 0 <= g < |order| && order[g].fused == fused && op in order[g].ops
  }

  /** Ops exist, and none is named twice in one bank. */
  predicate OrderOk(order: seq<Group>, n: nat) {
    && (forall g :: 0 <= g < |order| ==> Distinct(order[g].ops) && forall i :: 0 <= i < |order[g].ops| ==> order[g].ops[i] < n)
    && (forall g, h :: 0 <= g < h < |order| && order[g].fused == order[h].fused ==>
          forall op :: op in order[g].ops ==> op !in order[h].ops)
  }

  /** The order names this op in this bank before its place `(g, i)`. */
  predicate Before(order: seq<Group>, g: nat, i: nat, op: nat, fused: bool)
    requires g < |order| && i <= |order[g].ops|
  {
    Listed(order[..g], op, fused) || (order[g].fused == fused && op in order[g].ops[..i])
  }

  lemma NoneBefore(order: seq<Group>)
    ensures forall op, fused :: !Listed(order[..0], op, fused)
  {
  }

  lemma GroupEnds(order: seq<Group>, g: nat)
    requires g < |order|
    ensures forall op, fused :: Before(order, g, 0, op, fused) <==> Listed(order[..g], op, fused)
    ensures forall op, fused :: Before(order, g, |order[g].ops|, op, fused) <==> Listed(order[..g + 1], op, fused)
  {
    var ops := order[g].ops;
    assert ops[..|ops|] == ops && order[..g + 1] == order[..g] + [order[g]];
    forall op, fused
      ensures Listed(order[..g + 1], op, fused) <==> Listed(order[..g], op, fused) || (order[g].fused == fused && op in ops)
    {
      if Listed(order[..g], op, fused) {
        var h :| 0 <= h < g && order[..g][h].fused == fused && op in order[..g][h].ops;
        assert order[..g + 1][h] == order[..g][h];
      }
      assert order[..g + 1][g] == order[g];
    }
  }

  lemma NotListedBefore(order: seq<Group>, n: nat, g: nat, i: nat)
    requires OrderOk(order, n) && g < |order| && i < |order[g].ops|
    ensures !Listed(order[..g], order[g].ops[i], order[g].fused)
  {
  }
}
