/** The adaptive confirmation of the performance gate: a sequential test whose error
    bound depends on how many looks it may take. Measurement and the t distribution are
    inputs. */
module Gate {
  import opened WasmNum

  datatype Version = Baseline | Candidate
  datatype Run = Run(version: Version, block: nat, slot: nat)

  /** Baseline and candidate alternate; odd blocks start with the candidate. */
  function Schedule(block: nat): (s: seq<Run>)
    ensures |s| == 4
  {
    var (x, y) := if block % 2 == 0 then (Baseline, Candidate) else (Candidate, Baseline);
    [Run(x, block, 0), Run(y, block, 1), Run(x, block, 2), Run(y, block, 3)]
  }

  /** Slots in order, neighbours of different versions, and opposite versions first in
      neighbouring blocks, block 0 starting with the baseline. */
  lemma ScheduleAlternates(block: nat)
    ensures forall k :: 0 <= k < 4 ==> Schedule(block)[k].slot == k && Schedule(block)[k].block == block
    ensures forall k :: 0 <= k < 3 ==> Schedule(block)[k].version != Schedule(block)[k + 1].version
    ensures Schedule(block)[0].version != Schedule(block + 1)[0].version && Schedule(0)[0].version == Baseline
  {
  }

  /** The runs of one block, in the order they were made. */
  function BlockRuns(runs: seq<Run>, block: nat): (s: seq<Run>) {
    if runs == [] then []
    else
      var last := runs[|runs| - 1];
      BlockRuns(runs[..|runs| - 1], block) + if last.block == block then [last] else []
  }

  lemma BlockRunsAppend(runs: seq<Run>, r: Run, block: nat)
    ensures BlockRuns(runs + [r], block) == BlockRuns(runs, block) + if r.block == block then [r] else []
  {
    assert (runs + [r])[..|runs|] == runs;
  }

  /** Sorting by slot. */
  function Insert(s: seq<Run>, r: Run): (t: seq<Run>) {
    if s == [] || s[|s| - 1].slot <= r.slot then s + [r] else Insert(s[..|s| - 1], r) + [s[|s| - 1]]
  }

  function SortBySlot(s: seq<Run>): (t: seq<Run>) {
    if s == [] then [] else Insert(SortBySlot(s[..|s| - 1]), s[|s| - 1])
  }

  lemma {:induction false} SortedStays(s: seq<Run>)
    requires forall i, j :: 0 <= i < j < |s| ==> s[i].slot <= s[j].slot
    ensures SortBySlot(s) == s
  {
    if s != [] {
      SortedStays(s[..|s| - 1]);
      assert s[..|s| - 1] + [s[|s| - 1]] == s;
    }
  }

  /** The runs of one slot of one block, in the order they were made. */
  function Of(runs: seq<Run>, block: nat, slot: nat): (s: seq<Run>) {
    if runs == [] then []
    else
      var last := runs[|runs| - 1];
      Of(runs[..|runs| - 1], block, slot) + Match(last, block, slot)
  }

  predicate Ordered(s: seq<Run>) {
    forall i, j :: 0 <= i < j < |s| ==> s[i].slot <= s[j].slot
  }

  /** `s` is the runs of a block in slot order, runs of one slot in the order they were
      made. */
  ghost predicate InSlotOrder(s: seq<Run>, runs: seq<Run>, block: nat) {
    Ordered(s) && AllOf(s, block) && SameRuns(s, runs, block)
  }

  predicate AllOf(s: seq<Run>, block: nat) {
    forall i :: 0 <= i < |s| ==> s[i].block == block
  }

  ghost predicate SameRuns(s: seq<Run>, t: seq<Run>, block: nat) {
    forall slot :: Of(s, block, slot) == Of(t, block, slot)
  }

  function Match(r: Run, block: nat, slot: nat): (s: seq<Run>) {
    if r.block == block && r.slot == slot then [r] else []
  }

  lemma OfAppend(s: seq<Run>, r: Run, block: nat, slot: nat)
    ensures Of(s + [r], block, slot) == Of(s, block, slot) + Match(r, block, slot)
  {
    assert (s + [r])[..|s|] == s;
  }

  lemma OfSplit(s: seq<Run>, block: nat, slot: nat)
    requires s != []
    ensures Of(s, block, slot) == Of(s[..|s| - 1], block, slot) + Match(s[|s| - 1], block, slot)
  {
  }

  lemma {:induction false} InsertOf(s: seq<Run>, r: Run, block: nat, slot: nat)
    ensures Of(Insert(s, r), block, slot) == Of(s, block, slot) + Match(r, block, slot)
  {
    hide Of;
    if s == [] || s[|s| - 1].slot <= r.slot {
      OfAppend(s, r, block, slot);
    } else {
      var s0, last := s[..|s| - 1], s[|s| - 1];
      InsertOf(s0, r, block, slot);
      OfAppend(Insert(s0, r), last, block, slot);
      OfSplit(s, block, slot);
    }
  }

  lemma {:induction false} InsertOrdered(s: seq<Run>, r: Run)
    requires Ordered(s)
    ensures Ordered(Insert(s, r)) && Insert(s, r) != []
    ensures var t := Insert(s, r); t[|t| - 1] == r || (s != [] && t[|t| - 1] == s[|s| - 1])
  {
    if s != [] && s[|s| - 1].slot > r.slot { InsertOrdered(s[..|s| - 1], r); }
  }

  lemma {:induction false} SortOf(s: seq<Run>, block: nat, slot: nat)
    ensures Of(SortBySlot(s), block, slot) == Of(s, block, slot)
  {
    hide Of;
    if s != [] {
      SortOf(s[..|s| - 1], block, slot);
      InsertOf(SortBySlot(s[..|s| - 1]), s[|s| - 1], block, slot);
      OfSplit(s, block, slot);
    }
  }

  lemma {:induction false} SortOrdered(s: seq<Run>)
    ensures Ordered(SortBySlot(s))
  {
    if s != [] {
      SortOrdered(s[..|s| - 1]);
      InsertOrdered(SortBySlot(s[..|s| - 1]), s[|s| - 1]);
    }
  }

  lemma {:induction false} BlockRunsAre(runs: seq<Run>, block: nat, slot: nat)
    ensures Of(BlockRuns(runs, block), block, slot) == Of(runs, block, slot)
  {
    hide Of;
    if runs != [] {
      var runs0, last := runs[..|runs| - 1], runs[|runs| - 1];
      BlockRunsAre(runs0, block, slot);
      OfSplit(runs, block, slot);
      if last.block == block { OfAppend(BlockRuns(runs0, block), last, block, slot); } else { assert BlockRuns(runs, block) == BlockRuns(runs0, block); }
    }
  }

  /** Sorting the runs of a block puts them in slot order. */
  lemma SortedBlock(runs: seq<Run>, block: nat)
    ensures InSlotOrder(SortBySlot(BlockRuns(runs, block)), runs, block)
  {
    hide Of;
    var s := BlockRuns(runs, block);
    SortOrdered(s);
    BlockRunsOf(runs, block);
    SortKeeps(s, block);
    forall slot
      ensures Of(SortBySlot(s), block, slot) == Of(runs, block, slot)
    {
      SortOf(s, block, slot);
      BlockRunsAre(runs, block, slot);
    }
  }

  /** There is one slot order. */
  lemma OneSlotOrder(s: seq<Run>, t: seq<Run>, runs: seq<Run>, block: nat)
    requires InSlotOrder(s, runs, block) && InSlotOrder(t, runs, block)
    ensures s == t
  {
    hide Of;
    SameFilters(s, t, block);
  }

  lemma {:induction false} SameFilters(s: seq<Run>, t: seq<Run>, block: nat)
    requires Ordered(s) && AllOf(s, block) && Ordered(t) && AllOf(t, block) && SameRuns(s, t, block)
    ensures s == t
  {
    hide Of;
    if s == [] || t == [] {
      OnlyEmpty(s, t, block);
    } else {
      SameLast(s, t, block);
      var s0, t0, x := s[..|s| - 1], t[..|t| - 1], s[|s| - 1];
      forall slot
        ensures Of(s0, block, slot) == Of(t0, block, slot)
      {
        OfSplit(s, block, slot);
        OfSplit(t, block, slot);
        assert Of(s, block, slot) == Of(t, block, slot);
        Cancel(Of(s0, block, slot), Of(t0, block, slot), Match(x, block, slot));
      }
      SameFilters(s0, t0, block);
      assert s == s0 + [x] && t == t0 + [x];
    }
  }

  lemma Cancel(s: seq<Run>, t: seq<Run>, u: seq<Run>)
    requires s + u == t + u
    ensures s == t
  {
    assert s == (s + u)[..|s|] && t == (t + u)[..|t|];
  }

  lemma OnlyEmpty(s: seq<Run>, t: seq<Run>, block: nat)
    requires AllOf(s, block) && AllOf(t, block) && SameRuns(s, t, block) && (s == [] || t == [])
    ensures s == t
  {
    if s != [] { LastShows(s, t, block); }
    if t != [] { LastShows(t, s, block); }
  }

  lemma LastShows(s: seq<Run>, t: seq<Run>, block: nat)
    requires AllOf(s, block) && s != [] && SameRuns(s, t, block)
    ensures t != []
  {
    LastOf(s, block);
    assert Of(s, block, s[|s| - 1].slot) == Of(t, block, s[|s| - 1].slot);
  }

  lemma SameLast(s: seq<Run>, t: seq<Run>, block: nat)
    requires Ordered(s) && AllOf(s, block) && Ordered(t) && AllOf(t, block) && SameRuns(s, t, block) && s != [] && t != []
    ensures s[|s| - 1] == t[|t| - 1]
  {
    hide Of;
    var x, y := s[|s| - 1], t[|t| - 1];
    LastOf(s, block);
    LastOf(t, block);
    OfIsIn(t, block, x.slot);
    OfIsIn(s, block, y.slot);
    assert Of(s, block, x.slot) == Of(t, block, x.slot) && Of(s, block, y.slot) == Of(t, block, y.slot);
  }

  lemma LastOf(s: seq<Run>, block: nat)
    requires s != [] && AllOf(s, block)
    ensures var f := Of(s, block, s[|s| - 1].slot); f != [] && f[|f| - 1] == s[|s| - 1]
  {
  }

  lemma {:induction false} OfIsIn(s: seq<Run>, block: nat, slot: nat)
    ensures forall k :: 0 <= k < |Of(s, block, slot)| ==> Of(s, block, slot)[k] in s && Of(s, block, slot)[k].slot == slot
  {
    if s != [] { OfIsIn(s[..|s| - 1], block, slot); }
  }

  /** The two comparison pairs of a block, baseline first; any other shape is an error. */
  function PairBlock(s: seq<Run>): (r: Option<seq<(Run, Run)>>) {
    if |s| != 4 then None
    else if (s[0].version, s[1].version, s[2].version, s[3].version) == (Baseline, Candidate, Baseline, Candidate) then
      Some([(s[0], s[1]), (s[2], s[3])])
    else if (s[0].version, s[1].version, s[2].version, s[3].version) == (Candidate, Baseline, Candidate, Baseline) then
      Some([(s[1], s[0]), (s[3], s[2])])
    else None
  }

  predicate Alternating(s: seq<Run>) {
    |s| == 4 && s[0].version != s[1].version && s[1].version != s[2].version && s[2].version != s[3].version
  }

  /** The block is four runs whose neighbours are of different versions. */
  ghost predicate Alternates(runs: seq<Run>, block: nat) {
    exists s: seq<Run> :: InSlotOrder(s, runs, block) && Alternating(s)
  }

  /** A comparison of these two runs, baseline first. */
  predicate Compares(p: (Run, Run), x: Run, y: Run) {
    p.0.version == Baseline && p.1.version == Candidate && (p == (x, y) || p == (y, x))
  }

  /** The first pair compares the first two runs of the block in slot order, the second
      pair the other two. */
  ghost predicate ComparesBlock(p: (Run, Run), q: (Run, Run), runs: seq<Run>, block: nat) {
    exists s: seq<Run> :: InSlotOrder(s, runs, block) && |s| == 4 && Compares(p, s[0], s[1]) && Compares(q, s[2], s[3])
  }

  /** What a complete, uncontaminated sample of blocks `[first, stop)` is: two pairs per
      block, each of one baseline and one candidate run of that same block. */
  predicate SampleOf(pairs: seq<(Run, Run)>, first: nat, stop: nat) {
    && first <= stop && |pairs| == 2 * (stop - first)
    && forall i :: 0 <= i < |pairs| ==>
         && pairs[i].0.version == Baseline && pairs[i].1.version == Candidate
         && pairs[i].0.block == pairs[i].1.block == first + i / 2
  }

  /** Blocks below `n` have been run completely, later ones not at all. */
  ghost predicate Complete(runs: seq<Run>, n: nat) {
    && (forall b :: 0 <= b < n ==> BlockRuns(runs, b) == Schedule(b))
    && (forall b :: n <= b ==> BlockRuns(runs, b) == [])
  }

  lemma ScheduleSorted(block: nat)
    ensures SortBySlot(Schedule(block)) == Schedule(block)
    ensures PairBlock(Schedule(block)).Some? && SampleOf(PairBlock(Schedule(block)).value, block, block + 1)
  {
    SortedStays(Schedule(block));
  }

  /** The statistics of one look, as functions of what was measured: the probability seen
      for a metric after so many pairs, the one projected for a larger count, and whether
      the mean still points the way the pilot chose. */
  class Measurements {
    const seen: (nat, nat) -> real
    const projected: (nat, nat, nat) -> real
    const towards: (nat, nat) -> bool
    const target: nat -> real

    constructor (seen: (nat, nat) -> real, projected: (nat, nat, nat) -> real, towards: (nat, nat) -> bool, target: nat -> real)
    {
      this.seen, this.projected, this.towards, this.target := seen, projected, towards, target;
    }
  }

  /** The smallest even count in range whose projection reaches the target. */
  method RequiredPairs(m: Measurements, metric: nat, pairs: nat, minimum: nat, maximum: nat) returns (r: Option<nat>)
    ensures r.Some? ==> r.value % 2 == 0 && minimum <= r.value <= maximum && pairs <= r.value
    ensures r.Some? ==> m.towards(metric, pairs) && m.projected(metric, pairs, r.value) >= m.target(metric)
    ensures r.Some? ==> forall k :: minimum <= k < r.value && pairs <= k && k % 2 == 0 ==> m.projected(metric, pairs, k) < m.target(metric)
    ensures r.None? && m.towards(metric, pairs) ==>
              forall k :: minimum <= k <= maximum && pairs <= k && k % 2 == 0 ==> m.projected(metric, pairs, k) < m.target(metric)
  {
    if !m.towards(metric, pairs) { return None; }
    var start := if pairs >= minimum then pairs else minimum;
    if start % 2 != 0 { start := start + 1; }
    var k := start;
    while k <= maximum
      invariant start <= k && k % 2 == 0
      invariant forall j :: start <= j < k && j % 2 == 0 ==> m.projected(metric, pairs, j) < m.target(metric)
      decreases maximum + 2 - k
    {
      if m.projected(metric, pairs, k) >= m.target(metric) { return Some(k); }
      k := k + 2;
    }
    r := None;
  }

  /** One block: four alternating runs. */
  method AddBlock(runs: seq<Run>, block: nat) returns (runs': seq<Run>)
    requires Complete(runs, block)
    ensures Complete(runs', block + 1)
  {
    var s := Schedule(block);
    runs' := runs + [s[0]] + [s[1]] + [s[2]] + [s[3]];
    forall b
      ensures BlockRuns(runs', b) == BlockRuns(runs, b) + if b == block then s else []
    {
      BlockRunsAppend(runs, s[0], b);
      BlockRunsAppend(runs + [s[0]], s[1], b);
      BlockRunsAppend(runs + [s[0]] + [s[1]], s[2], b);
      BlockRunsAppend(runs + [s[0]] + [s[1]] + [s[2]], s[3], b);
      assert [s[0]] + [s[1]] + [s[2]] + [s[3]] == s;
      assert BlockRuns(runs, b) + [s[0]] + [s[1]] + [s[2]] + [s[3]] == BlockRuns(runs, b) + s;
    }
  }

  /** The pairs of one block's runs, or an error. */
  function BlockPairs(runs: seq<Run>, block: nat): (r: Option<seq<(Run, Run)>>) {
    PairBlock(SortBySlot(BlockRuns(runs, block)))
  }


  lemma {:induction false} BlockRunsOf(runs: seq<Run>, block: nat)
    ensures AllOf(BlockRuns(runs, block), block)
  {
    if runs != [] { BlockRunsOf(runs[..|runs| - 1], block); }
  }

  lemma {:induction false} InsertKeeps(s: seq<Run>, r: Run, block: nat)
    requires AllOf(s, block) && r.block == block
    ensures AllOf(Insert(s, r), block)
  {
    if s != [] && s[|s| - 1].slot > r.slot { InsertKeeps(s[..|s| - 1], r, block); }
  }

  lemma {:induction false} SortKeeps(s: seq<Run>, block: nat)
    requires AllOf(s, block)
    ensures AllOf(SortBySlot(s), block)
  {
    if s != [] {
      SortKeeps(s[..|s| - 1], block);
      InsertKeeps(SortBySlot(s[..|s| - 1]), s[|s| - 1], block);
    }
  }

  /** Whatever was run, a block pairs exactly when it is four alternating runs, the first
      two with each other and the last two with each other. */
  lemma BlockPairsOf(runs: seq<Run>, block: nat)
    ensures BlockPairs(runs, block).Some? <==> Alternates(runs, block)
    ensures BlockPairs(runs, block).Some? ==>
              var p := BlockPairs(runs, block).value; SampleOf(p, block, block + 1) && ComparesBlock(p[0], p[1], runs, block)
  {
    var s := SortBySlot(BlockRuns(runs, block));
    SortedBlock(runs, block);
    hide SortBySlot, BlockRuns, Of, SameRuns, Ordered;
    if Alternates(runs, block) {
      var t: seq<Run> :| InSlotOrder(t, runs, block) && Alternating(t);
      OneSlotOrder(s, t, runs, block);
    }
    if PairBlock(s).Some? {
      PairIs(s);
    }
  }

  lemma PairIs(s: seq<Run>)
    requires PairBlock(s).Some?
    ensures Alternating(s)
    ensures var p := PairBlock(s).value; |p| == 2 && Compares(p[0], s[0], s[1]) && Compares(p[1], s[2], s[3])
  {
  }

  /** The two pairs of block `b` in a sample that starts at block `first`. */
  ghost predicate ComparesAt(pairs: seq<(Run, Run)>, runs: seq<Run>, first: nat, b: nat) {
    && first <= b && 2 * (b - first) + 1 < |pairs|
    && ComparesBlock(pairs[2 * (b - first)], pairs[2 * (b - first) + 1], runs, b)
  }

  ghost predicate ComparesAll(pairs: seq<(Run, Run)>, runs: seq<Run>, first: nat, stop: nat) {
    forall b :: first <= b < stop ==> ComparesAt(pairs, runs, first, b)
  }

  /** The pairs of a phase, or an error exactly when there is no block or some block is
      not four runs that alternate. */
  method AnalyzePhase(runs: seq<Run>, first: nat, stop: nat) returns (r: Option<seq<(Run, Run)>>)
    ensures r.Some? <==> first < stop && forall b :: first <= b < stop ==> Alternates(runs, b)
    ensures r.Some? ==> SampleOf(r.value, first, stop) && ComparesAll(r.value, runs, first, stop)
  {
    hide BlockPairs, Alternates, ComparesBlock;
    if first >= stop { return None; }
    var pairs: seq<(Run, Run)> := [];
    for b := first to stop
      invariant SampleOf(pairs, first, b)
      invariant forall a :: first <= a < b ==> Alternates(runs, a)
      invariant ComparesAll(pairs, runs, first, b)
    {
      BlockPairsOf(runs, b);
      var p := BlockPairs(runs, b);
      if p.None? { return None; }
      forall a | first <= a < b
        ensures ComparesAt(pairs + p.value, runs, first, a)
      {
        assert ComparesAt(pairs, runs, first, a);
      }
      pairs := pairs + p.value;
      assert ComparesAt(pairs, runs, first, b);
    }
    r := Some(pairs);
  }

  /** Pair `i` of a sample compares the two runs of one half of its block: slots 0 and 1,
      then slots 2 and 3. */
  predicate UsesSlots(pairs: seq<(Run, Run)>) {
    forall i :: 0 <= i < |pairs| ==> {pairs[i].0.slot, pairs[i].1.slot} == {2 * (i % 2), 2 * (i % 2) + 1}
  }

  lemma WholeOrder(runs: seq<Run>, n: nat, b: nat, s: seq<Run>)
    requires Complete(runs, n) && b < n
    ensures InSlotOrder(s, runs, b) <==> s == Schedule(b)
  {
    ScheduleSorted(b);
    SortedBlock(runs, b);
    hide SortBySlot, BlockRuns, InSlotOrder, Schedule;
    if InSlotOrder(s, runs, b) { OneSlotOrder(s, Schedule(b), runs, b); }
  }

  /** Whole blocks pair. */
  lemma CompletePairs(runs: seq<Run>, n: nat, b: nat)
    requires Complete(runs, n) && b < n
    ensures Alternates(runs, b)
  {
    WholeOrder(runs, n, b, Schedule(b));
    hide InSlotOrder, Complete;
  }

  lemma WholeSlots(pairs: seq<(Run, Run)>, runs: seq<Run>, n: nat, first: nat, stop: nat)
    requires Complete(runs, n) && stop <= n && SampleOf(pairs, first, stop) && ComparesAll(pairs, runs, first, stop)
    ensures UsesSlots(pairs)
  {
    hide Complete, InSlotOrder;
    forall i | 0 <= i < |pairs|
      ensures {pairs[i].0.slot, pairs[i].1.slot} == {2 * (i % 2), 2 * (i % 2) + 1}
    {
      var b := first + i / 2;
      var p, q := pairs[2 * (b - first)], pairs[2 * (b - first) + 1];
      assert ComparesAt(pairs, runs, first, b);
      var s: seq<Run> :| InSlotOrder(s, runs, b) && |s| == 4 && Compares(p, s[0], s[1]) && Compares(q, s[2], s[3]);
      WholeOrder(runs, n, b, s);
      assert i == 2 * (b - first) || i == 2 * (b - first) + 1;
    }
  }

  /** Strictly increasing even counts within the bounds. */
  predicate Looks(s: seq<nat>, min: nat, max: nat) {
    && (forall i :: 0 <= i < |s| ==> s[i] % 2 == 0 && min <= s[i] <= max)
    && (forall i :: 0 < i < |s| ==> s[i - 1] < s[i])
  }

  /** Such a sequence is never longer than the look count the thresholds were divided by. */
  lemma LookCount(s: seq<nat>, min: nat, max: nat)
    requires Looks(s, min, max) && s != [] && min % 2 == 0 && min <= max
    ensures |s| <= 1 + (max - min) / 2
  {
    LookAtLeast(s, min, max, |s| - 1);
  }

  lemma {:induction false} LookAtLeast(s: seq<nat>, min: nat, max: nat, i: nat)
    requires Looks(s, min, max) && i < |s| && min % 2 == 0
    ensures s[i] >= min + 2 * i
  {
    if i != 0 { LookAtLeast(s, min, max, i - 1); }
  }

  /** The metric has not reached its target after so many pairs. */
  predicate Undecided(m: Measurements, metric: nat, pairs: nat) {
    !(m.seen(metric, pairs) >= m.target(metric))
  }

  /** A larger even size at which it is projected to. */
  predicate Reaches(m: Measurements, metric: nat, pairs: nat, k: nat, maximum: nat) {
    && m.towards(metric, pairs) && k % 2 == 0 && pairs + 2 <= k <= maximum && m.projected(metric, pairs, k) >= m.target(metric)
  }

  /** No undecided metric among these is projected to reach its target below `bound`. */
  ghost predicate NoneBelow(m: Measurements, metrics: seq<nat>, pairs: nat, maximum: nat, bound: nat) {
    forall i, k: nat :: 0 <= i < |metrics| && Undecided(m, metrics[i], pairs) && k < bound ==> !Reaches(m, metrics[i], pairs, k, maximum)
  }

  /** `next` is the least size at which some undecided metric is projected to reach its
      target. */
  ghost predicate IsNext(m: Measurements, metrics: seq<nat>, pairs: nat, maximum: nat, next: nat) {
    && (exists i :: 0 <= i < |metrics| && Undecided(m, metrics[i], pairs) && Reaches(m, metrics[i], pairs, next, maximum))
    && NoneBelow(m, metrics, pairs, maximum, next)
  }

  /** The next look: the least size at which some undecided metric is projected to reach
      its target, or none when none ever is. */
  method NextLook(m: Measurements, metrics: seq<nat>, pairs: nat, maximum: nat) returns (next: Option<nat>)
    requires pairs % 2 == 0
    ensures next.Some? ==> next.value % 2 == 0 && pairs + 2 <= next.value <= maximum
    ensures next.Some? ==> IsNext(m, metrics, pairs, maximum, next.value)
    ensures next.None? ==> NoneBelow(m, metrics, pairs, maximum, maximum + 1)
  {
    next := None;
    for i := 0 to |metrics|
      invariant next.Some? ==> exists j :: 0 <= j < i && Undecided(m, metrics[j], pairs) && Reaches(m, metrics[j], pairs, next.value, maximum)
      invariant NoneBelow(m, metrics[..i], pairs, maximum, if next.Some? then next.value else maximum + 1)
    {
      if !(m.seen(metrics[i], pairs) >= m.target(metrics[i])) {
        var projected := RequiredPairs(m, metrics[i], pairs, pairs + 2, maximum);
        assert forall k: nat :: k < (if projected.Some? then projected.value else maximum + 1) ==> !Reaches(m, metrics[i], pairs, k, maximum);
        if projected.Some? && (next.None? || projected.value < next.value) { next := projected; }
      }
      assert metrics[..i + 1] == metrics[..i] + [metrics[i]];
    }
    assert metrics[..|metrics|] == metrics;
  }

  method AddBlocks(runs: seq<Run>, start: nat, previous: nat, target: nat) returns (runs': seq<Run>)
    requires Complete(runs, start + previous) && previous <= target
    ensures Complete(runs', start + target)
  {
    runs' := runs;
    for b := previous to target
      invariant Complete(runs', start + b)
    {
      runs' := AddBlock(runs', start + b);
    }
  }

  lemma LooksExtend(s: seq<nat>, k: nat, min: nat, max: nat)
    requires Looks(s, min, max) && k % 2 == 0 && min <= k <= max && (s != [] ==> s[|s| - 1] < k)
    ensures Looks(s + [k], min, max)
  {
  }

  /** Confirmation of one test. The first look is at the minimum; each later one at the
      least size at which a metric still undecided is projected to reach its target; the
      last one when there is no such size. Each look analyses whole blocks made after the
      pilot, all of them, and there are no more looks than were counted. `samples` are the
      pairs each look analysed. */
  method Confirm(m: Measurements, metrics: seq<nat>, pilot: nat, min: nat, max: nat, runs0: seq<Run>)
    returns (runs: seq<Run>, looks: seq<nat>, samples: seq<seq<(Run, Run)>>)
    requires Complete(runs0, pilot)
    requires 2 <= min <= max && min % 2 == 0 && max % 2 == 0
    ensures looks != [] && looks[0] == min && Looks(looks, min, max) && |looks| <= 1 + (max - min) / 2
    ensures forall i :: 0 < i < |looks| ==> IsNext(m, metrics, looks[i - 1], max, looks[i])
    ensures NoneBelow(m, metrics, looks[|looks| - 1], max, max + 1)
    ensures |samples| == |looks| && forall i :: 0 <= i < |looks| ==> SampleOf(samples[i], pilot, pilot + looks[i] / 2) && UsesSlots(samples[i])
    ensures Complete(runs, pilot + looks[|looks| - 1] / 2)
  {
    hide Complete, Alternates, ComparesAll, UsesSlots, NoneBelow, SampleOf, IsNext;
    runs, looks, samples := runs0, [], [];
    var pairs: nat := 0;
    var next: Option<nat> := Some(min);
    while next.Some?
      invariant pairs % 2 == 0 && Complete(runs, pilot + pairs / 2) && pairs <= max
      invariant Looks(looks, min, max) && (looks == [] <==> pairs == 0) && (looks != [] ==> looks[0] == min && looks[|looks| - 1] == pairs)
      invariant looks == [] ==> next == Some(min)
      invariant next.Some? ==> next.value % 2 == 0 && pairs + 2 <= next.value <= max && min <= next.value
      invariant forall i :: 0 < i < |looks| ==> IsNext(m, metrics, looks[i - 1], max, looks[i])
      invariant looks != [] ==> if next.Some? then IsNext(m, metrics, pairs, max, next.value) else NoneBelow(m, metrics, pairs, max, max + 1)
      invariant |samples| == |looks| && forall i :: 0 <= i < |looks| ==> SampleOf(samples[i], pilot, pilot + looks[i] / 2) && UsesSlots(samples[i])
      decreases next.Some?, max - pairs
    {
      runs := AddBlocks(runs, pilot, pairs / 2, next.value / 2);
      pairs := next.value;
      LooksExtend(looks, pairs, min, max);
      looks := looks + [pairs];
      forall b | pilot <= b < pilot + pairs / 2
        ensures Alternates(runs, b)
      {
        CompletePairs(runs, pilot + pairs / 2, b);
      }
      var sample := AnalyzePhase(runs, pilot, pilot + pairs / 2);
      WholeSlots(sample.value, runs, pilot + pairs / 2, pilot, pilot + pairs / 2);
      samples := samples + [sample.value];
      next := NextLook(m, metrics, pairs, max);
    }
    LookCount(looks, min, max);
  }

  // ---- the family error ----

  /** The per-look threshold that divides the allowed error over all looks. */
  function Threshold(p: real, metrics: nat, jobs: nat, looks: nat): (t: real)
    requires 0 < metrics && 0 < jobs && 0 < looks
  {
    var hypotheses := metrics * jobs * looks;
    PositiveProduct(metrics, jobs, looks);
    1.0 - (1.0 - p) / hypotheses as real
  }

  lemma PositiveProduct(a: nat, b: nat, c: nat)
    requires 0 < a && 0 < b && 0 < c
    ensures 0 < a * b * c
  {
  }

  /** A job's family: how many metrics it plans for, and the looks `Confirm` made for the
      test of each selected one. */
  datatype Job = Job(metricCount: nat, looks: seq<seq<nat>>)

  function MaxLooks(min: nat, max: nat): (n: nat)
    requires min <= max
  {
    1 + (max - min) / 2
  }

  predicate JobOk(j: Job, min: nat, max: nat) {
    0 < j.metricCount && |j.looks| <= j.metricCount && forall i :: 0 <= i < |j.looks| ==> Looks(j.looks[i], min, max)
  }

  /** Error allowed at the looks of one job's metrics: one less the threshold, each. */
  function JobError(j: Job, p: real, jobs: nat, min: nat, max: nat): (e: real)
    requires JobOk(j, min, max) && 0 < jobs && BoundsOk(min, max)
  {
    Total(j.looks) as real * (1.0 - Threshold(p, j.metricCount, jobs, MaxLooks(min, max)))
  }

  /** The looks of all selected metrics. */
  function Total(s: seq<seq<nat>>): (t: nat) {
    if s == [] then 0 else Total(s[..|s| - 1]) + |s[|s| - 1]|
  }

  predicate BoundsOk(min: nat, max: nat) {
    min <= max && min % 2 == 0
  }

  function FamilyError(js: seq<Job>, p: real, jobs: nat, min: nat, max: nat): (e: real)
    requires (forall i :: 0 <= i < |js| ==> JobOk(js[i], min, max)) && 0 < jobs && BoundsOk(min, max)
  {
    if js == [] then 0.0
    else FamilyError(js[..|js| - 1], p, jobs, min, max) + JobError(js[|js| - 1], p, jobs, min, max)
  }

  lemma {:induction false} TotalAtMost(s: seq<seq<nat>>, b: nat)
    requires forall i :: 0 <= i < |s| ==> |s[i]| <= b
    ensures Total(s) <= |s| * b
  {
    if s != [] {
      TotalAtMost(s[..|s| - 1], b);
      assert |s| * b == (|s| - 1) * b + b;
    }
  }

  /** One job spends at most its share. */
  lemma JobShare(j: Job, p: real, jobs: nat, min: nat, max: nat)
    requires JobOk(j, min, max) && 0 < jobs && BoundsOk(min, max) && p < 1.0
    ensures JobError(j, p, jobs, min, max) <= (1.0 - p) / jobs as real
  {
    hide Total;
    var maxLooks := MaxLooks(min, max);
    forall i | 0 <= i < |j.looks|
      ensures |j.looks[i]| <= maxLooks
    {
      if j.looks[i] != [] { LookCount(j.looks[i], min, max); }
    }
    TotalAtMost(j.looks, maxLooks);
    Fewer(|j.looks|, j.metricCount, maxLooks);
    PositiveProduct(j.metricCount, jobs, maxLooks);
    PositiveProduct(j.metricCount, 1, maxLooks);
    ProductReal(j.metricCount, jobs, maxLooks);
    ShareOf(Total(j.looks) as real, (j.metricCount * maxLooks) as real, jobs as real, 1.0 - p);
  }

  lemma ProductReal(a: nat, b: nat, c: nat)
    ensures (a * b * c) as real == (a * c) as real * b as real
  {
    assert a * b * c == (a * c) * b;
  }

  lemma Fewer(a: nat, b: nat, c: nat)
    requires a <= b
    ensures a * c <= b * c
  {
  }

  lemma ShareOf(t: real, n: real, jobs: real, e: real)
    requires 0.0 <= t <= n && 0.0 < n && 0.0 < jobs && 0.0 < e && 0.0 < n * jobs
    ensures t * (e / (n * jobs)) <= e / jobs
  {
    var x := e / (n * jobs);
    assert x * (n * jobs) == e && x > 0.0;
    assert (x * n) * jobs == e;
    assert e / jobs == x * n;
    assert t * x <= n * x;
  }

  /** Over every job, metric and look actually taken, the errors the thresholds allow sum
      to at most the requested family error. */
  lemma {:induction false} FamilyBound(js: seq<Job>, p: real, jobs: nat, min: nat, max: nat)
    requires forall i :: 0 <= i < |js| ==> JobOk(js[i], min, max)
    requires |js| <= jobs && 0 < jobs && BoundsOk(min, max) && 0.5 < p < 1.0
    ensures FamilyError(js, p, jobs, min, max) <= 1.0 - p
  {
    FamilyShares(js, p, jobs, min, max);
    ShareOfAll(1.0 - p, jobs as real, |js| as real);
  }

  lemma ShareOfAll(e: real, jobs: real, used: real)
    requires 0.0 < e && 0.0 <= used <= jobs && 0.0 < jobs
    ensures e / jobs * used <= e
  {
    var share := e / jobs;
    assert share * jobs == e && share > 0.0;
    assert share * (jobs - used) >= 0.0;
  }

  lemma {:induction false} FamilyShares(js: seq<Job>, p: real, jobs: nat, min: nat, max: nat)
    requires forall i :: 0 <= i < |js| ==> JobOk(js[i], min, max)
    requires 0 < jobs && BoundsOk(min, max) && p < 1.0
    ensures FamilyError(js, p, jobs, min, max) <= (1.0 - p) / jobs as real * |js| as real
  {
    if js != [] {
      FamilyShares(js[..|js| - 1], p, jobs, min, max);
      JobShare(js[|js| - 1], p, jobs, min, max);
      var share := (1.0 - p) / jobs as real;
      assert share * |js| as real == share * (|js| - 1) as real + share;
    }
  }

  /** A job that takes every look at every metric it plans for. */
  predicate LooksFully(j: Job, min: nat, max: nat)
    requires min <= max
  {
    |j.looks| == j.metricCount && forall i :: 0 <= i < |j.looks| ==> |j.looks[i]| == MaxLooks(min, max)
  }

  lemma {:induction false} TotalIs(s: seq<seq<nat>>, b: nat)
    requires forall i :: 0 <= i < |s| ==> |s[i]| == b
    ensures Total(s) == |s| * b
  {
    if s != [] {
      TotalIs(s[..|s| - 1], b);
      assert |s| * b == (|s| - 1) * b + b;
    }
  }

  lemma JobSpendsShare(j: Job, p: real, jobs: nat, min: nat, max: nat)
    requires JobOk(j, min, max) && 0 < jobs && BoundsOk(min, max) && LooksFully(j, min, max)
    ensures JobError(j, p, jobs, min, max) == (1.0 - p) / jobs as real
  {
    hide Total;
    var maxLooks := MaxLooks(min, max);
    TotalIs(j.looks, maxLooks);
    PositiveProduct(j.metricCount, jobs, maxLooks);
    PositiveProduct(j.metricCount, 1, maxLooks);
    ProductReal(j.metricCount, jobs, maxLooks);
    WholeShare((j.metricCount * maxLooks) as real, jobs as real, 1.0 - p);
  }

  lemma WholeShare(n: real, jobs: real, e: real)
    requires 0.0 < n && 0.0 < jobs && 0.0 < n * jobs
    ensures n * (e / (n * jobs)) == e / jobs
  {
    var x := e / (n * jobs);
    assert x * (n * jobs) == e;
    assert (x * n) * jobs == e;
    assert e / jobs == x * n;
  }

  lemma {:induction false} FullShares(js: seq<Job>, p: real, jobs: nat, min: nat, max: nat)
    requires 0 < jobs && BoundsOk(min, max)
    requires forall i :: 0 <= i < |js| ==> JobOk(js[i], min, max) && LooksFully(js[i], min, max)
    ensures FamilyError(js, p, jobs, min, max) == (1.0 - p) / jobs as real * |js| as real
  {
    if js != [] {
      FullShares(js[..|js| - 1], p, jobs, min, max);
      JobSpendsShare(js[|js| - 1], p, jobs, min, max);
      var share := (1.0 - p) / jobs as real;
      assert share * |js| as real == share * (|js| - 1) as real + share;
    }
  }

  /** The bound is met with equality when every job takes every look: no threshold could
      be lower. */
  lemma FamilyExact(js: seq<Job>, p: real, jobs: nat, min: nat, max: nat)
    requires |js| == jobs && 0 < jobs && BoundsOk(min, max)
    requires forall i :: 0 <= i < |js| ==> JobOk(js[i], min, max) && LooksFully(js[i], min, max)
    ensures FamilyError(js, p, jobs, min, max) == 1.0 - p
  {
    FullShares(js, p, jobs, min, max);
    Undivided(1.0 - p, jobs as real);
  }

  lemma Undivided(e: real, jobs: real)
    requires 0.0 < jobs
    ensures e / jobs * jobs == e
  {
  }
}
