/**
 * The plugin object `WorkloadCharacterisation`: the kernel-global counters
 * that every completed work-group is folded into, the summary `kernelEnd`
 * derives from them, and the log of host transfers with the kernel each
 * transfer belongs to.
 */
module Plugin {

  import opened Sorting
  import opened Histogram
  import Stats
  import Footprint
  import BranchHistory
  import Worker

  /** The number of outcomes recorded at every branch location. */
  function Lengths(m: map<nat, seq<bool>>): (r: map<nat, nat>)
    ensures r.Keys == m.Keys
    ensures forall l :: l in m ==> r[l] == |m[l]|
  {
    map l | l in m :: |m[l]|
  }

  /** Outcomes of a work-group appended, location by location, to those already recorded. */
  function MergeOutcomes(a: map<nat, seq<bool>>, b: map<nat, seq<bool>>): (r: map<nat, seq<bool>>)
    ensures r.Keys == a.Keys + b.Keys
  {
    map l | l in a.Keys + b.Keys :: Worker.Outcomes(a, l) + Worker.Outcomes(b, l)
  }

  /** Appending outcomes adds up the outcome counts location by location. */
  lemma LengthsMerge(a: map<nat, seq<bool>>, b: map<nat, seq<bool>>)
    ensures Lengths(MergeOutcomes(a, b)) == Merge(Lengths(a), Lengths(b))
    ensures Total(Lengths(MergeOutcomes(a, b))) == Total(Lengths(a)) + Total(Lengths(b))
  {
    var l, r := Lengths(MergeOutcomes(a, b)), Merge(Lengths(a), Lengths(b));
    forall k | k in l
      ensures l[k] == r[k]
    {
    }
    assert l == r;
    TotalMerge(Lengths(a), Lengths(b));
  }

  /** The number of history windows does not depend on the order in which two groups' outcomes are merged. */
  lemma WindowCountsOrderFree(a: map<nat, seq<bool>>, b: map<nat, seq<bool>>)
    ensures BranchHistory.WindowCounts(MergeOutcomes(a, b)) == BranchHistory.WindowCounts(MergeOutcomes(b, a))
  {
    var l, r := BranchHistory.WindowCounts(MergeOutcomes(a, b)), BranchHistory.WindowCounts(MergeOutcomes(b, a));
    forall k | k in l
      ensures l[k] == r[k]
    {
      assert |MergeOutcomes(a, b)[k]| == |MergeOutcomes(b, a)[k]|;
    }
  }

  /** With one branch location, the report's sums are that location's. */
  lemma OneLocation(o: seq<bool>)
    ensures Total(BranchHistory.WindowCounts(map[0 := o])) == BranchHistory.WindowCount(|o|)
    ensures Total(BranchHistory.LinearSums(map[0 := o]))
         == SumOver(BranchHistory.PatternHistogramOf(o), BranchHistory.LinearTerm)
  {
    var ops := map[0 := o];
    BranchHistory.LocationSums(ops, 0);
    assert ops - {0} == map[];
    TotalEmpty(BranchHistory.WindowCounts(ops - {0}));
    TotalEmpty(BranchHistory.LinearSums(ops - {0}));
  }

  /** The linear numerator of 17 outcomes: the balances of its two windows, when they differ. */
  lemma TwoWindows(o: seq<bool>)
    requires |o| == BranchHistory.HistoryLength + 1
    requires BranchHistory.Window(o, 0) != BranchHistory.Window(o, 1)
    ensures SumOver(BranchHistory.PatternHistogramOf(o), BranchHistory.LinearTerm)
         == BranchHistory.Balance(BranchHistory.Window(o, 0)) + BranchHistory.Balance(BranchHistory.Window(o, 1))
  {
    var w0, w1 := BranchHistory.Window(o, 0), BranchHistory.Window(o, 1);
    var h := BranchHistory.PatternHistogramOf(o);
    assert BranchHistory.WindowCount(|o|) == 2;
    assert BranchHistory.WindowHistogram(o, 1) == map[w0 := 1];
    assert h == map[w0 := 1, w1 := 1];
    SumOverRemove(h, BranchHistory.LinearTerm, w1);
    assert h - {w1} == map[w0 := 1];
    SumOverRemove(h - {w1}, BranchHistory.LinearTerm, w0);
    assert h - {w1} - {w0} == map[];
  }

  /** Eight taken outcomes, then eight not taken. */
  function HalfAndHalf(): (o: seq<bool>)
    ensures |o| == 16
    ensures forall j :: 0 <= j < 16 ==> o[j] == (j < 8)
  {
    seq(16, j => j < 8)
  }

  /** `HalfAndHalf` then one taken outcome: two windows of balance 8. */
  lemma SeamAfter()
    ensures SumOver(BranchHistory.PatternHistogramOf(HalfAndHalf() + [true]), BranchHistory.LinearTerm) == 16
  {
    var o := HalfAndHalf() + [true];
    var p0 := BranchHistory.Run(true, 8) + BranchHistory.Run(false, 8);
    var p1 := BranchHistory.Run(true, 7) + BranchHistory.Run(false, 8) + BranchHistory.Run(true, 1);
    BranchHistory.WindowIs(o, 0, p0);
    BranchHistory.WindowIs(o, 1, p1);
    assert p0[7] != p1[7];
    TwoWindows(o);
    BranchHistory.RunCounts(true, 8);
    BranchHistory.RunCounts(false, 8);
    BranchHistory.RunCounts(true, 7);
    BranchHistory.RunCounts(true, 1);
    BranchHistory.CountsConcat(BranchHistory.Run(true, 8), BranchHistory.Run(false, 8));
    BranchHistory.CountsConcat(BranchHistory.Run(true, 7), BranchHistory.Run(false, 8));
    BranchHistory.CountsConcat(BranchHistory.Run(true, 7) + BranchHistory.Run(false, 8), BranchHistory.Run(true, 1));
  }

  /** One taken outcome then `HalfAndHalf`: windows of balance 7 and 8. */
  lemma SeamBefore()
    ensures SumOver(BranchHistory.PatternHistogramOf([true] + HalfAndHalf()), BranchHistory.LinearTerm) == 15
  {
    var o := [true] + HalfAndHalf();
    var q0 := BranchHistory.Run(true, 9) + BranchHistory.Run(false, 7);
    var q1 := BranchHistory.Run(true, 8) + BranchHistory.Run(false, 8);
    BranchHistory.WindowIs(o, 0, q0);
    BranchHistory.WindowIs(o, 1, q1);
    assert q0[8] != q1[8];
    TwoWindows(o);
    BranchHistory.RunCounts(true, 9);
    BranchHistory.RunCounts(false, 7);
    BranchHistory.RunCounts(true, 8);
    BranchHistory.RunCounts(false, 8);
    BranchHistory.CountsConcat(BranchHistory.Run(true, 9), BranchHistory.Run(false, 7));
    BranchHistory.CountsConcat(BranchHistory.Run(true, 8), BranchHistory.Run(false, 8));
  }

  /**
   * The outcomes of a location are concatenated in the order work-groups
   * complete (lines 738-740), and a history window can span the seam.  A
   * group logging eight taken and eight not-taken outcomes and a group
   * logging one taken outcome give two windows in either order, but a linear
   * numerator of 16 eighths in one order and 15 in the other: an average
   * linear entropy of 1 or of 15/16.
   */
  lemma BranchEntropyDependsOnOrder()
    ensures var a, b := map[0 := HalfAndHalf()], map[0 := [true]];
      && Total(BranchHistory.WindowCounts(MergeOutcomes(a, b))) == 2
      && Total(BranchHistory.WindowCounts(MergeOutcomes(b, a))) == 2
      && Total(BranchHistory.LinearSums(MergeOutcomes(a, b))) == 16
      && Total(BranchHistory.LinearSums(MergeOutcomes(b, a))) == 15
  {
    var a, b := map[0 := HalfAndHalf()], map[0 := [true]];
    assert MergeOutcomes(a, b) == map[0 := HalfAndHalf() + [true]];
    assert MergeOutcomes(b, a) == map[0 := [true] + HalfAndHalf()];
    OneLocation(HalfAndHalf() + [true]);
    OneLocation([true] + HalfAndHalf());
    SeamAfter();
    SeamBefore();
  }

  /** `for (auto const &item : group) acc.push_back(item)`. */
  method AppendAll<T>(acc: seq<T>, items: seq<T>) returns (r: seq<T>)
    ensures r == acc + items
  {
    r := acc;
    var i := 0;
    while i < |items|
      invariant i <= |items|
      invariant r == acc + items[..i]
    {
      assert items[..i + 1] == items[..i] + [items[i]];
      r := r + [items[i]];
      i := i + 1;
    }
    assert items[..|items|] == items;
  }

  /**
   * Lines 738-740: for every location of the group, in the group's iteration
   * order, its outcomes are pushed onto the global outcomes of that location.
   */
  method AppendOutcomes(acc: map<nat, seq<bool>>, group: map<nat, seq<bool>>) returns (r: map<nat, seq<bool>>)
    ensures r == MergeOutcomes(acc, group)
  {
    r := acc;
    var rest := group.Keys;
    while rest != {}
      invariant rest <= group.Keys
      invariant r.Keys == acc.Keys + (group.Keys - rest)
      invariant forall l :: l in r ==>
        r[l] == Worker.Outcomes(acc, l) + (if l in group && l !in rest then group[l] else [])
      decreases rest
    {
      var l :| l in rest;
      var outcomes := AppendAll(Worker.Outcomes(r, l), group[l]);
      r := r[l := outcomes];
      rest := rest - {l};
    }
    assert r == MergeOutcomes(acc, group);
  }

  /** The last `p` entries of a transfer log renamed to `name`. */
  function Backfilled(log: seq<string>, p: nat, name: string): (r: seq<string>)
    requires p <= |log|
    ensures |r| == |log|
    ensures forall i :: 0 <= i < |log| - p ==> r[i] == log[i]
    ensures forall i :: |log| - p <= i < |log| ==> r[i] == name
  {
    log[..|log| - p] + seq(p, _ => name)
  }

  /** The number of entries of `s` equal to `x` (`std::count`). */
  function CountOf(s: seq<string>, x: string): (n: nat)
    ensures n <= |s|
    ensures n > 0 <==> x in s
  {
    if s == [] then 0 else (if s[0] == x then 1 else 0) + CountOf(s[1..], x)
  }

  /**
   * `std::unique` as written at lines 61-62 and 66-67: it only drops an entry
   * equal to the one before it, so names that recur after another name stay.
   */
  function UniqueConsecutive(s: seq<string>): (r: seq<string>)
    ensures |r| <= |s|
    ensures forall x :: x in r <==> x in s
    ensures |s| > 0 ==> |r| > 0 && r[0] == s[0]
    ensures forall i :: 0 <= i < |r| - 1 ==> r[i] != r[i + 1]
  {
    if |s| <= 1 then s
    else if s[0] == s[1] then UniqueConsecutive(s[1..])
    else
      assert forall x :: x in s[1..] ==> x in s;
      [s[0]] + UniqueConsecutive(s[1..])
  }

  /**
   * Growing the log by one name: `std::unique` drops it when it repeats the
   * last name and keeps it otherwise.  With `UniqueConsecutive([]) == []`
   * this determines the result: every name equal to its predecessor is
   * removed, and the rest stay in order.
   */
  lemma {:induction false} UniqueConsecutiveSnoc(s: seq<string>, x: string)
    ensures UniqueConsecutive(s + [x]) ==
      if s != [] && s[|s| - 1] == x then UniqueConsecutive(s) else UniqueConsecutive(s) + [x]
    decreases |s|
  {
    if |s| >= 2 {
      assert (s + [x])[1..] == s[1..] + [x];
      UniqueConsecutiveSnoc(s[1..], x);
    } else if |s| == 1 {
      assert (s + [x])[1..] == [x];
    }
  }

  /** Two kernels alternating their transfers: "a" is reported twice and the counts add up to more than the transfers. */
  lemma UniqueConsecutiveRepeats()
    ensures var log := ["a", "b", "a"];
      UniqueConsecutive(log) == log && ReportedTotal(UniqueConsecutive(log), log) == 5 > |log|
  {
    var log := ["a", "b", "a"];
    assert UniqueConsecutive(log[2..]) == ["a"];
    assert UniqueConsecutive(log[1..]) == ["b", "a"];
    assert CountOf(log, "a") == 2 by {
      assert log[1..][1..] == ["a"];
    }
    assert CountOf(log, "b") == 1 by {
      assert log[1..][1..] == ["a"];
    }
  }

  /** Each distinct name once, in the order of its first transfer: the list the report evidently intends. */
  function DistinctInOrder(s: seq<string>): (r: seq<string>)
    ensures forall x :: x in r <==> x in s
    ensures forall i, j :: 0 <= i < j < |r| ==> r[i] != r[j]
    decreases |s|
  {
    if s == [] then []
    else
      var front := DistinctInOrder(s[..|s| - 1]);
      assert forall x :: x in s[..|s| - 1] ==> x in s;
      if s[|s| - 1] in front then front else front + [s[|s| - 1]]
  }

  /** The sum of the per-name counts a report prints. */
  function ReportedTotal(names: seq<string>, log: seq<string>): nat
  {
    if names == [] then 0 else CountOf(log, names[0]) + ReportedTotal(names[1..], log)
  }

  /** Appending one transfer raises the count of its name by one and no other. */
  lemma {:induction false} CountOfSnoc(s: seq<string>, y: string, x: string)
    ensures CountOf(s + [y], x) == CountOf(s, x) + (if x == y then 1 else 0)
    decreases |s|
  {
    if s == [] {
      assert [y][1..] == [];
    } else {
      assert (s + [y])[1..] == s[1..] + [y];
      CountOfSnoc(s[1..], y, x);
    }
  }

  /** Over a list of distinct names, the printed counts of a log grown by one transfer grow by one exactly when its name is listed. */
  lemma {:induction false} ReportedTotalSnoc(names: seq<string>, s: seq<string>, y: string)
    requires forall i, j :: 0 <= i < j < |names| ==> names[i] != names[j]
    ensures ReportedTotal(names, s + [y]) == ReportedTotal(names, s) + (if y in names then 1 else 0)
    decreases |names|
  {
    if names != [] {
      CountOfSnoc(s, y, names[0]);
      ReportedTotalSnoc(names[1..], s, y);
      assert y in names ==> y == names[0] || y in names[1..];
    }
  }

  /** Listing a name that never occurs adds nothing. */
  lemma {:induction false} ReportedTotalAbsent(names: seq<string>, s: seq<string>, y: string)
    ensures ReportedTotal(names + [y], s) == ReportedTotal(names, s) + CountOf(s, y)
    decreases |names|
  {
    if names == [] {
      assert [y][1..] == [];
    } else {
      assert (names + [y])[1..] == names[1..] + [y];
      ReportedTotalAbsent(names[1..], s, y);
    }
  }

  /** With every kernel listed once, the printed counts account for every transfer exactly once. */
  lemma {:induction false} DistinctCountsEveryTransfer(s: seq<string>)
    ensures ReportedTotal(DistinctInOrder(s), s) == |s|
    decreases |s|
  {
    if s != [] {
      var front, y := s[..|s| - 1], s[|s| - 1];
      assert s == front + [y];
      var names := DistinctInOrder(front);
      DistinctCountsEveryTransfer(front);
      ReportedTotalSnoc(names, front, y);
      if y !in names {
        ReportedTotalAbsent(names, s, y);
        CountOfSnoc(front, y, y);
        assert CountOf(front, y) == 0;
      }
    }
  }

  /** The transfer statistics of the destructor: each kernel named once with its number of transfers. */
  function TransferCounts(log: seq<string>): (rows: seq<(string, nat)>)
    ensures |rows| == |DistinctInOrder(log)|
    ensures forall i :: 0 <= i < |rows| ==> rows[i].1 == CountOf(log, rows[i].0) && rows[i].1 > 0
    ensures forall x :: x in log <==> exists i :: 0 <= i < |rows| && rows[i].0 == x
  {
    var names := DistinctInOrder(log);
    var rows := seq(|names|, i requires 0 <= i < |names| => (names[i], CountOf(log, names[i])));
    assert forall x :: x in log ==> rows[IndexOf(names, x)].0 == x;
    rows
  }

  /** The position of a listed name. */
  function IndexOf(names: seq<string>, x: string): (i: nat)
    requires x in names
    ensures i < |names| && names[i] == x
  {
    if names[0] == x then 0 else 1 + IndexOf(names[1..], x)
  }

  /** The kernel-global counters as one value: what `kernelEnd` summarises. */
  datatype Kernel = Kernel(
    memoryOps: seq<nat>,
    computeOps: map<string, nat>,
    branchOps: map<nat, seq<bool>>,
    toBarrier: seq<nat>,
    instructionWidth: map<nat, nat>,
    perWorkitem: seq<nat>,
    betweenLoadOrStore: seq<nat>,
    loadLabels: map<string, nat>,
    storeLabels: map<string, nat>,
    threads: nat,
    barriersHit: nat,
    globalAccesses: nat,
    localAccesses: nat,
    constantAccesses: nat)

  /**
   * The integer figures of the kernel summary.  The floating-point ones are
   * represented by their numerators and denominators: freedom to reorder is
   * `gapSum / gapCount`, resource pressure `labelAccesses / workItems`, and
   * the average linear branch entropy a ratio.
   */
  datatype Report = Report(
    majorOperations: nat,
    totalInstructions: nat,
    gapSum: nat,
    gapCount: nat,
    labelAccesses: nat,
    workItems: nat,
    barriersHit: nat,
    toBarrier: Stats.Option<Stats.Spread>,
    perWorkitem: Stats.Option<Stats.Spread>,
    simd: Stats.Option<Stats.Simd>,
    memoryAccesses: nat,
    footprint: nat,
    footprint90: nat,
    globalAccesses: nat,
    localAccesses: nat,
    constantAccesses: nat,
    uniqueBranches: nat,
    branches90: nat,
    windows: nat,
    linearEntropy: BranchHistory.Ratio)

  /** What every figure of `r` is, computed from the counters `k`. */
  ghost predicate Summarises(r: Report, k: Kernel)
  {
    && r.majorOperations == Stats.CoverageOf(k.computeOps)
    && r.totalInstructions == Total(k.computeOps)
    && r.gapSum == Sum(k.betweenLoadOrStore) && r.gapCount == |k.betweenLoadOrStore|
    && r.labelAccesses == Total(k.storeLabels) + Total(k.loadLabels)
    && r.workItems == k.threads && r.barriersHit == k.barriersHit
    && r.toBarrier == Stats.SpreadOf(k.toBarrier)
    && r.perWorkitem == Stats.SpreadOf(k.perWorkitem)
    && (r.simd.None? <==> |k.instructionWidth| == 0)
    && (r.simd.Some? ==> SimdOf(r.simd.value, k.instructionWidth))
    && r.memoryAccesses == Total(Footprint.ShiftedCounts(k.memoryOps, 0))
    && r.footprint == |Footprint.ShiftedCounts(k.memoryOps, 0)|
    && r.footprint90 == Stats.CoverageOf(Footprint.ShiftedCounts(k.memoryOps, 0))
    && r.globalAccesses == k.globalAccesses && r.localAccesses == k.localAccesses
    && r.constantAccesses == k.constantAccesses
    && r.uniqueBranches == |k.branchOps|
    && r.branches90 == Stats.CoverageOf(Lengths(k.branchOps))
    && r.windows == Total(BranchHistory.WindowCounts(k.branchOps))
    && r.linearEntropy ==
       BranchHistory.AverageLinearEntropy(r.windows, Total(BranchHistory.LinearSums(k.branchOps)))
  }

  /** The SIMD figures of a width histogram: extreme widths present, the operand sum and the count. */
  ghost predicate SimdOf(s: Stats.Simd, m: map<nat, nat>)
  {
    && s.minWidth in m && s.maxWidth in m
    && (forall w :: w in m ==> s.minWidth <= w <= s.maxWidth)
    && s.operandSum == SumOver(m, Stats.OperandTerm)
    && s.instructions == Total(m)
  }

  /** Every load or store logged a gap of at least 1 and counted one pointer label. */
  ghost predicate GapsConsistent(k: Kernel)
  {
    && (forall i :: 0 <= i < |k.betweenLoadOrStore| ==> k.betweenLoadOrStore[i] >= 1)
    && Total(k.loadLabels) + Total(k.storeLabels) == |k.betweenLoadOrStore|
  }

  /** No more opcodes counted than SIMD widths: `kernelEnd` clears the opcodes but not the widths. */
  ghost predicate WidthsBound(k: Kernel)
  {
    Total(k.computeOps) <= Total(k.instructionWidth)
  }

  /** No more barrier distances logged than barriers hit and work-items completed. */
  predicate BarriersBound(k: Kernel)
  {
    |k.toBarrier| <= k.barriersHit + |k.perWorkitem|
  }

  /** What holds of the kernel counters between hooks. */
  ghost predicate Consistent(k: Kernel)
  {
    GapsConsistent(k) && WidthsBound(k) && BarriersBound(k)
  }

  /** Every kernel counter empty or zero, as `kernelBegin` leaves them (lines 272-285). */
  predicate Cleared(k: Kernel)
  {
    && k.memoryOps == [] && k.toBarrier == [] && k.perWorkitem == [] && k.betweenLoadOrStore == []
    && k.computeOps == map[] && k.branchOps == map[] && k.instructionWidth == map[]
    && k.loadLabels == map[] && k.storeLabels == map[]
    && k.threads == 0 && k.barriersHit == 0
    && k.globalAccesses == 0 && k.localAccesses == 0 && k.constantAccesses == 0
  }

  /** Cleared counters are consistent. */
  lemma ClearedConsistent(k: Kernel)
    requires Cleared(k)
    ensures Consistent(k)
  {
    TotalEmpty(k.computeOps);
    TotalEmpty(k.loadLabels);
    TotalEmpty(k.storeLabels);
  }

  /**
   * Lines 673-682: what `kernelEnd` clears after the summary.  The SIMD
   * widths, the barrier count and the three address-space counters stay.
   */
  function AfterKernel(k: Kernel): (r: Kernel)
    ensures Consistent(k) ==> Consistent(r)
    ensures Cleared(r.(instructionWidth := map[], barriersHit := 0,
                       globalAccesses := 0, localAccesses := 0, constantAccesses := 0))
    ensures r.instructionWidth == k.instructionWidth && r.barriersHit == k.barriersHit
    ensures r.globalAccesses == k.globalAccesses && r.localAccesses == k.localAccesses
    ensures r.constantAccesses == k.constantAccesses
  {
    var none: map<string, nat> := map[];
    TotalEmpty(none);
    k.(memoryOps := [], computeOps := map[], branchOps := map[], toBarrier := [], perWorkitem := [],
       threads := 0, betweenLoadOrStore := [], loadLabels := map[], storeLabels := map[])
  }

  lemma {:induction false} SumAtLeastLength(s: seq<nat>)
    requires forall i :: 0 <= i < |s| ==> s[i] >= 1
    ensures Sum(s) >= |s|
    decreases |s|
  {
    if s != [] {
      SumAtLeastLength(s[1..]);
    }
  }

  /**
   * What the summary promises: the 90% figures never exceed the distinct
   * keys they are drawn from, the footprint never exceeds the accesses, the
   * address log is counted once, the linear entropy is between 0 and 1, and,
   * with every load and store logged, resource pressure counts exactly the
   * gaps while freedom to reorder is at least 1.
   */
  lemma SummaryBounds(r: Report, k: Kernel)
    requires Summarises(r, k)
    ensures r.majorOperations <= |k.computeOps|
    ensures r.majorOperations == 0 <==> r.totalInstructions == 0
    ensures r.memoryAccesses == |k.memoryOps|
    ensures r.footprint90 <= r.footprint <= r.memoryAccesses
    ensures r.branches90 <= r.uniqueBranches
    ensures r.linearEntropy.num <= r.linearEntropy.den
    ensures r.simd.Some? ==>
      r.simd.value.minWidth * r.simd.value.instructions <= r.simd.value.operandSum
        <= r.simd.value.maxWidth * r.simd.value.instructions
    ensures GapsConsistent(k) ==> r.labelAccesses == r.gapCount <= r.gapSum
  {
    Stats.CoverageOfBounds(k.computeOps);
    Stats.CoverageOfBounds(Footprint.ShiftedCounts(k.memoryOps, 0));
    Stats.CoverageOfBounds(Lengths(k.branchOps));
    Footprint.ShiftedTotal(k.memoryOps, 0);
    Footprint.FootprintAtMostAccesses(k.memoryOps, 0);
    BranchHistory.LinearAtMostWindows(k.branchOps);
    if r.simd.Some? {
      Stats.SimdMeanBetween(k.instructionWidth, r.simd.value);
    }
    if GapsConsistent(k) {
      SumAtLeastLength(k.betweenLoadOrStore);
    }
  }

  /**
   * The integer figures of `kernelEnd` (lines 301-612), read from a
   * snapshot of the kernel counters.  Lines 344-352 add the store labels'
   * counts, then the load labels'.
   */
  method Summarise(k: Kernel) returns (r: Report)
    ensures Summarises(r, k)
  {
    var majorOperations := Stats.HistogramCoverage(k.computeOps);
    var totalInstructions := SumCounts(k.computeOps);
    var gapSum := Stats.SumInOrder(k.betweenLoadOrStore);
    var stores := SumCounts(k.storeLabels);
    var loads := SumCounts(k.loadLabels);
    var simd := Stats.SimdStats(k.instructionWidth);
    var hist := Footprint.AddressHistograms(k.memoryOps);
    var memoryAccesses := SumCounts(hist[0]);
    var footprint90 := Stats.HistogramCoverage(hist[0]);
    var branches90 := Stats.HistogramCoverage(Lengths(k.branchOps));
    var windows, linear := BranchHistory.BranchWindows(k.branchOps);
    r := Report(
      majorOperations, totalInstructions, gapSum, |k.betweenLoadOrStore|, stores + loads, k.threads,
      k.barriersHit, Stats.SpreadOf(k.toBarrier), Stats.SpreadOf(k.perWorkitem), simd,
      memoryAccesses, |hist[0]|, footprint90, k.globalAccesses, k.localAccesses, k.constantAccesses,
      |k.branchOps|, branches90, windows, BranchHistory.AverageLinearEntropy(windows, linear));
  }

  class WorkloadCharacterisation {
    /** The kernel-global counters (`m_memoryOps`, `m_computeOps`, ... `m_constantAccesses`). */
    var kernel: Kernel
    var hostToDevice: seq<string>
    var deviceToHost: seq<string>
    /** `m_numberOfHostToDeviceCopiesBeforeKernelNamed`. */
    var pending: nat
    var lastKernelName: string

    /** The pending host transfers are in the log and the kernel counters are consistent. */
    ghost predicate Valid()
      reads this`pending, this`hostToDevice, this`kernel
    {
      HostValid() && Consistent(kernel)
    }

    ghost predicate HostValid()
      reads this`pending, this`hostToDevice
    {
      pending <= |hostToDevice|
    }

    /** Lines 45-48: no pending transfers and no kernel named yet; every container starts empty. */
    constructor ()
      ensures Valid() && Cleared(kernel)
      ensures pending == 0 && lastKernelName == "" && hostToDevice == [] && deviceToHost == []
    {
      hostToDevice, deviceToHost := [], [];
      pending, lastKernelName := 0, "";
      new;
      ClearKernel();
    }

    /** Every kernel counter emptied or zeroed. */
    method ClearKernel()
      modifies this`kernel
      ensures Cleared(kernel) && Consistent(kernel)
    {
      kernel := Kernel([], map[], map[], [], map[], [], [], map[], map[], 0, 0, 0, 0, 0);
      ClearedConsistent(kernel);
    }

    /** `hostMemoryLoad` (lines 103-106): a device-to-host copy is logged under the last kernel's name. */
    method HostMemoryLoad()
      modifies this`deviceToHost
      ensures deviceToHost == old(deviceToHost) + [lastKernelName]
    {
      deviceToHost := deviceToHost + [lastKernelName];
    }

    /**
     * `hostMemoryStore` (lines 108-112): a host-to-device copy is logged under
     * the last kernel's name and waits for the next kernel to claim it.
     */
    method HostMemoryStore()
      requires HostValid()
      modifies this`hostToDevice, this`pending
      ensures HostValid()
      ensures hostToDevice == old(hostToDevice) + [lastKernelName]
      ensures pending == old(pending) + 1
    {
      hostToDevice := hostToDevice + [lastKernelName];
      pending := pending + 1;
    }

    /**
     * Lines 264-270: the copies made since the last kernel began belong to
     * the kernel beginning now, so the last `pending` entries are renamed.
     */
    method BackFill(name: string)
      requires HostValid()
      modifies this`hostToDevice, this`pending, this`lastKernelName
      ensures HostValid()
      ensures lastKernelName == name
      ensures hostToDevice == Backfilled(old(hostToDevice), old(pending), name)
      ensures pending == 0
    {
      lastKernelName := name;
      var endOfList := |hostToDevice| - 1;
      var i := 0;
      while i < pending
        invariant i <= pending
        invariant pending == old(pending) && lastKernelName == name
        invariant |hostToDevice| == |old(hostToDevice)|
        invariant forall j :: 0 <= j < |hostToDevice| - i ==> hostToDevice[j] == old(hostToDevice)[j]
        invariant forall j :: |hostToDevice| - i <= j < |hostToDevice| ==> hostToDevice[j] == name
      {
        hostToDevice := hostToDevice[endOfList - i := name];
        i := i + 1;
      }
      pending := 0;
    }

    /** `kernelBegin` (lines 262-286): the back-fill, then every kernel counter emptied or zeroed (272-285). */
    method KernelBegin(name: string)
      requires HostValid()
      modifies this`hostToDevice, this`pending, this`lastKernelName, this`kernel
      ensures Valid() && Cleared(kernel) && lastKernelName == name
      ensures hostToDevice == Backfilled(old(hostToDevice), old(pending), name)
      ensures pending == 0
    {
      BackFill(name);
      ClearKernel();
    }

    /** Lines 730-731 and 752-753: the opcode and SIMD-width histograms are added key by key. */
    method MergeCompute(st: Worker.WorkerState)
      requires WidthsBound(kernel) && st.WidthsValid()
      modifies this`kernel
      ensures WidthsBound(kernel)
      ensures kernel == old(kernel).(
        computeOps := Merge(old(kernel).computeOps, st.computeOps),
        instructionWidth := Merge(old(kernel).instructionWidth, st.instructionWidth))
    {
      TotalMerge(kernel.computeOps, st.computeOps);
      TotalMerge(kernel.instructionWidth, st.instructionWidth);
      var computeOps := AddCounts(kernel.computeOps, st.computeOps);
      var instructionWidth := AddCounts(kernel.instructionWidth, st.instructionWidth);
      kernel := kernel.(computeOps := computeOps, instructionWidth := instructionWidth);
    }

    /** Lines 760-767: the gaps are appended and the label histograms added key by key. */
    method MergeLoadStore(st: Worker.WorkerState)
      requires GapsConsistent(kernel) && st.GapsValid()
      modifies this`kernel
      ensures GapsConsistent(kernel)
      ensures kernel == old(kernel).(
        betweenLoadOrStore := old(kernel).betweenLoadOrStore + st.betweenLoadOrStore,
        loadLabels := Merge(old(kernel).loadLabels, st.loadLabels),
        storeLabels := Merge(old(kernel).storeLabels, st.storeLabels))
    {
      TotalMerge(kernel.loadLabels, st.loadLabels);
      TotalMerge(kernel.storeLabels, st.storeLabels);
      var gaps := AppendAll(kernel.betweenLoadOrStore, st.betweenLoadOrStore);
      var loadLabels := AddCounts(kernel.loadLabels, st.loadLabels);
      var storeLabels := AddCounts(kernel.storeLabels, st.storeLabels);
      kernel := kernel.(betweenLoadOrStore := gaps, loadLabels := loadLabels, storeLabels := storeLabels);
    }

    /** Lines 738-757: the outcomes and the barrier logs appended, work-items and barriers summed. */
    method MergeBranchesAndBarriers(st: Worker.WorkerState)
      requires BarriersBound(kernel) && st.BarriersValid()
      modifies this`kernel
      ensures BarriersBound(kernel)
      ensures kernel == old(kernel).(
        branchOps := MergeOutcomes(old(kernel).branchOps, st.branchOps),
        threads := old(kernel).threads + st.threads,
        toBarrier := old(kernel).toBarrier + st.betweenBarriers,
        barriersHit := old(kernel).barriersHit + st.barriersHit,
        perWorkitem := old(kernel).perWorkitem + st.perWorkitem)
    {
      var branchOps := AppendOutcomes(kernel.branchOps, st.branchOps);
      var toBarrier := AppendAll(kernel.toBarrier, st.betweenBarriers);
      var perWorkitem := AppendAll(kernel.perWorkitem, st.perWorkitem);
      kernel := kernel.(branchOps := branchOps, threads := kernel.threads + st.threads,
                        toBarrier := toBarrier, barriersHit := kernel.barriersHit + st.barriersHit,
                        perWorkitem := perWorkitem);
    }

    /** Lines 734-735 and 770-772: the group's address log moves to the global log; the space counters are summed. */
    method MergeMemory(st: Worker.WorkerState)
      modifies this`kernel, st`memoryOps
      ensures st.memoryOps == []
      ensures kernel == old(kernel).(
        memoryOps := old(kernel).memoryOps + old(st.memoryOps),
        constantAccesses := old(kernel).constantAccesses + st.constantAccesses,
        localAccesses := old(kernel).localAccesses + st.localAccesses,
        globalAccesses := old(kernel).globalAccesses + st.globalAccesses)
    {
      kernel := kernel.(memoryOps := kernel.memoryOps + st.memoryOps,
                        constantAccesses := kernel.constantAccesses + st.constantAccesses,
                        localAccesses := kernel.localAccesses + st.localAccesses,
                        globalAccesses := kernel.globalAccesses + st.globalAccesses);
      st.memoryOps := [];
    }

    /** Lines 730-731 and 752-767: the histograms and the load/store gaps of the group added in. */
    method MergeCounts(st: Worker.WorkerState)
      requires WidthsBound(kernel) && st.WidthsValid()
      requires GapsConsistent(kernel) && st.GapsValid()
      modifies this`kernel
      ensures WidthsBound(kernel) && GapsConsistent(kernel)
      ensures kernel == old(kernel).(
        computeOps := Merge(old(kernel).computeOps, st.computeOps),
        instructionWidth := Merge(old(kernel).instructionWidth, st.instructionWidth),
        betweenLoadOrStore := old(kernel).betweenLoadOrStore + st.betweenLoadOrStore,
        loadLabels := Merge(old(kernel).loadLabels, st.loadLabels),
        storeLabels := Merge(old(kernel).storeLabels, st.storeLabels))
    {
      MergeCompute(st);
      MergeLoadStore(st);
    }

    /** Lines 734-757 and 770-772: the logs of the group appended and its counters summed. */
    method MergeLogs(st: Worker.WorkerState)
      requires BarriersBound(kernel) && st.BarriersValid()
      modifies this`kernel, st`memoryOps
      ensures BarriersBound(kernel) && st.memoryOps == []
      ensures kernel == old(kernel).(
        memoryOps := old(kernel).memoryOps + old(st.memoryOps),
        constantAccesses := old(kernel).constantAccesses + st.constantAccesses,
        localAccesses := old(kernel).localAccesses + st.localAccesses,
        globalAccesses := old(kernel).globalAccesses + st.globalAccesses,
        branchOps := MergeOutcomes(old(kernel).branchOps, st.branchOps),
        threads := old(kernel).threads + st.threads,
        toBarrier := old(kernel).toBarrier + st.betweenBarriers,
        barriersHit := old(kernel).barriersHit + st.barriersHit,
        perWorkitem := old(kernel).perWorkitem + st.perWorkitem)
    {
      MergeMemory(st);
      MergeBranchesAndBarriers(st);
    }

    /**
     * `workGroupComplete` (lines 725-773): the work-group's state is folded
     * into the kernel's.  Only the group's address log is emptied; the rest
     * of the group state is left for the next `workGroupBegin` to clear.
     */
    method WorkGroupComplete(st: Worker.WorkerState)
      requires Valid() && st.Valid()
      modifies this`kernel, st`memoryOps
      ensures Valid()
      ensures kernel.computeOps == Merge(old(kernel).computeOps, st.computeOps)
      ensures kernel.instructionWidth == Merge(old(kernel).instructionWidth, st.instructionWidth)
      ensures kernel.loadLabels == Merge(old(kernel).loadLabels, st.loadLabels)
      ensures kernel.storeLabels == Merge(old(kernel).storeLabels, st.storeLabels)
      ensures kernel.branchOps == MergeOutcomes(old(kernel).branchOps, st.branchOps)
      ensures kernel.memoryOps == old(kernel).memoryOps + old(st.memoryOps) && st.memoryOps == []
      ensures kernel.toBarrier == old(kernel).toBarrier + st.betweenBarriers
      ensures kernel.perWorkitem == old(kernel).perWorkitem + st.perWorkitem
      ensures kernel.betweenLoadOrStore == old(kernel).betweenLoadOrStore + st.betweenLoadOrStore
      ensures kernel.threads == old(kernel).threads + st.threads
      ensures kernel.barriersHit == old(kernel).barriersHit + st.barriersHit
      ensures kernel.constantAccesses == old(kernel).constantAccesses + st.constantAccesses
      ensures kernel.localAccesses == old(kernel).localAccesses + st.localAccesses
      ensures kernel.globalAccesses == old(kernel).globalAccesses + st.globalAccesses
    {
      MergeCounts(st);
      MergeLogs(st);
    }

    /** Lines 673-682: the reset after the summary. */
    method ResetAfterKernel()
      requires Valid()
      modifies this`kernel
      ensures Valid()
      ensures kernel == AfterKernel(old(kernel))
    {
      kernel := kernel.(memoryOps := [], computeOps := map[], branchOps := map[], toBarrier := [],
                        perWorkitem := [], threads := 0,
                        betweenLoadOrStore := [], loadLabels := map[], storeLabels := map[]);
    }

    /**
     * `kernelEnd` (lines 288-683): the summary of the kernel, then the
     * partial reset.
     */
    method KernelEnd() returns (r: Report)
      requires Valid()
      modifies this`kernel
      ensures Valid()
      ensures Summarises(r, old(kernel))
      ensures kernel == AfterKernel(old(kernel))
    {
      r := Summarise(kernel);
      ResetAfterKernel();
    }
  }
}
