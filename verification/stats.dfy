/**
 * The integer statistics of the kernel summary: the 90% coverage cutoff
 * (used for opcodes, memory addresses and branch locations), the
 * min/max/median of a sequence of instruction counts, and the sums behind the
 * SIMD-width figures.
 */
module Stats {

  import opened Sorting
  import opened Histogram

  datatype Option<T> = None | Some(value: T)

  /**
   * `(unsigned)ceil(total * 0.9)` in integers: the least count that is at
   * least nine tenths of `total`.
   */
  function Target(total: nat): (t: nat)
    ensures t <= total
    ensures 10 * t >= 9 * total
    ensures t > 0 ==> 10 * (t - 1) < 9 * total
  {
    (9 * total + 9) / 10
  }

  /** Splitting off the head of a non-empty prefix. */
  lemma PrefixShift(s: seq<nat>, k: nat)
    requires k < |s|
    ensures Sum(s[..k + 1]) == s[0] + Sum(s[1..][..k])
  {
    assert s[..k + 1][1..] == s[1..][..k];
  }

  /** The prefixes shorter than `k' + 1` stay below `t` when those of the tail shorter than `k'` stay below `t - s[0]`. */
  lemma PrefixesBelow(s: seq<nat>, t: nat, k': nat)
    requires 0 < |s| && s[0] < t && k' < |s|
    requires forall j :: 0 <= j < k' ==> Sum(s[1..][..j]) < t - s[0]
    ensures forall j :: 0 <= j < k' + 1 ==> Sum(s[..j]) < t
  {
    forall j | 0 <= j < k' + 1
      ensures Sum(s[..j]) < t
    {
      if j > 0 {
        PrefixShift(s, j - 1);
      }
    }
  }

  /**
   * The loop `while (acc < target) acc += s[k++]` run over `s`: the length of
   * the shortest prefix of `s` whose sum reaches `t`.
   */
  function LeastPrefix(s: seq<nat>, t: nat): (k: nat)
    requires t <= Sum(s)
    ensures k <= |s|
    ensures t <= Sum(s[..k])
    ensures forall j :: 0 <= j < k ==> Sum(s[..j]) < t
    decreases |s|
  {
    if t == 0 then 0
    else
      var rest := if s[0] >= t then 0 else t - s[0];
      var k' := LeastPrefix(s[1..], rest);
      PrefixShift(s, k');
      if s[0] < t then PrefixesBelow(s, t, k'); 1 + k'
      else 1 + k'
  }

  /** The shortest prefix reaching `t` is the only prefix length with both properties. */
  lemma LeastPrefixUnique(s: seq<nat>, t: nat, k: nat)
    requires t <= Sum(s) && k <= |s|
    requires t <= Sum(s[..k])
    requires forall j :: 0 <= j < k ==> Sum(s[..j]) < t
    ensures k == LeastPrefix(s, t)
  {
    var l := LeastPrefix(s, t);
    assert t <= Sum(s[..k]) && t <= Sum(s[..l]);
  }

  /**
   * The number of distinct keys needed to cover 90% of the occurrences: the
   * counts sorted in descending order, taken until they reach the target.
   */
  function Coverage(counts: seq<nat>): (k: nat)
    ensures k <= |counts|
  {
    LeastPrefix(SortDesc(counts), Target(Sum(counts)))
  }

  /** The keys taken cover at least 90% of all occurrences, and one key fewer does not. */
  lemma CoverageReaches(counts: seq<nat>)
    ensures 10 * Sum(SortDesc(counts)[..Coverage(counts)]) >= 9 * Sum(counts)
    ensures forall j :: 0 <= j < Coverage(counts) ==> 10 * Sum(SortDesc(counts)[..j]) < 9 * Sum(counts)
  {
  }

  /** No key is needed exactly when nothing was counted. */
  lemma CoverageZero(counts: seq<nat>)
    ensures Coverage(counts) == 0 <==> Sum(counts) == 0
  {
    var t := Target(Sum(counts));
    if Sum(counts) > 0 {
      assert t > 0;
      assert Sum(SortDesc(counts)[..0]) == 0;
    }
  }

  /** Coverage depends only on the multiset of counts: how ties are ordered does not matter. */
  lemma CoverageDependsOnMultiset(a: seq<nat>, b: seq<nat>)
    requires multiset(a) == multiset(b)
    ensures Coverage(a) == Coverage(b)
  {
    SortDescOfPermutation(a, b);
  }

  /** The running sum `for (item : sorted) total += item.second`. */
  method SumInOrder(s: seq<nat>) returns (total: nat)
    ensures total == Sum(s)
  {
    total := 0;
    var i := 0;
    while i < |s|
      invariant i <= |s|
      invariant total == Sum(s[..i])
    {
      PrefixSumStep(s, i);
      total := total + s[i];
      i := i + 1;
    }
    assert s[..|s|] == s;
  }

  /** The loop `while (acc < target) acc += s[k++]`. */
  method TakeUntil(s: seq<nat>, target: nat) returns (k: nat)
    requires target <= Sum(s)
    ensures k == LeastPrefix(s, target)
  {
    var acc := 0;
    k := 0;
    assert s[..|s|] == s;
    while acc < target
      invariant k <= |s|
      invariant acc == Sum(s[..k])
      invariant forall j :: 0 <= j < k ==> Sum(s[..j]) < target
      decreases |s| - k
    {
      PrefixSumStep(s, k);
      acc := acc + s[k];
      k := k + 1;
    }
    LeastPrefixUnique(s, target, k);
  }

  /**
   * Lines 314-329 (and 465-474, 552-559): sort the counts in descending order,
   * add them up, then take counts until nine tenths of the sum is reached.
   */
  method CoverageCutoff(counts: seq<nat>) returns (k: nat)
    ensures k == Coverage(counts)
    ensures k <= |counts|
    ensures k == 0 <==> Sum(counts) == 0
  {
    var sorted := SortDesc(counts);
    var total := SumInOrder(sorted);
    k := TakeUntil(sorted, Target(total));
    CoverageZero(counts);
  }

  /** The coverage of a histogram, read in any of its iteration orders. */
  ghost function CoverageOf<K>(m: map<K, nat>): nat
  {
    Coverage(Counts(Listing(m)))
  }

  /** Every iteration order of a histogram gives the same coverage. */
  lemma CoverageOfListing<K>(es: seq<(K, nat)>, m: map<K, nat>)
    requires Lists(es, m)
    ensures Coverage(Counts(es)) == CoverageOf(m)
  {
    var es' := Listing(m);
    ListingsAgree(es, es', m);
    CoverageDependsOnMultiset(Counts(es), Counts(es'));
  }

  /** A histogram's coverage counts at most its keys, and is zero only when it recorded nothing. */
  lemma CoverageOfBounds<K>(m: map<K, nat>)
    ensures CoverageOf(m) <= |m|
    ensures CoverageOf(m) == 0 <==> Total(m) == 0
  {
    var es := Listing(m);
    ListingSize(es, m);
    ListingSum(es, m, CountTerm);
    CountsSum(es);
    CoverageZero(Counts(es));
  }

  /** The cutoff run over a histogram in its own iteration order. */
  method HistogramCoverage<K>(m: map<K, nat>) returns (k: nat)
    ensures k == CoverageOf(m)
    ensures k <= |m|
    ensures k == 0 <==> Total(m) == 0
  {
    var es := Entries(m);
    k := CoverageCutoff(Counts(es));
    CoverageOfListing(es, m);
    CoverageOfBounds(m);
  }

  const U32: nat := 0x1_0000_0000

  /**
   * The median as written at lines 377-382 and 399-404: for an even length the
   * two middle `unsigned` values are added in 32-bit arithmetic, which wraps,
   * before the halving.
   */
  function MedianAsWritten(sorted: seq<nat>): (r: nat)
    requires |sorted| > 0
    requires forall i :: 0 <= i < |sorted| ==> sorted[i] < U32
    ensures r < U32
  {
    var n := |sorted|;
    if n % 2 == 0 then ((sorted[n / 2 - 1] + sorted[n / 2]) % U32) / 2
    else sorted[n / 2]
  }

  /** Two middle values of 2^31 wrap to a median of 0, below every element. */
  lemma MedianAsWrittenWraps()
    ensures var s := [0x8000_0000, 0x8000_0000];
      SortedAsc(s) && MedianAsWritten(s) == 0 && MedianAsWritten(s) < s[0]
  {
  }

  /** Without a wrap-around the median as written is the floor of the middle average. */
  lemma MedianAsWrittenNoWrap(sorted: seq<nat>)
    requires |sorted| > 0 && |sorted| % 2 == 0
    requires forall i :: 0 <= i < |sorted| ==> sorted[i] < U32
    requires sorted[|sorted| / 2 - 1] + sorted[|sorted| / 2] < U32
    ensures MedianAsWritten(sorted) == (sorted[|sorted| / 2 - 1] + sorted[|sorted| / 2]) / 2
  {
  }

  /**
   * The median the summary means: the middle element, or the floor of the
   * average of the two middle elements, computed as `lo + (hi - lo) / 2` so
   * that no intermediate value exceeds the larger element.
   */
  function Median(sorted: seq<nat>): (r: nat)
    requires |sorted| > 0 && SortedAsc(sorted)
    ensures sorted[(|sorted| - 1) / 2] <= r <= sorted[|sorted| / 2]
    ensures |sorted| % 2 == 1 ==> r == sorted[|sorted| / 2]
    ensures |sorted| % 2 == 0 ==> r == (sorted[|sorted| / 2 - 1] + sorted[|sorted| / 2]) / 2
  {
    var lo, hi := sorted[(|sorted| - 1) / 2], sorted[|sorted| / 2];
    lo + (hi - lo) / 2
  }

  /** The median of a sorted sequence lies between its first and last elements. */
  lemma MedianBetweenEnds(sorted: seq<nat>)
    requires |sorted| > 0 && SortedAsc(sorted)
    ensures sorted[0] <= Median(sorted) <= sorted[|sorted| - 1]
  {
    var lo, hi := (|sorted| - 1) / 2, |sorted| / 2;
    assert 0 <= lo <= hi < |sorted|;
    if 0 < lo {
      assert sorted[0] <= sorted[lo];
    }
    if hi < |sorted| - 1 {
      assert sorted[hi] <= sorted[|sorted| - 1];
    }
  }

  /** Minimum, maximum and median of a sequence of instruction counts. */
  datatype Spread = Spread(min: nat, max: nat, median: nat)

  /**
   * Lines 370-382 and 392-404.  `std::min_element` on an empty vector gives an
   * iterator that must not be read; here an empty sequence has no spread.
   */
  function SpreadOf(s: seq<nat>): (r: Option<Spread>)
    ensures r.None? <==> |s| == 0
    ensures r.Some? ==> r.value.min <= r.value.median <= r.value.max
    ensures r.Some? ==> r.value.min in s && r.value.max in s
    ensures r.Some? ==> forall i :: 0 <= i < |s| ==> r.value.min <= s[i] <= r.value.max
    ensures r.Some? ==> var t := SortAsc(s);
      && (|s| % 2 == 1 ==> r.value.median == t[|s| / 2])
      && (|s| % 2 == 0 ==> r.value.median == (t[|s| / 2 - 1] + t[|s| / 2]) / 2)
  {
    if |s| == 0 then None
    else
      var t := SortAsc(s);
      SortedEnds(s, t);
      MedianBetweenEnds(t);
      Some(Spread(Min(s), Max(s), Median(t)))
  }

  /** The spread of counts does not depend on the order in which they were appended. */
  lemma SpreadOfPermutation(a: seq<nat>, b: seq<nat>)
    requires multiset(a) == multiset(b)
    ensures SpreadOf(a) == SpreadOf(b)
  {
    assert |a| == |multiset(a)| == |multiset(b)| == |b|;
    if |a| > 0 {
      SortedUnique(SortAsc(a), SortAsc(b));
      SortedEnds(a, SortAsc(b));
      SortedEnds(b, SortAsc(b));
    }
  }

  /** SIMD-width figures: extreme widths, the operand sum and the number of instructions. */
  datatype Simd = Simd(minWidth: nat, maxWidth: nat, operandSum: nat, instructions: nat)

  /** One histogram entry's share of `simd_sum`: width times count. */
  function OperandTerm(width: nat, count: nat): nat
  {
    width * count
  }

  /** Widths between `lo` and `hi` give an operand sum between `lo` and `hi` times the instruction count. */
  lemma {:induction false} OperandSumBounds(m: map<nat, nat>, lo: nat, hi: nat)
    requires forall w :: w in m ==> lo <= w <= hi
    ensures lo * Total(m) <= SumOver(m, OperandTerm) <= hi * Total(m)
    decreases m.Keys
  {
    if m.Keys != {} {
      var w :| w in m.Keys;
      SumOverRemove<nat>(m, OperandTerm, w);
      SumOverRemove<nat>(m, CountTerm, w);
      OperandSumBounds(m - {w}, lo, hi);
      BoundStep(lo, hi, w, m[w], SumOver(m - {w}, OperandTerm), Total(m - {w}));
    }
  }

  /** One entry of width `w` and count `c` keeps the bounds. */
  lemma BoundStep(lo: nat, hi: nat, w: nat, c: nat, sum: nat, count: nat)
    requires lo <= w <= hi
    requires lo * count <= sum <= hi * count
    ensures lo * (c + count) <= w * c + sum <= hi * (c + count)
  {
    assert lo * c <= w * c <= hi * c by {
      MulMono(lo, w, c);
      MulMono(w, hi, c);
    }
    assert lo * (c + count) == lo * c + lo * count;
    assert hi * (c + count) == hi * c + hi * count;
  }

  lemma MulMono(a: nat, b: nat, c: nat)
    requires a <= b
    ensures a * c <= b * c
  {
  }

  /**
   * Lines 414-421: the smallest and largest width by key, and the sums
   * `simd_sum` and `simd_num` over the width histogram.
   */
  method SimdStats(m: map<nat, nat>) returns (r: Option<Simd>)
    ensures r.None? <==> |m| == 0
    ensures r.Some? ==> r.value.minWidth in m && r.value.maxWidth in m
    ensures r.Some? ==> forall w :: w in m ==> r.value.minWidth <= w <= r.value.maxWidth
    ensures r.Some? ==> r.value.operandSum == SumOver(m, OperandTerm)
    ensures r.Some? ==> r.value.instructions == Total(m)
  {
    if |m| == 0 {
      return None;
    }
    var rest := m;
    var lo, hi := 0, 0;
    var sum, num := 0, 0;
    while rest.Keys != {}
      invariant rest.Keys <= m.Keys
      invariant forall w :: w in rest ==> rest[w] == m[w]
      invariant sum + SumOver(rest, OperandTerm) == SumOver(m, OperandTerm)
      invariant num + Total(rest) == Total(m)
      invariant rest.Keys != m.Keys ==> lo in m && hi in m
      invariant forall w :: w in m && w !in rest ==> lo <= w <= hi
      decreases rest.Keys
    {
      var w :| w in rest.Keys;
      SumOverRemove<nat>(rest, OperandTerm, w);
      SumOverRemove<nat>(rest, CountTerm, w);
      if rest.Keys == m.Keys {
        lo, hi := w, w;
      } else {
        if w < lo { lo := w; }
        if w > hi { hi := w; }
      }
      sum := sum + w * rest[w];
      num := num + rest[w];
      rest := rest - {w};
    }
    r := Some(Simd(lo, hi, sum, num));
  }

  /** The mean SIMD width lies between the extreme widths. */
  lemma SimdMeanBetween(m: map<nat, nat>, s: Simd)
    requires forall w :: w in m ==> s.minWidth <= w <= s.maxWidth
    requires s.operandSum == SumOver(m, OperandTerm) && s.instructions == Total(m)
    ensures s.minWidth * s.instructions <= s.operandSum <= s.maxWidth * s.instructions
  {
    OperandSumBounds(m, s.minWidth, s.maxWidth);
  }
}
