/**
 * Branch-history windows of the kernel summary.  For every branch location
 * with at least 16 recorded outcomes, every run of 16 consecutive outcomes
 * is written as a string of '1' (taken) and '0' (not taken) and counted in a
 * pattern histogram.  The linear branch entropy of a pattern with `t` ones
 * and `n` zeros is `2 * min(t/16, n/16)`, that is `min(t, n) / 8`; the model
 * keeps its integer numerator, in eighths.
 */
module BranchHistory {

  import opened Histogram
  import Stats

  /** `const unsigned m = 16`: the history length. */
  const HistoryLength: nat := 16

  function Bit(b: bool): char
  {
    if b then '1' else '0'
  }

  /** `current_pattern += b ? '1' : '0'` over a run of outcomes. */
  function Pattern(o: seq<bool>): (p: string)
    ensures |p| == |o|
    ensures forall j :: 0 <= j < |o| ==> p[j] == Bit(o[j])
  {
    if o == [] then "" else Pattern(o[..|o| - 1]) + [Bit(o[|o| - 1])]
  }

  /** `std::count(pattern, '1')`: the taken branches of a pattern. */
  function Ones(p: string): nat
  {
    if p == [] then 0 else (if p[0] == '1' then 1 else 0) + Ones(p[1..])
  }

  /** `std::count(pattern, '0')`: the branches not taken. */
  function Zeros(p: string): nat
  {
    if p == [] then 0 else (if p[0] == '0' then 1 else 0) + Zeros(p[1..])
  }

  /** Every character of a pattern is either a one or a zero. */
  lemma {:induction false} BinaryCounts(p: string)
    requires forall j :: 0 <= j < |p| ==> p[j] == '1' || p[j] == '0'
    ensures Ones(p) + Zeros(p) == |p|
    decreases |p|
  {
    if p != [] {
      BinaryCounts(p[1..]);
    }
  }

  /** The counts of a concatenation are the sums of the counts. */
  lemma {:induction false} CountsConcat(p: string, q: string)
    ensures Ones(p + q) == Ones(p) + Ones(q)
    ensures Zeros(p + q) == Zeros(p) + Zeros(q)
    decreases |p|
  {
    if p == [] {
      assert p + q == q;
    } else {
      assert (p + q)[1..] == p[1..] + q;
      CountsConcat(p[1..], q);
    }
  }

  /** `n` copies of the character of one outcome. */
  function Run(b: bool, n: nat): (p: string)
    ensures |p| == n
    ensures forall j :: 0 <= j < n ==> p[j] == Bit(b)
  {
    seq(n, _ => Bit(b))
  }

  /** A run of ones has only ones, a run of zeros only zeros. */
  lemma {:induction false} RunCounts(b: bool, n: nat)
    ensures Ones(Run(b, n)) == (if b then n else 0)
    ensures Zeros(Run(b, n)) == (if b then 0 else n)
    decreases n
  {
    if n > 0 {
      assert Run(b, n)[1..] == Run(b, n - 1);
      RunCounts(b, n - 1);
    }
  }

  /** Windows of a location with `len` outcomes: none below 16 (line 577), else `len - 15`. */
  function WindowCount(len: nat): nat
  {
    if len < HistoryLength then 0 else len - (HistoryLength - 1)
  }

  /** The pattern of the window starting at outcome `i`. */
  function Window(o: seq<bool>, i: nat): string
    requires i + HistoryLength <= |o|
  {
    Pattern(o[i..i + HistoryLength])
  }

  /** The histogram of the first `n` windows. */
  function WindowHistogram(o: seq<bool>, n: nat): map<string, nat>
    requires n <= WindowCount(|o|)
  {
    if n == 0 then map[] else Inc(WindowHistogram(o, n - 1), Window(o, n - 1))
  }

  /** The pattern histogram `H` of one branch location. */
  function PatternHistogramOf(o: seq<bool>): map<string, nat>
  {
    WindowHistogram(o, WindowCount(|o|))
  }

  /** A window is the pattern whose every character spells the corresponding outcome. */
  lemma WindowIs(o: seq<bool>, i: nat, p: string)
    requires i + HistoryLength <= |o|
    requires |p| == HistoryLength
    requires forall j :: 0 <= j < HistoryLength ==> p[j] == Bit(o[i + j])
    ensures Window(o, i) == p
  {
  }

  /** Every window is counted once: the pattern counts of a location add up to its number of windows. */
  lemma {:induction false} WindowsTotal(o: seq<bool>, n: nat)
    requires n <= WindowCount(|o|)
    ensures Total(WindowHistogram(o, n)) == n
  {
    if n > 0 {
      WindowsTotal(o, n - 1);
      TotalInc(WindowHistogram(o, n - 1), Window(o, n - 1));
    }
  }

  /** A window is 16 outcomes long, each taken or not taken. */
  lemma WindowWellFormed(o: seq<bool>, i: nat)
    requires i + HistoryLength <= |o|
    ensures |Window(o, i)| == HistoryLength
    ensures Ones(Window(o, i)) + Zeros(Window(o, i)) == HistoryLength
  {
    BinaryCounts(Window(o, i));
  }

  /** Every pattern counted for a location is one of its windows. */
  lemma {:induction false} PatternIsWindow(o: seq<bool>, n: nat, p: string)
    requires n <= WindowCount(|o|)
    requires p in WindowHistogram(o, n)
    ensures exists i :: 0 <= i < n && i + HistoryLength <= |o| && p == Window(o, i)
  {
    if p != Window(o, n - 1) {
      PatternIsWindow(o, n - 1, p);
    }
  }

  /** Every pattern counted for a location is 16 outcomes long, each taken or not taken. */
  lemma PatternsWellFormed(o: seq<bool>, n: nat, p: string)
    requires n <= WindowCount(|o|)
    requires p in WindowHistogram(o, n)
    ensures |p| == HistoryLength && Ones(p) + Zeros(p) == HistoryLength
  {
    PatternIsWindow(o, n, p);
    var i :| 0 <= i < n && i + HistoryLength <= |o| && p == Window(o, i);
    WindowWellFormed(o, i);
  }

  /** Spelling out one more outcome of a window appends its bit. */
  lemma PatternExtend(o: seq<bool>, i: nat, j: nat)
    requires i + j < |o|
    ensures Pattern(o[i..i + j + 1]) == Pattern(o[i..i + j]) + [Bit(o[i + j])]
  {
    assert o[i..i + j + 1][..j] == o[i..i + j];
  }

  /**
   * Lines 577-588: a location with fewer than 16 outcomes gives no pattern;
   * otherwise each of its windows is spelled out bit by bit and counted.
   */
  method PatternHistogram(o: seq<bool>) returns (h: map<string, nat>)
    ensures h == PatternHistogramOf(o)
  {
    h := map[];
    if |o| < HistoryLength {
      return;
    }
    var i := 0;
    while i < |o| - (HistoryLength - 1)
      invariant i <= WindowCount(|o|)
      invariant h == WindowHistogram(o, i)
    {
      var current := "";
      var j := 0;
      while j < HistoryLength
        invariant j <= HistoryLength
        invariant current == Pattern(o[i..i + j])
      {
        PatternExtend(o, i, j);
        current := current + [Bit(o[i + j])];
        j := j + 1;
      }
      h := Inc(h, current);
      i := i + 1;
    }
  }

  /** The smaller of the taken and not-taken counts of a pattern. */
  function Balance(p: string): nat
  {
    if Ones(p) <= Zeros(p) then Ones(p) else Zeros(p)
  }

  /**
   * A pattern's `number_of_occurances * linear_branch_entropy`, in eighths:
   * with `t` ones among 16, `2 * min(t/16, 1 - t/16)` is `Balance / 8`.
   */
  function LinearTerm(p: string, occ: nat): nat
  {
    Balance(p) * occ
  }

  /** The linear entropy of a pattern is between 0 and 1: its balance is at most 8 eighths. */
  lemma BalanceAtMostHalf(p: string)
    requires Ones(p) + Zeros(p) == HistoryLength
    ensures Balance(p) <= HistoryLength / 2
    ensures Balance(p) == if Ones(p) <= HistoryLength - Ones(p) then Ones(p) else HistoryLength - Ones(p)
  {
  }

  /** A pattern made of one repeated outcome has no ones or no zeros. */
  lemma {:induction false} UniformPattern(p: string, b: bool)
    requires forall j :: 0 <= j < |p| ==> p[j] == Bit(b)
    ensures b ==> Zeros(p) == 0
    ensures !b ==> Ones(p) == 0
    decreases |p|
  {
    if p != [] {
      UniformPattern(p[1..], b);
    }
  }

  /** Every window of a branch that always goes the same way is balanced at 0. */
  lemma UniformWindow(o: seq<bool>, b: bool, i: nat)
    requires forall j :: 0 <= j < |o| ==> o[j] == b
    requires i + HistoryLength <= |o|
    ensures Balance(Window(o, i)) == 0
  {
    UniformPattern(Window(o, i), b);
  }

  /** A branch that always goes the same way has zero linear entropy. */
  lemma ConstantBranchNoEntropy(o: seq<bool>, b: bool)
    requires forall i :: 0 <= i < |o| ==> o[i] == b
    ensures SumOver(PatternHistogramOf(o), LinearTerm) == 0
  {
    var h := PatternHistogramOf(o);
    forall p | p in h
      ensures LinearTerm(p, h[p]) == 0
    {
      PatternIsWindow(o, WindowCount(|o|), p);
      var i :| 0 <= i < WindowCount(|o|) && i + HistoryLength <= |o| && p == Window(o, i);
      UniformWindow(o, b, i);
    }
    SumOverZero(h, LinearTerm);
  }

  /** The windows of every location. */
  ghost function WindowCounts(ops: map<nat, seq<bool>>): map<nat, nat>
  {
    map l | l in ops :: WindowCount(|ops[l]|)
  }

  /** The linear-entropy numerator of every location. */
  ghost function LinearSums(ops: map<nat, seq<bool>>): map<nat, nat>
  {
    map l | l in ops :: SumOver(PatternHistogramOf(ops[l]), LinearTerm)
  }

  /**
   * Lines 590-607 for one location: every pattern adds its occurrences to
   * `N` and `occurrences * min(taken, not_taken)` to the linear numerator.
   */
  method PatternTally(h: map<string, nat>) returns (count: nat, linear: nat)
    requires forall p :: p in h ==> Ones(p) + Zeros(p) == HistoryLength
    ensures count == Total(h)
    ensures linear == SumOver(h, LinearTerm)
    ensures linear <= 8 * count
  {
    count, linear := 0, 0;
    var patterns := h;
    while patterns.Keys != {}
      invariant patterns.Keys <= h.Keys
      invariant forall p :: p in patterns ==> patterns[p] == h[p]
      invariant count + Total(patterns) == Total(h)
      invariant linear + SumOver(patterns, LinearTerm) == SumOver(h, LinearTerm)
      invariant linear <= 8 * count
      decreases patterns.Keys
    {
      var p :| p in patterns.Keys;
      var occ := patterns[p];
      SumOverRemove(patterns, CountTerm, p);
      SumOverRemove(patterns, LinearTerm, p);
      Stats.MulMono(Balance(p), 8, occ);
      count := count + occ;
      linear := linear + Balance(p) * occ;
      patterns := patterns - {p};
    }
  }

  /** Taking one location out of the sums. */
  lemma LocationSums(ops: map<nat, seq<bool>>, l: nat)
    requires l in ops
    ensures Total(WindowCounts(ops)) == WindowCount(|ops[l]|) + Total(WindowCounts(ops - {l}))
    ensures Total(LinearSums(ops)) == SumOver(PatternHistogramOf(ops[l]), LinearTerm) + Total(LinearSums(ops - {l}))
  {
    SumOverRemove(WindowCounts(ops), CountTerm, l);
    SumOverRemove(LinearSums(ops), CountTerm, l);
    assert WindowCounts(ops) - {l} == WindowCounts(ops - {l});
    assert LinearSums(ops) - {l} == LinearSums(ops - {l});
  }

  /** No pattern of 16 outcomes contributes more than 8 eighths per occurrence. */
  lemma {:induction false} LinearAtMostCount(h: map<string, nat>)
    requires forall p :: p in h ==> Ones(p) + Zeros(p) == HistoryLength
    ensures SumOver(h, LinearTerm) <= 8 * Total(h)
    decreases h.Keys
  {
    if h.Keys != {} {
      var p :| p in h.Keys;
      SumOverRemove(h, LinearTerm, p);
      SumOverRemove(h, CountTerm, p);
      LinearAtMostCount(h - {p});
      Stats.MulMono(Balance(p), 8, h[p]);
    }
  }

  /** Over all locations the linear-entropy numerator is at most 8 per window: the average is at most 1. */
  lemma {:induction false} LinearAtMostWindows(ops: map<nat, seq<bool>>)
    ensures Total(LinearSums(ops)) <= 8 * Total(WindowCounts(ops))
    decreases ops.Keys
  {
    if ops.Keys != {} {
      var l :| l in ops.Keys;
      var o := ops[l];
      LocationSums(ops, l);
      LinearAtMostWindows(ops - {l});
      WindowsTotal(o, WindowCount(|o|));
      forall p | p in PatternHistogramOf(o)
        ensures Ones(p) + Zeros(p) == HistoryLength
      {
        PatternsWellFormed(o, WindowCount(|o|), p);
      }
      LinearAtMostCount(PatternHistogramOf(o));
    }
  }

  /**
   * Lines 574-608: over all branch locations, `N` counts the windows and
   * `linear` accumulates `occurrences * min(taken, not_taken)`.  Since a pattern
   * has 16 outcomes, no pattern contributes more than 8 per window.
   */
  method BranchWindows(ops: map<nat, seq<bool>>) returns (n: nat, linear: nat)
    ensures n == Total(WindowCounts(ops))
    ensures linear == Total(LinearSums(ops))
    ensures linear <= 8 * n
  {
    n, linear := 0, 0;
    var rest := ops;
    while rest.Keys != {}
      invariant n + Total(WindowCounts(rest)) == Total(WindowCounts(ops))
      invariant linear + Total(LinearSums(rest)) == Total(LinearSums(ops))
      invariant linear <= 8 * n
      decreases rest.Keys
    {
      var l :| l in rest.Keys;
      var o := rest[l];
      LocationSums(rest, l);
      rest := rest - {l};
      if |o| < HistoryLength {
        continue;
      }
      var h := PatternHistogram(o);
      WindowsTotal(o, WindowCount(|o|));
      forall p | p in h
        ensures Ones(p) + Zeros(p) == HistoryLength
      {
        PatternsWellFormed(o, WindowCount(|o|), p);
      }
      var count, lin := PatternTally(h);
      n := n + count;
      linear := linear + lin;
    }
  }

  /** A non-negative rational, numerator over a positive denominator. */
  datatype Ratio = Ratio(num: nat, den: nat)

  /**
   * Lines 608-612: the average linear branch entropy `average_entropy / N`,
   * where the accumulated numerator is `linear / 8`; a kernel without windows
   * divides 0 by 0, and the resulting NaN is reported as 0.
   */
  function AverageLinearEntropy(n: nat, linear: nat): (r: Ratio)
    ensures r.den > 0
    ensures linear <= 8 * n ==> r.num <= r.den
    ensures n == 0 ==> r.num == 0
    ensures n > 0 ==> r.num * (8 * n) == linear * r.den
  {
    if n == 0 then Ratio(0, 1) else Ratio(linear, 8 * n)
  }
}
