/**
 * Sequences of counts: sums, extremes and the sorted copies that the
 * summariser takes with `std::sort` and `std::partial_sort_copy`.
 *
 * The sort is modelled as insertion sort.  What the summariser relies on is
 * only that the result is ordered and a permutation of its input; the lemma
 * `SortedUnique` shows that these two facts fix the result completely, so
 * any correct sort gives the same sequence of counts.
 */
module Sorting {

  function Sum(s: seq<nat>): nat
  {
    if s == [] then 0 else s[0] + Sum(s[1..])
  }

  lemma {:induction false} SumConcat(a: seq<nat>, b: seq<nat>)
    ensures Sum(a + b) == Sum(a) + Sum(b)
    decreases |a|
  {
    if a != [] {
      assert (a + b)[1..] == a[1..] + b;
      SumConcat(a[1..], b);
    } else {
      assert a + b == b;
    }
  }

  /** Extending a prefix by one element adds that element to its sum. */
  lemma PrefixSumStep(s: seq<nat>, k: nat)
    requires k < |s|
    ensures Sum(s[..k + 1]) == Sum(s[..k]) + s[k]
  {
    assert s[..k + 1] == s[..k] + [s[k]];
    SumConcat(s[..k], [s[k]]);
  }

  ghost predicate SortedAsc(s: seq<nat>)
  {
    forall i, j :: 0 <= i < j < |s| ==> s[i] <= s[j]
  }

  ghost predicate SortedDesc(s: seq<nat>)
  {
    forall i, j :: 0 <= i < j < |s| ==> s[i] >= s[j]
  }

  /** An element no larger than any of an ascending sequence can go in front of it. */
  lemma ConsSorted(h: nat, t: seq<nat>)
    requires SortedAsc(t)
    requires forall i :: 0 <= i < |t| ==> h <= t[i]
    ensures SortedAsc([h] + t)
  {
  }

  /** A permutation of `rest + [x]` keeps every lower bound of `rest` that `x` also meets. */
  lemma BoundKept(h: nat, rest: seq<nat>, x: nat, t: seq<nat>)
    requires forall i :: 0 <= i < |rest| ==> h <= rest[i]
    requires h <= x
    requires multiset(t) == multiset(rest) + multiset{x}
    ensures forall i :: 0 <= i < |t| ==> h <= t[i]
  {
    forall i | 0 <= i < |t|
      ensures h <= t[i]
    {
      assert t[i] in multiset(t);
      if t[i] != x {
        assert t[i] in multiset(rest);
      }
    }
  }

  /** Inserts `x` into an ascending sequence, before the first element not smaller than it. */
  function Insert(x: nat, s: seq<nat>): (r: seq<nat>)
    requires SortedAsc(s)
    ensures SortedAsc(r)
    ensures multiset(r) == multiset(s) + multiset{x}
    ensures Sum(r) == Sum(s) + x
  {
    if s == [] || x <= s[0] then
      ConsSorted(x, s);
      assert ([x] + s)[1..] == s;
      [x] + s
    else
      var t := Insert(x, s[1..]);
      BoundKept(s[0], s[1..], x, t);
      ConsSorted(s[0], t);
      assert s == [s[0]] + s[1..];
      assert ([s[0]] + t)[1..] == t;
      [s[0]] + t
  }

  /** The ascending sorted copy of a sequence of counts (`std::sort`). */
  function SortAsc(s: seq<nat>): (r: seq<nat>)
    ensures SortedAsc(r)
    ensures multiset(r) == multiset(s)
    ensures |r| == |s|
    ensures Sum(r) == Sum(s)
  {
    if s == [] then []
    else
      assert s == [s[0]] + s[1..];
      Insert(s[0], SortAsc(s[1..]))
  }

  function Reverse(s: seq<nat>): (r: seq<nat>)
    ensures |r| == |s|
    ensures forall i :: 0 <= i < |s| ==> r[i] == s[|s| - 1 - i]
  {
    if s == [] then [] else Reverse(s[1..]) + [s[0]]
  }

  lemma {:induction false} ReverseKeeps(s: seq<nat>)
    ensures multiset(Reverse(s)) == multiset(s)
    ensures Sum(Reverse(s)) == Sum(s)
    decreases |s|
  {
    if s != [] {
      ReverseKeeps(s[1..]);
      SumConcat(Reverse(s[1..]), [s[0]]);
      assert s == [s[0]] + s[1..];
    }
  }

  /** The descending sorted copy of a sequence of counts (the comparator `left.second > right.second`). */
  function SortDesc(s: seq<nat>): (r: seq<nat>)
    ensures SortedDesc(r)
    ensures multiset(r) == multiset(s)
    ensures |r| == |s|
    ensures Sum(r) == Sum(s)
  {
    var a := SortAsc(s);
    ReverseKeeps(a);
    Reverse(a)
  }

  /** An ordered permutation is unique: sorting depends only on the multiset of its input. */
  lemma {:induction false} SortedUnique(a: seq<nat>, b: seq<nat>)
    requires SortedAsc(a) && SortedAsc(b)
    requires multiset(a) == multiset(b)
    ensures a == b
    decreases |a|
  {
    if a == [] {
      assert |multiset(b)| == 0;
    } else {
      assert a[0] in multiset(b);
      assert b != [];
      assert b[0] in multiset(a);
      assert a[0] == b[0];
      assert a == [a[0]] + a[1..];
      assert b == [b[0]] + b[1..];
      assert multiset(a) == multiset{a[0]} + multiset(a[1..]);
      assert multiset(b) == multiset{b[0]} + multiset(b[1..]);
      assert multiset(a[1..]) == multiset(a) - multiset{a[0]};
      assert multiset(b[1..]) == multiset(b) - multiset{b[0]};
      SortedUnique(a[1..], b[1..]);
    }
  }

  /** Two sequences with the same counts, in any order, sort to the same descending sequence. */
  lemma SortDescOfPermutation(a: seq<nat>, b: seq<nat>)
    requires multiset(a) == multiset(b)
    ensures SortDesc(a) == SortDesc(b)
    ensures Sum(a) == Sum(b)
  {
    SortedUnique(SortAsc(a), SortAsc(b));
  }

  /** The smallest element (`std::min_element`). */
  function Min(s: seq<nat>): (m: nat)
    requires |s| > 0
    ensures m in s
    ensures forall i :: 0 <= i < |s| ==> m <= s[i]
  {
    if |s| == 1 then s[0]
    else
      var rest := Min(s[1..]);
      assert forall i :: 1 <= i < |s| ==> s[i] == s[1..][i - 1];
      if s[0] <= rest then s[0] else rest
  }

  /** The largest element (`std::max_element`). */
  function Max(s: seq<nat>): (m: nat)
    requires |s| > 0
    ensures m in s
    ensures forall i :: 0 <= i < |s| ==> s[i] <= m
  {
    if |s| == 1 then s[0]
    else
      var rest := Max(s[1..]);
      assert forall i :: 1 <= i < |s| ==> s[i] == s[1..][i - 1];
      if s[0] >= rest then s[0] else rest
  }

  /** The ends of an ascending permutation are the extremes of the original. */
  lemma SortedEnds(s: seq<nat>, t: seq<nat>)
    requires |s| > 0
    requires SortedAsc(t) && multiset(t) == multiset(s)
    ensures |t| == |s|
    ensures t[0] == Min(s) && t[|t| - 1] == Max(s)
  {
    assert |t| == |multiset(t)| == |multiset(s)| == |s|;
    assert t[0] in multiset(s);
    assert t[|t| - 1] in multiset(s);
    assert Min(s) in multiset(t);
    assert Max(s) in multiset(t);
  }
}
