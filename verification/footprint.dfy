/**
 * The memory-footprint histograms of the kernel summary: every logged
 * address is counted once per shift `nskip` in 0..10, under the key
 * `address >> nskip`.  Shift 0 counts distinct addresses; each further shift
 * merges neighbouring addresses, which the local-entropy figures use.
 */
module Footprint {

  import opened Histogram

  /** The number of shifts: `local_address_count(11)`. */
  const Shifts: nat := 11

  /** `address >> n` on an unsigned address. */
  function Shr(a: nat, n: nat): (r: nat)
    ensures r <= a
  {
    if n == 0 then a else Shr(a / 2, n - 1)
  }

  /** Shifting once more halves the shifted address. */
  lemma {:induction false} ShrStep(a: nat, n: nat)
    ensures Shr(a, n + 1) == Shr(a, n) / 2
    decreases n
  {
    if n > 0 {
      ShrStep(a / 2, n - 1);
    }
  }

  /** The histogram of `address >> s` over the logged addresses, in log order. */
  function ShiftedCounts(addrs: seq<nat>, s: nat): map<nat, nat>
    decreases |addrs|
  {
    if addrs == [] then map[]
    else Inc(ShiftedCounts(addrs[..|addrs| - 1], s), Shr(addrs[|addrs| - 1], s))
  }

  /** The distinct shifted addresses. */
  ghost function Shifted(addrs: seq<nat>, s: nat): set<nat>
  {
    set i | 0 <= i < |addrs| :: Shr(addrs[i], s)
  }

  /** Every logged access is counted exactly once at every shift. */
  lemma {:induction false} ShiftedTotal(addrs: seq<nat>, s: nat)
    ensures Total(ShiftedCounts(addrs, s)) == |addrs|
    decreases |addrs|
  {
    if addrs != [] {
      ShiftedTotal(addrs[..|addrs| - 1], s);
      TotalInc(ShiftedCounts(addrs[..|addrs| - 1], s), Shr(addrs[|addrs| - 1], s));
    }
  }

  /** The keys at shift `s` are exactly the shifted addresses, and each was counted at least once. */
  lemma {:induction false} ShiftedKeys(addrs: seq<nat>, s: nat)
    ensures ShiftedCounts(addrs, s).Keys == Shifted(addrs, s)
    ensures forall k :: k in ShiftedCounts(addrs, s) ==> ShiftedCounts(addrs, s)[k] > 0
    decreases |addrs|
  {
    if addrs != [] {
      var n := |addrs| - 1;
      var front := addrs[..n];
      ShiftedKeys(front, s);
      assert Shifted(addrs, s) == Shifted(front, s) + {Shr(addrs[n], s)} by {
        forall x | x in Shifted(addrs, s)
          ensures x in Shifted(front, s) + {Shr(addrs[n], s)}
        {
          var i :| 0 <= i < |addrs| && x == Shr(addrs[i], s);
          if i < n {
            assert front[i] == addrs[i];
          }
        }
        forall x | x in Shifted(front, s)
          ensures x in Shifted(addrs, s)
        {
          var i :| 0 <= i < |front| && x == Shr(front[i], s);
          assert addrs[i] == front[i];
        }
      }
    }
  }

  /** The footprint never exceeds the number of accesses. */
  lemma FootprintAtMostAccesses(addrs: seq<nat>, s: nat)
    ensures |ShiftedCounts(addrs, s)| <= |addrs|
  {
    ShiftedKeys(addrs, s);
    KeysAtMostTotal(ShiftedCounts(addrs, s));
    ShiftedTotal(addrs, s);
  }

  /** The image of a set of addresses under halving. */
  ghost function Halved(a: set<nat>): set<nat>
  {
    set x | x in a :: x / 2
  }

  lemma {:induction false} HalvedSize(a: set<nat>)
    ensures |Halved(a)| <= |a|
    decreases a
  {
    if a != {} {
      var x :| x in a;
      HalvedSize(a - {x});
      assert Halved(a) == Halved(a - {x}) + {x / 2} by {
        forall y | y in Halved(a)
          ensures y in Halved(a - {x}) + {x / 2}
        {
          var z :| z in a && y == z / 2;
          if z != x {
            assert z in a - {x};
          }
        }
      }
    }
  }

  /** The keys one shift further are the halved keys. */
  lemma {:induction false} ShiftedKeysHalve(addrs: seq<nat>, s: nat)
    ensures ShiftedCounts(addrs, s + 1).Keys == Halved(ShiftedCounts(addrs, s).Keys)
    decreases |addrs|
  {
    if addrs != [] {
      var n := |addrs| - 1;
      ShiftedKeysHalve(addrs[..n], s);
      ShrStep(addrs[n], s);
      var prev := ShiftedCounts(addrs[..n], s).Keys;
      assert Halved(prev + {Shr(addrs[n], s)}) == Halved(prev) + {Shr(addrs[n], s) / 2};
    }
  }

  /** Dropping one more low bit never increases the number of distinct addresses. */
  lemma CoarserFewer(addrs: seq<nat>, s: nat)
    ensures |ShiftedCounts(addrs, s + 1)| <= |ShiftedCounts(addrs, s)|
  {
    ShiftedKeysHalve(addrs, s);
    HalvedSize(ShiftedCounts(addrs, s).Keys);
  }

  /**
   * Lines 442-448: for every logged address and every shift 0..10, increment
   * the count of `address >> nskip` in the histogram of that shift.
   */
  method AddressHistograms(addrs: seq<nat>) returns (hist: seq<map<nat, nat>>)
    ensures |hist| == Shifts
    ensures forall s :: 0 <= s < Shifts ==> hist[s] == ShiftedCounts(addrs, s)
  {
    hist := seq(Shifts, _ => map[]);
    var i := 0;
    while i < |addrs|
      invariant i <= |addrs|
      invariant |hist| == Shifts
      invariant forall s :: 0 <= s < Shifts ==> hist[s] == ShiftedCounts(addrs[..i], s)
    {
      var address := addrs[i];
      assert addrs[..i + 1][..i] == addrs[..i];
      var nskip := 0;
      while nskip <= 10
        invariant nskip <= Shifts
        invariant |hist| == Shifts
        invariant forall s :: 0 <= s < nskip ==> hist[s] == ShiftedCounts(addrs[..i + 1], s)
        invariant forall s :: nskip <= s < Shifts ==> hist[s] == ShiftedCounts(addrs[..i], s)
      {
        var localAddr := Shr(address, nskip);
        hist := hist[nskip := Inc(hist[nskip], localAddr)];
        nskip := nskip + 1;
      }
      i := i + 1;
    }
    assert addrs[..|addrs|] == addrs;
  }
}
