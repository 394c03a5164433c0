/**
 * Histograms.
 *
 * Every counting container of the plugin is a C++ `unordered_map` from a key
 * (an opcode name, a SIMD width, an operand label, an address, a history
 * pattern) to a count.  Here it is a Dafny `map<K, nat>`.  Reading or
 * incrementing through `operator[]` creates an absent key with count zero,
 * which `Get` and `Add` reproduce.
 *
 * The iteration order of an `unordered_map` is unspecified.  A *listing* of a
 * map is one such order: every entry exactly once.  Sums over a map are
 * defined without fixing an order (`SumOver`, `Total`) and lemmas connect
 * them to the same sum taken along any listing.
 */
module Histogram {

  import opened Sorting

  /** `m[k]` read through `operator[]`: an absent key counts zero. */
  function Get<K>(m: map<K, nat>, k: K): nat
  {
    if k in m then m[k] else 0
  }

  /** `m[k] += n` through `operator[]`. */
  function Add<K>(m: map<K, nat>, k: K, n: nat): (r: map<K, nat>)
    ensures r.Keys == m.Keys + {k}
    ensures Get(r, k) == Get(m, k) + n
    ensures forall j :: j in m && j != k ==> r[j] == m[j]
  {
    m[k := Get(m, k) + n]
  }

  /** `m[k]++`. */
  function Inc<K>(m: map<K, nat>, k: K): (r: map<K, nat>)
    ensures r.Keys == m.Keys + {k}
  {
    Add(m, k, 1)
  }

  /**
   * The key-by-key sum of two histograms: what the merge loops
   * `global[item.first] += item.second` leave behind.
   */
  function Merge<K>(a: map<K, nat>, b: map<K, nat>): (r: map<K, nat>)
    ensures r.Keys == a.Keys + b.Keys
  {
    map k | k in a.Keys + b.Keys :: Get(a, k) + Get(b, k)
  }

  /** The term of a plain count: `SumOver(m, CountTerm)` is the number of occurrences. */
  function CountTerm<K>(k: K, c: nat): nat
  {
    c
  }

  /** The term counting the keys whose count is `v`. */
  function KeysWithCount<K>(v: nat): (K, nat) -> nat
  {
    (k: K, c: nat) => if c == v then 1 else 0
  }

  /**
   * The sum of `f(key, count)` over all entries of `m`, taken in no
   * particular order (the entry removed first is an arbitrary one).
   */
  ghost function SumOver<K>(m: map<K, nat>, f: (K, nat) -> nat): nat
    decreases m.Keys
  {
    if m.Keys == {} then 0
    else
      var k :| k in m.Keys;
      f(k, m[k]) + SumOver(m - {k}, f)
  }

  /** The number of occurrences a histogram records. */
  ghost function Total<K>(m: map<K, nat>): nat
  {
    SumOver(m, CountTerm)
  }

  /** Any entry can be taken out first: `SumOver` does not depend on the order. */
  lemma {:induction false} SumOverRemove<K>(m: map<K, nat>, f: (K, nat) -> nat, k: K)
    requires k in m
    ensures SumOver(m, f) == f(k, m[k]) + SumOver(m - {k}, f)
    decreases m.Keys
  {
    var j :| j in m.Keys && SumOver(m, f) == f(j, m[j]) + SumOver(m - {j}, f);
    if j != k {
      var mj, mk := m - {j}, m - {k};
      SumOverRemove(mj, f, k);
      SumOverRemove(mk, f, j);
      assert mj - {k} == mk - {j};
    }
  }

  /** Removing a key forgets what was last stored at it. */
  lemma UpdateThenRemove<K>(m: map<K, nat>, k: K, v: nat)
    ensures m[k := v] - {k} == m - {k}
  {
  }

  /** Changing the count at one key changes only that key's term. */
  lemma SumOverAdd<K>(m: map<K, nat>, f: (K, nat) -> nat, k: K, n: nat)
    ensures SumOver(Add(m, k, n), f) + (if k in m then f(k, m[k]) else 0)
         == SumOver(m, f) + f(k, Get(m, k) + n)
  {
    var v := Get(m, k) + n;
    var r := m[k := v];
    assert Add(m, k, n) == r;
    SumOverRemove(r, f, k);
    assert r[k] == v;
    UpdateThenRemove(m, k, v);
    if k in m {
      SumOverRemove(m, f, k);
    } else {
      assert m - {k} == m;
    }
  }

  /** A sum of zero terms is zero. */
  lemma {:induction false} SumOverZero<K>(m: map<K, nat>, f: (K, nat) -> nat)
    requires forall k :: k in m ==> f(k, m[k]) == 0
    ensures SumOver(m, f) == 0
    decreases m.Keys
  {
    if m.Keys != {} {
      var k :| k in m.Keys;
      SumOverRemove(m, f, k);
      SumOverZero(m - {k}, f);
    }
  }

  /** An empty histogram records nothing. */
  lemma TotalEmpty<K>(m: map<K, nat>)
    requires m == map[]
    ensures Total(m) == 0
  {
  }

  /** Adding `n` at a key is `n` more occurrences. */
  lemma TotalAdd<K>(m: map<K, nat>, k: K, n: nat)
    ensures Total(Add(m, k, n)) == Total(m) + n
  {
    SumOverAdd(m, CountTerm, k, n);
  }

  lemma TotalInc<K>(m: map<K, nat>, k: K)
    ensures Total(Inc(m, k)) == Total(m) + 1
  {
    TotalAdd(m, k, 1);
  }

  /** A merged histogram records exactly the occurrences of both: nothing is lost or counted twice. */
  lemma {:induction false} TotalMerge<K>(a: map<K, nat>, b: map<K, nat>)
    ensures Total(Merge(a, b)) == Total(a) + Total(b)
    decreases b.Keys
  {
    if b.Keys == {} {
      assert Merge(a, b) == a;
    } else {
      var k :| k in b.Keys;
      var b' := b - {k};
      TotalMerge(a, b');
      MergeStep(a, b, k);
      TotalAdd(Merge(a, b'), k, b[k]);
      SumOverRemove(b, CountTerm, k);
    }
  }

  /** Merging one key of `b` after the rest is adding its count. */
  lemma MergeStep<K>(a: map<K, nat>, b: map<K, nat>, k: K)
    requires k in b
    ensures Merge(a, b) == Add(Merge(a, b - {k}), k, b[k])
  {
    var l, r := Merge(a, b), Add(Merge(a, b - {k}), k, b[k]);
    assert l.Keys == r.Keys;
    forall j | j in l
      ensures l[j] == r[j]
    {
    }
  }

  /** Merging is order-independent: work-groups may complete in any order. */
  lemma MergeCommutes<K>(a: map<K, nat>, b: map<K, nat>)
    ensures Merge(a, b) == Merge(b, a)
  {
  }

  lemma MergeAssociates<K>(a: map<K, nat>, b: map<K, nat>, c: map<K, nat>)
    ensures Merge(Merge(a, b), c) == Merge(a, Merge(b, c))
  {
  }

  /** A histogram whose every count is positive has no more keys than occurrences. */
  lemma {:induction false} KeysAtMostTotal<K>(m: map<K, nat>)
    requires forall k :: k in m ==> m[k] > 0
    ensures |m| <= Total(m)
    decreases m.Keys
  {
    if m.Keys != {} {
      var k :| k in m.Keys;
      SumOverRemove(m, CountTerm, k);
      KeysAtMostTotal(m - {k});
      assert (m - {k}).Keys == m.Keys - {k};
    }
  }

  /**
   * `global[k] += group[k]` for every key of the group, in the group's
   * (unspecified) iteration order.
   */
  method AddCounts<K>(acc: map<K, nat>, group: map<K, nat>) returns (r: map<K, nat>)
    ensures r.Keys == acc.Keys + group.Keys
    ensures forall k :: k in group ==> r[k] == Get(acc, k) + group[k]
    ensures forall k :: k in acc && k !in group ==> r[k] == acc[k]
    ensures r == Merge(acc, group)
  {
    r := acc;
    var rest := group.Keys;
    while rest != {}
      invariant rest <= group.Keys
      invariant r.Keys == acc.Keys + (group.Keys - rest)
      invariant forall k :: k in r ==> r[k] == Get(acc, k) + (if k in group && k !in rest then group[k] else 0)
      decreases rest
    {
      var k :| k in rest;
      r := r[k := Get(r, k) + group[k]];
      rest := rest - {k};
    }
    assert r == Merge(acc, group);
  }

  /** The sum of all counts of a histogram, accumulated entry by entry. */
  method SumCounts<K>(m: map<K, nat>) returns (total: nat)
    ensures total == Total(m)
  {
    total := 0;
    var rest := m;
    while rest.Keys != {}
      invariant total + Total(rest) == Total(m)
      decreases rest.Keys
    {
      var k :| k in rest.Keys;
      SumOverRemove(rest, CountTerm, k);
      total := total + rest[k];
      rest := rest - {k};
    }
  }

  /** `es` visits every entry of `m` exactly once, in some order. */
  ghost predicate Lists<K, V>(es: seq<(K, V)>, m: map<K, V>)
    decreases |es|
  {
    if es == [] then m.Keys == {}
    else es[0].0 in m && m[es[0].0] == es[0].1 && Lists(es[1..], m - {es[0].0})
  }

  /** The counts of a listing, in listing order. */
  function Counts<K>(es: seq<(K, nat)>): (r: seq<nat>)
    ensures |r| == |es|
    ensures forall i :: 0 <= i < |es| ==> r[i] == es[i].1
  {
    if es == [] then [] else [es[0].1] + Counts(es[1..])
  }

  /** The sum of `f(key, count)` along a listing, in listing order. */
  function SumAlong<K>(es: seq<(K, nat)>, f: (K, nat) -> nat): nat
  {
    if es == [] then 0 else f(es[0].0, es[0].1) + SumAlong(es[1..], f)
  }

  /** Iterating an `unordered_map`: its entries, each once, in an order the map does not fix. */
  method Entries<K, V>(m: map<K, V>) returns (es: seq<(K, V)>)
    ensures Lists(es, m)
  {
    es := [];
    var rest := m;
    while rest.Keys != {}
      invariant rest.Keys <= m.Keys
      invariant forall k :: k in rest ==> rest[k] == m[k]
      invariant Lists(es, m - rest.Keys)
      decreases rest.Keys
    {
      var k :| k in rest.Keys;
      assert (m - (rest - {k}).Keys) - {k} == m - rest.Keys;
      es := [(k, rest[k])] + es;
      rest := rest - {k};
    }
    assert m - rest.Keys == m;
  }

  /** Summing along any listing gives the order-free sum. */
  lemma {:induction false} ListingSum<K>(es: seq<(K, nat)>, m: map<K, nat>, f: (K, nat) -> nat)
    requires Lists(es, m)
    ensures SumAlong(es, f) == SumOver(m, f)
    decreases |es|
  {
    if es != [] {
      ListingSum(es[1..], m - {es[0].0}, f);
      SumOverRemove(m, f, es[0].0);
    }
  }

  /** A listing has one element per key. */
  lemma {:induction false} ListingSize<K, V>(es: seq<(K, V)>, m: map<K, V>)
    requires Lists(es, m)
    ensures |es| == |m|
    decreases |es|
  {
    if es != [] {
      ListingSize(es[1..], m - {es[0].0});
      assert (m - {es[0].0}).Keys == m.Keys - {es[0].0};
    }
  }

  /** How often `v` occurs among the counts of a listing is a sum along it. */
  lemma {:induction false} CountsMultiplicity<K>(es: seq<(K, nat)>, v: nat)
    ensures multiset(Counts(es))[v] == SumAlong(es, KeysWithCount(v))
    decreases |es|
  {
    if es != [] {
      CountsMultiplicity(es[1..], v);
      assert Counts(es) == [es[0].1] + Counts(es[1..]);
    }
  }

  /** Two iteration orders of one map meet the same multiset of counts. */
  lemma ListingsAgree<K>(es1: seq<(K, nat)>, es2: seq<(K, nat)>, m: map<K, nat>)
    requires Lists(es1, m) && Lists(es2, m)
    ensures multiset(Counts(es1)) == multiset(Counts(es2))
  {
    forall v: nat
      ensures multiset(Counts(es1))[v] == multiset(Counts(es2))[v]
    {
      CountsMultiplicity(es1, v);
      CountsMultiplicity(es2, v);
      ListingSum(es1, m, KeysWithCount(v));
      ListingSum(es2, m, KeysWithCount(v));
    }
  }

  /** One listing of a map, chosen without fixing any order. */
  ghost function Listing<K, V>(m: map<K, V>): (es: seq<(K, V)>)
    ensures Lists(es, m)
    decreases m.Keys
  {
    if m.Keys == {} then []
    else
      var k :| k in m.Keys;
      var es := [(k, m[k])] + Listing(m - {k});
      assert es[1..] == Listing(m - {k});
      es
  }

  /** The counts of a listing add up to the sum of counts along it. */
  lemma {:induction false} CountsSum<K>(es: seq<(K, nat)>)
    ensures Sum(Counts(es)) == SumAlong(es, CountTerm)
    decreases |es|
  {
    if es != [] {
      CountsSum(es[1..]);
      assert Counts(es)[1..] == Counts(es[1..]);
    }
  }
}
