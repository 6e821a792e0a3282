/** Counting arguments shared by the models: subsets, ranges and the pigeonhole principle. */
module Counting {

  /** The numbers below `n`. */
  ghost function Below(n: nat): (r: set<nat>)
    ensures forall i: nat :: i in r <==> i < n
    ensures |r| == n
  {
    if n == 0 then {} else Below(n - 1) + {n - 1}
  }

  lemma {:induction false} SubsetSize<T>(a: set<T>, b: set<T>)
    requires a <= b
    ensures |a| <= |b|
    decreases a
  {
    if a != {} {
      var x :| x in a;
      SubsetSize(a - {x}, b - {x});
    }
  }

  ghost predicate Distinct<T>(s: seq<T>) {
    forall k, l :: 0 <= k < l < |s| ==> s[k] != s[l]
  }

  function Elements<T(==,!new)>(s: seq<T>): (r: set<T>)
    ensures forall x :: x in r <==> x in s
  {
    set x | x in s
  }

  lemma ElementsOfLonger<T(!new)>(s: seq<T>, x: T)
    ensures Elements(s + [x]) == Elements(s) + {x}
  {}

  lemma {:induction false} DistinctSize<T(!new)>(s: seq<T>)
    requires Distinct(s)
    ensures |Elements(s)| == |s|
  {
    if s != [] {
      var init, last := s[..|s| - 1], s[|s| - 1];
      DistinctSize(init);
      assert last !in Elements(init);
      ElementsOfLonger(init, last);
      assert s == init + [last];
    }
  }

  predicate IsPermutation(order: seq<nat>, count: nat) {
    && |order| == count
    && (forall k :: 0 <= k < |order| ==> order[k] < count)
    && (forall k, l :: 0 <= k < l < |order| ==> order[k] != order[l])
  }

  /** A permutation of 0..count misses no number. */
  lemma PermutationCovers(order: seq<nat>, count: nat)
    requires IsPermutation(order, count)
    ensures forall c: nat :: c < count ==> c in order
  {
    DistinctSize(order);
    assert Elements(order) <= Below(count);
    if c: nat :| c < count && c !in order {
      SubsetSize(Elements(order), Below(count) - {c});
      assert false;
    }
  }

  // ---- sums over a map ----

  /** The sum of a map's values. */
  ghost function Total<K(!new)>(m: map<K, nat>): nat {
    if m == map[] then 0 else
      var k :| k in m;
      m[k] + Total(m - {k})
  }

  /** Any key may be taken out of the sum first. */
  lemma {:induction false} TotalWithout<K(!new)>(m: map<K, nat>, k: K)
    requires k in m
    ensures Total(m) == m[k] + Total(m - {k})
    decreases |m|
  {
    var l :| l in m && Total(m) == m[l] + Total(m - {l});
    if l != k {
      TotalWithout(m - {l}, k);
      TotalWithout(m - {k}, l);
      assert m - {l} - {k} == m - {k} - {l};
    }
  }

  lemma TotalUpdate<K(!new)>(m: map<K, nat>, k: K, v: nat)
    ensures Total(m[k := v]) == Total(m - {k}) + v
    ensures Total(m) == Total(m - {k}) + if k in m then m[k] else 0
  {
    TotalWithout(m[k := v], k);
    assert m[k := v] - {k} == m - {k};
    if k in m {
      TotalWithout(m, k);
    } else {
      assert m - {k} == m;
    }
  }

  /** Fewer entries, no larger sum. */
  lemma {:induction false} TotalOfSubmap<K(!new)>(part: map<K, nat>, m: map<K, nat>)
    requires part.Keys <= m.Keys && forall k :: k in part ==> part[k] == m[k]
    ensures Total(part) <= Total(m)
    decreases |part|
  {
    if part != map[] {
      var k :| k in part;
      TotalWithout(part, k);
      TotalWithout(m, k);
      TotalOfSubmap(part - {k}, m - {k});
    }
  }
}
