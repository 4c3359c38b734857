/** Sorting and deduplication of index lists, and the ascending keys of an ordered map. */
module Orderings {
  import opened Fields
  import opened Sums

  predicate Sorted(xs: seq<u32>)
  {
    forall i, j :: 0 <= i < j < |xs| ==> xs[i] <= xs[j]
  }

  predicate Increasing(xs: seq<u32>)
  {
    forall i, j :: 0 <= i < j < |xs| ==> xs[i] < xs[j]
  }

  function ToSet<T(==, !new)>(xs: seq<T>): (s: set<T>)
    ensures forall x :: x in s <==> x in xs
  {
    set x | x in xs
  }

  /** The members of a prefix, one element longer. */
  lemma ToSetPrefix<T(!new)>(xs: seq<T>, k: nat)
    requires k < |xs|
    ensures ToSet(xs[..k + 1]) == ToSet(xs[..k]) + {xs[k]}
    ensures Distinct(xs) ==> xs[k] !in ToSet(xs[..k])
  {
  }

  function Insert(x: u32, xs: seq<u32>): (r: seq<u32>)
    ensures |r| == |xs| + 1
    ensures forall y :: y in r <==> y == x || y in xs
  {
    if xs == [] || x <= xs[0] then [x] + xs else [xs[0]] + Insert(x, xs[1..])
  }

  lemma {:induction false} InsertSorted(x: u32, xs: seq<u32>)
    requires Sorted(xs)
    ensures Sorted(Insert(x, xs))
  {
    if xs != [] && x > xs[0] {
      InsertSorted(x, xs[1..]);
      var rest := Insert(x, xs[1..]);
      assert forall j :: 0 <= j < |rest| ==> rest[j] in rest;
    }
  }

  lemma PrependIncreasing(x: u32, xs: seq<u32>)
    requires Increasing(xs) && (xs == [] || x < xs[0])
    ensures Increasing([x] + xs)
  {
  }

  lemma {:induction false} InsertIncreasing(x: u32, xs: seq<u32>)
    requires Increasing(xs) && x !in xs
    ensures Increasing(Insert(x, xs))
  {
    if xs == [] || x <= xs[0] {
      PrependIncreasing(x, xs);
    } else {
      InsertIncreasing(x, xs[1..]);
      PrependIncreasing(xs[0], Insert(x, xs[1..]));
    }
  }

  /** The library sort. */
  function SortUnstable(xs: seq<u32>): (r: seq<u32>)
    ensures Sorted(r) && |r| == |xs|
    ensures forall y :: y in r <==> y in xs
  {
    if xs == [] then []
    else
      var rest := SortUnstable(xs[1..]);
      InsertSorted(xs[0], rest);
      Insert(xs[0], rest)
  }

  /** Removes consecutive repetitions, keeping the first of each run. */
  function Dedup(xs: seq<u32>): (r: seq<u32>)
    requires Sorted(xs)
    ensures Increasing(r)
    ensures forall y :: y in r <==> y in xs
    ensures xs != [] ==> r != [] && r[0] == xs[0]
  {
    if |xs| <= 1 then xs
    else
      var rest := Dedup(xs[1..]);
      assert forall j :: 0 <= j < |rest| ==> rest[j] in rest;
      if xs[0] == xs[1] then rest else [xs[0]] + rest
  }

  lemma IncreasingDistinct(xs: seq<u32>)
    requires Increasing(xs)
    ensures Distinct(xs)
  {
  }

  lemma DistinctExtends<T(!new)>(xs: seq<T>)
    requires xs != [] && xs[|xs| - 1] !in xs[..|xs| - 1]
    ensures Distinct(xs) <==> Distinct(xs[..|xs| - 1])
  {
  }

  lemma SubsetSize<T>(a: set<T>, b: set<T>)
    requires a <= b
    ensures |a| <= |b|
    ensures |a| == |b| ==> a == b
  {
    assert |b - a| == |b| - |a|;
  }

  /** A list has as many members as elements exactly when nothing repeats. */
  lemma {:induction false} MemberCount<T(!new)>(xs: seq<T>)
    ensures |ToSet(xs)| <= |xs|
    ensures |ToSet(xs)| == |xs| <==> Distinct(xs)
  {
    if xs != [] {
      var n := |xs| - 1;
      MemberCount(xs[..n]);
      ToSetPrefix(xs, n);
      assert xs[..n + 1] == xs;
      if xs[n] in xs[..n] {
        assert ToSet(xs[..n]) + {xs[n]} == ToSet(xs[..n]);
      } else {
        DistinctExtends(xs);
      }
    }
  }

  /** Sorting and deduplicating keeps the length exactly when nothing repeats. */
  lemma DedupDetects(xs: seq<u32>)
    ensures |Dedup(SortUnstable(xs))| == |xs| <==> Distinct(xs)
  {
    var d := Dedup(SortUnstable(xs));
    assert ToSet(d) == ToSet(xs);
    IncreasingDistinct(d);
    MemberCount(d);
    MemberCount(xs);
  }

  /** An increasing list is determined by its members. */
  lemma {:induction false} IncreasingUnique(xs: seq<u32>, ys: seq<u32>)
    requires Increasing(xs) && Increasing(ys) && ToSet(xs) == ToSet(ys)
    ensures xs == ys
  {
    MemberCount(xs);
    MemberCount(ys);
    if xs != [] {
      assert xs[0] in ToSet(ys) && ys[0] in ToSet(xs);
      assert forall x :: x in xs[1..] <==> x in ToSet(xs) && x != xs[0];
      assert forall y :: y in ys[1..] <==> y in ToSet(ys) && y != ys[0];
      IncreasingUnique(xs[1..], ys[1..]);
    }
  }

  /** The keys of an ordered map, in the order its iterator gives them. */
  method AscendingKeys<V>(m: map<u32, V>) returns (keys: seq<u32>)
    ensures Increasing(keys) && ToSet(keys) == m.Keys
  {
    keys := [];
    var rest := m.Keys;
    while rest != {}
      invariant rest <= m.Keys && Increasing(keys)
      invariant forall k :: k in keys <==> k in m.Keys - rest
      decreases rest
    {
      var k :| k in rest;
      InsertIncreasing(k, keys);
      keys := Insert(k, keys);
      rest := rest - {k};
    }
  }
}
