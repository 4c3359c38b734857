/** Sums of lists of scalars, as the library's loops accumulate them. */
module Sums {
  import opened Fields

  function SumSeq<S(!new)>(F: Field<S>, xs: seq<S>): S
  {
    if xs == [] then F.zero
    else F.Add(SumSeq(F, xs[..|xs| - 1]), xs[|xs| - 1])
  }

  predicate Distinct<T(==)>(xs: seq<T>)
  {
    forall i, j :: 0 <= i < j < |xs| ==> xs[i] != xs[j]
  }

  lemma {:induction false} SumSeqOfSums<S(!new)>(F: Field<S>, a: seq<S>, b: seq<S>, c: seq<S>)
    requires F.Valid()
    requires |a| == |b| == |c|
    requires forall i :: 0 <= i < |c| ==> c[i] == F.Add(a[i], b[i])
    ensures SumSeq(F, c) == F.Add(SumSeq(F, a), SumSeq(F, b))
    decreases |a|
  {
    if a == [] {
      F.AddZero(F.zero);
    } else {
      var n := |a| - 1;
      SumSeqOfSums(F, a[..n], b[..n], c[..n]);
      F.Add4(SumSeq(F, a[..n]), SumSeq(F, b[..n]), a[n], b[n]);
    }
  }

  lemma {:induction false} SumSeqScale<S(!new)>(F: Field<S>, s: S, a: seq<S>, c: seq<S>)
    requires F.Valid()
    requires |a| == |c|
    requires forall i :: 0 <= i < |c| ==> c[i] == F.Mul(s, a[i])
    ensures SumSeq(F, c) == F.Mul(s, SumSeq(F, a))
    decreases |a|
  {
    if a == [] {
      F.MulZero(s);
    } else {
      var n := |a| - 1;
      SumSeqScale(F, s, a[..n], c[..n]);
      F.Distribute(s, SumSeq(F, a[..n]), a[n]);
    }
  }
}
