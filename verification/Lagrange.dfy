/**
 Lagrange coefficients at zero, as computed by `calculate_lagrange_coefficients`, and the theorem
 every protocol above rests on: interpolating the values of a polynomial of low enough degree
 gives its value at zero.
 */
module Lagrange {
  import opened Wrappers
  import opened Fields
  import opened Sums
  import opened Polynomials
  import opened Orderings

  ghost function Pick(s: set<nat>): (k: nat)
    requires s != {}
    ensures k in s
  {
    var k :| k in s;
    k
  }

  ghost predicate Indices(X: set<nat>)
  {
    forall k :: k in X ==> k < U32_LIMIT
  }

  // ---------- Coefficients over a set of indices ----------

  /** The product of the indices j in Y. */
  ghost function Numerator<S(!new)>(F: Field<S>, Y: set<nat>): S
  {
    if Y == {} then F.one else F.Mul(F.From(Pick(Y)), Numerator(F, Y - {Pick(Y)}))
  }

  /** The product of the differences j - i over the indices j in Y. */
  ghost function Denominator<S(!new)>(F: Field<S>, i: nat, Y: set<nat>): S
  {
    if Y == {} then F.one
    else F.Mul(F.Sub(F.From(Pick(Y)), F.From(i)), Denominator(F, i, Y - {Pick(Y)}))
  }

  /** The coefficient of index i among the indices X. */
  ghost function Lambda<S(!new)>(F: Field<S>, i: nat, X: set<nat>): S
  {
    F.Mul(Numerator(F, X - {i}), F.Inv(Denominator(F, i, X - {i})))
  }

  /** The values y, weighted by their coefficients among X, summed over the indices in Y. */
  ghost function WeightedSum<S(!new)>(F: Field<S>, y: map<nat, S>, X: set<nat>, Y: set<nat>): S
    requires Y <= y.Keys
  {
    if Y == {} then F.zero
    else
      var k := Pick(Y);
      F.Add(F.Mul(y[k], Lambda(F, k, X)), WeightedSum(F, y, X, Y - {k}))
  }

  /** Interpolation at zero from the values at X. */
  ghost function InterpolateAt<S(!new)>(F: Field<S>, y: map<nat, S>, X: set<nat>): S
    requires X <= y.Keys
  {
    WeightedSum(F, y, X, X)
  }

  /** Interpolation at zero of the values y, each at the index that keys it. */
  ghost function Interpolate<S(!new)>(F: Field<S>, y: map<nat, S>): S
  {
    InterpolateAt(F, y, y.Keys)
  }

  // ---------- Any index can be taken out first ----------

  lemma {:induction false} NumeratorRemove<S(!new)>(F: Field<S>, Y: set<nat>, r: nat)
    requires F.Valid()
    requires r in Y
    ensures Numerator(F, Y) == F.Mul(F.From(r), Numerator(F, Y - {r}))
    decreases Y
  {
    var p := Pick(Y);
    if p != r {
      NumeratorRemove(F, Y - {p}, r);
      NumeratorRemove(F, Y - {r}, p);
      assert Y - {p} - {r} == Y - {r} - {p};
      F.MulSwap(F.From(p), F.From(r), Numerator(F, Y - {p} - {r}));
    }
  }

  lemma {:induction false} DenominatorRemove<S(!new)>(F: Field<S>, i: nat, Y: set<nat>, r: nat)
    requires F.Valid()
    requires r in Y
    ensures Denominator(F, i, Y) == F.Mul(F.Sub(F.From(r), F.From(i)), Denominator(F, i, Y - {r}))
    decreases Y
  {
    var p := Pick(Y);
    if p != r {
      DenominatorRemove(F, i, Y - {p}, r);
      DenominatorRemove(F, i, Y - {r}, p);
      assert Y - {p} - {r} == Y - {r} - {p};
      F.MulSwap(F.Sub(F.From(p), F.From(i)), F.Sub(F.From(r), F.From(i)), Denominator(F, i, Y - {p} - {r}));
    }
  }

  lemma {:induction false} WeightedSumRemove<S(!new)>(F: Field<S>, y: map<nat, S>, X: set<nat>, Y: set<nat>, r: nat)
    requires F.Valid()
    requires Y <= y.Keys && r in Y
    ensures WeightedSum(F, y, X, Y) == F.Add(F.Mul(y[r], Lambda(F, r, X)), WeightedSum(F, y, X, Y - {r}))
    decreases Y
  {
    var p := Pick(Y);
    if p != r {
      WeightedSumRemove(F, y, X, Y - {p}, r);
      WeightedSumRemove(F, y, X, Y - {r}, p);
      assert Y - {p} - {r} == Y - {r} - {p};
      F.AddSwap(F.Mul(y[p], Lambda(F, p, X)), F.Mul(y[r], Lambda(F, r, X)), WeightedSum(F, y, X, Y - {p} - {r}));
    }
  }

  /** What a loop over the indices does at each step. */
  lemma WeightedSumExtend<S(!new)>(F: Field<S>, y: map<nat, S>, X: set<nat>, Y: set<nat>, r: nat)
    requires F.Valid()
    requires Y <= y.Keys && r in y && r !in Y
    ensures WeightedSum(F, y, X, Y + {r}) == F.Add(WeightedSum(F, y, X, Y), F.Mul(y[r], Lambda(F, r, X)))
  {
    assert Y + {r} - {r} == Y;
    WeightedSumRemove(F, y, X, Y + {r}, r);
    F.AddComm(F.Mul(y[r], Lambda(F, r, X)), WeightedSum(F, y, X, Y));
  }

  /** Distinct indices never make the denominator vanish. */
  lemma {:induction false} DenominatorNonZero<S(!new)>(F: Field<S>, i: nat, Y: set<nat>)
    requires F.Valid()
    requires Indices(Y) && i < U32_LIMIT && i !in Y
    ensures Denominator(F, i, Y) != F.zero
  {
    if Y != {} {
      var j := Pick(Y);
      DenominatorNonZero(F, i, Y - {j});
      F.FromInjective(j, i);
      F.SubZero(F.From(j), F.From(i));
      F.NoZeroDivisors(F.Sub(F.From(j), F.From(i)), Denominator(F, i, Y - {j}));
    }
  }

  lemma LambdaRemove<S(!new)>(F: Field<S>, i: nat, X: set<nat>, r: nat)
    requires F.Valid()
    requires Indices(X) && i in X && r in X && i != r
    ensures F.Sub(F.From(r), F.From(i)) != F.zero
    ensures Lambda(F, i, X)
         == F.Mul(F.Mul(F.From(r), F.Inv(F.Sub(F.From(r), F.From(i)))), Lambda(F, i, X - {r}))
  {
    var Y, e := X - {i}, F.Sub(F.From(r), F.From(i));
    NumeratorRemove(F, Y, r);
    DenominatorRemove(F, i, Y, r);
    assert Y - {r} == X - {r} - {i};
    DenominatorNonZero(F, i, Y - {r});
    F.FromInjective(r, i);
    F.SubZero(F.From(r), F.From(i));
    F.InvMul(e, Denominator(F, i, Y - {r}));
    F.Mul4(F.From(r), Numerator(F, Y - {r}), F.Inv(e), F.Inv(Denominator(F, i, Y - {r})));
  }

  // ---------- Linearity ----------

  lemma {:induction false} WeightedSumAdd<S(!new)>(
    F: Field<S>, a: map<nat, S>, b: map<nat, S>, c: map<nat, S>, X: set<nat>, Y: set<nat>)
    requires F.Valid()
    requires Y <= a.Keys && Y <= b.Keys && Y <= c.Keys
    requires forall k :: k in Y ==> c[k] == F.Add(a[k], b[k])
    ensures WeightedSum(F, c, X, Y) == F.Add(WeightedSum(F, a, X, Y), WeightedSum(F, b, X, Y))
    decreases Y
  {
    if Y == {} {
      F.AddZero(F.zero);
    } else {
      var k := Pick(Y);
      var l := Lambda(F, k, X);
      WeightedSumAdd(F, a, b, c, X, Y - {k});
      F.Distribute(l, a[k], b[k]);
      F.Add4(F.Mul(a[k], l), F.Mul(b[k], l), WeightedSum(F, a, X, Y - {k}), WeightedSum(F, b, X, Y - {k}));
    }
  }

  lemma {:induction false} WeightedSumScale<S(!new)>(
    F: Field<S>, s: S, a: map<nat, S>, c: map<nat, S>, X: set<nat>, Y: set<nat>)
    requires F.Valid()
    requires Y <= a.Keys && Y <= c.Keys
    requires forall k :: k in Y ==> c[k] == F.Mul(s, a[k])
    ensures WeightedSum(F, c, X, Y) == F.Mul(s, WeightedSum(F, a, X, Y))
    decreases Y
  {
    if Y == {} {
      F.MulZero(s);
    } else {
      var k := Pick(Y);
      var l := Lambda(F, k, X);
      WeightedSumScale(F, s, a, c, X, Y - {k});
      F.MulAssoc(s, a[k], l);
      F.Distribute(s, F.Mul(a[k], l), WeightedSum(F, a, X, Y - {k}));
    }
  }

  /** Only the values at the indices summed over matter. */
  lemma {:induction false} WeightedSumCongruent<S(!new)>(
    F: Field<S>, a: map<nat, S>, b: map<nat, S>, X: set<nat>, Y: set<nat>)
    requires Y <= a.Keys && Y <= b.Keys
    requires forall k :: k in Y ==> a[k] == b[k]
    ensures WeightedSum(F, a, X, Y) == WeightedSum(F, b, X, Y)
    decreases Y
  {
    if Y != {} {
      WeightedSumCongruent(F, a, b, X, Y - {Pick(Y)});
    }
  }

  // ---------- The interpolation theorem ----------

  /** ((k - r) y) lambda_k(X) = (-r) (y lambda_k(X - r)). */
  lemma ShiftTerm<S(!new)>(F: Field<S>, k: nat, X: set<nat>, r: nat, y: S)
    requires F.Valid()
    requires Indices(X) && k in X && r in X && k != r
    ensures F.Mul(F.Mul(F.Sub(F.From(k), F.From(r)), y), Lambda(F, k, X))
         == F.Mul(F.Neg(F.From(r)), F.Mul(y, Lambda(F, k, X - {r})))
  {
    var R, e, l := F.From(r), F.Sub(F.From(r), F.From(k)), Lambda(F, k, X - {r});
    LambdaRemove(F, k, X, r);
    F.NegSub(F.From(r), F.From(k));
    F.Mul4(F.Neg(e), y, F.Mul(R, F.Inv(e)), l);
    // the remaining factor: -e (R e^-1) = -R
    F.MulComm(R, F.Inv(e));
    F.MulAssoc(F.Neg(e), F.Inv(e), R);
    F.NegMul(e, F.Inv(e));
    assert F.InvLaw(e);
    F.NegMul(F.one, R);
    F.MulOne(R);
  }

  ghost predicate Shifted<S(!new)>(F: Field<S>, z: map<nat, S>, y: map<nat, S>, r: nat, Y: set<nat>)
  {
    && Y <= y.Keys && Y <= z.Keys
    && forall k :: k in Y ==> z[k] == F.Mul(F.Sub(F.From(k), F.From(r)), y[k])
  }

  lemma {:induction false} ShiftRest<S(!new)>(
    F: Field<S>, y: map<nat, S>, z: map<nat, S>, X: set<nat>, r: nat, Y: set<nat>)
    requires F.Valid()
    requires Indices(X) && r in X && Y <= X - {r}
    requires Shifted(F, z, y, r, Y)
    ensures WeightedSum(F, z, X, Y) == F.Mul(F.Neg(F.From(r)), WeightedSum(F, y, X - {r}, Y))
    decreases Y
  {
    if Y == {} {
      F.MulZero(F.Neg(F.From(r)));
    } else {
      var k := Pick(Y);
      ShiftRest(F, y, z, X, r, Y - {k});
      ShiftTerm(F, k, X, r, y[k]);
      F.Distribute(F.Neg(F.From(r)), F.Mul(y[k], Lambda(F, k, X - {r})), WeightedSum(F, y, X - {r}, Y - {k}));
    }
  }

  /** Multiplying the values by (k - r) drops node r. */
  lemma Shift<S(!new)>(F: Field<S>, y: map<nat, S>, z: map<nat, S>, X: set<nat>, r: nat)
    requires F.Valid()
    requires Indices(X) && r in X
    requires Shifted(F, z, y, r, X)
    ensures InterpolateAt(F, z, X) == F.Mul(F.Neg(F.From(r)), InterpolateAt(F, y, X - {r}))
  {
    WeightedSumRemove(F, z, X, X, r);
    ShiftRest(F, y, z, X, r, X - {r});
    F.SubZero(F.From(r), F.From(r));
    F.MulZero(y[r]);
    F.MulZero(Lambda(F, r, X));
    F.AddZero(WeightedSum(F, z, X, X - {r}));
  }

  ghost function Constant<S(!new)>(X: set<nat>, s: S): (m: map<nat, S>)
    ensures m.Keys == X
  {
    map k | k in X :: s
  }

  /** The coefficients of any non-empty set of indices sum to one. */
  lemma {:induction false} InterpolateOne<S(!new)>(F: Field<S>, ones: map<nat, S>, X: set<nat>)
    requires F.Valid()
    requires Indices(X) && X != {} && X <= ones.Keys
    requires forall k :: k in X ==> ones[k] == F.one
    ensures InterpolateAt(F, ones, X) == F.one
    decreases X
  {
    var r := Pick(X);
    if X == {r} {
      assert X - {r} == {};
      assert F.InvLaw(F.one);
      F.MulOne(F.Inv(F.one));
      F.MulOne(F.one);
      assert Lambda(F, r, X) == F.one;
      F.AddZero(F.one);
      WeightedSumRemove(F, ones, X, X, r);
    } else {
      var s := Pick(X - {r});
      assert r in X - {s};
      InterpolateOne(F, ones, X - {r});
      InterpolateOne(F, ones, X - {s});
      OneFromTwoNodes(F, ones, X, r, s);
    }
  }

  lemma OneFromTwoNodes<S(!new)>(F: Field<S>, ones: map<nat, S>, X: set<nat>, r: nat, s: nat)
    requires F.Valid()
    requires Indices(X) && r in X && s in X && r != s && X <= ones.Keys
    requires forall k :: k in X ==> ones[k] == F.one
    requires InterpolateAt(F, ones, X - {r}) == F.one == InterpolateAt(F, ones, X - {s})
    ensures InterpolateAt(F, ones, X) == F.one
  {
    var R, T := F.From(r), F.From(s);
    var gap, I := F.Sub(R, T), InterpolateAt(F, ones, X);
    var yr := map k | k in X :: F.Mul(F.Sub(F.From(k), R), ones[k]);
    var ys := map k | k in X :: F.Mul(F.Sub(F.From(k), T), ones[k]);
    var gaps := Constant(X, gap);
    forall k | k in X
      ensures ys[k] == F.Add(yr[k], gaps[k])
    {
      // (k - r) + (r - s) = k - s
      F.MulOne(F.Sub(F.From(k), R));
      F.MulOne(F.Sub(F.From(k), T));
      F.AddAssoc(F.Sub(F.From(k), R), R, F.Neg(T));
      F.SubAdd(F.From(k), R);
    }
    F.MulOne(gap);
    WeightedSumAdd(F, yr, gaps, ys, X, X);
    WeightedSumScale(F, gap, ones, gaps, X, X);
    Shift(F, ones, yr, X, r);
    Shift(F, ones, ys, X, s);
    OneFromGaps(F, R, T, I);
    F.FromInjective(r, s);
    F.SubZero(R, T);
    F.MulComm(gap, I);
    F.MulOne(gap);
    F.MulCancel(I, F.one, gap);
  }

  /** -s = -r + (r - s) I makes (r - s) I = r - s. */
  lemma OneFromGaps<S(!new)>(F: Field<S>, R: S, T: S, I: S)
    requires F.Valid()
    requires F.Mul(F.Neg(T), F.one) == F.Add(F.Mul(F.Neg(R), F.one), F.Mul(F.Sub(R, T), I))
    ensures F.Mul(F.Sub(R, T), I) == F.Sub(R, T)
  {
    var gap := F.Sub(R, T);
    F.MulOne(F.Neg(R));
    F.MulOne(F.Neg(T));
    F.AddAssoc(F.Neg(R), R, F.Neg(T));
    F.AddNeg(R);
    F.AddZero(F.Neg(T));
    F.AddComm(F.Neg(R), F.Mul(gap, I));
    F.AddComm(F.Neg(R), gap);
    F.AddCancel(F.Mul(gap, I), gap, F.Neg(R));
  }

  /** Values of the form c + (k - r) q(k) interpolate to c - r q', where q' leaves out node r. */
  lemma InterpolateSplit<S(!new)>(F: Field<S>, y: map<nat, S>, X: set<nat>, r: nat, c: S, q: map<nat, S>)
    requires F.Valid()
    requires Indices(X) && r in X && X <= y.Keys && X <= q.Keys
    requires forall k :: k in X ==> y[k] == F.Add(c, F.Mul(F.Sub(F.From(k), F.From(r)), q[k]))
    ensures InterpolateAt(F, y, X) == F.Add(c, F.Mul(F.Neg(F.From(r)), InterpolateAt(F, q, X - {r})))
  {
    var ones, head := Constant(X, F.one), Constant(X, c);
    var tail := map k | k in X :: F.Mul(F.Sub(F.From(k), F.From(r)), q[k]);
    WeightedSumAdd(F, head, tail, y, X, X);
    F.MulOne(c);
    WeightedSumScale(F, c, ones, head, X, X);
    InterpolateOne(F, ones, X);
    Shift(F, q, tail, X, r);
  }

  ghost predicate ValuesOf<S(!new)>(F: Field<S>, p: seq<S>, y: map<nat, S>, X: set<nat>)
  {
    X <= y.Keys && forall k :: k in X ==> y[k] == Eval(F, p, F.From(k))
  }

  lemma LagrangeStep<S(!new)>(F: Field<S>, p: seq<S>, y: map<nat, S>, X: set<nat>, r: nat, q: map<nat, S>)
    requires F.Valid()
    requires Indices(X) && r in X
    requires ValuesOf(F, p, y, X) && ValuesOf(F, Deflate(F, p, F.From(r)), q, X)
    requires InterpolateAt(F, q, X - {r}) == Eval(F, Deflate(F, p, F.From(r)), F.zero)
    ensures InterpolateAt(F, y, X) == Eval(F, p, F.zero)
  {
    var R := F.From(r);
    forall k | k in X
      ensures y[k] == F.Add(Eval(F, p, R), F.Mul(F.Sub(F.From(k), R), q[k]))
    {
      DeflateDivides(F, p, R, F.From(k));
    }
    InterpolateSplit(F, y, X, r, Eval(F, p, R), q);
    DeflateDivides(F, p, R, F.zero);
    F.AddZero(F.Neg(R));
  }

  /** Enough values of a polynomial interpolate to its value at zero. */
  lemma {:induction false} LagrangeAtZero<S(!new)>(F: Field<S>, p: seq<S>, y: map<nat, S>, X: set<nat>)
    requires F.Valid()
    requires Indices(X) && |p| <= |X|
    requires ValuesOf(F, p, y, X)
    ensures InterpolateAt(F, y, X) == Eval(F, p, F.zero)
    decreases X
  {
    if X != {} {
      // p(k) = p(r) + (k - r) q(k)
      var r := Pick(X);
      var q := Deflate(F, p, F.From(r));
      var qs := map k | k in X :: Eval(F, q, F.From(k));
      LagrangeAtZero(F, q, qs, X - {r});
      LagrangeStep(F, p, y, X, r, qs);
    }
  }

  /** One value too few: then they interpolate to the value at zero only if the last coefficient is zero. */
  lemma {:induction false} OneValueShort<S(!new)>(F: Field<S>, p: seq<S>, y: map<nat, S>, X: set<nat>)
    requires F.Valid()
    requires Indices(X) && 0 !in X && |p| == |X| + 1
    requires ValuesOf(F, p, y, X)
    ensures InterpolateAt(F, y, X) == Eval(F, p, F.zero) <==> p[|X|] == F.zero
    decreases X
  {
    if X == {} {
      ConstantEval(F, p[0], F.zero);
      assert p == [p[0]];
    } else {
      var r := Pick(X);
      var q := Deflate(F, p, F.From(r));
      var qs := map k | k in X :: Eval(F, q, F.From(k));
      OneValueShort(F, q, qs, X - {r});
      DeflateTop(F, p, F.From(r));
      ShortStep(F, p, y, X, r, qs);
    }
  }

  /** Leaving out a node keeps the two values equal or unequal. */
  lemma ShortStep<S(!new)>(F: Field<S>, p: seq<S>, y: map<nat, S>, X: set<nat>, r: nat, q: map<nat, S>)
    requires F.Valid()
    requires Indices(X) && r in X && r != 0
    requires ValuesOf(F, p, y, X) && ValuesOf(F, Deflate(F, p, F.From(r)), q, X)
    ensures InterpolateAt(F, y, X) == Eval(F, p, F.zero)
       <==> InterpolateAt(F, q, X - {r}) == Eval(F, Deflate(F, p, F.From(r)), F.zero)
  {
    var R := F.From(r);
    var c, a, b := Eval(F, p, R), InterpolateAt(F, q, X - {r}), Eval(F, Deflate(F, p, R), F.zero);
    forall k | k in X
      ensures y[k] == F.Add(c, F.Mul(F.Sub(F.From(k), R), q[k]))
    {
      DeflateDivides(F, p, R, F.From(k));
    }
    InterpolateSplit(F, y, X, r, c, q);
    DeflateDivides(F, p, R, F.zero);
    F.AddZero(F.Neg(R));
    // c + (-r) a = c + (-r) b exactly if a = b
    F.AddComm(c, F.Mul(F.Neg(R), a));
    F.AddComm(c, F.Mul(F.Neg(R), b));
    F.AddCancel(F.Mul(F.Neg(R), a), F.Mul(F.Neg(R), b), c);
    F.MulComm(F.Neg(R), a);
    F.MulComm(F.Neg(R), b);
    assert F.IndexLaw(r);
    F.NegNeg(R);
    F.AddNeg(F.zero);
    F.AddZero(F.Neg(F.zero));
    F.MulCancel(a, b, F.Neg(R));
  }

  /** At most t + 1 coefficients: t values tell the value at zero exactly if the last one is zero. */
  lemma ValuesTellExactly<S(!new)>(F: Field<S>, p: seq<S>, y: map<nat, S>, t: nat)
    requires F.Valid() && |p| <= t + 1
    requires |y.Keys| == t && Indices(y.Keys) && 0 !in y && ValuesOf(F, p, y, y.Keys)
    ensures Interpolate(F, y) == Eval(F, p, F.zero) <==> CoefficientAt(F, p, t) == F.zero
  {
    if |p| <= t {
      LagrangeAtZero(F, p, y, y.Keys);
    } else {
      OneValueShort(F, p, y, y.Keys);
    }
  }

  // ---------- The combination of many polynomials ----------

  /** The sum over Y of the polynomials, each scaled by its coefficient among X. */
  ghost function Combine<S(!new)>(F: Field<S>, polys: map<nat, seq<S>>, X: set<nat>, Y: set<nat>): seq<S>
    requires Y <= polys.Keys
  {
    if Y == {} then []
    else
      var k := Pick(Y);
      PolyAdd(F, PolyScale(F, Lambda(F, k, X), polys[k]), Combine(F, polys, X, Y - {k}))
  }

  lemma {:induction false} CombineLength<S(!new)>(F: Field<S>, polys: map<nat, seq<S>>, X: set<nat>, Y: set<nat>,
                                                  t: nat)
    requires Y <= polys.Keys
    requires forall k :: k in Y ==> |polys[k]| <= t
    ensures |Combine(F, polys, X, Y)| <= t
    decreases Y
  {
    if Y != {} {
      CombineLength(F, polys, X, Y - {Pick(Y)}, t);
    }
  }

  /** Combining commutes with evaluating: the values combine by interpolation. */
  lemma {:induction false} CombineEval<S(!new)>(
    F: Field<S>, polys: map<nat, seq<S>>, X: set<nat>, Y: set<nat>, x: S, y: map<nat, S>)
    requires F.Valid()
    requires Y <= polys.Keys && Y <= y.Keys
    requires forall k :: k in Y ==> y[k] == Eval(F, polys[k], x)
    ensures Eval(F, Combine(F, polys, X, Y), x) == WeightedSum(F, y, X, Y)
    decreases Y
  {
    if Y != {} {
      var k := Pick(Y);
      var l := Lambda(F, k, X);
      CombineEval(F, polys, X, Y - {k}, x, y);
      EvalScale(F, l, polys[k], x);
      F.MulComm(l, y[k]);
      EvalAdd(F, PolyScale(F, l, polys[k]), Combine(F, polys, X, Y - {k}), x);
    }
  }

  /** Each coefficient of a combination is the combination of the coefficients. */
  lemma {:induction false} CombineCoefficient<S(!new)>(
    F: Field<S>, polys: map<nat, seq<S>>, X: set<nat>, Y: set<nat>, k: nat, y: map<nat, S>)
    requires F.Valid()
    requires Y <= polys.Keys && Y <= y.Keys
    requires forall j :: j in Y ==> y[j] == CoefficientAt(F, polys[j], k)
    ensures CoefficientAt(F, Combine(F, polys, X, Y), k) == WeightedSum(F, y, X, Y)
    decreases Y
  {
    if Y != {} {
      var j := Pick(Y);
      var l := Lambda(F, j, X);
      CombineCoefficient(F, polys, X, Y - {j}, k, y);
      CoefficientScale(F, l, polys[j], k);
      F.MulComm(l, y[j]);
      CoefficientAdd(F, PolyScale(F, l, polys[j]), Combine(F, polys, X, Y - {j}), k);
    }
  }

  lemma {:induction false} WeightedSumZero<S(!new)>(F: Field<S>, y: map<nat, S>, X: set<nat>, Y: set<nat>)
    requires F.Valid() && Y <= y.Keys && forall j :: j in Y ==> y[j] == F.zero
    ensures WeightedSum(F, y, X, Y) == F.zero
    decreases Y
  {
    if Y != {} {
      var j := Pick(Y);
      WeightedSumZero(F, y, X, Y - {j});
      F.MulZero(Lambda(F, j, X));
      F.AddZero(F.zero);
    }
  }

  /** If only polynomial l may have x^k, the combination has it exactly if l has. */
  lemma CombineTopExactly<S(!new)>(F: Field<S>, polys: map<nat, seq<S>>, X: set<nat>, k: nat, l: nat)
    requires F.Valid() && Indices(X) && 0 !in X && l in X && X <= polys.Keys
    requires forall j :: j in X && j != l ==> |polys[j]| <= k
    ensures CoefficientAt(F, Combine(F, polys, X, X), k) == F.zero <==> CoefficientAt(F, polys[l], k) == F.zero
  {
    var y := map j | j in X :: CoefficientAt(F, polys[j], k);
    CombineCoefficient(F, polys, X, X, k, y);
    WeightedSumRemove(F, y, X, X, l);
    WeightedSumZero(F, y, X, X - {l});
    F.AddZero(F.Mul(y[l], Lambda(F, l, X)));
    LambdaNonZero(F, l, X);
    F.NoZeroDivisors(y[l], Lambda(F, l, X));
  }

  lemma CombineDegreeExactly<S(!new)>(F: Field<S>, polys: map<nat, seq<S>>, X: set<nat>, t: nat, l: nat)
    requires F.Valid() && Indices(X) && 0 !in X && l in X && X <= polys.Keys
    requires forall j :: j in X && j != l ==> |polys[j]| <= t
    ensures DegreeBelow(F, Combine(F, polys, X, X), t) <==> DegreeBelow(F, polys[l], t)
  {
    forall k: nat | t <= k
      ensures CoefficientAt(F, Combine(F, polys, X, X), k) == F.zero <==> CoefficientAt(F, polys[l], k) == F.zero
    {
      CombineTopExactly(F, polys, X, k, l);
    }
  }

  // ---------- The computed coefficient ----------

  datatype LagrangeError = DuplicateIndices | IndexIsZero

  /** What the library returns for `my_index` against a list of indices. */
  ghost function Coefficient<S(!new)>(F: Field<S>, myIndex: u32, all: seq<u32>): Result<S, LagrangeError>
  {
    if !Distinct(all) then Err(DuplicateIndices)
    else if 0 in all then Err(IndexIsZero)
    else Ok(Lambda(F, myIndex, ToSet(all)))
  }

  /** One turn of the loop, over index j. */
  lemma FactorsExtend<S(!new)>(F: Field<S>, i: nat, Y: set<nat>, j: nat)
    requires F.Valid()
    requires j !in Y
    ensures Numerator(F, Y + {j}) == F.Mul(Numerator(F, Y), F.From(j))
    ensures Denominator(F, i, Y + {j}) == F.Mul(Denominator(F, i, Y), F.Sub(F.From(j), F.From(i)))
  {
    assert Y + {j} - {j} == Y;
    NumeratorRemove(F, Y + {j}, j);
    DenominatorRemove(F, i, Y + {j}, j);
    F.MulComm(F.From(j), Numerator(F, Y));
    F.MulComm(F.Sub(F.From(j), F.From(i)), Denominator(F, i, Y));
  }

  method CalculateLagrangeCoefficients<S(==, !new)>(F: Field<S>, myIndex: u32, all: seq<u32>)
    returns (r: Result<S, LagrangeError>)
    requires F.Valid()
    ensures r == Coefficient(F, myIndex, all)
  {
    var sortedIndices := Dedup(SortUnstable(all));
    IncreasingDistinct(sortedIndices);
    DedupDetects(all);
    if |sortedIndices| != |all| {
      return Err(DuplicateIndices);
    }
    assert 0 in sortedIndices <==> 0 in ToSet(sortedIndices);
    if 0 in sortedIndices {
      return Err(IndexIsZero);
    }
    var numerator, denominator := F.one, F.one;
    var myIndexField := F.From(myIndex);
    ghost var done: set<nat> := {};
    for k := 0 to |sortedIndices|
      invariant done == ToSet(sortedIndices[..k]) - {myIndex}
      invariant numerator == Numerator(F, done)
      invariant denominator == Denominator(F, myIndex, done)
    {
      var j := sortedIndices[k];
      ToSetPrefix(sortedIndices, k);
      if j == myIndex {
        continue;
      }
      FactorsExtend(F, myIndex, done, j);
      done := done + {j};
      var s := F.From(j);
      numerator := F.Mul(numerator, s);
      denominator := F.Mul(denominator, F.Sub(s, myIndexField));
    }
    assert done == ToSet(all) - {myIndex} by {
      assert sortedIndices[..|sortedIndices|] == sortedIndices;
    }
    DenominatorNonZero(F, myIndex, done);
    match F.Inverse(denominator)
    case None => r := Err(DuplicateIndices);
    case Some(inverse) => r := Ok(F.Mul(numerator, inverse));
  }

  /** The order of the list plays no part. */
  lemma CoefficientIgnoresOrder<S(!new)>(F: Field<S>, myIndex: u32, all: seq<u32>, other: seq<u32>)
    requires multiset(all) == multiset(other)
    ensures Coefficient(F, myIndex, all) == Coefficient(F, myIndex, other)
  {
    assert forall x :: x in all <==> x in multiset(all);
    assert forall x :: x in other <==> x in multiset(other);
    assert ToSet(all) == ToSet(other);
    assert |multiset(all)| == |all| && |multiset(other)| == |other|;
    MemberCount(all);
    MemberCount(other);
  }

  /** The errors the documentation announces: the last case also refuses an absent `my_index`. */
  predicate DocumentedError(myIndex: u32, all: seq<u32>)
  {
    myIndex == 0 || 0 in all || myIndex !in all || !Distinct(all)
  }

  /**
   The documented errors are the actual ones exactly when the list repeats an index, contains zero,
   or does contain `my_index`. Otherwise the documentation announces an error that never comes.
   */
  lemma DocumentedErrorsExactly<S(!new)>(F: Field<S>, myIndex: u32, all: seq<u32>)
    ensures (Coefficient(F, myIndex, all).Err? <==> DocumentedError(myIndex, all))
       <==> (!Distinct(all) || 0 in all || myIndex in all)
  {
  }

  /** For example, index 2 against the list [1]. */
  lemma AbsentIndexIsAccepted<S(!new)>(F: Field<S>)
    ensures DocumentedError(2, [1]) && Coefficient(F, 2, [1]).Ok?
  {
  }

  /** Summed in list order, the weighted values make the interpolation. */
  lemma {:induction false} ListInterpolate<S(!new)>(
    F: Field<S>, indices: seq<u32>, terms: seq<S>, y: map<nat, S>, X: set<nat>, Y: set<nat>)
    requires F.Valid()
    requires |indices| == |terms| && Distinct(indices) && Y == ToSet(indices) <= y.Keys
    requires forall i :: 0 <= i < |indices| ==> terms[i] == F.Mul(y[indices[i]], Lambda(F, indices[i], X))
    ensures SumSeq(F, terms) == WeightedSum(F, y, X, Y)
    decreases |terms|
  {
    if terms != [] {
      var n := |terms| - 1;
      var k := indices[n];
      ToSetPrefix(indices, n);
      assert indices[..n + 1] == indices;
      ListInterpolate(F, indices[..n], terms[..n], y, X, Y - {k});
      WeightedSumRemove(F, y, X, Y, k);
      F.AddComm(terms[n], WeightedSum(F, y, X, Y - {k}));
    }
  }

  /** With the coefficients the library computes, enough values of a polynomial give its value at zero. */
  lemma CoefficientsInterpolate<S(!new)>(F: Field<S>, indices: seq<u32>, coefficients: seq<S>, p: seq<S>, terms: seq<S>)
    requires F.Valid()
    requires |indices| == |coefficients| == |terms| && |p| <= |indices|
    requires forall i :: 0 <= i < |indices| ==> Coefficient(F, indices[i], indices) == Ok(coefficients[i])
    requires forall i :: 0 <= i < |indices| ==> terms[i] == F.Mul(Eval(F, p, F.From(indices[i])), coefficients[i])
    ensures SumSeq(F, terms) == Eval(F, p, F.zero)
  {
    if indices != [] {
      assert Coefficient(F, indices[0], indices).Ok?;
      var X: set<nat> := ToSet(indices);
      MemberCount(indices);
      var y := map k | k in X :: Eval(F, p, F.From(k));
      LagrangeAtZero(F, p, y, X);
      ListInterpolate(F, indices, terms, y, X, X);
    }
  }

  // ---------- Weighted lists ----------

  /** The values ys at the listed indices, each times its coefficient. */
  ghost function WeightedList<S(!new)>(F: Field<S>, indices: seq<u32>, ys: seq<S>): (terms: seq<S>)
    requires |ys| == |indices|
    ensures |terms| == |indices|
    ensures forall i :: 0 <= i < |terms| ==> terms[i] == F.Mul(ys[i], Lambda(F, indices[i], ToSet(indices)))
  {
    seq(|indices|, i requires 0 <= i < |indices| => F.Mul(ys[i], Lambda(F, indices[i], ToSet(indices))))
  }

  /** Their sum is the interpolation of the values keyed by index. */
  lemma WeightedListSum<S(!new)>(F: Field<S>, indices: seq<u32>, ys: seq<S>, y: map<nat, S>)
    requires F.Valid() && |ys| == |indices| && Distinct(indices)
    requires y.Keys == ToSet(indices) && forall i :: 0 <= i < |ys| ==> y[indices[i]] == ys[i]
    ensures SumSeq(F, WeightedList(F, indices, ys)) == Interpolate(F, y)
  {
    ListInterpolate(F, indices, WeightedList(F, indices, ys), y, ToSet(indices), ToSet(indices));
  }

  /** No coefficient among non-zero indices vanishes. */
  lemma LambdaNonZero<S(!new)>(F: Field<S>, i: nat, X: set<nat>)
    requires F.Valid() && Indices(X) && i in X && 0 !in X
    ensures Lambda(F, i, X) != F.zero
  {
    NumeratorNonZero(F, X - {i});
    DenominatorNonZero(F, i, X - {i});
    var d := Denominator(F, i, X - {i});
    assert F.InvLaw(d);
    F.MulZero(d);
    F.NoZeroDivisors(Numerator(F, X - {i}), F.Inv(d));
  }

  lemma {:induction false} NumeratorNonZero<S(!new)>(F: Field<S>, Y: set<nat>)
    requires F.Valid() && Indices(Y) && 0 !in Y
    ensures Numerator(F, Y) != F.zero
  {
    if Y != {} {
      var j := Pick(Y);
      NumeratorNonZero(F, Y - {j});
      assert F.IndexLaw(j);
      F.NoZeroDivisors(F.From(j), Numerator(F, Y - {j}));
    }
  }

  /** Two values lie on a line: at zero it is a - (b - a). */
  lemma TwoValues<S(!new)>(F: Field<S>, a: S, b: S, y: map<nat, S>)
    requires F.Valid() && y == map[1 := a, 2 := b]
    ensures Interpolate(F, y) == F.Sub(a, F.Sub(b, a))
  {
    var e := F.Sub(b, a);
    var c := F.Sub(a, e);
    var P := [c, e];
    assert P[1..] == [e] && [e][1..] == [];
    LineAt(F, c, e, F.From(1));
    LineAt(F, c, e, F.From(2));
    assert F.From(1) == F.Add(F.zero, F.one) && F.From(2) == F.Add(F.From(1), F.one);
    F.AddZero(F.one);
    F.MulOne(e);
    F.Distribute(e, F.one, F.one);
    F.AddAssoc(c, e, e);
    F.SubAdd(a, e);
    F.SubAdd(b, a);
    F.AddComm(a, e);
    assert ValuesOf(F, P, y, {1, 2});
    LagrangeAtZero(F, P, y, {1, 2});
    EvalAtZero(F, P);
    assert y.Keys == {1, 2};
  }

  lemma LineAt<S(!new)>(F: Field<S>, c: S, e: S, x: S)
    requires F.Valid()
    ensures Eval(F, [c, e], x) == F.Add(c, F.Mul(x, e))
  {
    assert [c, e][1..] == [e] && [e][1..] == [];
    F.MulZero(x);
    F.AddZero(e);
    assert Eval(F, [e], x) == e;
  }

  /** The line through the same values in the other order meets zero elsewhere, unless they are equal. */
  lemma SwappedValues<S(!new)>(F: Field<S>, a: S, b: S)
    requires F.Valid() && F.Sub(a, F.Sub(b, a)) == F.Sub(b, F.Sub(a, b))
    ensures a == b
  {
    // with e = b - a: a - e = b + e and b = a + e, so 0 = 3 e
    var e := F.Sub(b, a);
    F.NegSub(a, b);
    F.SubAdd(b, a);
    F.AddComm(e, a);
    F.AddAssoc(a, e, e);
    F.AddComm(a, F.Neg(e));
    F.AddComm(a, F.Add(e, e));
    F.AddCancel(F.Neg(e), F.Add(e, e), a);
    F.AddNeg(e);
    ThreeTimes(F, e);
    F.SubZero(b, a);
  }

  lemma ThreeTimes<S(!new)>(F: Field<S>, e: S)
    requires F.Valid() && F.Add(F.Add(e, e), e) == F.zero
    ensures e == F.zero
  {
    F.MulOne(e);
    F.AddZero(F.one);
    assert F.From(1) == F.Add(F.zero, F.one);
    F.Distribute(e, F.one, F.one);
    F.Distribute(e, F.From(2), F.one);
    assert F.From(2) == F.Add(F.From(1), F.one) && F.From(3) == F.Add(F.From(2), F.one);
    assert F.IndexLaw(3);
    F.NoZeroDivisors(e, F.From(3));
  }
}
