/** Polynomials as coefficient lists, constant term first. */
module Polynomials {
  import opened Fields

  function Pow<S(!new)>(F: Field<S>, x: S, k: nat): S
  {
    if k == 0 then F.one else F.Mul(Pow(F, x, k - 1), x)
  }

  /** The defining sum of a_k x^k over all coefficients. */
  function PowerSum<S(!new)>(F: Field<S>, a: seq<S>, x: S): S
  {
    if a == [] then F.zero
    else
      var k := |a| - 1;
      F.Add(PowerSum(F, a[..k], x), F.Mul(a[k], Pow(F, x, k)))
  }

  /** The same value with x factored out of all but the constant term. */
  function Eval<S(!new)>(F: Field<S>, a: seq<S>, x: S): S
  {
    if a == [] then F.zero else F.Add(a[0], F.Mul(x, Eval(F, a[1..], x)))
  }

  /** Appending a coefficient adds its monomial. */
  lemma {:induction false} EvalAppend<S(!new)>(F: Field<S>, a: seq<S>, c: S, x: S)
    requires F.Valid()
    ensures Eval(F, a + [c], x) == F.Add(Eval(F, a, x), F.Mul(c, Pow(F, x, |a|)))
  {
    if a == [] {
      F.MulZero(x);
      F.MulOne(c);
      F.AddZero(c);
      assert ([c])[1..] == [];
    } else {
      var t := a[1..];
      var e := Eval(F, t, x);
      var w := Pow(F, x, |t|);
      assert (a + [c])[1..] == t + [c];
      EvalAppend(F, t, c, x);
      F.Distribute(x, e, F.Mul(c, w));
      F.MulComm(x, F.Mul(c, w));
      F.MulAssoc(c, w, x);
      F.AddAssoc(a[0], F.Mul(x, e), F.Mul(c, F.Mul(w, x)));
    }
  }

  lemma {:induction false} EvalIsPowerSum<S(!new)>(F: Field<S>, a: seq<S>, x: S)
    requires F.Valid()
    ensures Eval(F, a, x) == PowerSum(F, a, x)
    decreases |a|
  {
    if a != [] {
      var k := |a| - 1;
      EvalIsPowerSum(F, a[..k], x);
      EvalAppend(F, a[..k], a[k], x);
      assert a == a[..k] + [a[k]];
    }
  }

  lemma EvalAtZero<S(!new)>(F: Field<S>, a: seq<S>)
    requires F.Valid()
    ensures Eval(F, a, F.zero) == if a == [] then F.zero else a[0]
  {
    if a != [] {
      F.MulZero(Eval(F, a[1..], F.zero));
      F.AddZero(a[0]);
    }
  }

  lemma ConstantEval<S(!new)>(F: Field<S>, a: S, x: S)
    requires F.Valid()
    ensures Eval(F, [a], x) == a
  {
    assert [a][1..] == [];
    F.MulZero(x);
    F.AddZero(a);
  }

  function PolyAdd<S(!new)>(F: Field<S>, a: seq<S>, b: seq<S>): (c: seq<S>)
    ensures |c| == if |a| < |b| then |b| else |a|
  {
    if a == [] then b
    else if b == [] then a
    else [F.Add(a[0], b[0])] + PolyAdd(F, a[1..], b[1..])
  }

  function PolyScale<S(!new)>(F: Field<S>, s: S, a: seq<S>): (c: seq<S>)
    ensures |c| == |a|
  {
    if a == [] then [] else [F.Mul(s, a[0])] + PolyScale(F, s, a[1..])
  }

  lemma {:induction false} EvalAdd<S(!new)>(F: Field<S>, a: seq<S>, b: seq<S>, x: S)
    requires F.Valid()
    ensures Eval(F, PolyAdd(F, a, b), x) == F.Add(Eval(F, a, x), Eval(F, b, x))
  {
    if a == [] {
      F.AddZero(Eval(F, b, x));
    } else if b == [] {
      F.AddZero(Eval(F, a, x));
    } else {
      var ea, eb := Eval(F, a[1..], x), Eval(F, b[1..], x);
      EvalAdd(F, a[1..], b[1..], x);
      F.Distribute(x, ea, eb);
      F.Add4(a[0], b[0], F.Mul(x, ea), F.Mul(x, eb));
    }
  }

  lemma {:induction false} EvalScale<S(!new)>(F: Field<S>, s: S, a: seq<S>, x: S)
    requires F.Valid()
    ensures Eval(F, PolyScale(F, s, a), x) == F.Mul(s, Eval(F, a, x))
  {
    if a == [] {
      F.MulZero(s);
    } else {
      var e := Eval(F, a[1..], x);
      EvalScale(F, s, a[1..], x);
      F.Distribute(s, a[0], F.Mul(x, e));
      F.MulAssoc(x, s, e);
      F.MulAssoc(s, x, e);
      F.MulComm(x, s);
    }
  }

  /** The coefficient of x^k, zero beyond the end of the list. */
  function CoefficientAt<S(!new)>(F: Field<S>, a: seq<S>, k: nat): S
  {
    if k < |a| then a[k] else F.zero
  }

  /** Only powers below x^t have a coefficient other than zero. */
  ghost predicate DegreeBelow<S(!new)>(F: Field<S>, a: seq<S>, t: nat)
  {
    forall k: nat :: t <= k ==> CoefficientAt(F, a, k) == F.zero
  }

  lemma {:induction false} CoefficientAdd<S(!new)>(F: Field<S>, a: seq<S>, b: seq<S>, k: nat)
    requires F.Valid()
    ensures CoefficientAt(F, PolyAdd(F, a, b), k) == F.Add(CoefficientAt(F, a, k), CoefficientAt(F, b, k))
  {
    if a == [] || b == [] || k == 0 {
      F.AddZero(CoefficientAt(F, a, k));
      F.AddZero(CoefficientAt(F, b, k));
    } else {
      CoefficientAdd(F, a[1..], b[1..], k - 1);
    }
  }

  lemma {:induction false} CoefficientScale<S(!new)>(F: Field<S>, s: S, a: seq<S>, k: nat)
    requires F.Valid()
    ensures CoefficientAt(F, PolyScale(F, s, a), k) == F.Mul(s, CoefficientAt(F, a, k))
  {
    if a == [] {
      F.MulZero(s);
    } else if k > 0 {
      CoefficientScale(F, s, a[1..], k - 1);
    }
  }

  /** The quotient of a by (x - r); the remainder is the value of a at r. */
  function Deflate<S(!new)>(F: Field<S>, a: seq<S>, r: S): (c: seq<S>)
    ensures |c| == if a == [] then 0 else |a| - 1
  {
    if |a| <= 1 then [] else [Eval(F, a[1..], r)] + Deflate(F, a[1..], r)
  }

  lemma {:induction false} DeflateTop<S(!new)>(F: Field<S>, a: seq<S>, r: S)
    requires F.Valid() && |a| >= 2
    ensures Deflate(F, a, r)[|a| - 2] == a[|a| - 1]
  {
    if |a| == 2 {
      ConstantEval(F, a[1], r);
      assert a[1..] == [a[1]];
    } else {
      DeflateTop(F, a[1..], r);
    }
  }

  lemma {:induction false} DeflateDivides<S(!new)>(F: Field<S>, a: seq<S>, r: S, x: S)
    requires F.Valid()
    ensures Eval(F, a, x) == F.Add(Eval(F, a, r), F.Mul(F.Sub(x, r), Eval(F, Deflate(F, a, r), x)))
  {
    if |a| == 0 {
      F.MulZero(F.Sub(x, r));
      F.AddZero(F.zero);
    } else if |a| == 1 {
      F.MulZero(x);
      F.MulZero(r);
      F.MulZero(F.Sub(x, r));
      F.AddZero(a[0]);
      assert a[1..] == [];
    } else {
      // a = a0 + x b,  b(x) = b(r) + (x - r) d,  quotient of a = b(r) + x d
      var b := a[1..];
      var br, d, e := Eval(F, b, r), Eval(F, Deflate(F, b, r), x), F.Sub(x, r);
      DeflateDivides(F, b, r, x);
      F.Distribute(x, br, F.Mul(e, d));
      F.SubAdd(x, r);
      F.AddComm(e, r);
      F.Distribute(br, r, e);
      F.MulAssoc(x, e, d);
      F.MulComm(x, e);
      F.MulAssoc(e, x, d);
      F.Distribute(e, br, F.Mul(x, d));
      F.AddAssoc(F.Mul(r, br), F.Mul(e, br), F.Mul(e, F.Mul(x, d)));
      F.AddAssoc(a[0], F.Mul(r, br), F.Mul(e, F.Add(br, F.Mul(x, d))));
      assert ([br] + Deflate(F, b, r))[1..] == Deflate(F, b, r);
    }
  }
}
