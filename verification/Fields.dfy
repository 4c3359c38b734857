/**
 The scalar field of a ciphersuite. The library is generic over its scalar field, and so is this
 model: a `Field` carries the operations, and `Valid` states the laws of a field in which the
 unsigned 32-bit indices stay distinct. Module `Residues` proves that the integers modulo any
 prime above 2^32 are such a field.
 */
module Fields {
  import opened Wrappers

  const U32_LIMIT: nat := 0x1_0000_0000

  type u32 = x: nat | x < U32_LIMIT witness 0

  datatype Field<!S(==, !new)> = Field(
    zero: S,
    one: S,
    plus: (S, S) -> S,
    negate: S -> S,
    times: (S, S) -> S,
    invert: S -> S)
  {
    function Add(a: S, b: S): S { plus(a, b) }

    function Neg(a: S): S { negate(a) }

    function Mul(a: S, b: S): S { times(a, b) }

    function Inv(a: S): S { invert(a) }

    function Sub(a: S, b: S): S { Add(a, Neg(b)) }

    /** The library's `inverse`, which has no value at zero. */
    function Inverse(a: S): Option<S> { if a == zero then None else Some(Inv(a)) }

    /** The embedding of an integer: a sum of ones. */
    function From(n: nat): S
    {
      if n == 0 then zero else Add(From(n - 1), one)
    }

    // Each law is a predicate of its own, so that it is used only where a proof names it.

    ghost predicate AddLaw(a: S, b: S, c: S)
    {
      && Add(Add(a, b), c) == Add(a, Add(b, c))
      && Add(a, b) == Add(b, a)
      && Add(a, zero) == a
      && Add(a, Neg(a)) == zero
    }

    ghost predicate MulLaw(a: S, b: S, c: S)
    {
      && Mul(Mul(a, b), c) == Mul(a, Mul(b, c))
      && Mul(a, b) == Mul(b, a)
      && Mul(a, one) == a
      && Mul(a, Add(b, c)) == Add(Mul(a, b), Mul(a, c))
    }

    ghost predicate InvLaw(a: S)
    {
      a != zero ==> Mul(a, Inv(a)) == one
    }

    ghost predicate IndexLaw(n: nat)
    {
      0 < n < U32_LIMIT ==> From(n) != zero
    }

    ghost predicate Valid()
    {
      && one != zero
      && (forall a, b, c :: AddLaw(a, b, c))
      && (forall a, b, c :: MulLaw(a, b, c))
      && (forall a :: InvLaw(a))
      && (forall n: nat :: IndexLaw(n))
    }

    lemma AddComm(a: S, b: S)
      requires Valid()
      ensures Add(a, b) == Add(b, a)
    {
      assert AddLaw(a, b, b);
    }

    lemma AddAssoc(a: S, b: S, c: S)
      requires Valid()
      ensures Add(Add(a, b), c) == Add(a, Add(b, c))
    {
      assert AddLaw(a, b, c);
    }

    lemma AddZero(a: S)
      requires Valid()
      ensures Add(a, zero) == a && Add(zero, a) == a
    {
      assert AddLaw(a, zero, zero);
    }

    lemma AddNeg(a: S)
      requires Valid()
      ensures Add(a, Neg(a)) == zero && Add(Neg(a), a) == zero
    {
      assert AddLaw(a, Neg(a), a);
    }

    lemma MulComm(a: S, b: S)
      requires Valid()
      ensures Mul(a, b) == Mul(b, a)
    {
      assert MulLaw(a, b, b);
    }

    lemma MulAssoc(a: S, b: S, c: S)
      requires Valid()
      ensures Mul(Mul(a, b), c) == Mul(a, Mul(b, c))
    {
      assert MulLaw(a, b, c);
    }

    lemma MulOne(a: S)
      requires Valid()
      ensures Mul(a, one) == a && Mul(one, a) == a
    {
      assert MulLaw(a, one, one);
    }

    lemma Distribute(a: S, b: S, c: S)
      requires Valid()
      ensures Mul(a, Add(b, c)) == Add(Mul(a, b), Mul(a, c))
      ensures Mul(Add(b, c), a) == Add(Mul(b, a), Mul(c, a))
    {
      assert MulLaw(a, b, c);
      MulComm(a, Add(b, c));
      MulComm(a, b);
      MulComm(a, c);
    }

    /** Adding on the right can be undone. */
    lemma AddCancel(a: S, b: S, c: S)
      requires Valid()
      ensures Add(a, c) == Add(b, c) <==> a == b
    {
      AddAssoc(a, c, Neg(c));
      AddAssoc(b, c, Neg(c));
      AddNeg(c);
      AddZero(a);
      AddZero(b);
    }

    lemma Add4(a: S, b: S, c: S, d: S)
      requires Valid()
      ensures Add(Add(a, b), Add(c, d)) == Add(Add(a, c), Add(b, d))
    {
      AddAssoc(a, b, Add(c, d));
      AddAssoc(b, c, d);
      AddComm(b, c);
      AddAssoc(c, b, d);
      AddAssoc(a, c, Add(b, d));
    }

    lemma Mul4(a: S, b: S, c: S, d: S)
      requires Valid()
      ensures Mul(Mul(a, b), Mul(c, d)) == Mul(Mul(a, c), Mul(b, d))
    {
      MulAssoc(a, b, Mul(c, d));
      MulAssoc(b, c, d);
      MulComm(b, c);
      MulAssoc(c, b, d);
      MulAssoc(a, c, Mul(b, d));
    }

    lemma AddSwap(a: S, b: S, c: S)
      requires Valid()
      ensures Add(a, Add(b, c)) == Add(b, Add(a, c))
    {
      AddAssoc(a, b, c);
      AddComm(a, b);
      AddAssoc(b, a, c);
    }

    lemma MulSwap(a: S, b: S, c: S)
      requires Valid()
      ensures Mul(a, Mul(b, c)) == Mul(b, Mul(a, c))
    {
      MulAssoc(a, b, c);
      MulComm(a, b);
      MulAssoc(b, a, c);
    }

    lemma MulZero(a: S)
      requires Valid()
      ensures Mul(a, zero) == zero && Mul(zero, a) == zero
    {
      Distribute(a, zero, zero);
      AddZero(zero);
      AddZero(Mul(a, zero));
      AddCancel(Mul(a, zero), zero, Mul(a, zero));
      MulComm(a, zero);
    }

    /** The opposite is the only value that sums to zero. */
    lemma NegUnique(a: S, b: S)
      requires Valid()
      requires Add(a, b) == zero
      ensures b == Neg(a)
    {
      AddNeg(a);
      AddComm(a, b);
      AddCancel(b, Neg(a), a);
    }

    lemma NegMul(a: S, b: S)
      requires Valid()
      ensures Mul(Neg(a), b) == Neg(Mul(a, b))
      ensures Mul(a, Neg(b)) == Neg(Mul(a, b))
    {
      Distribute(b, a, Neg(a));
      AddNeg(a);
      MulZero(b);
      NegUnique(Mul(a, b), Mul(Neg(a), b));
      Distribute(a, b, Neg(b));
      AddNeg(b);
      MulZero(a);
      NegUnique(Mul(a, b), Mul(a, Neg(b)));
    }

    lemma NegAdd(a: S, b: S)
      requires Valid()
      ensures Neg(Add(a, b)) == Add(Neg(a), Neg(b))
    {
      Add4(a, b, Neg(a), Neg(b));
      AddNeg(a);
      AddNeg(b);
      AddZero(zero);
      NegUnique(Add(a, b), Add(Neg(a), Neg(b)));
    }

    lemma NegNeg(a: S)
      requires Valid()
      ensures Neg(Neg(a)) == a
    {
      AddNeg(a);
      NegUnique(Neg(a), a);
    }

    lemma NegSub(a: S, b: S)
      requires Valid()
      ensures Neg(Sub(a, b)) == Sub(b, a)
    {
      NegAdd(a, Neg(b));
      NegNeg(b);
      AddComm(Neg(a), b);
    }

    lemma SubZero(a: S, b: S)
      requires Valid()
      ensures Sub(a, b) == zero <==> a == b
    {
      AddNeg(b);
      AddCancel(a, b, Neg(b));
    }

    lemma SubAdd(a: S, b: S)
      requires Valid()
      ensures Add(Sub(a, b), b) == a
      ensures Sub(Add(a, b), b) == a
    {
      AddAssoc(a, Neg(b), b);
      AddAssoc(a, b, Neg(b));
      AddNeg(b);
      AddZero(a);
    }

    lemma MulCancel(a: S, b: S, c: S)
      requires Valid()
      requires c != zero
      ensures Mul(a, c) == Mul(b, c) <==> a == b
    {
      assert InvLaw(c);
      MulAssoc(a, c, Inv(c));
      MulAssoc(b, c, Inv(c));
      MulOne(a);
      MulOne(b);
    }

    lemma NoZeroDivisors(a: S, b: S)
      requires Valid()
      ensures Mul(a, b) == zero <==> a == zero || b == zero
    {
      MulZero(a);
      MulZero(b);
      if b != zero {
        MulCancel(a, zero, b);
      }
    }

    lemma InvMul(a: S, b: S)
      requires Valid()
      requires a != zero && b != zero
      ensures Mul(a, b) != zero
      ensures Inv(Mul(a, b)) == Mul(Inv(a), Inv(b))
    {
      NoZeroDivisors(a, b);
      assert InvLaw(a) && InvLaw(b) && InvLaw(Mul(a, b));
      Mul4(a, b, Inv(a), Inv(b));
      MulOne(one);
      MulComm(Mul(a, b), Inv(Mul(a, b)));
      MulComm(Mul(a, b), Mul(Inv(a), Inv(b)));
      MulCancel(Inv(Mul(a, b)), Mul(Inv(a), Inv(b)), Mul(a, b));
    }

    lemma FromAdd(m: nat, n: nat)
      requires Valid()
      ensures From(m + n) == Add(From(m), From(n))
    {
      if n == 0 {
        AddZero(From(m));
      } else {
        FromAdd(m, n - 1);
        AddAssoc(From(m), From(n - 1), one);
      }
    }

    /** Distinct indices are distinct scalars. */
    lemma FromInjective(m: nat, n: nat)
      requires Valid()
      requires m < U32_LIMIT && n < U32_LIMIT
      ensures From(m) == From(n) <==> m == n
    {
      if m < n {
        FromDistinct(m, n);
      } else if n < m {
        FromDistinct(n, m);
      }
    }

    lemma FromDistinct(m: nat, n: nat)
      requires Valid()
      requires m < n < U32_LIMIT
      ensures From(m) != From(n)
    {
      FromAdd(n - m, m);
      AddZero(From(m));
      assert IndexLaw(n - m);
      AddCancel(From(n - m), zero, From(m));
    }
  }
}
