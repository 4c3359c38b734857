/**
 The integers modulo a prime above 2^32 satisfy the laws of `Field.Valid`, and such primes exist.
 Every theorem about an arbitrary valid field therefore speaks about these scalar fields.
 */
module Residues {
  import opened Fields

  function Times(d: int, k: int): int { d * k }

  ghost predicate Divides(d: int, n: int)
  {
    exists k: int :: Times(d, k) == n
  }

  ghost predicate IsPrime(p: nat)
  {
    2 <= p && forall d: nat :: 2 <= d < p ==> !Divides(d, p)
  }

  // ---------- A prime above any bound ----------

  function Factorial(n: nat): (f: nat)
    ensures f >= 1
  {
    if n == 0 then 1 else Positive(n, Factorial(n - 1))
  }

  function Positive(a: nat, b: nat): (c: nat)
    requires a >= 1 && b >= 1
    ensures c == a * b && c >= 1
  {
    assert a * b >= b;
    a * b
  }

  lemma {:induction false} DividesFactorial(d: nat, n: nat)
    requires 1 <= d <= n
    ensures Divides(d, Factorial(n))
  {
    if d == n {
      assert Times(d, Factorial(n - 1)) == Factorial(n);
    } else {
      DividesFactorial(d, n - 1);
      var k :| Times(d, k) == Factorial(n - 1);
      assert n * (d * k) == d * (n * k);
      assert Times(d, n * k) == Factorial(n);
    }
  }

  lemma DividesTransitive(a: int, b: int, c: int)
    requires Divides(a, b) && Divides(b, c)
    ensures Divides(a, c)
  {
    var j :| Times(a, j) == b;
    var k :| Times(b, k) == c;
    assert (a * j) * k == a * (j * k);
    assert Times(a, j * k) == c;
  }

  /** Walking down through proper divisors ends in a prime. */
  lemma {:induction false} PrimeDivisor(n: nat) returns (p: nat)
    requires n >= 2
    ensures IsPrime(p) && Divides(p, n)
    decreases n
  {
    if IsPrime(n) {
      p := n;
      assert Times(n, 1) == n;
    } else {
      var d: nat :| 2 <= d < n && Divides(d, n);
      p := PrimeDivisor(d);
      DividesTransitive(p, d, n);
    }
  }

  lemma LargePrimeExists(bound: nat)
    ensures exists p: nat :: IsPrime(p) && p > bound
  {
    var f := Factorial(bound);
    var p := PrimeDivisor(f + 1);
    if p <= bound {
      DividesFactorial(p, bound);
      NoCommonDivisor(p, f);
    }
  }

  lemma NoCommonDivisor(p: nat, f: nat)
    requires p >= 2 && Divides(p, f)
    ensures !Divides(p, f + 1)
  {
    if Divides(p, f + 1) {
      var j :| Times(p, j) == f;
      var k :| Times(p, k) == f + 1;
      assert p * (k - j) == p * k - p * j == 1;
      MultipleBound(p, k - j);
    }
  }

  // ---------- Congruence ----------

  ghost function LargePrime(): (q: nat)
    ensures IsPrime(q) && q > U32_LIMIT
  {
    LargePrimeExists(U32_LIMIT);
    var q: nat :| IsPrime(q) && q > U32_LIMIT;
    q
  }

  /** An arbitrary prime above 2^32. */
  ghost const Q: nat := LargePrime()

  type Residue = x: int | 0 <= x < Q ghost witness 0

  ghost predicate Congruent(x: int, y: int)
  {
    Divides(Q, x - y)
  }

  lemma CongruentIf(x: int, y: int, k: int)
    requires x - y == Q * k
    ensures Congruent(x, y)
  {
    assert Times(Q, k) == x - y;
  }

  ghost function Reduce(x: int): (r: Residue)
    ensures Congruent(x, r)
  {
    var r := x % Q;
    CongruentIf(x, r, x / Q);
    r
  }

  lemma CongruentResidues(x: Residue, y: Residue)
    requires Congruent(x, y)
    ensures x == y
  {
  }

  lemma MultipleBound(q: nat, k: int)
    ensures k >= 1 ==> q * k >= q
    ensures k <= -1 ==> q * k <= -1 * q
  {
  }

  lemma CongruentSym(x: int, y: int)
    requires Congruent(x, y)
    ensures Congruent(y, x)
  {
    var k :| Times(Q, k) == x - y;
    assert Q * -k == y - x;
    CongruentIf(y, x, -k);
  }

  lemma CongruentAdd(x: int, y: int, u: int, v: int)
    requires Congruent(x, y) && Congruent(u, v)
    ensures Congruent(x + u, y + v)
  {
    var j :| Times(Q, j) == x - y;
    var k :| Times(Q, k) == u - v;
    assert Q * (j + k) == Q * j + Q * k;
    CongruentIf(x + u, y + v, j + k);
  }

  lemma CongruentTrans(x: int, y: int, z: int)
    requires Congruent(x, y) && Congruent(y, z)
    ensures Congruent(x, z)
  {
    var j :| Times(Q, j) == x - y;
    var k :| Times(Q, k) == y - z;
    assert Q * (j + k) == Q * j + Q * k;
    CongruentIf(x, z, j + k);
  }

  lemma CongruentMul(a: int, x: int, y: int)
    requires Congruent(x, y)
    ensures Congruent(a * x, a * y) && Congruent(x * a, y * a)
  {
    var k :| Times(Q, k) == x - y;
    assert a * x - a * y == a * (x - y) == a * (Q * k) == Q * (a * k);
    CongruentIf(a * x, a * y, a * k);
    assert x * a == a * x && y * a == a * y;
  }

  /** Reducing an operand changes nothing once the result is reduced. */
  lemma ReduceEqual(x: int, y: int)
    requires Congruent(x, y)
    ensures Reduce(x) == Reduce(y)
  {
    CongruentSym(x, Reduce(x));
    CongruentTrans(Reduce(x), x, y);
    CongruentTrans(Reduce(x), y, Reduce(y));
    CongruentResidues(Reduce(x), Reduce(y));
  }

  lemma ReduceSmall(x: Residue)
    ensures Reduce(x) == x
  {
  }

  lemma ReduceSum(x: int, y: int)
    ensures Reduce(Reduce(x) + Reduce(y)) == Reduce(x + y)
  {
    CongruentAdd(x, Reduce(x), y, Reduce(y));
    ReduceEqual(x + y, Reduce(x) + Reduce(y));
  }

  lemma ReduceProduct(x: int, y: int)
    ensures Reduce(Reduce(x) * Reduce(y)) == Reduce(x * y)
  {
    CongruentMul(y, x, Reduce(x));
    CongruentMul(Reduce(x), y, Reduce(y));
    CongruentTrans(x * y, Reduce(x) * y, Reduce(x) * Reduce(y));
    ReduceEqual(x * y, Reduce(x) * Reduce(y));
  }

  // ---------- Inverses ----------

  /**
   The inverse of a: dividing Q by a leaves Q = a k + r with 0 < r < a, so that -k times the
   inverse of r is an inverse of a.
   */
  ghost function Inverse(a: nat): (b: int)
    requires 0 < a < Q
    ensures Congruent(a * b, 1)
    decreases a
  {
    if a == 1 then
      CongruentIf(1, 1, 0);
      1
    else
      var k, r := Q / a, Q % a;
      NoRemainder(a);
      var c := Inverse(r);
      InverseStep(a, k, r, c);
      -k * c
  }

  lemma NoRemainder(a: nat)
    requires 1 < a < Q
    ensures Q % a != 0 && Q == a * (Q / a) + Q % a
  {
    assert !Divides(a, Q);
    assert Times(a, Q / a) == Q - Q % a;
  }

  lemma InverseStep(a: nat, k: int, r: int, c: int)
    requires Q == a * k + r
    requires Congruent(r * c, 1)
    ensures Congruent(a * (-k * c), 1)
  {
    // a (-k c) = (r - Q) c
    assert a * (-k * c) == -(a * k) * c == (r - Q) * c == r * c - Q * c;
    CongruentIf(a * (-k * c), r * c, -c);
    CongruentTrans(a * (-k * c), r * c, 1);
  }

  // ---------- The field ----------

  ghost function Plus(a: Residue, b: Residue): Residue { Reduce(a + b) }

  ghost function Negate(a: Residue): Residue { Reduce(0 - a) }

  ghost function Multiply(a: Residue, b: Residue): Residue { Reduce(a * b) }

  ghost function Invert(a: Residue): Residue { if a == 0 then 0 else Reduce(Inverse(a)) }

  ghost function ResidueField(): Field<Residue>
  {
    Field(0, 1, (a, b) => Plus(a, b), a => Negate(a), (a, b) => Multiply(a, b), a => Invert(a))
  }

  lemma AddLawHolds(a: Residue, b: Residue, c: Residue)
    ensures ResidueField().AddLaw(a, b, c)
  {
    ReduceSmall(a);
    ReduceSmall(c);
    ReduceSum(a + b, c);
    ReduceSum(a, b + c);
    ReduceSum(a, 0 - a);
    ReduceSmall(0);
  }

  lemma MulLawHolds(a: Residue, b: Residue, c: Residue)
    ensures ResidueField().MulLaw(a, b, c)
  {
    MultiplyAssoc(a, b, c);
    assert Multiply(a, b) == Multiply(b, a) by {
      assert a * b == b * a;
    }
    ReduceSmall(a);
    DistributeResidues(a, b, c);
  }

  lemma MultiplyAssoc(a: Residue, b: Residue, c: Residue)
    ensures Multiply(Multiply(a, b), c) == Multiply(a, Multiply(b, c))
  {
    ReduceSmall(a);
    ReduceSmall(c);
    ReduceProduct(a * b, c);
    ReduceProduct(a, b * c);
    assert (a * b) * c == a * (b * c);
  }

  lemma DistributeResidues(a: Residue, b: Residue, c: Residue)
    ensures Multiply(a, Plus(b, c)) == Plus(Multiply(a, b), Multiply(a, c))
  {
    calc {
      Multiply(a, Plus(b, c));
      { ReduceSmall(a); ReduceProduct(a, b + c); }
      Reduce(a * (b + c));
      { assert a * (b + c) == a * b + a * c; }
      Reduce(a * b + a * c);
      { ReduceSum(a * b, a * c); }
      Plus(Multiply(a, b), Multiply(a, c));
    }
  }

  lemma InvLawHolds(a: Residue)
    ensures ResidueField().InvLaw(a)
  {
    if a != 0 {
      ReduceSmall(a);
      ReduceProduct(a, Inverse(a));
      ReduceEqual(a * Inverse(a), 1);
      ReduceSmall(1);
    }
  }

  lemma {:induction false} FromIsIdentity(n: nat)
    requires n < Q
    ensures ResidueField().From(n) == n
  {
    if n > 0 {
      FromIsIdentity(n - 1);
      ReduceSmall(n);
    }
  }

  lemma ResidueFieldIsValid()
    ensures ResidueField().Valid()
  {
    forall a, b, c
      ensures ResidueField().AddLaw(a, b, c) && ResidueField().MulLaw(a, b, c)
    {
      AddLawHolds(a, b, c);
      MulLawHolds(a, b, c);
    }
    forall a
      ensures ResidueField().InvLaw(a)
    {
      InvLawHolds(a);
    }
    forall n: nat
      ensures ResidueField().IndexLaw(n)
    {
      if 0 < n < U32_LIMIT {
        FromIsIdentity(n);
      }
    }
  }
}
