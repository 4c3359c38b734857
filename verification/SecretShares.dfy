/** Secret shares, their encryption, and Feldman's check against a public commitment. */
module SecretShares {
  import opened Wrappers
  import opened Fields
  import opened Polynomials
  import opened CipherSuites

  datatype SecretShare<S> = SecretShare(sender: u32, receiver: u32, evaluation: S)

  /** The points a_k G of a polynomial's coefficients, constant term first. */
  datatype VssCommitment<S> = VssCommitment(index: u32, points: seq<Point<S>>)
  {
    function PublicKey(): Option<Point<S>>
    {
      if points == [] then None else Some(points[0])
    }
  }

  /** The committed coefficients; every commitment has some, honest or not. */
  ghost function Dlogs<S>(points: seq<Point<S>>): (a: seq<S>)
    ensures |a| == |points|
  {
    seq(|points|, i requires 0 <= i < |points| => points[i].dlog)
  }

  /** The share of the polynomial a that a sender makes for a receiver. */
  function ShareFor<S(!new)>(F: Field<S>, sender: u32, receiver: u32, a: seq<S>): SecretShare<S>
  {
    SecretShare(sender, receiver, Eval(F, a, F.From(receiver)))
  }

  /** Evaluation in the exponent. */
  function HidingEval<S(==, !new)>(C: CipherSuite<S>, points: seq<Point<S>>, x: S): Point<S>
  {
    if points == [] then C.Identity()
    else C.GAdd(points[0], C.GMul(HidingEval(C, points[1..], x), x))
  }

  predicate ShareVerifies<S(==, !new)>(C: CipherSuite<S>, share: SecretShare<S>, commitment: VssCommitment<S>)
  {
    C.Base(share.evaluation) == HidingEval(C, commitment.points, C.F.From(share.receiver))
  }

  method EvaluatePolynomial<S(==, !new)>(F: Field<S>, sender: u32, receiver: u32, coefficients: seq<S>)
    returns (share: SecretShare<S>)
    requires F.Valid()
    ensures share == ShareFor(F, sender, receiver, coefficients)
    ensures share.evaluation == PowerSum(F, coefficients, F.From(receiver))
  {
    var term := F.From(receiver);
    var sum := F.zero;
    var n := |coefficients|;
    F.MulZero(term);
    assert coefficients[n..] == [];
    for k := 0 to n
      invariant k < n ==> sum == F.Mul(term, Eval(F, coefficients[n - k..], term))
      invariant k == n ==> sum == Eval(F, coefficients, term)
    {
      var i := n - 1 - k;
      F.AddComm(sum, coefficients[i]);
      assert coefficients[i..][1..] == coefficients[n - k..];
      sum := F.Add(sum, coefficients[i]);
      if k != n - 1 {
        F.MulComm(sum, term);
        sum := F.Mul(sum, term);
      } else {
        assert coefficients[0..] == coefficients;
      }
    }
    EvalIsPowerSum(F, coefficients, term);
    share := SecretShare(sender, receiver, sum);
  }

  method EvaluateHiding<S(==, !new)>(C: CipherSuite<S>, points: seq<Point<S>>, term: S) returns (sum: Point<S>)
    requires C.F.Valid()
    ensures sum == HidingEval(C, points, term)
    ensures sum.dlog == PowerSum(C.F, Dlogs(points), term)
  {
    sum := C.Identity();
    var n := |points|;
    C.F.MulZero(term);
    assert points[n..] == [];
    for k := 0 to n
      invariant k < n ==> sum == C.GMul(HidingEval(C, points[n - k..], term), term)
      invariant k == n ==> sum == HidingEval(C, points, term)
    {
      var i := n - 1 - k;
      C.F.AddComm(sum.dlog, points[i].dlog);
      assert points[i..][1..] == points[n - k..];
      sum := C.GAdd(sum, points[i]);
      if k != n - 1 {
        sum := C.GMul(sum, term);
      } else {
        assert points[0..] == points;
      }
    }
    HidingEvalIsEval(C, points, term);
    EvalIsPowerSum(C.F, Dlogs(points), term);
  }

  method VerifyShare<S(==, !new)>(C: CipherSuite<S>, share: SecretShare<S>, commitment: VssCommitment<S>)
    returns (ok: bool)
    requires C.F.Valid()
    ensures ok <==> ShareVerifies(C, share, commitment)
  {
    var lhs := C.Base(share.evaluation);
    var rhs := EvaluateHiding(C, commitment.points, C.F.From(share.receiver));
    ok := lhs == rhs;
  }

  lemma {:induction false} HidingEvalIsEval<S(!new)>(C: CipherSuite<S>, points: seq<Point<S>>, x: S)
    requires C.F.Valid()
    ensures HidingEval(C, points, x).dlog == Eval(C.F, Dlogs(points), x)
  {
    if points != [] {
      HidingEvalIsEval(C, points[1..], x);
      assert Dlogs(points)[1..] == Dlogs(points[1..]);
      C.F.MulComm(HidingEval(C, points[1..], x).dlog, x);
    }
  }

  /** A share passes exactly when it is the value of the committed polynomial at its receiver. */
  lemma ShareVerifiesExactly<S(!new)>(C: CipherSuite<S>, share: SecretShare<S>, commitment: VssCommitment<S>)
    requires C.F.Valid()
    ensures ShareVerifies(C, share, commitment)
       <==> share.evaluation == Eval(C.F, Dlogs(commitment.points), C.F.From(share.receiver))
    ensures ShareVerifies(C, share, commitment)
       <==> share.evaluation == PowerSum(C.F, Dlogs(commitment.points), C.F.From(share.receiver))
  {
    HidingEvalIsEval(C, commitment.points, C.F.From(share.receiver));
    EvalIsPowerSum(C.F, Dlogs(commitment.points), C.F.From(share.receiver));
  }

  // ---------- Encryption ----------

  function EncryptShare<S(==, !new)>(C: CipherSuite<S>, share: SecretShare<S>, dhKey: Point<S>,
                                     nonce: Bytes): EncryptedShare
  {
    EncryptedShare(share.sender, share.receiver, nonce, C.Seal(C.Compress(dhKey), nonce, share.evaluation))
  }

  /** None stands for both a decryption and a decoding failure. */
  function DecryptShare<S(==, !new)>(C: CipherSuite<S>, e: EncryptedShare, dhKey: Point<S>): Option<SecretShare<S>>
  {
    match C.Unseal(C.Compress(dhKey), e.nonce, e.ciphertext)
    case None => None
    case Some(evaluation) => Some(SecretShare(e.sender, e.receiver, evaluation))
  }

  lemma DecryptEncrypt<S(!new)>(C: CipherSuite<S>, share: SecretShare<S>, dhKey: Point<S>, nonce: Bytes)
    requires C.Valid()
    ensures DecryptShare(C, EncryptShare(C, share, dhKey, nonce), dhKey) == Some(share)
  {
    assert C.CipherLaw(C.Compress(dhKey), nonce, share.evaluation);
  }
}
