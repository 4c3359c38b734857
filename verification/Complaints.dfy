/** Complaints about bad shares: a proof that a Diffie-Hellman key is the one both sides share. */
module Complaints {
  import opened Fields
  import opened CipherSuites

  datatype ComplaintProof<S> = ComplaintProof(a1: Point<S>, a2: Point<S>, z: S)

  datatype Complaint<S> = Complaint(
    dhSharedKey: Point<S>,
    dhPublicKey: Point<S>,
    encryptedShare: EncryptedShare,
    proof: ComplaintProof<S>)

  function Challenge<S(==, !new)>(C: CipherSuite<S>, makerKey: Point<S>, accusedKey: Point<S>, sharedKey: Point<S>,
                                  a1: Point<S>, a2: Point<S>, e: EncryptedShare): S
  {
    C.HComplaint(C.Compress(makerKey) + C.Compress(accusedKey) + C.Compress(sharedKey)
                 + C.Compress(a1) + C.Compress(a2) + C.CompressShare(e))
  }

  /** The challenge a maker with the secret key sk and the random scalar r meets. */
  function MakerChallenge<S(==, !new)>(C: CipherSuite<S>, accusedKey: Point<S>, sk: S, sharedKey: Point<S>,
                                       e: EncryptedShare, r: S): S
  {
    Challenge(C, C.Base(sk), accusedKey, sharedKey, C.Base(r), C.GMul(accusedKey, r), e)
  }

  function NewComplaint<S(==, !new)>(C: CipherSuite<S>, accusedKey: Point<S>, sk: S, sharedKey: Point<S>,
                                     e: EncryptedShare, r: S): Complaint<S>
  {
    var h := MakerChallenge(C, accusedKey, sk, sharedKey, e, r);
    Complaint(sharedKey, C.Base(sk), e,
              ComplaintProof(C.Base(r), C.GMul(accusedKey, r), C.F.Add(r, C.F.Mul(h, sk))))
  }

  predicate ComplaintVerifies<S(==, !new)>(C: CipherSuite<S>, c: Complaint<S>, accusedKey: Point<S>)
  {
    var h := Challenge(C, c.dhPublicKey, accusedKey, c.dhSharedKey, c.proof.a1, c.proof.a2, c.encryptedShare);
    && C.GAdd(c.proof.a1, C.GMul(c.dhPublicKey, h)) == C.Base(c.proof.z)
    && C.GAdd(c.proof.a2, C.GMul(c.dhSharedKey, h)) == C.GMul(accusedKey, c.proof.z)
  }

  /**
   A complaint made with the secret key sk verifies exactly when the key it discloses is the shared
   one, the only exception being a challenge that hashes to zero.
   */
  lemma ComplaintVerifiesExactly<S(!new)>(C: CipherSuite<S>, accusedKey: Point<S>, sk: S, sharedKey: Point<S>,
                                          e: EncryptedShare, r: S)
    requires C.F.Valid()
    ensures ComplaintVerifies(C, NewComplaint(C, accusedKey, sk, sharedKey, e, r), accusedKey)
       <==> sharedKey == C.GMul(accusedKey, sk) || MakerChallenge(C, accusedKey, sk, sharedKey, e, r) == C.F.zero
  {
    var F, h, p := C.F, MakerChallenge(C, accusedKey, sk, sharedKey, e, r), accusedKey.dlog;
    F.MulComm(sk, h);
    // the second equation: r p + h k = r p + h (sk p)
    F.Distribute(p, r, F.Mul(h, sk));
    F.MulSwap(p, h, sk);
    F.MulComm(sharedKey.dlog, h);
    F.AddComm(F.Mul(p, r), F.Mul(h, sharedKey.dlog));
    F.AddComm(F.Mul(p, r), F.Mul(h, F.Mul(p, sk)));
    F.AddCancel(F.Mul(h, sharedKey.dlog), F.Mul(h, F.Mul(p, sk)), F.Mul(p, r));
    if h == F.zero {
      F.MulZero(sharedKey.dlog);
      F.MulZero(F.Mul(p, sk));
    } else {
      F.MulComm(h, sharedKey.dlog);
      F.MulComm(h, F.Mul(p, sk));
      F.MulCancel(sharedKey.dlog, F.Mul(p, sk), h);
    }
  }

  /**
   The two equations of a complaint, z G = a1 + h P and z A = a2 + h K, for the key P and the shared
   key K that it discloses and the key A of the accused; h hashes the five points and the share.
   */
  ghost predicate ComplaintEquations<S(!new)>(C: CipherSuite<S>, c: Complaint<S>, accusedKey: Point<S>)
  {
    var h := C.hashComplaint(C.compress(c.dhPublicKey) + C.compress(accusedKey) + C.compress(c.dhSharedKey)
                             + C.compress(c.proof.a1) + C.compress(c.proof.a2) + C.compressShare(c.encryptedShare));
    && C.Base(c.proof.z) == C.GAdd(c.proof.a1, C.GMul(c.dhPublicKey, h))
    && C.GMul(accusedKey, c.proof.z) == C.GAdd(c.proof.a2, C.GMul(c.dhSharedKey, h))
  }

  /** A complaint discloses the keys of its maker and hides its secret key behind the random scalar. */
  lemma ComplaintDiscloses<S(!new)>(C: CipherSuite<S>, accusedKey: Point<S>, sk: S, e: EncryptedShare, r: S)
    requires C.F.Valid()
    ensures var c := NewComplaint(C, accusedKey, sk, C.GMul(accusedKey, sk), e, r);
            && c.dhPublicKey == C.Base(sk) && c.dhSharedKey == C.GMul(accusedKey, sk) && c.encryptedShare == e
            && c.proof.a1 == C.Base(r) && c.proof.a2 == C.GMul(accusedKey, r)
            && ComplaintEquations(C, c, accusedKey)
  {
    ComplaintVerifiesExactly(C, accusedKey, sk, C.GMul(accusedKey, sk), e, r);
  }
}
