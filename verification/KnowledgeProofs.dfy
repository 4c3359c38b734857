/** The Schnorr proof of knowledge of a secret key. */
module KnowledgeProofs {
  import opened Fields
  import opened CipherSuites

  datatype KnowledgeProof<S> = KnowledgeProof(s: S, r: S)

  function Transcript<S(==, !new)>(C: CipherSuite<S>, index: u32, publicKey: Point<S>, m: Point<S>): Bytes
  {
    LeBytes(index) + C.Compress(publicKey) + C.Compress(m)
  }

  /** The proof made with the random scalar k. */
  function Prove<S(==, !new)>(C: CipherSuite<S>, index: u32, secretKey: S, publicKey: Point<S>, k: S): KnowledgeProof<S>
  {
    var s := C.H0(Transcript(C, index, publicKey, C.Base(k)));
    KnowledgeProof(s, C.F.Add(k, C.F.Mul(secretKey, s)))
  }

  predicate Verifies<S(==, !new)>(C: CipherSuite<S>, proof: KnowledgeProof<S>, index: u32, publicKey: Point<S>)
  {
    var m := C.GAdd(C.Base(proof.r), C.GMul(publicKey, C.F.Neg(proof.s)));
    proof.s == C.H0(Transcript(C, index, publicKey, m))
  }

  /** Whoever knows the secret key of the public key convinces the verifier. */
  lemma ProofComplete<S(!new)>(C: CipherSuite<S>, index: u32, secretKey: S, k: S)
    requires C.F.Valid()
    ensures Verifies(C, Prove(C, index, secretKey, C.Base(secretKey), k), index, C.Base(secretKey))
  {
    var s := C.H0(Transcript(C, index, C.Base(secretKey), C.Base(k)));
    var x := C.F.Mul(secretKey, s);
    // (k + x) - x = k
    C.F.NegMul(secretKey, s);
    C.F.SubAdd(k, x);
  }

  // ---------- The equations of a proof ----------

  /**
   The commitment m satisfies r G = m + s P, and s is the hash of the four bytes of the index, the
   public key and m, in this order.
   */
  ghost predicate ProofEquation<S(!new)>(C: CipherSuite<S>, proof: KnowledgeProof<S>, index: u32, publicKey: Point<S>,
                                         m: Point<S>)
  {
    && C.Base(proof.r) == C.GAdd(m, C.GMul(publicKey, proof.s))
    && proof.s == C.hash0(LeBytes(index) + C.compress(publicKey) + C.compress(m))
  }

  ghost predicate Proves<S(!new)>(C: CipherSuite<S>, proof: KnowledgeProof<S>, index: u32, publicKey: Point<S>)
  {
    exists m: Point<S> :: ProofEquation(C, proof, index, publicKey, m)
  }

  /** A proof verifies exactly if some commitment satisfies its equations. */
  lemma VerifiesExactly<S(!new)>(C: CipherSuite<S>, proof: KnowledgeProof<S>, index: u32, publicKey: Point<S>)
    requires C.F.Valid()
    ensures Verifies(C, proof, index, publicKey) <==> Proves(C, proof, index, publicKey)
  {
    var F, x := C.F, C.F.Mul(publicKey.dlog, proof.s);
    var m := C.GAdd(C.Base(proof.r), C.GMul(publicKey, F.Neg(proof.s)));
    F.NegMul(publicKey.dlog, proof.s);
    F.SubAdd(proof.r, x);
    if Verifies(C, proof, index, publicKey) {
      assert ProofEquation(C, proof, index, publicKey, m);
    }
    if m': Point<S> :| ProofEquation(C, proof, index, publicKey, m') {
      F.SubAdd(m'.dlog, x);
      assert m' == m;
    }
  }

  /** The proof made with the random scalar k commits to k G. */
  lemma ProveCommits<S(!new)>(C: CipherSuite<S>, index: u32, secretKey: S, k: S)
    ensures ProofEquation(C, Prove(C, index, secretKey, C.Base(secretKey), k), index, C.Base(secretKey), C.Base(k))
  {
  }

  /** With the right equation on r, a proof still only verifies for the right hash. */
  lemma ForgedProofExactly<S(!new)>(C: CipherSuite<S>, index: u32, secretKey: S, k: S, s: S)
    requires C.F.Valid()
    ensures Verifies(C, KnowledgeProof(s, C.F.Add(k, C.F.Mul(secretKey, s))), index, C.Base(secretKey))
       <==> s == C.hash0(LeBytes(index) + C.compress(C.Base(secretKey)) + C.compress(C.Base(k)))
  {
    C.F.NegMul(secretKey, s);
    C.F.SubAdd(k, C.F.Mul(secretKey, s));
  }
}
