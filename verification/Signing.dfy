/** Signing: transcripts, binding factors, commitments and the partial signature of one signer. */
module Signing {
  import opened Wrappers
  import opened Fields
  import opened Sums
  import opened Orderings
  import opened Lagrange
  import opened CipherSuites
  import opened Keys
  import opened Precomputation

  datatype SigningError =
    | MissingCommitmentShares
    | InvalidBindingFactor
    | Interpolation(error: LagrangeError)
    | IndexMismatch(participant: u32, key: u32)
    | TooManySigners(got: nat, limit: u32)
    | MisbehavingParticipants(indices: seq<u32>)
    | InvalidSignature
    | Panicked

  datatype Signer<S> = Signer(index: u32, hiding: Point<S>, binding: Point<S>)

  datatype PartialThresholdSignature<S> = PartialThresholdSignature(index: u32, z: S)

  datatype ThresholdSignature<S> = ThresholdSignature(groupCommitment: Point<S>, z: S)

  ghost function IndicesOf<S>(signers: seq<Signer<S>>): (indices: seq<u32>)
    ensures |indices| == |signers|
    ensures forall i :: 0 <= i < |signers| ==> indices[i] == signers[i].index
  {
    seq(|signers|, i requires 0 <= i < |signers| => signers[i].index)
  }

  method SignerIndices<S>(signers: seq<Signer<S>>) returns (indices: seq<u32>)
    ensures indices == IndicesOf(signers)
  {
    indices := [];
    for i := 0 to |signers|
      invariant indices == IndicesOf(signers)[..i]
    {
      indices := indices + [signers[i].index];
    }
  }

  // ---------- Transcripts ----------

  function EncodeSigner<S(==, !new)>(C: CipherSuite<S>, s: Signer<S>): Bytes
  {
    LeBytes(s.index) + C.Compress(s.hiding) + C.Compress(s.binding)
  }

  ghost function EncodedList<S(!new)>(C: CipherSuite<S>, signers: seq<Signer<S>>): Bytes
  {
    if signers == [] then []
    else EncodedList(C, signers[..|signers| - 1]) + EncodeSigner(C, signers[|signers| - 1])
  }

  method EncodeGroupCommitmentList<S(==, !new)>(C: CipherSuite<S>, signers: seq<Signer<S>>)
    returns (r: Result<Bytes, SigningError>)
    ensures r == if signers == [] then Err(Panicked) else Ok(EncodedList(C, signers))
  {
    if signers == [] {
      return Err(Panicked);
    }
    var encoded: Bytes := [];
    for i := 0 to |signers|
      invariant encoded == EncodedList(C, signers[..i])
    {
      assert signers[..i + 1][..i] == signers[..i];
      encoded := encoded + EncodeSigner(C, signers[i]);
    }
    assert signers[..|signers|] == signers;
    r := Ok(encoded);
  }

  /** What every binding factor hashes: the message and all the commitments. The group key is not in it. */
  ghost function RhoPrefix<S(!new)>(C: CipherSuite<S>, message: Bytes, signers: seq<Signer<S>>): Bytes
  {
    C.H4(message) + C.H5(EncodedList(C, signers))
  }

  function Factor<S(==, !new)>(C: CipherSuite<S>, prefix: Bytes, index: u32): S
  {
    C.H1(prefix + LeBytes(index))
  }

  ghost function BindingFactors<S(!new)>(C: CipherSuite<S>, message: Bytes, signers: seq<Signer<S>>): map<u32, S>
  {
    map i | i in ToSet(IndicesOf(signers)) :: Factor(C, RhoPrefix(C, message, signers), i)
  }

  method ComputeBindingFactors<S(==, !new)>(C: CipherSuite<S>, message: Bytes, signers: seq<Signer<S>>)
    returns (r: Result<map<u32, S>, SigningError>)
    ensures r == if signers == [] then Err(Panicked) else Ok(BindingFactors(C, message, signers))
    ensures r.Ok? ==>
              && r.value.Keys == ToSet(IndicesOf(signers))
              && forall i :: i in r.value ==>
                   r.value[i] == C.hash1(C.hash4(message) + C.hash5(EncodedList(C, signers)) + LeBytes(i))
  {
    var encoded := EncodeGroupCommitmentList(C, signers);
    if encoded.Err? {
      return Err(encoded.error);
    }
    var prefix := C.H4(message) + C.H5(encoded.value);
    var factors: map<u32, S> := map[];
    for i := 0 to |signers|
      invariant factors.Keys == ToSet(IndicesOf(signers)[..i])
      invariant forall l :: l in factors ==> factors[l] == Factor(C, prefix, l)
    {
      ToSetPrefix(IndicesOf(signers), i);
      factors := factors[signers[i].index := Factor(C, prefix, signers[i].index)];
    }
    assert IndicesOf(signers)[..|signers|] == IndicesOf(signers);
    assert factors == BindingFactors(C, message, signers);
    r := Ok(factors);
  }

  // ---------- Commitments ----------

  function SignerCommitment<S(==, !new)>(C: CipherSuite<S>, s: Signer<S>, factor: S): Point<S>
  {
    C.GAdd(s.hiding, C.GMul(s.binding, factor))
  }

  function FactorIn<S(!new)>(F: Field<S>, factors: map<u32, S>, index: u32): S
  {
    if index in factors then factors[index] else F.zero
  }

  /** The commitments of all the signers, each bound by its factor. */
  ghost function GroupCommitment<S(!new)>(C: CipherSuite<S>, signers: seq<Signer<S>>, factors: map<u32, S>): Point<S>
  {
    if signers == [] then C.Identity()
    else
      var k := |signers| - 1;
      C.GAdd(GroupCommitment(C, signers[..k], factors),
             SignerCommitment(C, signers[k], FactorIn(C.F, factors, signers[k].index)))
  }

  method ComputeGroupCommitment<S(==, !new)>(C: CipherSuite<S>, signers: seq<Signer<S>>, factors: map<u32, S>)
    returns (r: Result<Point<S>, SigningError>)
    ensures r == if ToSet(IndicesOf(signers)) <= factors.Keys then Ok(GroupCommitment(C, signers, factors))
                 else Err(InvalidBindingFactor)
  {
    var commitment := C.Identity();
    for i := 0 to |signers|
      invariant ToSet(IndicesOf(signers)[..i]) <= factors.Keys
      invariant commitment == GroupCommitment(C, signers[..i], factors)
    {
      ToSetPrefix(IndicesOf(signers), i);
      assert signers[..i + 1][..i] == signers[..i];
      if signers[i].index !in factors {
        assert IndicesOf(signers)[i] in ToSet(IndicesOf(signers));
        return Err(InvalidBindingFactor);
      }
      commitment := C.GAdd(commitment, SignerCommitment(C, signers[i], factors[signers[i].index]));
    }
    assert signers[..|signers|] == signers;
    assert IndicesOf(signers)[..|signers|] == IndicesOf(signers);
    r := Ok(commitment);
  }

  /** The last entry of the list with this index, or neutral commitments. */
  ghost function LastEntry<S(!new)>(C: CipherSuite<S>, signers: seq<Signer<S>>, index: u32): Signer<S>
  {
    if signers == [] then Signer(index, C.Identity(), C.Identity())
    else if signers[|signers| - 1].index == index then signers[|signers| - 1]
    else LastEntry(C, signers[..|signers| - 1], index)
  }

  method CommitmentForParticipant<S(==, !new)>(C: CipherSuite<S>, index: u32, message: Bytes, signers: seq<Signer<S>>)
    returns (r: Result<Point<S>, SigningError>)
    ensures r == if signers == [] then Err(Panicked)
                 else Ok(ParticipantCommitment(C, message, signers, index))
    ensures r.Ok? ==>
              var entry := LastEntry(C, signers, index);
              var rho := C.hash1(C.hash4(message) + C.hash5(EncodedList(C, signers)) + LeBytes(index));
              r.value == C.GAdd(entry.hiding, C.GMul(entry.binding, rho))
  {
    var entry := Signer(index, C.Identity(), C.Identity());
    for i := 0 to |signers|
      invariant entry == LastEntry(C, signers[..i], index)
    {
      assert signers[..i + 1][..i] == signers[..i];
      if signers[i].index == index {
        entry := signers[i];
      }
    }
    assert signers[..|signers|] == signers;
    var encoded := EncodeGroupCommitmentList(C, signers);
    if encoded.Err? {
      return Err(encoded.error);
    }
    r := Ok(SignerCommitment(C, entry, Factor(C, C.H4(message) + C.H5(encoded.value), index)));
  }

  /** The last entry with an index counts. */
  lemma {:induction false} LastEntryCounts<S(!new)>(C: CipherSuite<S>, signers: seq<Signer<S>>, i: nat)
    requires i < |signers| && forall j :: i < j < |signers| ==> signers[j].index != signers[i].index
    ensures LastEntry(C, signers, signers[i].index) == signers[i]
  {
    if i < |signers| - 1 {
      LastEntryCounts(C, signers[..|signers| - 1], i);
    }
  }

  /** With none, the commitments are neutral. */
  lemma {:induction false} NoEntryIsNeutral<S(!new)>(C: CipherSuite<S>, signers: seq<Signer<S>>, index: u32)
    requires forall j :: 0 <= j < |signers| ==> signers[j].index != index
    ensures LastEntry(C, signers, index) == Signer(index, C.Identity(), C.Identity())
  {
    if signers != [] {
      NoEntryIsNeutral(C, signers[..|signers| - 1], index);
    }
  }

  lemma LastEntryIsOnly<S(!new)>(C: CipherSuite<S>, signers: seq<Signer<S>>, i: nat)
    requires i < |signers| && Distinct(IndicesOf(signers))
    ensures LastEntry(C, signers, signers[i].index) == signers[i]
  {
    forall j | i < j < |signers|
      ensures signers[j].index != signers[i].index
    {
      assert IndicesOf(signers)[i] != IndicesOf(signers)[j];
    }
    LastEntryCounts(C, signers, i);
  }

  ghost function CommitmentLogs<S(!new)>(C: CipherSuite<S>, signers: seq<Signer<S>>,
                                         factors: map<u32, S>): (logs: seq<S>)
    ensures |logs| == |signers|
    ensures forall i :: 0 <= i < |signers| ==>
              logs[i] == SignerCommitment(C, signers[i], FactorIn(C.F, factors, signers[i].index)).dlog
  {
    seq(|signers|, i requires 0 <= i < |signers| =>
      SignerCommitment(C, signers[i], FactorIn(C.F, factors, signers[i].index)).dlog)
  }

  lemma {:induction false} GroupCommitmentIsSum<S(!new)>(C: CipherSuite<S>, signers: seq<Signer<S>>,
                                                        factors: map<u32, S>)
    ensures GroupCommitment(C, signers, factors) == C.Base(SumSeq(C.F, CommitmentLogs(C, signers, factors)))
  {
    if signers != [] {
      var k := |signers| - 1;
      GroupCommitmentIsSum(C, signers[..k], factors);
      assert CommitmentLogs(C, signers, factors)[..k] == CommitmentLogs(C, signers[..k], factors);
    }
  }

  /** What `commitment_for_participant` computes for a non-empty list. */
  ghost function ParticipantCommitment<S(!new)>(C: CipherSuite<S>, message: Bytes, signers: seq<Signer<S>>,
                                                index: u32): Point<S>
  {
    SignerCommitment(C, LastEntry(C, signers, index), Factor(C, RhoPrefix(C, message, signers), index))
  }

  ghost function ParticipantLogs<S(!new)>(C: CipherSuite<S>, message: Bytes, signers: seq<Signer<S>>): (logs: seq<S>)
    ensures |logs| == |signers|
    ensures forall i :: 0 <= i < |signers| ==>
              logs[i] == ParticipantCommitment(C, message, signers, signers[i].index).dlog
  {
    seq(|signers|, i requires 0 <= i < |signers| => ParticipantCommitment(C, message, signers, signers[i].index).dlog)
  }

  /**
   Over signers with distinct indices, the commitments computed participant by participant for the
   identification of cheaters sum to the group commitment; both sides hash the same transcript.
   */
  lemma CommitmentsAgree<S(!new)>(C: CipherSuite<S>, message: Bytes, signers: seq<Signer<S>>)
    requires Distinct(IndicesOf(signers))
    ensures GroupCommitment(C, signers, BindingFactors(C, message, signers))
         == C.Base(SumSeq(C.F, ParticipantLogs(C, message, signers)))
  {
    var factors := BindingFactors(C, message, signers);
    var logs := CommitmentLogs(C, signers, factors);
    forall i | 0 <= i < |signers|
      ensures ParticipantLogs(C, message, signers)[i] == logs[i]
    {
      LastEntryIsOnly(C, signers, i);
      assert IndicesOf(signers)[i] in factors;
    }
    assert ParticipantLogs(C, message, signers) == logs;
    GroupCommitmentIsSum(C, signers, factors);
  }

  // ---------- Challenge and signature ----------

  function ComputeChallenge<S(==, !new)>(C: CipherSuite<S>, groupCommitment: Point<S>, groupKey: Point<S>,
                                         messageHash: Bytes): S
  {
    C.H2(C.Compress(groupCommitment) + C.Compress(groupKey) + messageHash)
  }

  /** `verify` of a signature, and `verify_signature` of a group key. */
  predicate SignatureVerifies<S(==, !new)>(C: CipherSuite<S>, sig: ThresholdSignature<S>, groupKey: Point<S>,
                                           messageHash: Bytes)
  {
    var challenge := ComputeChallenge(C, sig.groupCommitment, groupKey, messageHash);
    sig.groupCommitment == C.GAdd(C.Base(sig.z), C.GMul(C.GNeg(groupKey), challenge))
  }

  /** The subtracting equation of the code is Schnorr's z G = R + c P, with c the hash of R, P and the message hash. */
  lemma SignatureVerifiesExactly<S(!new)>(C: CipherSuite<S>, sig: ThresholdSignature<S>, groupKey: Point<S>,
                                          messageHash: Bytes)
    requires C.F.Valid()
    ensures SignatureVerifies(C, sig, groupKey, messageHash)
       <==> C.Base(sig.z)
            == C.GAdd(sig.groupCommitment,
                      C.GMul(groupKey, C.hash2(C.compress(sig.groupCommitment) + C.compress(groupKey) + messageHash)))
  {
    var F, c := C.F, ComputeChallenge(C, sig.groupCommitment, groupKey, messageHash);
    var x := F.Mul(groupKey.dlog, c);
    F.NegMul(groupKey.dlog, c);
    F.SubAdd(sig.z, x);
    F.SubAdd(sig.groupCommitment.dlog, x);
  }

  /** A signature is bound to its message: it is valid for another one exactly if both hash to one challenge. */
  lemma SignatureBoundExactly<S(!new)>(C: CipherSuite<S>, sig: ThresholdSignature<S>, groupKey: Point<S>,
                                       messageHash: Bytes, other: Bytes)
    requires C.F.Valid() && groupKey != C.Identity() && SignatureVerifies(C, sig, groupKey, messageHash)
    ensures SignatureVerifies(C, sig, groupKey, other)
       <==> C.hash2(C.compress(sig.groupCommitment) + C.compress(groupKey) + other)
            == C.hash2(C.compress(sig.groupCommitment) + C.compress(groupKey) + messageHash)
  {
    var F, R := C.F, sig.groupCommitment.dlog;
    var c := C.hash2(C.compress(sig.groupCommitment) + C.compress(groupKey) + messageHash);
    var c' := C.hash2(C.compress(sig.groupCommitment) + C.compress(groupKey) + other);
    SignatureVerifiesExactly(C, sig, groupKey, messageHash);
    SignatureVerifiesExactly(C, sig, groupKey, other);
    F.AddComm(R, F.Mul(groupKey.dlog, c));
    F.AddComm(R, F.Mul(groupKey.dlog, c'));
    F.AddCancel(F.Mul(groupKey.dlog, c), F.Mul(groupKey.dlog, c'), R);
    F.MulComm(groupKey.dlog, c);
    F.MulComm(groupKey.dlog, c');
    F.MulCancel(c, c', groupKey.dlog);
  }

  // ---------- The partial signature ----------

  /** z = d + e rho + (lambda s) c. */
  function Response<S(==, !new)>(F: Field<S>, hiding: S, binding: S, factor: S, lambda: S, key: S, challenge: S): S
  {
    F.Add(F.Add(hiding, F.Mul(binding, factor)), F.Mul(F.Mul(lambda, key), challenge))
  }

  ghost function GroupChallenge<S(!new)>(C: CipherSuite<S>, messageHash: Bytes, groupKey: Point<S>,
                                         signers: seq<Signer<S>>): S
  {
    ComputeChallenge(C, GroupCommitment(C, signers, BindingFactors(C, messageHash, signers)), groupKey, messageHash)
  }

  /** What `sign` returns, errors in the order it meets them. */
  ghost function Signed<S(!new)>(C: CipherSuite<S>, key: IndividualSigningKey<S>, messageHash: Bytes,
                                 groupKey: Point<S>, shares: seq<CommitmentShare<S>>, k: nat, signers: seq<Signer<S>>)
    : Result<PartialThresholdSignature<S>, SigningError>
  {
    var indices := IndicesOf(signers);
    if k >= |shares| then Err(MissingCommitmentShares)
    else if signers == [] then Err(Panicked)
    else if key.index !in indices then Err(InvalidBindingFactor)
    else
      match Coefficient(C.F, key.index, indices)
      case Err(error) => Err(Interpolation(error))
      case Ok(lambda) =>
        Ok(PartialThresholdSignature(key.index,
          Response(C.F, shares[k].hiding.secret, shares[k].binding.secret,
                   Factor(C, RhoPrefix(C, messageHash, signers), key.index),
                   lambda, key.key, GroupChallenge(C, messageHash, groupKey, signers))))
  }

  method Sign<S(==, !new)>(C: CipherSuite<S>, key: IndividualSigningKey<S>, messageHash: Bytes, groupKey: Point<S>,
                           list: SecretCommitmentShareList<S>, k: nat, signers: seq<Signer<S>>)
    returns (r: Result<PartialThresholdSignature<S>, SigningError>)
    requires C.F.Valid()
    modifies list
    ensures r == Signed(C, key, messageHash, groupKey, old(list.commitments), k, signers)
    ensures r.Ok? ==> k < |old(list.commitments)|
    ensures list.commitments == if r.Ok? then DropLast(old(list.commitments), old(list.commitments)[k])
                                else old(list.commitments)
  {
    if k + 1 > |list.commitments| {
      return Err(MissingCommitmentShares);
    }
    var factors := ComputeBindingFactors(C, messageHash, signers);
    if factors.Err? {
      return Err(factors.error);
    }
    assert key.index in factors.value <==> key.index in IndicesOf(signers);
    if key.index !in factors.value {
      return Err(InvalidBindingFactor);
    }
    var factor := factors.value[key.index];
    var groupCommitment := ComputeGroupCommitment(C, signers, factors.value);
    assert groupCommitment.Ok?;
    var indices := SignerIndices(signers);
    var lambda := CalculateLagrangeCoefficients(C.F, key.index, indices);
    if lambda.Err? {
      return Err(Interpolation(lambda.error));
    }
    var share := list.commitments[k];
    var challenge := ComputeChallenge(C, groupCommitment.value, groupKey, messageHash);
    var z := Response(C.F, share.hiding.secret, share.binding.secret, factor, lambda.value, key.key, challenge);
    list.DropShare(share);
    r := Ok(PartialThresholdSignature(key.index, z));
  }
}
