/** The signature aggregator in place; each method is proved against the functions of `Aggregation`. */
module SignatureAggregators {
  import opened Wrappers
  import opened Fields
  import opened Sums
  import opened Lagrange
  import opened CipherSuites
  import opened Keys
  import opened Participants
  import opened Signing
  import opened Aggregation

  class SignatureAggregator<S(==, !new)> {
    var parameters: Parameters
    var signers: seq<Signer<S>>
    var publicKeys: map<u32, Point<S>>
    var partialSignatures: map<u32, S>
    var groupKey: Point<S>
    var message: Bytes

    ghost function View(): AggregatorState<S>
      reads this
    {
      AggregatorState(parameters, signers, publicKeys, partialSignatures, groupKey, message)
    }

    constructor (parameters: Parameters, groupKey: Point<S>, message: Bytes)
      ensures View() == AggregatorState(parameters, [], map[], map[], groupKey, message)
    {
      this.parameters := parameters;
      this.signers := [];
      this.publicKeys := map[];
      this.partialSignatures := map[];
      this.groupKey := groupKey;
      this.message := message;
    }

    method IncludeSigner(index: u32, hiding: Point<S>, binding: Point<S>, publicKey: IndividualVerifyingKey<S>)
      returns (r: Result<(), SigningError>)
      modifies this
      ensures (View(), r) == Included(old(View()), Signer(index, hiding, binding), publicKey)
    {
      if index != publicKey.index {
        return Err(IndexMismatch(index, publicKey.index));
      }
      signers := signers + [Signer(index, hiding, binding)];
      signers := SortSigners(signers);
      signers := DedupSigners(signers);
      if |signers| > parameters.n {
        return Err(TooManySigners(|signers|, parameters.n));
      }
      publicKeys := publicKeys[publicKey.index := publicKey.share];
      r := Ok(());
    }

    method IncludePartialSignature(p: PartialThresholdSignature<S>)
      modifies this
      ensures View() == IncludedPartial(old(View()), p)
    {
      partialSignatures := partialSignatures[p.index := p.z];
    }

    method RemainingSigners() returns (remaining: seq<Signer<S>>)
      ensures remaining == Aggregation.Remaining(View())
    {
      remaining := [];
      for i := 0 to |signers|
        invariant remaining == Lacking(signers[..i], partialSignatures)
      {
        assert signers[..i + 1][..i] == signers[..i];
        if signers[i].index !in partialSignatures {
          remaining := remaining + [signers[i]];
        }
      }
      assert signers[..|signers|] == signers;
      remaining := SortSigners(remaining);
      remaining := DedupSigners(remaining);
    }

    method KeylessIndices() returns (indices: seq<u32>)
      ensures indices == IndicesOf(Lacking(signers, publicKeys))
    {
      indices := [];
      for i := 0 to |signers|
        invariant indices == IndicesOf(Lacking(signers[..i], publicKeys))
      {
        LackingStep(signers, publicKeys, i);
        if signers[i].index !in publicKeys {
          indices := indices + [signers[i].index];
        }
      }
      assert signers[..|signers|] == signers;
    }

    method Finalize(C: CipherSuite<S>) returns (r: Result<Finalized<S>, SigningError>)
      ensures r == if Misbehaving(View()) == [] then Ok(Finalized(View(), C.hash4(message)))
                   else Err(MisbehavingParticipants(Misbehaving(View())))
    {
      var misbehaving: seq<u32> := [];
      var remaining := RemainingSigners();
      if remaining != [] {
        var late := SignerIndices(remaining);
        misbehaving := [0] + late;
      }
      var keyless := KeylessIndices();
      misbehaving := misbehaving + keyless;
      assert misbehaving == Misbehaving(View());
      if misbehaving != [] {
        return Err(MisbehavingParticipants(misbehaving));
      }
      r := Ok(Finalized(AggregatorState(parameters, signers, publicKeys, partialSignatures, groupKey, message),
                        C.H4(message)));
    }
  }

  lemma LackingStep<S, V>(signers: seq<Signer<S>>, m: map<u32, V>, i: nat)
    requires i < |signers|
    ensures IndicesOf(Lacking(signers[..i + 1], m))
         == IndicesOf(Lacking(signers[..i], m)) + if signers[i].index in m then [] else [signers[i].index]
  {
    assert signers[..i + 1][..i] == signers[..i];
    var before := Lacking(signers[..i], m);
    assert IndicesOf(before + [signers[i]]) == IndicesOf(before) + [signers[i].index];
  }

  /** The sum of the partial signatures, in the order of the signers. */
  method CombinePartials<S(==, !new)>(F: Field<S>, st: AggregatorState<S>) returns (z: S)
    requires Complete(st)
    ensures z == SumSeq(F, PartialLogs(st))
  {
    z := F.zero;
    for i := 0 to |st.signers|
      invariant z == SumSeq(F, PartialLogs(st)[..i])
    {
      assert PartialLogs(st)[..i + 1][..i] == PartialLogs(st)[..i];
      z := F.Add(z, st.partialSignatures[st.signers[i].index]);
    }
    assert PartialLogs(st)[..|st.signers|] == PartialLogs(st);
  }

  /** The check on one signer. */
  method CheckPartial<S(==, !new)>(C: CipherSuite<S>, f: Finalized<S>, s: Signer<S>, challenge: S, indices: seq<u32>)
    returns (r: Result<bool, SigningError>)
    requires C.F.Valid() && Complete(f.state) && s in f.state.signers
    requires challenge == Challenge(C, f) && indices == IndicesOf(f.state.signers)
    ensures var failure := IndexError(indices);
            r == if failure.Some? then Err(SigningError.Interpolation(failure.value)) else Ok(PartialHolds(C, f, s))
  {
    IndexErrorExactly(indices);
    var lambda := CalculateLagrangeCoefficients(C.F, s.index, indices);
    if lambda.Err? {
      return Err(SigningError.Interpolation(lambda.error));
    }
    var check := C.Base(f.state.partialSignatures[s.index]);
    var commitment := CommitmentForParticipant(C, s.index, f.messageHash, f.state.signers);
    assert commitment.Ok?;
    var expected := C.GMul(f.state.publicKeys[s.index], C.F.Mul(challenge, lambda.value));
    r := Ok(check == C.GAdd(commitment.value, expected));
  }

  /** What the turn of signer i goes by; a predicate, so that it is used only where a proof names it. */
  ghost predicate PreparedAt<S(!new)>(C: CipherSuite<S>, f: Finalized<S>, challenge: S, holds: seq<bool>, i: nat)
  {
    && C.F.Valid() && Complete(f.state) && challenge == Challenge(C, f)
    && i < |f.state.signers| == |holds|
    && (holds[i] <==> PartialHolds(C, f, f.state.signers[i]))
  }

  ghost predicate Prepared<S(!new)>(C: CipherSuite<S>, f: Finalized<S>, challenge: S, holds: seq<bool>)
  {
    && |f.state.signers| == |holds|
    && forall i {:trigger PreparedAt(C, f, challenge, holds, i)} ::
         0 <= i < |holds| ==> PreparedAt(C, f, challenge, holds, i)
  }

  /** One turn of the loop over the signers: the list grows if the signer fails the check. */
  method CheckNext<S(==, !new)>(C: CipherSuite<S>, f: Finalized<S>, i: nat, challenge: S, indices: seq<u32>,
                                cheaters: seq<u32>, ghost holds: seq<bool>)
    returns (r: Result<seq<u32>, SigningError>)
    requires Prepared(C, f, challenge, holds) && i < |f.state.signers| && indices == IndicesOf(f.state.signers)
    requires cheaters == Failing(f.state.signers, holds, i)
    ensures var failure := IndexError(indices);
            r == if failure.Some? then Err(SigningError.Interpolation(failure.value))
                 else Ok(Failing(f.state.signers, holds, i + 1))
  {
    var s := f.state.signers[i];
    assert PreparedAt(C, f, challenge, holds, i);
    var ok := CheckPartial(C, f, s, challenge, indices);
    if ok.Err? {
      return Err(ok.error);
    }
    assert ok.value == holds[i];
    r := Ok(if ok.value then cheaters else cheaters + [s.index]);
  }

  method IdentifyCheaters<S(==, !new)>(C: CipherSuite<S>, f: Finalized<S>, challenge: S, ghost holds: seq<bool>)
    returns (error: SigningError)
    requires f.state.signers != [] && Prepared(C, f, challenge, holds)
    ensures var failure := IndexError(IndicesOf(f.state.signers));
            error == if failure.Some? then SigningError.Interpolation(failure.value)
                     else MisbehavingParticipants(Failing(f.state.signers, holds, |holds|))
  {
    var indices := SignerIndices(f.state.signers);
    var cheaters: seq<u32> := [];
    for i := 0 to |f.state.signers|
      invariant cheaters == Failing(f.state.signers, holds, i)
      invariant i == 0 || IndexError(indices) == None
    {
      var next := CheckNext(C, f, i, challenge, indices, cheaters, holds);
      if next.Err? {
        return next.error;
      }
      cheaters := next.value;
    }
    error := MisbehavingParticipants(cheaters);
  }

  method Aggregate<S(==, !new)>(C: CipherSuite<S>, f: Finalized<S>)
    returns (r: Result<ThresholdSignature<S>, SigningError>)
    requires C.F.Valid() && Complete(f.state)
    ensures r == Aggregated(C, f)
  {
    var signers := f.state.signers;
    var factors := ComputeBindingFactors(C, f.messageHash, signers);
    if factors.Err? {
      return Err(factors.error);
    }
    var commitment := ComputeGroupCommitment(C, signers, factors.value);
    assert commitment.Ok?;
    var challenge := ComputeChallenge(C, commitment.value, f.state.groupKey, f.messageHash);
    var z := CombinePartials(C.F, f.state);
    var signature := ThresholdSignature(commitment.value, z);
    if SignatureVerifies(C, signature, f.state.groupKey, f.messageHash) {
      return Ok(signature);
    }
    ghost var holds := Holding(C, f);
    forall i | 0 <= i < |holds|
      ensures PreparedAt(C, f, challenge, holds, i)
    {
    }
    var error := IdentifyCheaters(C, f, challenge, holds);
    r := Err(error);
  }
}
