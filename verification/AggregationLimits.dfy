/**
 Histories of an aggregator whose failing aggregation does not name the guilty: it names nobody, it
 names an honest signer, or it returns another error because a signer has index zero.
 */
module AggregationLimits {
  import opened Wrappers
  import opened Fields
  import opened Sums
  import opened Polynomials
  import opened Lagrange
  import opened CipherSuites
  import opened Keys
  import opened Precomputation
  import opened Participants
  import opened Signing
  import opened Aggregation
  import opened AggregatorHistory
  import opened ThresholdSigning

  /** The calls lead a new aggregator to this state, and it can be finalized. */
  ghost predicate Reached<S(!new)>(f: Finalized<S>, parameters: Parameters, groupKey: Point<S>, message: Bytes,
                                   events: seq<Event<S>>)
  {
    Run(Start(parameters, groupKey, message), events) == f.state && Misbehaving(f.state) == []
  }

  // ---------- One signer ----------

  /** One signer is included with a key, and its partial signature arrives. */
  function OneSigner<S>(s: Signer<S>, key: Point<S>, z: S): seq<Event<S>>
  {
    [SignerEvent(s, IndividualVerifyingKey(s.index, key)), PartialEvent(PartialThresholdSignature(s.index, z))]
  }

  /** What such an aggregator is finalized to. */
  ghost function OneFinalized<S(!new)>(C: CipherSuite<S>, parameters: Parameters, groupKey: Point<S>, message: Bytes,
                                       s: Signer<S>, key: Point<S>, z: S): Finalized<S>
  {
    Finalized(AggregatorState(parameters, [s], map[s.index := key], map[s.index := z], groupKey, message),
              C.H4(message))
  }

  lemma OneIncluded<S(!new)>(st: AggregatorState<S>, s: Signer<S>, key: Point<S>)
    requires st.signers == [] && st.publicKeys == map[] && st.parameters.n >= 1
    ensures Included(st, s, IndividualVerifyingKey(s.index, key)).0
         == st.(signers := [s], publicKeys := map[s.index := key])
  {
    IncludeIsPlace(st, s);
    assert [] + [s] == [s];
  }

  lemma TwoSteps<S(!new)>(start: AggregatorState<S>, e1: Event<S>, e2: Event<S>)
    ensures Run(start, [e1, e2]) == Step(Step(start, e1), e2)
  {
    assert [e1, e2][..1] == [e1] && [e1][..0] == [];
    assert Run(start, [e1]) == Step(Run(start, []), e1);
  }

  lemma OneSignerRun<S(!new)>(C: CipherSuite<S>, parameters: Parameters, groupKey: Point<S>, message: Bytes,
                              s: Signer<S>, key: Point<S>, z: S)
    requires parameters.Valid()
    ensures var f := OneFinalized(C, parameters, groupKey, message, s, key, z);
            Reached(f, parameters, groupKey, message, OneSigner(s, key, z)) && Complete(f.state)
  {
    var start := Start(parameters, groupKey, message);
    TwoSteps(start, SignerEvent(s, IndividualVerifyingKey(s.index, key)),
             PartialEvent(PartialThresholdSignature(s.index, z)));
    OneIncluded(start, s, key);
    FinalizesExactly(OneFinalized(C, parameters, groupKey, message, s, key, z).state);
  }

  /** The z with which the signer of such a history makes the signature fail. */
  lemma FailingPartial<S(!new)>(C: CipherSuite<S>, parameters: Parameters, groupKey: Point<S>, message: Bytes,
                                s: Signer<S>, key: Point<S>) returns (z: S)
    requires C.F.Valid() && parameters.Valid()
    ensures var f := OneFinalized(C, parameters, groupKey, message, s, key, z);
            Complete(f.state) && !SignatureVerifies(C, Combined(C, f), groupKey, f.messageHash)
  {
    var F, m := C.F, C.H4(message);
    var R := GroupCommitment(C, [s], BindingFactors(C, m, [s]));
    var good := F.Add(R.dlog, F.Mul(groupKey.dlog, ComputeChallenge(C, R, groupKey, m)));
    z := F.Add(F.one, good);
    var f := OneFinalized(C, parameters, groupKey, message, s, key, z);
    assert PartialLogs(f.state) == [z] && [z][..0] == [];
    assert SumSeq(F, [z]) == F.Add(F.zero, z);
    F.AddZero(z);
    F.AddZero(good);
    F.AddCancel(F.one, F.zero, good);
    SignatureVerifiesExactly(C, Combined(C, f), groupKey, m);
  }

  /**
   Nothing keeps a signer of index zero out. If its partial signature is wrong, finalizing succeeds
   and aggregating returns the error of the interpolation, which names nobody.
   */
  lemma IndexZeroNamesNobody<S(!new)>(C: CipherSuite<S>, parameters: Parameters, groupKey: Point<S>, message: Bytes,
                                      hiding: Point<S>, binding: Point<S>, key: Point<S>) returns (z: S)
    requires C.F.Valid() && parameters.Valid()
    ensures var s := Signer(0, hiding, binding);
            var f := OneFinalized(C, parameters, groupKey, message, s, key, z);
            && Reached(f, parameters, groupKey, message, OneSigner(s, key, z)) && Complete(f.state)
            && Aggregated(C, f) == Err(SigningError.Interpolation(LagrangeError.IndexIsZero))
  {
    z := FailingPartial(C, parameters, groupKey, message, Signer(0, hiding, binding), key);
    OneSignerRun(C, parameters, groupKey, message, Signer(0, hiding, binding), key, z);
    AggregationErrors(C, OneFinalized(C, parameters, groupKey, message, Signer(0, hiding, binding), key, z));
  }

  // ---------- Honest signers ----------

  /** The signer with this index and key, whose one pair of nonces is zero. */
  function Plain<S(!new)>(C: CipherSuite<S>, index: u32, key: S): Contribution<S>
  {
    Contribution(IndividualSigningKey(index, key), [ShareFromNonces(C, (C.F.zero, C.F.zero))], 0)
  }

  function PlainSigner<S(!new)>(C: CipherSuite<S>, index: u32): Signer<S>
  {
    Signer(index, C.Base(C.F.zero), C.Base(C.F.zero))
  }

  /** What `sign` returns for it. */
  ghost function PlainSigned<S(!new)>(C: CipherSuite<S>, index: u32, key: S, m: Bytes, groupKey: Point<S>,
                                      signers: seq<Signer<S>>)
    : Result<PartialThresholdSignature<S>, SigningError>
  {
    var w := Plain(C, index, key);
    Signed(C, w.key, m, groupKey, w.shares, w.k, signers)
  }

  lemma PlainHonest<S(!new)>(C: CipherSuite<S>, f: Finalized<S>, index: u32, key: S)
    requires PlainSigned(C, index, key, f.messageHash, f.state.groupKey, f.state.signers).Ok?
    requires index in f.state.partialSignatures
    requires f.state.partialSignatures[index]
          == PlainSigned(C, index, key, f.messageHash, f.state.groupKey, f.state.signers).value.z
    ensures Honest(C, f, PlainSigner(C, index), Plain(C, index, key))
  {
    assert Plain(C, index, key).shares[0] == ShareFromNonces(C, (C.F.zero, C.F.zero));
  }

  lemma PlainSigns<S(!new)>(C: CipherSuite<S>, index: u32, key: S, m: Bytes, groupKey: Point<S>,
                            signers: seq<Signer<S>>)
    requires Distinct(IndicesOf(signers)) && 0 !in IndicesOf(signers) && index in IndicesOf(signers)
    ensures PlainSigned(C, index, key, m, groupKey, signers).Ok?
  {
  }

  /** Finalized with one honest plain signer, whose own key was taken in. */
  ghost predicate OneHonest<S(!new)>(C: CipherSuite<S>, f: Finalized<S>, key: S)
  {
    && f.state.signers == [PlainSigner(C, 1)] && Complete(f.state)
    && 1 in f.state.publicKeys && f.state.publicKeys[1] == C.Base(key)
    && Honest(C, f, PlainSigner(C, 1), Plain(C, 1, key))
  }

  lemma OneHonestNamesNobody<S(!new)>(C: CipherSuite<S>, f: Finalized<S>, key: S)
    requires C.F.Valid() && OneHonest(C, f, key)
    requires f.state.groupKey != C.Base(key) && Challenge(C, f) != C.F.zero
    ensures Aggregated(C, f) == Err(MisbehavingParticipants([]))
  {
    assert IndicesOf(f.state.signers) == [1];
    HonestHoldsExactly(C, f, 0, Plain(C, 1, key));
    OneCollected(C, f, key);
    NobodyNamedExactly(C, f);
  }

  /**
   The aggregator was given a group key that does not belong to its one signer, whose own key it has
   and who signs honestly: aggregating fails and names nobody, unless the challenge is zero.
   */
  lemma NobodyNamed<S(!new)>(C: CipherSuite<S>, parameters: Parameters, groupKey: Point<S>, message: Bytes, key: S)
    returns (z: S)
    requires C.F.Valid() && parameters.Valid() && groupKey != C.Base(key)
    requires GroupChallenge(C, C.H4(message), groupKey, [PlainSigner(C, 1)]) != C.F.zero
    ensures var f := OneFinalized(C, parameters, groupKey, message, PlainSigner(C, 1), C.Base(key), z);
            && Reached(f, parameters, groupKey, message, OneSigner(PlainSigner(C, 1), C.Base(key), z))
            && OneHonest(C, f, key)
            && Aggregated(C, f) == Err(MisbehavingParticipants([]))
  {
    var s := PlainSigner(C, 1);
    z := OneHonestly(C, parameters, groupKey, message, key);
    OneSignerRun(C, parameters, groupKey, message, s, C.Base(key), z);
    OneHonestNamesNobody(C, OneFinalized(C, parameters, groupKey, message, s, C.Base(key), z), key);
  }

  lemma OneHonestly<S(!new)>(C: CipherSuite<S>, parameters: Parameters, groupKey: Point<S>, message: Bytes, key: S)
    returns (z: S)
    ensures OneHonest(C, OneFinalized(C, parameters, groupKey, message, PlainSigner(C, 1), C.Base(key), z), key)
  {
    var s := PlainSigner(C, 1);
    assert IndicesOf([s]) == [1] && 1 in IndicesOf([s]);
    PlainSigns(C, 1, key, C.H4(message), groupKey, [s]);
    z := PlainSigned(C, 1, key, C.H4(message), groupKey, [s]).value.z;
    PlainHonest(C, OneFinalized(C, parameters, groupKey, message, s, C.Base(key), z), 1, key);
  }

  /** Of one signer, the collected key is the one taken in. */
  lemma OneCollected<S(!new)>(C: CipherSuite<S>, f: Finalized<S>, key: S)
    requires C.F.Valid() && Complete(f.state) && IndicesOf(f.state.signers) == [1]
    requires 1 in f.state.publicKeys && f.state.publicKeys[1] == C.Base(key)
    ensures CollectedKey(C, f) == C.Base(key)
  {
    assert IndicesOf(f.state.signers)[0] == 1;
    assert KeyLogs(f.state) == [key];
    ConstantEval(C.F, key, C.F.From(1));
    ConstantEval(C.F, key, C.F.zero);
    KeysInterpolate(C.F, f.state.signers, [key], [key]);
  }

  // ---------- Two signers ----------

  /** Two signers hold the same key. For the first the aggregator takes in `wrong`, and the second adds one to its z. */
  function TwoSigners<S(!new)>(C: CipherSuite<S>, key: S, wrong: Point<S>, z1: S, z2: S): seq<Event<S>>
  {
    [SignerEvent(PlainSigner(C, 1), IndividualVerifyingKey(1, wrong)),
     SignerEvent(PlainSigner(C, 2), IndividualVerifyingKey(2, C.Base(key))),
     PartialEvent(PartialThresholdSignature(1, z1)),
     PartialEvent(PartialThresholdSignature(2, z2))]
  }

  function Two<S(!new)>(C: CipherSuite<S>): seq<Signer<S>>
  {
    [PlainSigner(C, 1), PlainSigner(C, 2)]
  }

  function TwoFinalized<S(!new)>(C: CipherSuite<S>, parameters: Parameters, message: Bytes, key: S, wrong: Point<S>,
                                 z1: S, z2: S): Finalized<S>
  {
    Finalized(
      AggregatorState(parameters, Two(C), map[1 := wrong, 2 := C.Base(key)], map[1 := z1, 2 := z2], C.Base(key),
                      message),
      C.H4(message))
  }

  lemma TwoIndices<S(!new)>(C: CipherSuite<S>)
    ensures IndicesOf(Two(C)) == [1, 2] && Distinct([1, 2]) && 1 in [1, 2] && 2 in [1, 2] && 0 !in [1, 2]
  {
  }

  lemma TwoIncluded<S(!new)>(C: CipherSuite<S>, st: AggregatorState<S>, key: S, wrong: Point<S>)
    requires st.signers == [] && st.publicKeys == map[] && st.parameters.n >= 2
    ensures var one := Included(st, PlainSigner(C, 1), IndividualVerifyingKey(1, wrong)).0;
            Included(one, PlainSigner(C, 2), IndividualVerifyingKey(2, C.Base(key))).0
            == st.(signers := Two(C), publicKeys := map[1 := wrong, 2 := C.Base(key)])
  {
    IncludeIsPlace(st, PlainSigner(C, 1));
    assert [] + [PlainSigner(C, 1)] == [PlainSigner(C, 1)];
    var one := Included(st, PlainSigner(C, 1), IndividualVerifyingKey(1, wrong)).0;
    assert one.signers == [PlainSigner(C, 1)];
    IncludeIsPlace(one, PlainSigner(C, 2));
    assert [PlainSigner(C, 1)] + [PlainSigner(C, 2)] == Two(C);
  }

  lemma FourSteps<S(!new)>(start: AggregatorState<S>, events: seq<Event<S>>)
    requires |events| == 4
    ensures Run(start, events) == Step(Step(Step(Step(start, events[0]), events[1]), events[2]), events[3])
  {
    var three, two, one := events[..3], events[..2], events[..1];
    assert three[..2] == two && two[..1] == one && one[..0] == [];
    assert Run(start, one) == Step(start, events[0]);
    assert Run(start, two) == Step(Run(start, one), events[1]);
    assert Run(start, three) == Step(Run(start, two), events[2]);
  }

  lemma TwoSignersRun<S(!new)>(C: CipherSuite<S>, parameters: Parameters, message: Bytes, key: S, wrong: Point<S>,
                               z1: S, z2: S)
    requires parameters.n >= 2
    ensures Run(Start(parameters, C.Base(key), message), TwoSigners(C, key, wrong, z1, z2))
         == TwoFinalized(C, parameters, message, key, wrong, z1, z2).state
  {
    FourSteps(Start(parameters, C.Base(key), message), TwoSigners(C, key, wrong, z1, z2));
    TwoSignersSteps(C, parameters, message, key, wrong, z1, z2);
  }

  lemma TwoSignersSteps<S(!new)>(C: CipherSuite<S>, parameters: Parameters, message: Bytes, key: S, wrong: Point<S>,
                                 z1: S, z2: S)
    requires parameters.n >= 2
    ensures var events := TwoSigners(C, key, wrong, z1, z2);
            Step(Step(Step(Step(Start(parameters, C.Base(key), message), events[0]), events[1]), events[2]), events[3])
            == TwoFinalized(C, parameters, message, key, wrong, z1, z2).state
  {
    TwoIncluded(C, Start(parameters, C.Base(key), message), key, wrong);
  }

  lemma TwoAreComplete<S(!new)>(C: CipherSuite<S>, parameters: Parameters, message: Bytes, key: S, wrong: Point<S>,
                                z1: S, z2: S)
    ensures var st := TwoFinalized(C, parameters, message, key, wrong, z1, z2).state;
            Complete(st) && Misbehaving(st) == []
  {
    FinalizesExactly(TwoFinalized(C, parameters, message, key, wrong, z1, z2).state);
  }

  /**
   The signatures of both signers would combine to one that verifies, so with one added it does not.
   */
  lemma TwoFail<S(!new)>(C: CipherSuite<S>, parameters: Parameters, message: Bytes, key: S, wrong: Point<S>, z1: S,
                         z2: S)
    requires C.F.Valid() && parameters.Valid()
    requires var m := C.H4(message);
             && PlainSigned(C, 1, key, m, C.Base(key), Two(C)).Ok?
             && z1 == PlainSigned(C, 1, key, m, C.Base(key), Two(C)).value.z
             && PlainSigned(C, 2, key, m, C.Base(key), Two(C)).Ok?
             && z2 == PlainSigned(C, 2, key, m, C.Base(key), Two(C)).value.z
    ensures var f := TwoFinalized(C, parameters, message, key, wrong, z1, C.F.Add(C.F.one, z2));
            Complete(f.state) && !SignatureVerifies(C, Combined(C, f), C.Base(key), f.messageHash)
  {
    var F := C.F;
    var good := TwoFinalized(C, parameters, message, key, wrong, z1, z2);
    var f := TwoFinalized(C, parameters, message, key, wrong, z1, F.Add(F.one, z2));
    TwoVerify(C, good, key);
    SignatureVerifiesExactly(C, Combined(C, good), C.Base(key), good.messageHash);
    SignatureVerifiesExactly(C, Combined(C, f), C.Base(key), f.messageHash);
    assert PartialLogs(good.state) == [z1, z2] && PartialLogs(f.state) == [z1, F.Add(F.one, z2)];
    TwoSums(F, z1, z2);
  }

  lemma TwoSums<S(!new)>(F: Field<S>, x: S, y: S)
    requires F.Valid()
    ensures SumSeq(F, [x, F.Add(F.one, y)]) != SumSeq(F, [x, y])
  {
    var y' := F.Add(F.one, y);
    assert [x, y][..1] == [x] == [x, y'][..1];
    F.AddComm(SumSeq(F, [x]), y);
    F.AddComm(SumSeq(F, [x]), y');
    F.AddCancel(y', y, SumSeq(F, [x]));
    F.AddZero(y);
    F.AddCancel(F.one, F.zero, y);
  }

  lemma TwoVerify<S(!new)>(C: CipherSuite<S>, f: Finalized<S>, key: S)
    requires C.F.Valid() && Complete(f.state) && f.state.signers == Two(C) && f.state.groupKey == C.Base(key)
    requires PlainSigned(C, 1, key, f.messageHash, f.state.groupKey, Two(C)).Ok?
    requires PlainSigned(C, 2, key, f.messageHash, f.state.groupKey, Two(C)).Ok?
    requires f.state.partialSignatures[1] == PlainSigned(C, 1, key, f.messageHash, f.state.groupKey, Two(C)).value.z
    requires f.state.partialSignatures[2] == PlainSigned(C, 2, key, f.messageHash, f.state.groupKey, Two(C)).value.z
    ensures SignatureVerifies(C, Combined(C, f), C.Base(key), f.messageHash)
  {
    var ws := [Plain(C, 1, key), Plain(C, 2, key)];
    TwoIndices(C);
    PlainHonest(C, f, 1, key);
    PlainHonest(C, f, 2, key);
    ConstantEval(C.F, key, C.F.From(1));
    ConstantEval(C.F, key, C.F.From(2));
    ConstantEval(C.F, key, C.F.zero);
    HonestSignersSucceed(C, f, ws, [key]);
  }

  /**
   Signer 1 is honest and holds its value of the constant polynomial under the group key, signer 2
   sends a wrong partial signature, and the aggregator was given a wrong key for signer 1. Aggregating
   fails, as it should, and names signer 1, unless the challenge is zero.
   */
  lemma HonestSignerNamed<S(!new)>(C: CipherSuite<S>, parameters: Parameters, message: Bytes, key: S, wrong: Point<S>)
    returns (z1: S, z2: S)
    requires C.F.Valid() && parameters.Valid() && parameters.n >= 2 && wrong != C.Base(key)
    requires GroupChallenge(C, C.H4(message), C.Base(key), Two(C)) != C.F.zero
    ensures var f := TwoFinalized(C, parameters, message, key, wrong, z1, z2);
            && Reached(f, parameters, C.Base(key), message, TwoSigners(C, key, wrong, z1, z2)) && Complete(f.state)
            && Honest(C, f, f.state.signers[0], Plain(C, 1, key))
            && Aggregated(C, f).Err? && Aggregated(C, f).error.MisbehavingParticipants?
            && 1 in Aggregated(C, f).error.indices
  {
    var m := C.H4(message);
    TwoIndices(C);
    PlainSigns(C, 1, key, m, C.Base(key), Two(C));
    PlainSigns(C, 2, key, m, C.Base(key), Two(C));
    z1 := PlainSigned(C, 1, key, m, C.Base(key), Two(C)).value.z;
    var honest2 := PlainSigned(C, 2, key, m, C.Base(key), Two(C)).value.z;
    z2 := C.F.Add(C.F.one, honest2);
    TwoSignersRun(C, parameters, message, key, wrong, z1, z2);
    TwoAreComplete(C, parameters, message, key, wrong, z1, z2);
    TwoFail(C, parameters, message, key, wrong, z1, honest2);
    var f := TwoFinalized(C, parameters, message, key, wrong, z1, z2);
    PlainHonest(C, f, 1, key);
    FirstIsNamed(C, f, key);
  }

  lemma FirstIsNamed<S(!new)>(C: CipherSuite<S>, f: Finalized<S>, key: S)
    requires C.F.Valid() && Complete(f.state) && f.state.signers == Two(C) && Challenge(C, f) != C.F.zero
    requires Honest(C, f, f.state.signers[0], Plain(C, 1, key)) && f.state.publicKeys[1] != C.Base(key)
    requires !SignatureVerifies(C, Combined(C, f), f.state.groupKey, f.messageHash)
    ensures Aggregated(C, f).Err? && Aggregated(C, f).error.MisbehavingParticipants?
    ensures 1 in Aggregated(C, f).error.indices
  {
    TwoIndices(C);
    IndexErrorExactly(IndicesOf(Two(C)));
    CoefficientNonZero(C, f, 0);
    HonestNamedExactly(C, f, 0, Plain(C, 1, key));
  }
}
