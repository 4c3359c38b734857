/**
 What the aggregator's answer means: enough honest signers always obtain a signature that verifies
 under the group key, and when the combined signature fails exactly the cheaters are named.
 */
module ThresholdSigning {
  import opened Wrappers
  import opened Fields
  import opened Sums
  import opened Polynomials
  import opened Orderings
  import opened Lagrange
  import opened CipherSuites
  import opened Keys
  import opened Precomputation
  import opened Participants
  import opened Signing
  import opened Transcripts
  import opened Aggregation
  import opened AggregatorHistory
  import KG = KeyGeneration
  import Robust = RobustKeyGeneration

  // ---------- Sums over the signers ----------

  /** If every z_i is r_i + c l_i, so are the sums. */
  lemma SumOfResponses<S(!new)>(F: Field<S>, zs: seq<S>, rs: seq<S>, ls: seq<S>, c: S)
    requires F.Valid() && |zs| == |rs| == |ls|
    requires forall i :: 0 <= i < |zs| ==> zs[i] == F.Add(rs[i], F.Mul(c, ls[i]))
    ensures SumSeq(F, zs) == F.Add(SumSeq(F, rs), F.Mul(c, SumSeq(F, ls)))
  {
    var cs := seq(|ls|, i requires 0 <= i < |ls| => F.Mul(c, ls[i]));
    SumSeqScale(F, c, ls, cs);
    SumSeqOfSums(F, rs, cs, zs);
  }

  /** When the combined z is R + c K, the signature verifies exactly if K is the group's secret, or c is zero. */
  lemma CombinedVerifiesExactly<S(!new)>(C: CipherSuite<S>, f: Finalized<S>, K: S)
    requires C.F.Valid() && Complete(f.state)
    requires Combined(C, f).z == C.F.Add(Combined(C, f).groupCommitment.dlog, C.F.Mul(Challenge(C, f), K))
    ensures SignatureVerifies(C, Combined(C, f), f.state.groupKey, f.messageHash)
       <==> Challenge(C, f) == C.F.zero || f.state.groupKey == C.Base(K)
  {
    var F, c, g, R := C.F, Challenge(C, f), f.state.groupKey.dlog, Combined(C, f).groupCommitment.dlog;
    SignatureVerifiesExactly(C, Combined(C, f), f.state.groupKey, f.messageHash);
    F.MulComm(c, K);
    F.AddComm(R, F.Mul(K, c));
    F.AddComm(R, F.Mul(g, c));
    F.AddCancel(F.Mul(K, c), F.Mul(g, c), R);
    if c == F.zero {
      F.MulZero(K);
      F.MulZero(g);
    } else {
      F.MulCancel(K, g, c);
    }
  }

  // ---------- Honest signers ----------

  /** What an honest signer signs with: its key, its nonce list and the nonce it takes. */
  datatype Contribution<S> = Contribution(key: IndividualSigningKey<S>, shares: seq<CommitmentShare<S>>, k: nat)

  /** The signer published the commitments of its nonces, and its partial signature came out of `sign`. */
  ghost predicate Honest<S(!new)>(C: CipherSuite<S>, f: Finalized<S>, s: Signer<S>, w: Contribution<S>)
  {
    && w.key.index == s.index
    && w.k < |w.shares|
    && (exists nonces :: w.shares[w.k] == ShareFromNonces(C, nonces))
    && (s.hiding, s.binding) == w.shares[w.k].Publish()
    && var r := Signed(C, w.key, f.messageHash, f.state.groupKey, w.shares, w.k, f.state.signers);
       r.Ok? && s.index in f.state.partialSignatures && f.state.partialSignatures[s.index] == r.value.z
  }

  ghost predicate AllHonest<S(!new)>(C: CipherSuite<S>, f: Finalized<S>, ws: seq<Contribution<S>>)
  {
    |ws| == |f.state.signers| && forall i :: 0 <= i < |ws| ==> Honest(C, f, f.state.signers[i], ws[i])
  }

  /** (d + e rho) + (lambda k) c in terms of the published commitment: R_i + c (k lambda). */
  lemma HonestResponse<S(!new)>(C: CipherSuite<S>, f: Finalized<S>, i: nat, w: Contribution<S>)
    requires C.F.Valid() && i < |f.state.signers| && Distinct(IndicesOf(f.state.signers))
    requires Honest(C, f, f.state.signers[i], w)
    ensures var index := f.state.signers[i].index;
            f.state.partialSignatures[index]
            == C.F.Add(ParticipantCommitment(C, f.messageHash, f.state.signers, index).dlog,
                       C.F.Mul(Challenge(C, f), C.F.Mul(w.key.key,
                                                        Lambda(C.F, index, ToSet(IndicesOf(f.state.signers))))))
  {
    var F, signers, c := C.F, f.state.signers, Challenge(C, f);
    var lambda := Lambda(F, signers[i].index, ToSet(IndicesOf(signers)));
    LastEntryIsOnly(C, signers, i);
    F.MulComm(lambda, w.key.key);
    F.MulComm(F.Mul(lambda, w.key.key), c);
  }

  /**
   An honest signer passes the check, whatever the others sent, exactly when the key collected for it
   is its own, or the challenge times its coefficient is zero.
   */
  lemma HonestHoldsExactly<S(!new)>(C: CipherSuite<S>, f: Finalized<S>, i: nat, w: Contribution<S>)
    requires C.F.Valid() && i < |f.state.signers| && Distinct(IndicesOf(f.state.signers)) && Complete(f.state)
    requires Honest(C, f, f.state.signers[i], w)
    ensures PartialHolds(C, f, f.state.signers[i])
       <==> || f.state.publicKeys[f.state.signers[i].index] == ToPublic(C, w.key).share
            || C.F.Mul(Challenge(C, f), Coefficient(C, f, i)) == C.F.zero
  {
    var F, c, lambda := C.F, Challenge(C, f), Coefficient(C, f, i);
    var k, p := w.key.key, f.state.publicKeys[f.state.signers[i].index].dlog;
    var R := ParticipantCommitment(C, f.messageHash, f.state.signers, f.state.signers[i].index).dlog;
    HonestResponse(C, f, i, w);
    F.MulSwap(c, k, lambda);
    // R + k (c lambda) = R + p (c lambda)
    F.AddComm(R, F.Mul(k, F.Mul(c, lambda)));
    F.AddComm(R, F.Mul(p, F.Mul(c, lambda)));
    F.AddCancel(F.Mul(k, F.Mul(c, lambda)), F.Mul(p, F.Mul(c, lambda)), R);
    if F.Mul(c, lambda) == F.zero {
      F.MulZero(k);
      F.MulZero(p);
    } else {
      F.MulCancel(k, p, F.Mul(c, lambda));
    }
  }

  /** The coefficient of the signer at a place of the list. */
  ghost function Coefficient<S(!new)>(C: CipherSuite<S>, f: Finalized<S>, i: nat): S
    requires i < |f.state.signers|
  {
    Lambda(C.F, f.state.signers[i].index, ToSet(IndicesOf(f.state.signers)))
  }

  /** It does not vanish unless a signer has index zero. */
  lemma CoefficientNonZero<S(!new)>(C: CipherSuite<S>, f: Finalized<S>, i: nat)
    requires C.F.Valid() && i < |f.state.signers| && 0 !in IndicesOf(f.state.signers)
    ensures C.F.Mul(Challenge(C, f), Coefficient(C, f, i)) == C.F.zero <==> Challenge(C, f) == C.F.zero
  {
    assert IndicesOf(f.state.signers)[i] in ToSet(IndicesOf(f.state.signers));
    LambdaNonZero(C.F, f.state.signers[i].index, ToSet(IndicesOf(f.state.signers)));
    C.F.NoZeroDivisors(Challenge(C, f), Coefficient(C, f, i));
  }

  /** The lambda-weighted values k_i, in the order of the signers. */
  ghost function Weighted<S(!new)>(F: Field<S>, signers: seq<Signer<S>>, ks: seq<S>): (ls: seq<S>)
    requires |ks| == |signers|
    ensures |ls| == |signers|
    ensures forall i :: 0 <= i < |ls| ==> ls[i] == F.Mul(ks[i], Lambda(F, signers[i].index, ToSet(IndicesOf(signers))))
  {
    seq(|signers|, i requires 0 <= i < |signers| => F.Mul(ks[i],
                                                          Lambda(F, signers[i].index, ToSet(IndicesOf(signers)))))
  }

  lemma ResponsesCombine<S(!new)>(C: CipherSuite<S>, f: Finalized<S>, ks: seq<S>)
    requires C.F.Valid() && Complete(f.state) && Distinct(IndicesOf(f.state.signers)) && |ks| == |f.state.signers|
    requires var logs := ParticipantLogs(C, f.messageHash, f.state.signers);
             forall i :: 0 <= i < |ks| ==>
               PartialLogs(f.state)[i] == C.F.Add(logs[i],
                                                  C.F.Mul(Challenge(C, f), Weighted(C.F, f.state.signers, ks)[i]))
    ensures Combined(C, f).z == C.F.Add(Combined(C, f).groupCommitment.dlog,
                                        C.F.Mul(Challenge(C, f), SumSeq(C.F, Weighted(C.F, f.state.signers, ks))))
  {
    CommitmentsAgree(C, f.messageHash, f.state.signers);
    SumOfResponses(C.F, PartialLogs(f.state), ParticipantLogs(C, f.messageHash, f.state.signers),
                   Weighted(C.F, f.state.signers, ks), Challenge(C, f));
  }

  /** The keys of a polynomial, weighted over enough signers, sum to its value at zero. */
  lemma KeysInterpolate<S(!new)>(F: Field<S>, signers: seq<Signer<S>>, ks: seq<S>, P: seq<S>)
    requires F.Valid() && |ks| == |signers| && |P| <= |signers|
    requires Distinct(IndicesOf(signers)) && 0 !in IndicesOf(signers)
    requires forall i :: 0 <= i < |ks| ==> ks[i] == Eval(F, P, F.From(signers[i].index))
    ensures SumSeq(F, Weighted(F, signers, ks)) == Eval(F, P, F.zero)
  {
    var indices := IndicesOf(signers);
    var lambdas := seq(|signers|, i requires 0 <= i < |signers| => Lambda(F, signers[i].index, ToSet(indices)));
    CoefficientsInterpolate(F, indices, lambdas, P, Weighted(F, signers, ks));
  }

  /**
   Honest signers who hold values of one polynomial, at least as many as it has coefficients,
   aggregate to a signature that verifies under its value at zero, for all nonces and hashes.
   */
  lemma HonestSignersSucceed<S(!new)>(C: CipherSuite<S>, f: Finalized<S>, ws: seq<Contribution<S>>, P: seq<S>)
    requires C.F.Valid() && Complete(f.state) && f.state.signers != []
    requires Distinct(IndicesOf(f.state.signers)) && 0 !in IndicesOf(f.state.signers)
    requires AllHonest(C, f, ws) && |P| <= |ws|
    requires forall i :: 0 <= i < |ws| ==> KeysHeld(ws)[i] == Eval(C.F, P, C.F.From(f.state.signers[i].index))
    requires f.state.groupKey == C.Base(Eval(C.F, P, C.F.zero))
    ensures Aggregated(C, f) == Ok(Combined(C, f))
    ensures SignatureVerifies(C, Combined(C, f), f.state.groupKey, f.messageHash)
  {
    HonestCombine(C, f, ws);
    KeysInterpolate(C.F, f.state.signers, KeysHeld(ws), P);
    CombinedVerifiesExactly(C, f, Eval(C.F, P, C.F.zero));
  }

  ghost function KeysHeld<S(!new)>(ws: seq<Contribution<S>>): (ks: seq<S>)
    ensures |ks| == |ws| && forall i :: 0 <= i < |ws| ==> ks[i] == ws[i].key.key
  {
    seq(|ws|, i requires 0 <= i < |ws| => ws[i].key.key)
  }

  lemma HonestCombine<S(!new)>(C: CipherSuite<S>, f: Finalized<S>, ws: seq<Contribution<S>>)
    requires C.F.Valid() && Complete(f.state) && Distinct(IndicesOf(f.state.signers)) && AllHonest(C, f, ws)
    ensures Combined(C, f).z == C.F.Add(Combined(C, f).groupCommitment.dlog,
                                        C.F.Mul(Challenge(C, f),
                                                SumSeq(C.F, Weighted(C.F, f.state.signers, KeysHeld(ws)))))
  {
    forall i | 0 <= i < |ws|
      ensures PartialLogs(f.state)[i]
           == C.F.Add(ParticipantLogs(C, f.messageHash, f.state.signers)[i],
                      C.F.Mul(Challenge(C, f), Weighted(C.F, f.state.signers, KeysHeld(ws))[i]))
    {
      HonestResponse(C, f, i, ws[i]);
    }
    ResponsesCombine(C, f, KeysHeld(ws));
  }

  // ---------- Cheaters ----------

  /** The check on a signer, with its transcripts written out: z_i G = (D_i + rho_i E_i) + (c lambda_i) pk_i. */
  lemma CheckWritten<S(!new)>(C: CipherSuite<S>, f: Finalized<S>, i: nat)
    requires Complete(f.state) && i < |f.state.signers| && Distinct(IndicesOf(f.state.signers))
    ensures var s, R := f.state.signers[i], Combined(C, f).groupCommitment;
            var rho := C.hash1(FactorInput(C, f.messageHash, f.state.signers, s.index));
            var c := C.hash2(C.compress(R) + C.compress(f.state.groupKey) + f.messageHash);
            var lambda := Lambda(C.F, s.index, ToSet(IndicesOf(f.state.signers)));
            PartialHolds(C, f, s)
            <==> C.Base(f.state.partialSignatures[s.index])
                 == C.GAdd(C.GAdd(s.hiding, C.GMul(s.binding, rho)),
                           C.GMul(f.state.publicKeys[s.index], C.F.Mul(c, lambda)))
  {
    assert IndicesOf(f.state.signers)[i] == f.state.signers[i].index;
    FactorsWritten(C, f.messageHash, f.state.signers, f.state.signers[i].index);
    LastEntryIsOnly(C, f.state.signers, i);
    ChallengeWritten(C, f.messageHash, f.state.groupKey, f.state.signers);
  }

  /** The list names the indices of the failing signers, and no one else. */
  lemma {:induction false} FailingExactly<S>(signers: seq<Signer<S>>, holds: seq<bool>, k: nat, x: u32)
    requires |holds| == |signers| && k <= |signers|
    ensures x in Failing(signers, holds, k) <==> exists i :: 0 <= i < k && signers[i].index == x && !holds[i]
  {
    if k > 0 {
      FailingExactly(signers, holds, k - 1, x);
    }
  }

  lemma {:induction false} NoneFailing<S>(signers: seq<Signer<S>>, holds: seq<bool>, k: nat)
    requires |holds| == |signers| && k <= |signers|
    ensures Failing(signers, holds, k) == [] <==> forall i :: 0 <= i < k ==> holds[i]
  {
    if k > 0 {
      NoneFailing(signers, holds, k - 1);
    }
  }

  /** The sum of lambda_i pk_i over the signers: the group key, if the collected keys are right. */
  ghost function CollectedKey<S(!new)>(C: CipherSuite<S>, f: Finalized<S>): Point<S>
    requires Complete(f.state)
  {
    C.Base(SumSeq(C.F, Weighted(C.F, f.state.signers, KeyLogs(f.state))))
  }

  ghost function KeyLogs<S>(st: AggregatorState<S>): (ks: seq<S>)
    requires Complete(st)
    ensures |ks| == |st.signers|
    ensures forall i :: 0 <= i < |ks| ==> ks[i] == st.publicKeys[st.signers[i].index].dlog
  {
    seq(|st.signers|, i requires 0 <= i < |st.signers| => st.publicKeys[st.signers[i].index].dlog)
  }

  /** No partial signature fails. */
  ghost predicate AllHold<S(!new)>(C: CipherSuite<S>, f: Finalized<S>)
    requires Complete(f.state)
  {
    forall i :: 0 <= i < |f.state.signers| ==> PartialHolds(C, f, f.state.signers[i])
  }

  lemma NoCheatersExactly<S(!new)>(C: CipherSuite<S>, f: Finalized<S>)
    requires Complete(f.state)
    ensures Cheaters(C, f) == [] <==> AllHold(C, f)
  {
    var holds := Holding(C, f);
    NoneFailing(f.state.signers, holds, |holds|);
    if Cheaters(C, f) == [] {
      forall i | 0 <= i < |f.state.signers|
        ensures PartialHolds(C, f, f.state.signers[i])
      {
        assert holds[i];
      }
    }
  }

  /** Over distinct signers, each is named exactly if its partial signature fails. */
  lemma CheatersExactly<S(!new)>(C: CipherSuite<S>, f: Finalized<S>)
    requires Complete(f.state) && Distinct(IndicesOf(f.state.signers))
    ensures forall i :: 0 <= i < |f.state.signers| ==>
              (f.state.signers[i].index in Cheaters(C, f) <==> !PartialHolds(C, f, f.state.signers[i]))
    ensures forall x :: x in Cheaters(C, f) ==> x in IndicesOf(f.state.signers)
  {
    var signers, holds := f.state.signers, Holding(C, f);
    forall i | 0 <= i < |signers|
      ensures signers[i].index in Cheaters(C, f) <==> !holds[i]
    {
      NamedExactly(signers, holds, i);
    }
    forall x | x in Cheaters(C, f)
      ensures x in IndicesOf(signers)
    {
      FailingExactly(signers, holds, |signers|, x);
      var i :| 0 <= i < |signers| && signers[i].index == x;
      assert IndicesOf(signers)[i] == x;
    }
  }

  /** When no partial signature fails, the whole verifies exactly if the keys make the group key, or c is zero. */
  lemma AllHoldVerifiesExactly<S(!new)>(C: CipherSuite<S>, f: Finalized<S>)
    requires C.F.Valid() && Complete(f.state) && Distinct(IndicesOf(f.state.signers)) && AllHold(C, f)
    ensures SignatureVerifies(C, Combined(C, f), f.state.groupKey, f.messageHash)
       <==> Challenge(C, f) == C.F.zero || f.state.groupKey == CollectedKey(C, f)
  {
    var signers, ks := f.state.signers, KeyLogs(f.state);
    forall i | 0 <= i < |ks|
      ensures PartialLogs(f.state)[i]
           == C.F.Add(ParticipantLogs(C, f.messageHash, signers)[i],
                      C.F.Mul(Challenge(C, f), Weighted(C.F, signers, ks)[i]))
    {
      assert PartialHolds(C, f, signers[i]);
      C.F.MulSwap(Challenge(C, f), ks[i], Lambda(C.F, signers[i].index, ToSet(IndicesOf(signers))));
    }
    ResponsesCombine(C, f, ks);
    CombinedVerifiesExactly(C, f, SumSeq(C.F, Weighted(C.F, signers, ks)));
  }

  /**
   Over distinct non-zero signers, aggregation either returns a signature that verifies, or names
   exactly the signers whose partial signature fails, and so no one if none fails.
   */
  lemma AggregationOutcome<S(!new)>(C: CipherSuite<S>, f: Finalized<S>)
    requires C.F.Valid() && Complete(f.state) && f.state.signers != []
    requires Distinct(IndicesOf(f.state.signers)) && 0 !in IndicesOf(f.state.signers)
    ensures match Aggregated(C, f)
            case Ok(sig) => SignatureVerifies(C, sig, f.state.groupKey, f.messageHash)
            case Err(error) =>
              && error.MisbehavingParticipants?
              && (forall i :: 0 <= i < |f.state.signers| ==>
                    (f.state.signers[i].index in error.indices <==> !PartialHolds(C, f, f.state.signers[i])))
              && (forall x :: x in error.indices ==> x in IndicesOf(f.state.signers))
              && (error.indices == [] <==> AllHold(C, f))
              && (f.state.groupKey == CollectedKey(C, f) ==> error.indices != [])
  {
    IndexErrorExactly(IndicesOf(f.state.signers));
    if Aggregated(C, f).Err? {
      CheatersExactly(C, f);
      NoCheatersExactly(C, f);
      if AllHold(C, f) {
        AllHoldVerifiesExactly(C, f);
      }
    }
  }

  lemma {:induction false} FailingAscends<S>(signers: seq<Signer<S>>, holds: seq<bool>, k: nat)
    requires |holds| == |signers| && k <= |signers| && Ascending(signers)
    ensures Increasing(Failing(signers, holds, k))
    ensures forall x :: x in Failing(signers, holds, k) ==> exists i :: 0 <= i < k && signers[i].index == x
  {
    if k > 0 {
      FailingAscends(signers, holds, k - 1);
      var rest := Failing(signers, holds, k - 1);
      forall j | 0 <= j < |rest|
        ensures rest[j] < signers[k - 1].index
      {
        assert rest[j] in rest;
      }
    }
  }

  /** They are named in ascending order. */
  lemma NamedInOrder<S(!new)>(C: CipherSuite<S>, f: Finalized<S>)
    requires Complete(f.state) && Ascending(f.state.signers)
    requires Aggregated(C, f).Err? && Aggregated(C, f).error.MisbehavingParticipants?
    ensures Increasing(Aggregated(C, f).error.indices)
  {
    FailingAscends(f.state.signers, Holding(C, f), |f.state.signers|);
    CheatersReturned(C, f);
  }

  lemma NamedExactly<S>(signers: seq<Signer<S>>, holds: seq<bool>, i: nat)
    requires |holds| == |signers| && i < |signers| && Distinct(IndicesOf(signers))
    ensures signers[i].index in Failing(signers, holds, |signers|) <==> !holds[i]
  {
    FailingExactly(signers, holds, |signers|, signers[i].index);
    if j :| 0 <= j < |signers| && signers[j].index == signers[i].index && !holds[j] {
      assert IndicesOf(signers)[j] == IndicesOf(signers)[i];
    }
  }

  /** The other two ways to fail: no signer at all, and a signer of index zero, which keeps cheaters unnamed. */
  lemma AggregationErrors<S(!new)>(C: CipherSuite<S>, f: Finalized<S>)
    requires Complete(f.state) && Ascending(f.state.signers)
    ensures Aggregated(C, f) == Err(SigningError.Panicked) <==> f.state.signers == []
    ensures Aggregated(C, f) == Err(SigningError.Interpolation(LagrangeError.IndexIsZero))
       <==> f.state.signers != [] && f.state.signers[0].index == 0
            && !SignatureVerifies(C, Combined(C, f), f.state.groupKey, f.messageHash)
  {
    AscendingIndices(f.state.signers);
    IndexErrorExactly(IndicesOf(f.state.signers));
  }

  /** `finalize` asks for no number of signers: a new aggregator finalizes, and then panics when aggregating. */
  lemma EmptyAggregatorPanics<S(!new)>(C: CipherSuite<S>, parameters: Parameters, groupKey: Point<S>, message: Bytes)
    ensures var st := Run(Start(parameters, groupKey, message), []);
            Misbehaving(st) == [] && Complete(st) && Aggregated(C, Finalized(st, C.H4(message)))
              == Err(SigningError.Panicked)
  {
  }

  /**
   Aggregation fails without naming anyone exactly when no partial signature fails, the challenge is
   not zero and the collected keys do not make the group key.
   */
  lemma NobodyNamedExactly<S(!new)>(C: CipherSuite<S>, f: Finalized<S>)
    requires C.F.Valid() && Complete(f.state) && f.state.signers != []
    requires Distinct(IndicesOf(f.state.signers)) && 0 !in IndicesOf(f.state.signers)
    ensures Aggregated(C, f) == Err(MisbehavingParticipants([]))
       <==> && AllHold(C, f)
            && Challenge(C, f) != C.F.zero
            && f.state.groupKey != CollectedKey(C, f)
  {
    IndexErrorExactly(IndicesOf(f.state.signers));
    NoCheatersExactly(C, f);
    if AllHold(C, f) {
      AllHoldVerifiesExactly(C, f);
    }
  }

  lemma CheatersReturned<S(!new)>(C: CipherSuite<S>, f: Finalized<S>)
    requires Complete(f.state)
    ensures Aggregated(C, f).Err? && Aggregated(C, f).error.MisbehavingParticipants? ==>
              Aggregated(C, f).error.indices == Cheaters(C, f)
  {
  }

  /**
   When aggregation fails, an honest signer is named exactly if the key collected for it is not its
   own, unless the challenge times its coefficient is zero; what the others sent plays no part.
   */
  lemma HonestNamedExactly<S(!new)>(C: CipherSuite<S>, f: Finalized<S>, i: nat, w: Contribution<S>)
    requires C.F.Valid() && Complete(f.state) && i < |f.state.signers| && Distinct(IndicesOf(f.state.signers))
    requires Honest(C, f, f.state.signers[i], w)
    ensures Aggregated(C, f).Err? && Aggregated(C, f).error.MisbehavingParticipants? ==>
              (f.state.signers[i].index in Aggregated(C, f).error.indices
               <==> && f.state.publicKeys[f.state.signers[i].index] != ToPublic(C, w.key).share
                    && C.F.Mul(Challenge(C, f), Coefficient(C, f, i)) != C.F.zero)
  {
    HonestHoldsExactly(C, f, i, w);
    CheatersExactly(C, f);
    CheatersReturned(C, f);
  }

  /** So an honest signer for whom its own key was collected is never named, whatever the others sent. */
  lemma HonestNeverNamed<S(!new)>(C: CipherSuite<S>, f: Finalized<S>, i: nat, w: Contribution<S>)
    requires C.F.Valid() && Complete(f.state) && i < |f.state.signers| && Distinct(IndicesOf(f.state.signers))
    requires Honest(C, f, f.state.signers[i], w)
    requires f.state.publicKeys[f.state.signers[i].index] == ToPublic(C, w.key).share
    ensures Aggregated(C, f).Err? && Aggregated(C, f).error.MisbehavingParticipants? ==>
              f.state.signers[i].index !in Aggregated(C, f).error.indices
  {
    HonestNamedExactly(C, f, i, w);
  }

  // ---------- One signer too few ----------

  /** One value too few, weighted over the signers: it is the value at zero only if the last coefficient is zero. */
  lemma KeysShort<S(!new)>(F: Field<S>, signers: seq<Signer<S>>, ks: seq<S>, P: seq<S>)
    requires F.Valid() && |ks| == |signers| && |P| == |signers| + 1
    requires Distinct(IndicesOf(signers)) && 0 !in IndicesOf(signers)
    requires forall i :: 0 <= i < |ks| ==> ks[i] == Eval(F, P, F.From(signers[i].index))
    ensures SumSeq(F, Weighted(F, signers, ks)) == Eval(F, P, F.zero) <==> P[|signers|] == F.zero
  {
    var indices := IndicesOf(signers);
    var X: set<nat> := ToSet(indices);
    var y: map<nat, S> := map k: nat | k in X :: Eval(F, P, F.From(k));
    assert WeightedList(F, indices, ks) == Weighted(F, signers, ks);
    WeightedListSum(F, indices, ks, y);
    MemberCount(indices);
    OneValueShort(F, P, y, X);
  }

  /**
   Honest signers with values of one polynomial, one fewer than it has coefficients, whose own keys were
   collected: aggregation fails and names nobody, unless the last coefficient or the challenge is zero.
   */
  lemma OneSignerShort<S(!new)>(C: CipherSuite<S>, f: Finalized<S>, ws: seq<Contribution<S>>, P: seq<S>)
    requires C.F.Valid() && Complete(f.state) && f.state.signers != []
    requires Distinct(IndicesOf(f.state.signers)) && 0 !in IndicesOf(f.state.signers)
    requires AllHonest(C, f, ws) && |P| == |ws| + 1
    requires forall i :: 0 <= i < |ws| ==>
               && KeysHeld(ws)[i] == Eval(C.F, P, C.F.From(f.state.signers[i].index))
               && f.state.publicKeys[f.state.signers[i].index] == ToPublic(C, ws[i].key).share
    requires f.state.groupKey == C.Base(Eval(C.F, P, C.F.zero))
    ensures Aggregated(C, f) == if P[|ws|] == C.F.zero || Challenge(C, f) == C.F.zero then Ok(Combined(C, f))
                                else Err(MisbehavingParticipants([]))
  {
    forall i | 0 <= i < |ws|
      ensures PartialHolds(C, f, f.state.signers[i])
    {
      HonestHoldsExactly(C, f, i, ws[i]);
    }
    AllHoldVerifiesExactly(C, f);
    assert KeyLogs(f.state) == KeysHeld(ws);
    KeysShort(C.F, f.state.signers, KeysHeld(ws), P);
    NobodyNamedExactly(C, f);
  }

  // ---------- From the calls to the signature ----------

  /**
   After any sequence of calls that included between |P| and n distinct non-zero indices, if every
   signer in the aggregator's list holds its value of P and signed over that list, then finalizing
   and aggregating succeed and the signature verifies under the value of P at zero.
   */
  lemma SessionSucceeds<S(!new)>(C: CipherSuite<S>, parameters: Parameters, groupKey: Point<S>, message: Bytes,
                                 events: seq<Event<S>>, ws: seq<Contribution<S>>, P: seq<S>)
    requires C.F.Valid() && Seen(events) != {} && 0 !in Seen(events)
    requires |P| <= |Seen(events)| <= parameters.n
    requires groupKey == C.Base(Eval(C.F, P, C.F.zero))
    requires var f := Finalized(Run(Start(parameters, groupKey, message), events), C.H4(message));
             && AllHonest(C, f, ws)
             && forall i :: 0 <= i < |ws| ==> KeysHeld(ws)[i] == Eval(C.F, P, C.F.From(f.state.signers[i].index))
    ensures var f := Finalized(Run(Start(parameters, groupKey, message), events), C.H4(message));
            && Misbehaving(f.state) == [] && Complete(f.state)
            && Aggregated(C, f) == Ok(Combined(C, f))
            && SignatureVerifies(C, Combined(C, f), groupKey, C.H4(message))
  {
    var st := Run(Start(parameters, groupKey, message), events);
    var f := Finalized(st, C.H4(message));
    HistoryTold(parameters, groupKey, message, events);
    SignerCount(st, events);
    AscendingIndices(st.signers);
    assert 0 in IndicesOf(st.signers) ==> 0 in ToSet(IndicesOf(st.signers));
    SessionComplete(C, parameters, groupKey, message, events, ws);
    HonestSignersSucceed(C, f, ws, P);
  }

  /** The keys collected for these signers are their own. */
  ghost predicate OwnKeys<S(!new)>(C: CipherSuite<S>, st: AggregatorState<S>, ws: seq<Contribution<S>>)
  {
    && |ws| == |st.signers|
    && forall i :: 0 <= i < |ws| ==> Lookup(st.publicKeys, st.signers[i].index) == Some(ToPublic(C, ws[i].key).share)
  }

  ghost function Ended<S(!new)>(C: CipherSuite<S>, parameters: Parameters, groupKey: Point<S>, message: Bytes,
                                events: seq<Event<S>>): Finalized<S>
  {
    Finalized(Run(Start(parameters, groupKey, message), events), C.H4(message))
  }

  /**
   With calls for one index fewer, finalizing succeeds all the same, and aggregating then fails without
   naming anybody, unless the last coefficient or the challenge is zero.
   */
  lemma ShortSession<S(!new)>(C: CipherSuite<S>, parameters: Parameters, groupKey: Point<S>, message: Bytes,
                              events: seq<Event<S>>, ws: seq<Contribution<S>>, P: seq<S>)
    requires C.F.Valid() && Seen(events) != {} && 0 !in Seen(events)
    requires |P| == |ws| + 1 && |Seen(events)| <= parameters.n
    requires groupKey == C.Base(Eval(C.F, P, C.F.zero))
    requires var f := Ended(C, parameters, groupKey, message, events);
             && AllHonest(C, f, ws) && OwnKeys(C, f.state, ws)
             && forall i :: 0 <= i < |ws| ==> KeysHeld(ws)[i] == Eval(C.F, P, C.F.From(f.state.signers[i].index))
    ensures var f := Ended(C, parameters, groupKey, message, events);
            && Misbehaving(f.state) == [] && Complete(f.state) && |ws| == |Seen(events)|
            && Aggregated(C, f) == if P[|ws|] == C.F.zero || Challenge(C, f) == C.F.zero then Ok(Combined(C, f))
                                   else Err(MisbehavingParticipants([]))
  {
    var f := Ended(C, parameters, groupKey, message, events);
    HistoryTold(parameters, groupKey, message, events);
    SignerCount(f.state, events);
    AscendingIndices(f.state.signers);
    assert 0 in IndicesOf(f.state.signers) ==> 0 in ToSet(IndicesOf(f.state.signers));
    SessionComplete(C, parameters, groupKey, message, events, ws);
    OneSignerShort(C, f, ws, P);
  }

  lemma SessionComplete<S(!new)>(C: CipherSuite<S>, parameters: Parameters, groupKey: Point<S>, message: Bytes,
                                 events: seq<Event<S>>, ws: seq<Contribution<S>>)
    requires |Seen(events)| <= parameters.n
    requires AllHonest(C, Finalized(Run(Start(parameters, groupKey, message), events), C.H4(message)), ws)
    ensures Misbehaving(Run(Start(parameters, groupKey, message), events)) == []
    ensures Complete(Run(Start(parameters, groupKey, message), events))
  {
    var st := Run(Start(parameters, groupKey, message), events);
    HistoryTold(parameters, groupKey, message, events);
    SignerCount(st, events);
    forall i | i in Seen(events)
      ensures LastPartial(events, i).Some?
    {
      assert i in ToSet(IndicesOf(st.signers));
      var k :| 0 <= k < |IndicesOf(st.signers)| && IndicesOf(st.signers)[k] == i;
      assert Honest(C, Finalized(st, C.H4(message)), st.signers[k], ws[k]);
      assert Lookup(st.partialSignatures, i) == LastPartial(events, i);
    }
    FinalizesAfter(parameters, groupKey, message, events);
  }

  /**
   The keys that a key generation with dishonest dealers hands to its honest participants do sign:
   any t of them, if no commitment has more coefficients, obtain a signature that verifies under the group
   key they finished with.
   */
  lemma GeneratedKeysSign<S(!new)>(C: CipherSuite<S>, runs: seq<Robust.Run<S>>, f: Finalized<S>,
                                   ws: seq<Contribution<S>>, t: nat)
    requires C.F.Valid() && runs != [] && Robust.Bounded(runs[0], t)
    requires forall i :: 0 <= i < |runs| ==> Robust.HonestRun(C, runs[i]) && Robust.SameSession(runs[0], runs[i])
    requires Complete(f.state) && f.state.signers != [] && AllHonest(C, f, ws)
    requires Distinct(IndicesOf(f.state.signers)) && 0 !in IndicesOf(f.state.signers)
    requires |f.state.signers| >= t
    requires forall k :: 0 <= k < |ws| ==>
               exists i :: 0 <= i < |runs| && Holds(C, runs[i], f.state.groupKey, ws[k].key)
    ensures Aggregated(C, f) == Ok(Combined(C, f))
    ensures SignatureVerifies(C, Combined(C, f), f.state.groupKey, f.messageHash)
  {
    var P := Robust.RobustKeys(C, runs);
    forall k | 0 <= k < |ws|
      ensures KeysHeld(ws)[k] == Eval(C.F, P, C.F.From(f.state.signers[k].index))
      ensures f.state.groupKey == C.Base(Eval(C.F, P, C.F.zero))
    {
      var i :| 0 <= i < |runs| && Holds(C, runs[i], f.state.groupKey, ws[k].key);
      assert Honest(C, f, f.state.signers[k], ws[k]);
    }
    assert f.state.groupKey == C.Base(Eval(C.F, P, C.F.zero)) by {
      assert |ws| > 0;
      assert KeysHeld(ws)[0] == Eval(C.F, P, C.F.From(f.state.signers[0].index));
    }
    HonestSignersSucceed(C, f, ws, P);
  }

  /** The run finishes with this group key and this signing key. */
  ghost predicate Holds<S(!new)>(C: CipherSuite<S>, run: Robust.Run<S>, groupKey: Point<S>,
                                 key: IndividualSigningKey<S>)
    requires Robust.HonestRun(C, run)
  {
    KG.Finish(C, Robust.Final(C, run)) == Ok((groupKey, key))
  }
}
