/**
 Small concrete first sessions with t = 1, for the properties that fail. Dealers 1 and `other` deal
 the constants a and b; their commitments state some index, and `other` sends participant 1 the
 value x. Round one may in addition turn away a second participant.
 */
module SmallSessions {
  import opened Wrappers
  import opened Fields
  import opened Polynomials
  import opened CipherSuites
  import opened SecretShares
  import opened Participants
  import opened KeyGeneration
  import opened RoundOneFacts

  datatype Pair<S> = Pair(other: u32, a: S, b: S, statedA: u32, statedB: u32)

  function ConstantCommitment<S(!new)>(C: CipherSuite<S>, stated: u32, a: S): VssCommitment<S>
  {
    VssCommitment(stated, CommitTo(C, [a]))
  }

  /** The packet of a dealer of the constant a, whose commitment may state another index. */
  function ConstantPacket<S(==, !new)>(C: CipherSuite<S>, index: u32, stated: u32, a: S, d: Draws<S>): Participant<S>
  {
    DealerPacket(C, index, [a], d).(commitments := Some(ConstantCommitment(C, stated, a)))
  }

  lemma ConstantAccepted<S(!new)>(C: CipherSuite<S>, n: u32, index: u32, stated: u32, a: S, d: Draws<S>)
    requires C.F.Valid()
    ensures CheckParticipant(C, Parameters(n, 1), ConstantPacket(C, index, stated, a, d), true, true) == Accept
  {
    HonestDealerAccepted(C, Parameters(n, 1), index, [a], d, true, true);
  }

  lemma ConstantShareVerifies<S(!new)>(C: CipherSuite<S>, share: SecretShare<S>, stated: u32, a: S)
    requires C.F.Valid()
    ensures ShareVerifies(C, share, ConstantCommitment(C, stated, a)) <==> share.evaluation == a
  {
    ShareVerifiesExactly(C, share, ConstantCommitment(C, stated, a));
    ConstantEval(C.F, a, C.F.From(share.receiver));
  }

  // ---------- Round one ----------

  function FirstPacket<S(==, !new)>(C: CipherSuite<S>, w: Pair<S>, d: Draws<S>): Participant<S>
  {
    ConstantPacket(C, 1, w.statedA, w.a, d)
  }

  function OtherPacket<S(==, !new)>(C: CipherSuite<S>, w: Pair<S>, d: Draws<S>): Participant<S>
  {
    ConstantPacket(C, w.other, w.statedB, w.b, d)
  }

  function TwoPackets<S(==, !new)>(C: CipherSuite<S>, w: Pair<S>, d: Draws<S>): seq<Participant<S>>
  {
    [FirstPacket(C, w, d), OtherPacket(C, w, d)]
  }

  /** In between, participant 2 brings no commitment and is turned away. */
  function ThreePackets<S(==, !new)>(C: CipherSuite<S>, w: Pair<S>, d: Draws<S>): seq<Participant<S>>
  {
    [FirstPacket(C, w, d), SignerPacket(C, 2, d), OtherPacket(C, w, d)]
  }

  ghost function PairCommitments<S(!new)>(C: CipherSuite<S>, w: Pair<S>): map<u32, VssCommitment<S>>
  {
    map[1 := ConstantCommitment(C, w.statedA, w.a), w.other := ConstantCommitment(C, w.statedB, w.b)]
  }

  /** Participant 1 after round one. */
  ghost function PairStart<S(!new)>(C: CipherSuite<S>, w: Pair<S>, d: Draws<S>,
                                    encrypted: Option<map<u32, EncryptedShare>>): State<S>
  {
    State(
      Parameters(2, 1), 1, d.dhPrivateKey, C.Base(d.dhPrivateKey),
      Some(PairCommitments(C, w)),
      map[1 := C.Base(d.dhPrivateKey), w.other := C.Base(d.dhPrivateKey)],
      encrypted,
      None)
  }

  lemma PairMaps<S(!new)>(C: CipherSuite<S>, w: Pair<S>, d: Draws<S>)
    requires w.other > 1
    ensures CommitmentsOf(TwoPackets(C, w, d)) == PairCommitments(C, w)
    ensures DhKeysOf(TwoPackets(C, w, d)) == map[1 := C.Base(d.dhPrivateKey), w.other := C.Base(d.dhPrivateKey)]
  {
    var ps := TwoPackets(C, w, d);
    assert ps[..1] == [FirstPacket(C, w, d)] && ps[..1][..0] == [];
    assert CommitmentsOf(ps[..1]) == map[1 := ConstantCommitment(C, w.statedA, w.a)];
    assert DhKeysOf(ps[..1]) == map[1 := C.Base(d.dhPrivateKey)];
  }

  lemma ValidOfTwo<S(!new)>(C: CipherSuite<S>, parameters: Parameters, p: Participant<S>, q: Participant<S>)
    requires CheckParticipant(C, parameters, p, true, true) == Accept == CheckParticipant(C, parameters, q, true, true)
    ensures Valid(C, parameters, [p, q], true, true) == [p, q] && !SomePanics(C, parameters, [p, q], true, true)
  {
    assert [p, q][..1] == [p] && [p][..0] == [];
    assert Valid(C, parameters, [p], true, true) == [p] && !SomePanics(C, parameters, [p], true, true);
  }

  lemma ValidOfThree<S(!new)>(C: CipherSuite<S>, parameters: Parameters, p: Participant<S>, rejected: Participant<S>,
                              q: Participant<S>)
    requires CheckParticipant(C, parameters, p, true, true) == Accept == CheckParticipant(C, parameters, q, true, true)
    requires CheckParticipant(C, parameters, rejected, true, true) == Reject
    ensures Valid(C, parameters, [p, rejected, q], true, true) == [p, q]
    ensures !SomePanics(C, parameters, [p, rejected, q], true, true)
  {
    assert [p, rejected, q][..2] == [p, rejected] && [p, rejected][..1] == [p] && [p][..0] == [];
    assert Valid(C, parameters, [p], true, true) == [p] && !SomePanics(C, parameters, [p], true, true);
    assert Valid(C, parameters, [p, rejected], true, true) == [p];
    assert !SomePanics(C, parameters, [p, rejected], true, true);
  }

  lemma TwoRoundOne<S(!new)>(C: CipherSuite<S>, w: Pair<S>, d: Draws<S>, nonces: u32 -> Bytes)
    requires C.F.Valid() && w.other > 1
    ensures var ps := TwoPackets(C, w, d);
            var r := RoundOne(C, Parameters(2, 1), d.dhPrivateKey, 1, [w.a], ps, true, true, nonces);
            r.Ok? && r.value.0 == PairStart(C, w, d, Some(EncryptedFor(C, 1, [w.a], d.dhPrivateKey, ps, nonces)))
  {
    var ps := TwoPackets(C, w, d);
    var parameters := Parameters(2, 1);
    ConstantAccepted(C, 2, 1, w.statedA, w.a, d);
    ConstantAccepted(C, 2, w.other, w.statedB, w.b, d);
    ValidOfTwo(C, parameters, ps[0], ps[1]);
    PairMaps(C, w, d);
  }

  lemma ThreeChecked<S(!new)>(C: CipherSuite<S>, w: Pair<S>, d: Draws<S>)
    requires C.F.Valid()
    ensures var ps := ThreePackets(C, w, d);
            && Valid(C, Parameters(3, 1), ps, true, true) == TwoPackets(C, w, d)
            && !SomePanics(C, Parameters(3, 1), ps, true, true)
  {
    var ps := ThreePackets(C, w, d);
    var parameters := Parameters(3, 1);
    ConstantAccepted(C, 3, 1, w.statedA, w.a, d);
    ConstantAccepted(C, 3, w.other, w.statedB, w.b, d);
    ValidOfThree(C, parameters, ps[0], ps[1], ps[2]);
  }

  lemma ThreeRoundOne<S(!new)>(C: CipherSuite<S>, w: Pair<S>, d: Draws<S>, nonces: u32 -> Bytes)
    requires C.F.Valid() && w.other > 1
    ensures var ps := ThreePackets(C, w, d);
            var r := RoundOne(C, Parameters(3, 1), d.dhPrivateKey, 1, [w.a], ps, true, true, nonces);
            r.Ok? && r.value.0 == PairStart(C, w, d, Some(EncryptedFor(C, 1, [w.a], d.dhPrivateKey, ps, nonces)))
  {
    ThreeChecked(C, w, d);
    PairMaps(C, w, d);
  }

  // ---------- Round two ----------

  /** The shares of participant 1: its own constant, and the value x that the other dealer sends. */
  function PairShares<S(==, !new)>(C: CipherSuite<S>, w: Pair<S>, x: S, d: Draws<S>, nonce: Bytes): seq<EncryptedShare>
  {
    var key := C.GMul(C.Base(d.dhPrivateKey), d.dhPrivateKey);
    [EncryptShare(C, SecretShare(1, 1, w.a), key, nonce), EncryptShare(C, SecretShare(w.other, 1, x), key, nonce)]
  }

  ghost function PairStored<S>(w: Pair<S>, x: S): map<u32, SecretShare<S>>
  {
    map[1 := SecretShare(1, 1, w.a), w.other := SecretShare(w.other, 1, x)]
  }

  ghost function PairMiddle<S(!new)>(C: CipherSuite<S>, w: Pair<S>, x: S, d: Draws<S>): State<S>
  {
    PairStart(C, w, d, None).(mySecretShares := Some(PairStored(w, x)))
  }

  lemma PairOpened<S(!new)>(C: CipherSuite<S>, w: Pair<S>, x: S, d: Draws<S>, nonce: Bytes, st: State<S>)
    requires C.Valid() && w.other > 1 && st == PairStart(C, w, d, st.theirEncryptedShares)
    ensures var es := PairShares(C, w, x, d, nonce);
            && Opened(C, st, es[0]) == Some(PairStored(w, x)[1]) && !Bad(C, st, es[0])
            && Opened(C, st, es[1]) == Some(PairStored(w, x)[w.other]) && (Bad(C, st, es[1]) <==> x != w.b)
  {
    var key := C.GMul(C.Base(d.dhPrivateKey), d.dhPrivateKey);
    DecryptEncrypt(C, SecretShare(1, 1, w.a), key, nonce);
    DecryptEncrypt(C, SecretShare(w.other, 1, x), key, nonce);
    ConstantShareVerifies(C, SecretShare(1, 1, w.a), w.statedA, w.a);
    ConstantShareVerifies(C, SecretShare(w.other, 1, x), w.statedB, w.b);
  }

  lemma PairCollected<S(!new)>(C: CipherSuite<S>, w: Pair<S>, x: S, d: Draws<S>, nonce: Bytes, st: State<S>, r: seq<S>)
    requires C.Valid() && w.other > 1 && st == PairStart(C, w, d, st.theirEncryptedShares) && |r| == 2
    ensures var es := PairShares(C, w, x, d, nonce);
            Collect(C, st, es, r)
            == Ok(Collected(PairStored(w, x), if x == w.b then [] else [ComplaintOn(C, st, es[1], r[1])]))
  {
    var es := PairShares(C, w, x, d, nonce);
    PairOpened(C, w, x, d, nonce, st);
    assert es[..1][..0] == [] && es[..1][0] == es[0];
    assert Collect(C, st, es[..1][..0], r) == Ok(Collected(map[], []));
    var first: map<u32, SecretShare<S>> := map[1 := SecretShare(1, 1, w.a)];
    assert Collect(C, st, es[..1], r) == Ok(Collected(first, []));
    assert first[w.other := SecretShare(w.other, 1, x)] == PairStored(w, x);
    assert [] + [ComplaintOn(C, st, es[1], r[1])] == [ComplaintOn(C, st, es[1], r[1])];
  }

  lemma PairRoundTwo<S(!new)>(C: CipherSuite<S>, w: Pair<S>, x: S, d: Draws<S>, nonce: Bytes, st: State<S>, r: seq<S>)
    requires C.Valid() && w.other > 1 && st == PairStart(C, w, d, st.theirEncryptedShares) && |r| == 2
    ensures var es := PairShares(C, w, x, d, nonce);
            ToRoundTwo(C, st, es, r)
            == Ok((PairMiddle(C, w, x, d), if x == w.b then [] else [ComplaintOn(C, st, es[1], r[1])]))
  {
    PairCollected(C, w, x, d, nonce, st, r);
  }
}
