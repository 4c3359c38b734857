/** Participants of a key generation session, and how a dealer or a signer is created. */
module Participants {
  import opened Wrappers
  import opened Fields
  import opened CipherSuites
  import opened SecretShares
  import opened KnowledgeProofs
  import opened Complaints
  import Lagrange

  datatype Error<S> =
    | IndexIsZero
    | InvalidThresholdParams
    | InvalidNumberOfParticipants(got: nat, expected: u32)
    | TooManyInvalidParticipants(indices: seq<u32>)
    | MissingShares
    | InvalidShareIndices
    | TooManyComplaints(complaints: seq<Complaint<S>>)
    | NoEncryptedShares
    | Interpolation(error: Lagrange.LagrangeError)
    | ShareVerificationError
    | InvalidGroupKey
    | Panicked

  /** n participants, of which t are needed to sign. */
  datatype Parameters = Parameters(n: u32, t: u32)
  {
    predicate Valid() { 0 < t <= n }
  }

  function NewParameters<S>(n: u32, t: u32): (r: Result<Parameters, Error<S>>)
    ensures r.Ok? <==> 0 < t <= n
    ensures r.Ok? ==> r.value == Parameters(n, t) && r.value.Valid()
    ensures r.Err? ==> r.error == InvalidThresholdParams
  {
    if n == 0 || t == 0 || n < t then Err(InvalidThresholdParams) else Ok(Parameters(n, t))
  }

  /** Everybody may be needed to sign: n = t is accepted. */
  lemma EqualCountsAccepted<S>(n: u32)
    ensures NewParameters<S>(n, n) == if n == 0 then Err(InvalidThresholdParams) else Ok(Parameters(n, n))
  {
  }

  datatype Participant<S> = Participant(
    index: u32,
    dhPublicKey: Point<S>,
    commitments: Option<VssCommitment<S>>,
    proofOfSecretKey: Option<KnowledgeProof<S>>,
    proofOfDhPrivateKey: KnowledgeProof<S>)
  {
    function PublicKey(): Option<Point<S>>
    {
      if commitments.None? then None else commitments.value.PublicKey()
    }
  }

  /** The values a new participant draws at random. */
  datatype Draws<S> = Draws(dhPrivateKey: S, dhNonce: S, coefficients: seq<S>, secretNonce: S)

  function CommitTo<S(!new)>(C: CipherSuite<S>, a: seq<S>): (points: seq<Point<S>>)
    ensures |points| == |a| && forall j :: 0 <= j < |a| ==> points[j] == C.Base(a[j])
    ensures Dlogs(points) == a
  {
    seq(|a|, j requires 0 <= j < |a| => C.Base(a[j]))
  }

  /** What a dealer with the secret polynomial a publishes. */
  function DealerPacket<S(==, !new)>(C: CipherSuite<S>, index: u32, a: seq<S>, d: Draws<S>): Participant<S>
    requires a != []
  {
    Participant(
      index,
      C.Base(d.dhPrivateKey),
      Some(VssCommitment(index, CommitTo(C, a))),
      Some(Prove(C, index, a[0], C.Base(a[0]), d.secretNonce)),
      Prove(C, index, d.dhPrivateKey, C.Base(d.dhPrivateKey), d.dhNonce))
  }

  function SignerPacket<S(==, !new)>(C: CipherSuite<S>, index: u32, d: Draws<S>): Participant<S>
  {
    Participant(index, C.Base(d.dhPrivateKey), None, None,
                Prove(C, index, d.dhPrivateKey, C.Base(d.dhPrivateKey), d.dhNonce))
  }

  /** The polynomial of a dealer: random, but for a constant term given by a resharing. */
  function DealerPolynomial<S>(secretKey: Option<S>, random: seq<S>): seq<S>
    requires random != []
  {
    if secretKey.None? then random else [secretKey.value] + random[1..]
  }

  /** The packet carries the DH key drawn, with a proof that commits to its own draw. */
  ghost predicate PublishesDhKey<S(!new)>(C: CipherSuite<S>, p: Participant<S>, index: u32, d: Draws<S>)
  {
    && p.index == index && p.dhPublicKey == C.Base(d.dhPrivateKey)
    && ProofEquation(C, p.proofOfDhPrivateKey, index, C.Base(d.dhPrivateKey), C.Base(d.dhNonce))
  }

  /** It commits to each coefficient, and proves knowledge of the first with another draw. */
  ghost predicate PublishesPolynomial<S(!new)>(C: CipherSuite<S>, p: Participant<S>, index: u32, a: seq<S>, d: Draws<S>)
    requires a != []
  {
    && p.commitments.Some? && p.commitments.value.index == index && |p.commitments.value.points| == |a|
    && (forall j :: 0 <= j < |a| ==> p.commitments.value.points[j] == C.Base(a[j]))
    && p.proofOfSecretKey.Some?
    && ProofEquation(C, p.proofOfSecretKey.value, index, C.Base(a[0]), C.Base(d.secretNonce))
  }

  lemma DealerPublishes<S(!new)>(C: CipherSuite<S>, index: u32, a: seq<S>, d: Draws<S>)
    requires a != []
    ensures PublishesDhKey(C, DealerPacket(C, index, a, d), index, d)
    ensures PublishesPolynomial(C, DealerPacket(C, index, a, d), index, a, d)
  {
    ProveCommits(C, index, d.dhPrivateKey, d.dhNonce);
    ProveCommits(C, index, a[0], d.secretNonce);
  }

  lemma SignerPublishes<S(!new)>(C: CipherSuite<S>, index: u32, d: Draws<S>)
    ensures PublishesDhKey(C, SignerPacket(C, index, d), index, d)
  {
    ProveCommits(C, index, d.dhPrivateKey, d.dhNonce);
  }

  datatype Created<S> = Created(participant: Participant<S>, coefficients: Option<seq<S>>, dhPrivateKey: S)

  method NewInternal<S(==, !new)>(C: CipherSuite<S>, parameters: Parameters, isSigner: bool, index: u32,
                                  secretKey: Option<S>, d: Draws<S>)
    returns (r: Result<Created<S>, Error<S>>)
    requires parameters.Valid() && |d.coefficients| == parameters.t
    ensures index == 0 ==> r == Err(IndexIsZero)
    ensures index != 0 && isSigner ==> r == Ok(Created(SignerPacket(C, index, d), None, d.dhPrivateKey))
    ensures index != 0 && !isSigner ==>
              var a := DealerPolynomial(secretKey, d.coefficients);
              |a| == parameters.t && r == Ok(Created(DealerPacket(C, index, a, d), Some(a), d.dhPrivateKey))
    ensures index != 0 ==> r.Ok? && PublishesDhKey(C, r.value.participant, index, d)
    ensures index != 0 && !isSigner ==>
              && r.value.coefficients.Some?
              && var a := r.value.coefficients.value;
                 && |a| == parameters.t && a[1..] == d.coefficients[1..]
                 && a[0] == (if secretKey.Some? then secretKey.value else d.coefficients[0])
                 && PublishesPolynomial(C, r.value.participant, index, a, d)
  {
    if index == 0 {
      return Err(IndexIsZero);
    }
    var dhPublicKey := C.Base(d.dhPrivateKey);
    var proofOfDhPrivateKey := Prove(C, index, d.dhPrivateKey, dhPublicKey, d.dhNonce);
    if isSigner {
      SignerPublishes(C, index, d);
      return Ok(Created(Participant(index, dhPublicKey, None, None, proofOfDhPrivateKey), None, d.dhPrivateKey));
    }
    var a := DealerPolynomial(secretKey, d.coefficients);
    var coefficients := [if secretKey.Some? then secretKey.value else d.coefficients[0]];
    for j := 1 to parameters.t
      invariant coefficients == a[..j]
    {
      coefficients := coefficients + [d.coefficients[j]];
    }
    assert coefficients == a;
    var points: seq<Point<S>> := [];
    for j := 0 to parameters.t
      invariant points == CommitTo(C, a)[..j]
    {
      points := points + [C.Base(coefficients[j])];
    }
    assert points == CommitTo(C, a);
    DealerPublishes(C, index, a, d);
    var proofOfSecretKey := Prove(C, index, coefficients[0], points[0], d.secretNonce);
    r := Ok(Created(
      Participant(index, dhPublicKey, Some(VssCommitment(index, points)), Some(proofOfSecretKey), proofOfDhPrivateKey),
      Some(coefficients),
      d.dhPrivateKey));
  }

  method NewDealer<S(==, !new)>(C: CipherSuite<S>, parameters: Parameters, index: u32, d: Draws<S>)
    returns (r: Result<Created<S>, Error<S>>)
    requires parameters.Valid() && |d.coefficients| == parameters.t
    ensures r == if index == 0 then Err(IndexIsZero)
                 else Ok(Created(DealerPacket(C, index, d.coefficients, d), Some(d.coefficients), d.dhPrivateKey))
  {
    r := NewInternal(C, parameters, false, index, None, d);
  }

  method NewSigner<S(==, !new)>(C: CipherSuite<S>, parameters: Parameters, index: u32, d: Draws<S>)
    returns (r: Result<Created<S>, Error<S>>)
    requires parameters.Valid() && |d.coefficients| == parameters.t
    ensures r == if index == 0 then Err(IndexIsZero)
                 else Ok(Created(SignerPacket(C, index, d), None, d.dhPrivateKey))
  {
    r := NewInternal(C, parameters, true, index, None, d);
  }
}
