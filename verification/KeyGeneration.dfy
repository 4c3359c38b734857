/**
 The key generation session of one participant, as functions on its state: round one, round two,
 the settlement of complaints, and the keys that come out. Module `DkgSessions` runs the same steps
 in place and is proved to agree with these functions.
 */
module KeyGeneration {
  import opened Wrappers
  import opened Fields
  import opened Orderings
  import opened Lagrange
  import opened CipherSuites
  import opened SecretShares
  import opened KnowledgeProofs
  import opened Complaints
  import opened Participants
  import opened Keys

  datatype State<S> = State(
    parameters: Parameters,
    index: u32,
    dhPrivateKey: S,
    dhPublicKey: Point<S>,
    theirCommitments: Option<map<u32, VssCommitment<S>>>,
    theirDhPublicKeys: map<u32, Point<S>>,
    theirEncryptedShares: Option<map<u32, EncryptedShare>>,
    mySecretShares: Option<map<u32, SecretShare<S>>>)

  datatype ParticipantList<S> = ParticipantList(valid: seq<Participant<S>>, misbehaving: seq<u32>)

  // ---------- Round one ----------

  datatype Check = Accept | Reject | Panics

  /** The checks on one participant; a proof of the secret key may be missing where it is expected. */
  function CheckParticipant<S(==, !new)>(C: CipherSuite<S>, parameters: Parameters, p: Participant<S>,
                                         fromDealer: bool, fromSigner: bool): Check
  {
    if !Verifies(C, p.proofOfDhPrivateKey, p.index, p.dhPublicKey) then Reject
    else if !fromSigner then Accept
    else if p.PublicKey().None? then Reject
    else if p.proofOfSecretKey.None? then Panics
    else if !Verifies(C, p.proofOfSecretKey.value, p.index, p.PublicKey().value) then Reject
    else if fromDealer && |p.commitments.value.points| != parameters.t then Reject
    else Accept
  }

  ghost function Valid<S(!new)>(C: CipherSuite<S>, parameters: Parameters, ps: seq<Participant<S>>,
                                fromDealer: bool, fromSigner: bool): (valid: seq<Participant<S>>)
    ensures |valid| <= |ps|
  {
    if ps == [] then []
    else
      var k := |ps| - 1;
      var rest := Valid(C, parameters, ps[..k], fromDealer, fromSigner);
      if CheckParticipant(C, parameters, ps[k], fromDealer, fromSigner) == Accept then rest + [ps[k]] else rest
  }

  ghost function Misbehaving<S(!new)>(C: CipherSuite<S>, parameters: Parameters, ps: seq<Participant<S>>,
                                      fromDealer: bool, fromSigner: bool): seq<u32>
  {
    if ps == [] then []
    else
      var k := |ps| - 1;
      var rest := Misbehaving(C, parameters, ps[..k], fromDealer, fromSigner);
      if CheckParticipant(C, parameters, ps[k], fromDealer, fromSigner) == Accept then rest else rest + [ps[k].index]
  }

  /** Some participant of the list makes the check panic. */
  ghost predicate SomePanics<S(!new)>(C: CipherSuite<S>, parameters: Parameters, ps: seq<Participant<S>>,
                                      fromDealer: bool, fromSigner: bool)
  {
    ps != [] &&
    var k := |ps| - 1;
    || SomePanics(C, parameters, ps[..k], fromDealer, fromSigner)
    || CheckParticipant(C, parameters, ps[k], fromDealer, fromSigner) == Panics
  }

  ghost function CommitmentsOf<S>(ps: seq<Participant<S>>): map<u32, VssCommitment<S>>
  {
    if ps == [] then map[]
    else
      var k := |ps| - 1;
      var rest := CommitmentsOf(ps[..k]);
      if ps[k].commitments.Some? then rest[ps[k].index := ps[k].commitments.value] else rest
  }

  ghost function DhKeysOf<S>(ps: seq<Participant<S>>): map<u32, Point<S>>
  {
    if ps == [] then map[]
    else
      var k := |ps| - 1;
      DhKeysOf(ps[..k])[ps[k].index := ps[k].dhPublicKey]
  }

  /** The nonce drawn to encrypt the share of a receiver. */
  function NonceFor(nonces: u32 -> Bytes, receiver: u32): Bytes { nonces(receiver) }

  function EncryptFor<S(==, !new)>(C: CipherSuite<S>, myIndex: u32, a: seq<S>, sk: S, receiver: u32,
                                   receiverKey: Point<S>, nonces: u32 -> Bytes): EncryptedShare
  {
    EncryptShare(C, ShareFor(C.F, myIndex, receiver, a), C.GMul(receiverKey, sk), NonceFor(nonces, receiver))
  }

  /** One share for every participant of the list, misbehaving or not. */
  ghost function EncryptedFor<S(!new)>(C: CipherSuite<S>, myIndex: u32, a: seq<S>, sk: S,
                                       ps: seq<Participant<S>>, nonces: u32 -> Bytes): map<u32, EncryptedShare>
  {
    if ps == [] then map[]
    else
      var k := |ps| - 1;
      EncryptedFor(C, myIndex, a, sk, ps[..k], nonces)
        [ps[k].index := EncryptFor(C, myIndex, a, sk, ps[k].index, ps[k].dhPublicKey, nonces)]
  }

  ghost function RoundOne<S(!new)>(
    C: CipherSuite<S>, parameters: Parameters, sk: S, myIndex: u32, a: seq<S>,
    ps: seq<Participant<S>>, fromDealer: bool, fromSigner: bool, nonces: u32 -> Bytes)
    : Result<(State<S>, ParticipantList<S>), Error<S>>
  {
    var valid := Valid(C, parameters, ps, fromDealer, fromSigner);
    var misbehaving := Misbehaving(C, parameters, ps, fromDealer, fromSigner);
    if |ps| != parameters.n then Err(InvalidNumberOfParticipants(|ps|, parameters.n))
    else if SomePanics(C, parameters, ps, fromDealer, fromSigner) then Err(Panicked)
    else if |valid| < parameters.t then Err(TooManyInvalidParticipants(misbehaving))
    else Ok((
      State(
        Parameters(|valid|, parameters.t),
        myIndex,
        sk,
        C.Base(sk),
        if fromSigner then Some(CommitmentsOf(valid)) else None,
        DhKeysOf(valid),
        if fromDealer then Some(EncryptedFor(C, myIndex, a, sk, ps, nonces)) else None,
        None),
      ParticipantList(valid, misbehaving)))
  }

  // ---------- Round two ----------

  function Opened<S(==, !new)>(C: CipherSuite<S>, st: State<S>, e: EncryptedShare): Option<SecretShare<S>>
    requires e.sender in st.theirDhPublicKeys
  {
    DecryptShare(C, e, C.GMul(st.theirDhPublicKeys[e.sender], st.dhPrivateKey))
  }

  /** The share does not decrypt, or fails against the commitment of its sender. */
  predicate Bad<S(==, !new)>(C: CipherSuite<S>, st: State<S>, e: EncryptedShare)
    requires st.theirCommitments.Some? && e.sender in st.theirDhPublicKeys
  {
    && e.sender in st.theirCommitments.value
    && var share := Opened(C, st, e);
       share.None? || !ShareVerifies(C, share.value, st.theirCommitments.value[e.sender])
  }

  function ComplaintOn<S(==, !new)>(C: CipherSuite<S>, st: State<S>, e: EncryptedShare, r: S): Complaint<S>
    requires e.sender in st.theirDhPublicKeys
  {
    var key := st.theirDhPublicKeys[e.sender];
    NewComplaint(C, key, st.dhPrivateKey, C.GMul(key, st.dhPrivateKey), e, r)
  }

  datatype Collected<S> = Collected(shares: map<u32, SecretShare<S>>, complaints: seq<Complaint<S>>)

  /**
   One more share: stored if it decrypts, even if it fails its check, and complained about if it is
   bad; `draw` is the random scalar of the complaint. A state without commitments panics.
   */
  function Receive<S(==, !new)>(C: CipherSuite<S>, st: State<S>, got: Collected<S>, e: EncryptedShare, draw: S)
    : Result<Collected<S>, Error<S>>
  {
    if e.sender !in st.theirDhPublicKeys then Err(InvalidShareIndices)
    else if st.theirCommitments.None? then Err(Panicked)
    else
      var share := Opened(C, st, e);
      Ok(Collected(
        if share.Some? then got.shares[e.sender := share.value] else got.shares,
        if Bad(C, st, e) then got.complaints + [ComplaintOn(C, st, e, draw)] else got.complaints))
  }

  /** The shares received, one after the other. */
  function Collect<S(==, !new)>(C: CipherSuite<S>, st: State<S>, es: seq<EncryptedShare>, draws: seq<S>)
    : Result<Collected<S>, Error<S>>
    requires |es| <= |draws|
  {
    if es == [] then Ok(Collected(map[], []))
    else
      var k := |es| - 1;
      match Collect(C, st, es[..k], draws)
      case Err(error) => Err(error)
      case Ok(got) => Receive(C, st, got, es[k], draws[k])
  }

  /** Panicked stands for missing commitments and for the subtraction that goes below zero. */
  function ToRoundTwo<S(==, !new)>(C: CipherSuite<S>, st: State<S>, es: seq<EncryptedShare>, draws: seq<S>)
    : Result<(State<S>, seq<Complaint<S>>), Error<S>>
    requires |es| <= |draws|
  {
    if |es| < st.parameters.t then Err(MissingShares)
    else
      match Collect(C, st, es, draws)
      case Err(error) => Err(error)
      case Ok(got) =>
        if |got.complaints| > st.parameters.n then Err(Panicked)
        else if st.parameters.n - |got.complaints| < st.parameters.t then Err(TooManyComplaints(got.complaints))
        else Ok((st.(theirEncryptedShares := None, mySecretShares := Some(got.shares)), got.complaints))
  }

  // ---------- Complaints ----------

  /** The index a complaint counts against. */
  function Verdict<S(==, !new)>(C: CipherSuite<S>, st: State<S>, c: Complaint<S>): u32
    requires st.theirCommitments.Some?
  {
    var accused, maker := c.encryptedShare.sender, c.encryptedShare.receiver;
    if accused == 0 || accused > st.parameters.n then maker
    else if accused !in st.theirCommitments.value then maker
    else
      var key := if accused in st.theirDhPublicKeys then st.theirDhPublicKeys[accused] else C.Identity();
      if !ComplaintVerifies(C, c, key) then maker
      else
        match DecryptShare(C, c.encryptedShare, c.dhSharedKey)
        case None => accused
        case Some(share) => if ShareVerifies(C, share, st.theirCommitments.value[accused]) then maker else accused
  }

  ghost function Verdicts<S(!new)>(C: CipherSuite<S>, st: State<S>, cs: seq<Complaint<S>>): seq<u32>
    requires st.theirCommitments.Some?
  {
    seq(|cs|, i requires 0 <= i < |cs| => Verdict(C, st, cs[i]))
  }

  ghost function Blamed<S(!new)>(C: CipherSuite<S>, st: State<S>, cs: seq<Complaint<S>>): (blamed: set<u32>)
    requires st.theirCommitments.Some?
    ensures forall i :: 0 <= i < |cs| ==> Verdict(C, st, cs[i]) in blamed
  {
    set i | 0 <= i < |cs| :: Verdict(C, st, cs[i])
  }

  /** The indices settled against, ascending and without repetition. */
  ghost function BlamedList<S(!new)>(C: CipherSuite<S>, st: State<S>, cs: seq<Complaint<S>>): seq<u32>
    requires st.theirCommitments.Some?
  {
    Dedup(SortUnstable(Verdicts(C, st, cs)))
  }

  lemma BlamedListMembers<S(!new)>(C: CipherSuite<S>, st: State<S>, cs: seq<Complaint<S>>)
    requires st.theirCommitments.Some?
    ensures ToSet(BlamedList(C, st, cs)) == Blamed(C, st, cs)
  {
    var verdicts := Verdicts(C, st, cs);
    forall x
      ensures x in verdicts <==> x in Blamed(C, st, cs)
    {
      if x in verdicts {
        var i :| 0 <= i < |verdicts| && verdicts[i] == x;
      }
      if x in Blamed(C, st, cs) {
        var i :| 0 <= i < |cs| && Verdict(C, st, cs[i]) == x;
        assert verdicts[i] == x;
      }
    }
  }

  ghost function Blame<S(!new)>(C: CipherSuite<S>, st: State<S>, cs: seq<Complaint<S>>): State<S>
    requires st.theirCommitments.Some? && st.mySecretShares.Some?
  {
    var blamed := Blamed(C, st, cs);
    st.(theirCommitments := Some(st.theirCommitments.value - blamed),
        mySecretShares := Some(st.mySecretShares.value - blamed))
  }

  /** The known keys among the listed indices, in order. */
  function KeysOf<S>(keys: map<u32, Point<S>>, indices: seq<u32>): seq<Point<S>>
  {
    if indices == [] then []
    else
      var k := |indices| - 1;
      var rest := KeysOf(keys, indices[..k]);
      if indices[k] in keys then rest + [keys[indices[k]]] else rest
  }

  // ---------- Keys ----------

  ghost function Evaluations<S>(shares: map<u32, SecretShare<S>>): map<nat, S>
  {
    map l: nat | l in shares :: shares[l].evaluation
  }

  ghost function SigningKeyOf<S(!new)>(C: CipherSuite<S>, st: State<S>): Result<IndividualSigningKey<S>, Error<S>>
  {
    if st.mySecretShares.None? then Err(Panicked)
    else if 0 in st.mySecretShares.value then Err(Interpolation(LagrangeError.IndexIsZero))
    else Ok(IndividualSigningKey(st.index, Interpolate(C.F, Evaluations(st.mySecretShares.value))))
  }

  ghost predicate AllHavePoints<S>(commitments: map<u32, VssCommitment<S>>)
  {
    forall l :: l in commitments ==> commitments[l].points != []
  }

  ghost function ConstantTerms<S>(commitments: map<u32, VssCommitment<S>>): map<nat, S>
    requires AllHavePoints(commitments)
  {
    map l: nat | l in commitments :: commitments[l].points[0].dlog
  }

  /** The same without the condition, a missing point counting as zero. */
  ghost function FirstPoints<S(!new)>(F: Field<S>, commitments: map<u32, VssCommitment<S>>): map<nat, S>
  {
    map l: nat | l in commitments ::
      if commitments[l].points == [] then F.zero else commitments[l].points[0].dlog
  }

  ghost function GroupKeyOf<S(!new)>(C: CipherSuite<S>, st: State<S>): Result<Point<S>, Error<S>>
  {
    if st.theirCommitments.None? then Err(InvalidGroupKey)
    else if 0 in st.theirCommitments.value then Err(Interpolation(LagrangeError.IndexIsZero))
    else if !AllHavePoints(st.theirCommitments.value) then Err(Panicked)
    else Ok(Point(Interpolate(C.F, ConstantTerms(st.theirCommitments.value))))
  }

  ghost function Finish<S(!new)>(C: CipherSuite<S>, st: State<S>): Result<(Point<S>, IndividualSigningKey<S>), Error<S>>
  {
    match SigningKeyOf(C, st)
    case Err(error) => Err(error)
    case Ok(secretKey) =>
      match GroupKeyOf(C, st)
      case Err(error) => Err(error)
      case Ok(groupKey) => Ok((groupKey, secretKey))
  }
}
