/**
 Sessions whose dealers are honest: nobody is excluded, nobody complains, and everybody finishes
 with the values of the dealers' joint polynomial. Resharing is such a session, and its joint
 polynomial keeps the old secret.
 */
module HonestSessions {
  import opened Wrappers
  import opened Fields
  import opened Polynomials
  import opened Orderings
  import opened Lagrange
  import opened CipherSuites
  import opened SecretShares
  import opened Participants
  import opened Keys
  import opened KeyGeneration
  import opened RobustKeyGeneration
  import opened RoundOneFacts

  /** The secrets of honest dealers, by index. */
  datatype Secrets<S> = Secrets(polys: map<u32, seq<S>>, draws: map<u32, Draws<S>>)
  {
    ghost predicate Well()
    {
      polys.Keys == draws.Keys && 0 !in polys && forall l :: l in polys ==> polys[l] != []
    }
  }

  function PacketOf<S(==, !new)>(C: CipherSuite<S>, s: Secrets<S>, l: u32): (p: Participant<S>)
    requires l in s.polys && l in s.draws && s.polys[l] != []
    ensures p.index == l
  {
    DealerPacket(C, l, s.polys[l], s.draws[l])
  }

  /** One packet from every dealer, in any order. */
  ghost predicate HonestPackets<S(!new)>(C: CipherSuite<S>, s: Secrets<S>, ps: seq<Participant<S>>)
  {
    && s.Well()
    && DistinctIndices(ps)
    && |ps| == |s.polys.Keys|
    && forall i :: 0 <= i < |ps| ==> ps[i].index in s.polys && ps[i] == PacketOf(C, s, ps[i].index)
  }

  ghost function JointPolynomial<S(!new)>(F: Field<S>, polys: map<u32, seq<S>>): seq<S>
  {
    Combine(F, map l: nat | l in polys :: polys[l], polys.Keys, polys.Keys)
  }

  ghost function HonestCommitments<S(!new)>(C: CipherSuite<S>, s: Secrets<S>): map<u32, VssCommitment<S>>
  {
    map l | l in s.polys :: VssCommitment(l, CommitTo(C, s.polys[l]))
  }

  ghost function HonestDhKeys<S(!new)>(C: CipherSuite<S>, s: Secrets<S>): map<u32, Point<S>>
    requires s.Well()
  {
    map l | l in s.polys :: C.Base(s.draws[l].dhPrivateKey)
  }

  lemma PacketIndices<S(!new)>(C: CipherSuite<S>, s: Secrets<S>, ps: seq<Participant<S>>)
    requires HonestPackets(C, s, ps)
    ensures IndexSet(ps) == s.polys.Keys
    ensures forall l :: l in s.polys ==> PacketOf(C, s, l) in ps
  {
    IndexCount(ps);
    forall l | l in IndexSet(ps)
      ensures l in s.polys
    {
      var i :| 0 <= i < |ps| && ps[i].index == l;
    }
    SubsetSize(IndexSet(ps), s.polys.Keys);
    forall l | l in s.polys
      ensures PacketOf(C, s, l) in ps
    {
      assert l in IndexSet(ps);
      var i :| 0 <= i < |ps| && ps[i].index == l;
      assert ps[i] in ps;
    }
  }

  lemma HonestMapsAt<S(!new)>(C: CipherSuite<S>, s: Secrets<S>, ps: seq<Participant<S>>, l: u32)
    requires HonestPackets(C, s, ps) && l in s.polys
    ensures l in CommitmentsOf(ps) && CommitmentsOf(ps)[l] == VssCommitment(l, CommitTo(C, s.polys[l]))
    ensures l in DhKeysOf(ps) && DhKeysOf(ps)[l] == C.Base(s.draws[l].dhPrivateKey)
  {
    PacketIndices(C, s, ps);
    MapEntry(ps, PacketOf(C, s, l));
  }

  lemma HonestMapKeys<S(!new)>(C: CipherSuite<S>, s: Secrets<S>, ps: seq<Participant<S>>)
    requires HonestPackets(C, s, ps)
    ensures CommitmentsOf(ps).Keys == DhKeysOf(ps).Keys == s.polys.Keys
  {
    PacketIndices(C, s, ps);
    MapKeys(ps);
    forall p | p in ps
      ensures p.commitments.Some?
    {
      var i :| 0 <= i < |ps| && ps[i] == p;
    }
  }

  lemma HonestMaps<S(!new)>(C: CipherSuite<S>, s: Secrets<S>, ps: seq<Participant<S>>)
    requires HonestPackets(C, s, ps)
    ensures CommitmentsOf(ps) == HonestCommitments(C, s)
    ensures DhKeysOf(ps) == HonestDhKeys(C, s)
  {
    HonestMapKeys(C, s, ps);
    forall l | l in s.polys
      ensures CommitmentsOf(ps)[l] == HonestCommitments(C, s)[l] && DhKeysOf(ps)[l] == HonestDhKeys(C, s)[l]
    {
      HonestMapsAt(C, s, ps, l);
    }
  }

  lemma {:induction false} AllAccepted<S(!new)>(C: CipherSuite<S>, parameters: Parameters, ps: seq<Participant<S>>,
                                                fromDealer: bool, fromSigner: bool)
    requires forall p :: p in ps ==> CheckParticipant(C, parameters, p, fromDealer, fromSigner) == Accept
    ensures Valid(C, parameters, ps, fromDealer, fromSigner) == ps
    ensures Misbehaving(C, parameters, ps, fromDealer, fromSigner) == []
    ensures !SomePanics(C, parameters, ps, fromDealer, fromSigner)
    decreases |ps|
  {
    if ps != [] {
      var k := |ps| - 1;
      assert ps == ps[..k] + [ps[k]];
      AllAccepted(C, parameters, ps[..k], fromDealer, fromSigner);
    }
  }

  /** The state of a participant after an honest round one. */
  ghost function HonestStart<S(!new)>(C: CipherSuite<S>, s: Secrets<S>, parameters: Parameters, sk: S, myIndex: u32,
                                      encrypted: Option<map<u32, EncryptedShare>>): (st: State<S>)
    requires s.Well()
    ensures st.theirCommitments.Some?
  {
    State(parameters, myIndex, sk, C.Base(sk), Some(HonestCommitments(C, s)), HonestDhKeys(C, s), encrypted, None)
  }

  lemma HonestRoundOne<S(!new)>(
    C: CipherSuite<S>, s: Secrets<S>, parameters: Parameters, sk: S, myIndex: u32, a: seq<S>,
    ps: seq<Participant<S>>, fromDealer: bool, nonces: u32 -> Bytes)
    requires C.F.Valid() && HonestPackets(C, s, ps)
    requires parameters.Valid() && |ps| == parameters.n
    requires fromDealer ==> forall l :: l in s.polys ==> |s.polys[l]| == parameters.t
    ensures RoundOne(C, parameters, sk, myIndex, a, ps, fromDealer, true, nonces)
         == Ok((HonestStart(C, s, parameters, sk, myIndex,
                            if fromDealer then Some(EncryptedFor(C, myIndex, a, sk, ps, nonces)) else None),
                ParticipantList(ps, [])))
  {
    forall p | p in ps
      ensures CheckParticipant(C, parameters, p, fromDealer, true) == Accept
    {
      var i :| 0 <= i < |ps| && ps[i] == p;
      HonestDealerAccepted(C, parameters, p.index, s.polys[p.index], s.draws[p.index], fromDealer, true);
    }
    AllAccepted(C, parameters, ps, fromDealer, true);
    HonestMaps(C, s, ps);
  }

  // ---------- An honest round two ----------

  /** The share dealer l sends to the participant with this index and Diffie-Hellman key. */
  ghost predicate HonestShare<S(!new)>(C: CipherSuite<S>, s: Secrets<S>, index: u32, dhPublicKey: Point<S>,
                                       e: EncryptedShare)
    requires s.Well()
  {
    && e.sender in s.polys
    && e == EncryptShare(C, ShareFor(C.F, e.sender, index, s.polys[e.sender]),
                         C.GMul(dhPublicKey, s.draws[e.sender].dhPrivateKey), e.nonce)
  }

  /** The state has the commitment and the key of this honest dealer, whoever the others are. */
  ghost predicate KnowsDealer<S(!new)>(C: CipherSuite<S>, s: Secrets<S>, st: State<S>, l: u32)
    requires s.Well()
  {
    && l in s.polys && st.theirCommitments.Some?
    && l in st.theirCommitments.value
    && st.theirCommitments.value[l] == VssCommitment(l, CommitTo(C, s.polys[l]))
    && l in st.theirDhPublicKeys && st.theirDhPublicKeys[l] == C.Base(s.draws[l].dhPrivateKey)
  }

  /** Both sides derive the same key, so the share opens, and to a value that verifies. */
  lemma HonestShareOpens<S(!new)>(C: CipherSuite<S>, s: Secrets<S>, st: State<S>, e: EncryptedShare)
    requires C.Valid() && s.Well() && KnowsDealer(C, s, st, e.sender)
    requires HonestShare(C, s, st.index, C.Base(st.dhPrivateKey), e)
    ensures Opened(C, st, e) == Some(ShareFor(C.F, e.sender, st.index, s.polys[e.sender]))
    ensures !Bad(C, st, e)
  {
    var share := ShareFor(C.F, e.sender, st.index, s.polys[e.sender]);
    C.F.MulComm(s.draws[e.sender].dhPrivateKey, st.dhPrivateKey);
    DecryptEncrypt(C, share, C.GMul(C.Base(st.dhPrivateKey), s.draws[e.sender].dhPrivateKey), e.nonce);
    ShareVerifiesExactly(C, share, st.theirCommitments.value[e.sender]);
  }

  /** One honest share from every dealer, in any order. */
  ghost predicate HonestShares<S(!new)>(C: CipherSuite<S>, s: Secrets<S>, index: u32, dhPublicKey: Point<S>,
                                        es: seq<EncryptedShare>)
    requires s.Well()
  {
    && DistinctSenders(es)
    && |es| == |s.polys.Keys|
    && forall i :: 0 <= i < |es| ==> HonestShare(C, s, index, dhPublicKey, es[i])
  }

  ghost function SharesOver<S(!new)>(F: Field<S>, s: Secrets<S>, index: u32, X: set<u32>): map<u32, SecretShare<S>>
  {
    map l | l in X && l in s.polys :: ShareFor(F, l, index, s.polys[l])
  }

  ghost function SharesFor<S(!new)>(F: Field<S>, s: Secrets<S>, index: u32): map<u32, SecretShare<S>>
  {
    SharesOver(F, s, index, s.polys.Keys)
  }

  lemma HonestSenders<S(!new)>(C: CipherSuite<S>, s: Secrets<S>, index: u32, dhPublicKey: Point<S>,
                               es: seq<EncryptedShare>)
    requires s.Well() && HonestShares(C, s, index, dhPublicKey, es)
    ensures Senders(es) == s.polys.Keys
  {
    SenderCount(es);
    SubsetSize(Senders(es), s.polys.Keys);
  }

  lemma {:induction false} HonestCollect<S(!new)>(C: CipherSuite<S>, s: Secrets<S>, st: State<S>,
                                                  es: seq<EncryptedShare>, draws: seq<S>)
    requires C.Valid() && s.Well() && |es| <= |draws|
    requires st.theirCommitments == Some(HonestCommitments(C, s)) && st.theirDhPublicKeys == HonestDhKeys(C, s)
    requires forall i :: 0 <= i < |es| ==> HonestShare(C, s, st.index, C.Base(st.dhPrivateKey), es[i])
    ensures Collect(C, st, es, draws) == Ok(Collected(SharesOver(C.F, s, st.index, Senders(es)), []))
    decreases |es|
  {
    if es == [] {
      assert SharesOver(C.F, s, st.index, Senders(es)) == map[];
    } else {
      var k := |es| - 1;
      HonestCollect(C, s, st, es[..k], draws);
      HonestReceive(C, s, st, Collected(SharesOver(C.F, s, st.index, Senders(es[..k])), []), es[k], draws[k]);
      SendersExtend(es);
      SharesGrow(C.F, s, st.index, Senders(es[..k]), es[k].sender);
    }
  }

  lemma HonestReceive<S(!new)>(C: CipherSuite<S>, s: Secrets<S>, st: State<S>, got: Collected<S>, e: EncryptedShare,
                               draw: S)
    requires C.Valid() && s.Well()
    requires st.theirCommitments == Some(HonestCommitments(C, s)) && st.theirDhPublicKeys == HonestDhKeys(C, s)
    requires HonestShare(C, s, st.index, C.Base(st.dhPrivateKey), e)
    ensures Receive(C, st, got, e, draw)
         == Ok(got.(shares := got.shares[e.sender := ShareFor(C.F, e.sender, st.index, s.polys[e.sender])]))
  {
    HonestShareOpens(C, s, st, e);
  }

  lemma SharesGrow<S(!new)>(F: Field<S>, s: Secrets<S>, index: u32, X: set<u32>, l: u32)
    requires l in s.polys
    ensures SharesOver(F, s, index, X + {l}) == SharesOver(F, s, index, X)[l := ShareFor(F, l, index, s.polys[l])]
  {
  }

  /** The honest shares are consistent with the honest commitments. */
  lemma HonestConsistent<S(!new)>(C: CipherSuite<S>, s: Secrets<S>, mid: State<S>)
    requires C.F.Valid() && s.Well()
    requires mid.theirCommitments == Some(HonestCommitments(C, s))
    requires mid.mySecretShares == Some(SharesFor(C.F, s, mid.index))
    ensures Consistent(C, mid)
  {
    var commitments := HonestCommitments(C, s);
    forall l | l in s.polys
      ensures ShareVerifies(C, ShareFor(C.F, l, mid.index, s.polys[l]), commitments[l])
    {
      ShareVerifiesExactly(C, ShareFor(C.F, l, mid.index, s.polys[l]), commitments[l]);
    }
  }

  ghost predicate HonestView<S(!new)>(C: CipherSuite<S>, s: Secrets<S>, st: State<S>)
  {
    && s.Well()
    && st.theirCommitments == Some(HonestCommitments(C, s))
    && st.theirDhPublicKeys == HonestDhKeys(C, s)
    && st.parameters.Valid()
    && |s.polys.Keys| >= st.parameters.t
  }

  ghost function HonestMiddle<S(!new)>(C: CipherSuite<S>, s: Secrets<S>, st: State<S>): State<S>
  {
    st.(theirEncryptedShares := None, mySecretShares := Some(SharesFor(C.F, s, st.index)))
  }

  lemma HonestCollected<S(!new)>(C: CipherSuite<S>, s: Secrets<S>, st: State<S>, es: seq<EncryptedShare>, draws: seq<S>)
    requires C.Valid() && HonestView(C, s, st) && |es| <= |draws|
    requires HonestShares(C, s, st.index, C.Base(st.dhPrivateKey), es)
    ensures Collect(C, st, es, draws) == Ok(Collected(SharesFor(C.F, s, st.index), []))
  {
    HonestCollect(C, s, st, es, draws);
    HonestSenders(C, s, st.index, C.Base(st.dhPrivateKey), es);
  }

  /** After an honest round two there are no complaints, and every dealer's share is in place. */
  lemma HonestRoundTwo<S(!new)>(C: CipherSuite<S>, s: Secrets<S>, st: State<S>, es: seq<EncryptedShare>, draws: seq<S>)
    requires C.Valid() && HonestView(C, s, st) && |es| <= |draws|
    requires HonestShares(C, s, st.index, C.Base(st.dhPrivateKey), es)
    ensures ToRoundTwo(C, st, es, draws) == Ok((HonestMiddle(C, s, st), []))
  {
    HonestCollected(C, s, st, es, draws);
  }

  ghost function JointKeys<S(!new)>(C: CipherSuite<S>, s: Secrets<S>, index: u32): (Point<S>, IndividualSigningKey<S>)
  {
    var P := JointPolynomial(C.F, s.polys);
    (C.Base(Eval(C.F, P, C.F.zero)), IndividualSigningKey(index, Eval(C.F, P, C.F.From(index))))
  }

  /** `finish` gives the joint polynomial's values to whoever holds the honest shares. */
  lemma HonestFinish<S(!new)>(C: CipherSuite<S>, s: Secrets<S>, mid: State<S>)
    requires C.F.Valid() && s.Well()
    requires mid.theirCommitments == Some(HonestCommitments(C, s))
    requires mid.mySecretShares == Some(SharesFor(C.F, s, mid.index))
    ensures Finish(C, mid) == Ok(JointKeys(C, s, mid.index))
  {
    HonestConsistent(C, s, mid);
    FinishConsistent(C, mid);
    HonestGroupPolynomial(C, s);
  }

  lemma HonestGroupPolynomial<S(!new)>(C: CipherSuite<S>, s: Secrets<S>)
    ensures GroupPolynomial(C.F, HonestCommitments(C, s)) == JointPolynomial(C.F, s.polys)
  {
    var commitments := HonestCommitments(C, s);
    assert commitments.Keys == s.polys.Keys;
    assert CommittedPolynomials(commitments) == (map l: nat | l in s.polys :: s.polys[l]);
  }

  lemma JointPolynomialLength<S(!new)>(F: Field<S>, polys: map<u32, seq<S>>, t: nat)
    requires forall l :: l in polys ==> |polys[l]| <= t
    ensures |JointPolynomial(F, polys)| <= t
  {
    CombineLength(F, map l: nat | l in polys :: polys[l], polys.Keys, polys.Keys, t);
  }

  // ---------- Resharing ----------

  /** What `reshare` returns: the dealer's packet and one encrypted share for each new participant. */
  ghost function Reshare<S(!new)>(C: CipherSuite<S>, parameters: Parameters, key: IndividualSigningKey<S>,
                                  signers: seq<Participant<S>>, d: Draws<S>, nonces: u32 -> Bytes)
    : Result<(Participant<S>, map<u32, EncryptedShare>, ParticipantList<S>), Error<S>>
    requires d.coefficients != []
  {
    if key.index == 0 then Err(Error.IndexIsZero)
    else
      var a := DealerPolynomial(Some(key.key), d.coefficients);
      match RoundOne(C, parameters, d.dhPrivateKey, key.index, a, signers, true, false, nonces)
      case Err(error) => Err(error)
      case Ok((st, lists)) => Ok((DealerPacket(C, key.index, a, d), st.theirEncryptedShares.value, lists))
  }

  /** An old member's resharing, as recorded. */
  datatype Resharing<S> = Resharing(
    key: IndividualSigningKey<S>,
    d: Draws<S>,
    nonces: u32 -> Bytes,
    packet: Participant<S>,
    shares: map<u32, EncryptedShare>)
  {
    function Polynomial(): seq<S>
      requires d.coefficients != []
    {
      DealerPolynomial(Some(key.key), d.coefficients)
    }
  }

  ghost predicate Reshared<S(!new)>(C: CipherSuite<S>, parameters: Parameters, signers: seq<Participant<S>>,
                                    r: Resharing<S>)
  {
    && parameters.Valid() && |r.d.coefficients| == parameters.t
    && var out := Reshare(C, parameters, r.key, signers, r.d, r.nonces);
       out.Ok? && out.value.0 == r.packet && out.value.1 == r.shares
  }

  ghost predicate AllReshared<S(!new)>(C: CipherSuite<S>, parameters: Parameters, signers: seq<Participant<S>>,
                                       rs: seq<Resharing<S>>)
  {
    forall i {:trigger Reshared(C, parameters, signers, rs[i])} ::
      0 <= i < |rs| ==> Reshared(C, parameters, signers, rs[i])
  }

  ghost predicate DistinctKeys<S(!new)>(rs: seq<Resharing<S>>)
  {
    forall i, j :: 0 <= i < j < |rs| ==> rs[i].key.index != rs[j].key.index
  }

  /** The resharers' secrets, gathered by index. */
  ghost function SecretsOf<S(!new)>(rs: seq<Resharing<S>>): Secrets<S>
    requires forall i :: 0 <= i < |rs| ==> rs[i].d.coefficients != []
  {
    if rs == [] then Secrets(map[], map[])
    else
      var k := |rs| - 1;
      var rest := SecretsOf(rs[..k]);
      Secrets(rest.polys[rs[k].key.index := rs[k].Polynomial()], rest.draws[rs[k].key.index := rs[k].d])
  }

  ghost function KeyIndices<S(!new)>(rs: seq<Resharing<S>>): (x: set<u32>)
    ensures forall i :: 0 <= i < |rs| ==> rs[i].key.index in x
    ensures forall l :: l in x ==> exists i :: 0 <= i < |rs| && rs[i].key.index == l
  {
    set i | 0 <= i < |rs| :: rs[i].key.index
  }

  lemma KeyIndicesExtend<S(!new)>(rs: seq<Resharing<S>>)
    requires rs != []
    ensures KeyIndices(rs) == KeyIndices(rs[..|rs| - 1]) + {rs[|rs| - 1].key.index}
    ensures DistinctKeys(rs) ==> rs[|rs| - 1].key.index !in KeyIndices(rs[..|rs| - 1])
  {
  }

  lemma {:induction false} SecretsKeys<S(!new)>(rs: seq<Resharing<S>>)
    requires forall i :: 0 <= i < |rs| ==> rs[i].d.coefficients != []
    ensures SecretsOf(rs).polys.Keys == SecretsOf(rs).draws.Keys == KeyIndices(rs)
  {
    if rs != [] {
      SecretsKeys(rs[..|rs| - 1]);
      KeyIndicesExtend(rs);
    }
  }

  lemma {:induction false} KeyIndexCount<S(!new)>(rs: seq<Resharing<S>>)
    requires DistinctKeys(rs)
    ensures |KeyIndices(rs)| == |rs|
  {
    if rs != [] {
      KeyIndexCount(rs[..|rs| - 1]);
      KeyIndicesExtend(rs);
    }
  }

  lemma {:induction false} SecretsEntry<S(!new)>(rs: seq<Resharing<S>>, i: nat)
    requires DistinctKeys(rs) && i < |rs|
    requires forall i :: 0 <= i < |rs| ==> rs[i].d.coefficients != []
    ensures rs[i].key.index in SecretsOf(rs).polys && rs[i].key.index in SecretsOf(rs).draws
    ensures SecretsOf(rs).polys[rs[i].key.index] == rs[i].Polynomial()
    ensures SecretsOf(rs).draws[rs[i].key.index] == rs[i].d
  {
    var k := |rs| - 1;
    if i < k {
      assert rs[..k][i] == rs[i];
      SecretsEntry(rs[..k], i);
    }
  }

  ghost predicate SecretsMatch<S(!new)>(rs: seq<Resharing<S>>, s: Secrets<S>, t: nat)
  {
    && s.Well() && |s.polys.Keys| == |rs|
    && (forall l :: l in s.polys ==> |s.polys[l]| == t && exists i :: 0 <= i < |rs| && rs[i].key.index == l)
    && forall i :: 0 <= i < |rs| ==>
         && rs[i].d.coefficients != []
         && rs[i].key.index in s.polys
         && s.polys[rs[i].key.index] == rs[i].Polynomial()
         && s.draws[rs[i].key.index] == rs[i].d
  }

  lemma SecretsAreMatched<S(!new)>(rs: seq<Resharing<S>>, t: nat)
    requires DistinctKeys(rs) && t > 0
    requires forall i :: 0 <= i < |rs| ==> rs[i].key.index != 0 && |rs[i].d.coefficients| == t
    ensures SecretsMatch(rs, SecretsOf(rs), t)
  {
    SecretsKeys(rs);
    KeyIndexCount(rs);
    SecretsAtKeys(rs, t);
    forall i | 0 <= i < |rs|
      ensures SecretsOf(rs).polys[rs[i].key.index] == rs[i].Polynomial()
      ensures SecretsOf(rs).draws[rs[i].key.index] == rs[i].d
    {
      SecretsEntry(rs, i);
    }
  }

  lemma SecretsAtKeys<S(!new)>(rs: seq<Resharing<S>>, t: nat)
    requires DistinctKeys(rs) && t > 0
    requires forall i :: 0 <= i < |rs| ==> rs[i].key.index != 0 && |rs[i].d.coefficients| == t
    ensures forall l :: l in SecretsOf(rs).polys ==>
              l != 0 && |SecretsOf(rs).polys[l]| == t && exists i :: 0 <= i < |rs| && rs[i].key.index == l
  {
  }

  /**
   The joint polynomial of a resharing has the old secret as its constant term, when the resharers
   hold values of one polynomial and are enough to determine it.
   */
  lemma JointKeepsSecret<S(!new)>(F: Field<S>, polys: map<u32, seq<S>>, P: seq<S>)
    requires F.Valid() && |P| <= |polys.Keys|
    requires forall l :: l in polys ==> polys[l] != [] && polys[l][0] == Eval(F, P, F.From(l))
    ensures Eval(F, JointPolynomial(F, polys), F.zero) == Eval(F, P, F.zero)
  {
    var X: set<nat> := polys.Keys;
    var ps: map<nat, seq<S>> := map l: nat | l in polys :: polys[l];
    var y := map l | l in X :: Eval(F, P, F.From(l));
    forall l | l in X
      ensures y[l] == Eval(F, ps[l], F.zero)
    {
      EvalAtZero(F, ps[l]);
    }
    CombineEval(F, ps, X, X, F.zero, y);
    LagrangeAtZero(F, P, y, X);
  }

  /** The share a resharer encrypts for a new participant is an honest one. */
  lemma ResharedShare<S(!new)>(C: CipherSuite<S>, parameters: Parameters, signers: seq<Participant<S>>, r: Resharing<S>,
                               p: Participant<S>)
    requires Reshared(C, parameters, signers, r) && DistinctIndices(signers) && p in signers
    ensures p.index in r.shares && r.key.index != 0
    ensures r.packet == DealerPacket(C, r.key.index, r.Polynomial(), r.d) && |r.Polynomial()| == parameters.t
    ensures r.shares[p.index] == EncryptFor(C, r.key.index, r.Polynomial(), r.d.dhPrivateKey, p.index, p.dhPublicKey,
                                            r.nonces)
  {
    EncryptedEntry(C, r.key.index, r.Polynomial(), r.d.dhPrivateKey, signers, r.nonces, p);
  }

  /**
   What `reshare` deals: the old key as constant term and the drawn coefficients above it, committed to
   in the packet; each new participant can open its share to the power sum of these.
   */
  lemma ReshareDeals<S(!new)>(C: CipherSuite<S>, parameters: Parameters, key: IndividualSigningKey<S>,
                              signers: seq<Participant<S>>, d: Draws<S>, nonces: u32 -> Bytes, p: Participant<S>, sk: S)
    requires C.Valid() && parameters.Valid() && |d.coefficients| == parameters.t
    requires DistinctIndices(signers) && p in signers && p.dhPublicKey == C.Base(sk)
    requires Reshare(C, parameters, key, signers, d, nonces).Ok?
    ensures var (dealer, shares, _) := Reshare(C, parameters, key, signers, d, nonces).value;
            var a := [key.key] + d.coefficients[1..];
            && PublishesDhKey(C, dealer, key.index, d) && PublishesPolynomial(C, dealer, key.index, a, d)
            && p.index in shares
            && DealtTo(C, shares[p.index], key.index, a, d.dhPrivateKey, p, nonces(p.index))
            && DecryptShare(C, shares[p.index], C.GMul(C.Base(d.dhPrivateKey), sk))
               == Some(SecretShare(key.index, p.index, PowerSum(C.F, a, C.F.From(p.index))))
  {
    var a := [key.key] + d.coefficients[1..];
    assert a == DealerPolynomial(Some(key.key), d.coefficients);
    DealerPublishes(C, key.index, a, d);
    RoundOneDeals(C, parameters, d.dhPrivateKey, key.index, a, signers, false, nonces, p);
    EncryptedEntry(C, key.index, a, d.dhPrivateKey, signers, nonces, p);
    C.F.MulComm(sk, d.dhPrivateKey);
    DecryptEncrypt(C, ShareFor(C.F, key.index, p.index, a), C.GMul(C.Base(sk), d.dhPrivateKey), nonces(p.index));
    EvalIsPowerSum(C.F, a, C.F.From(p.index));
  }

  /** `reshare` succeeds exactly for a non-zero index and n' new participants of whom t' qualify. */
  lemma ReshareSucceedsExactly<S(!new)>(C: CipherSuite<S>, parameters: Parameters, key: IndividualSigningKey<S>,
                                        signers: seq<Participant<S>>, d: Draws<S>, nonces: u32 -> Bytes)
    requires d.coefficients != []
    ensures var r := Reshare(C, parameters, key, signers, d, nonces);
            && (r.Ok? <==> && key.index != 0 && |signers| == parameters.n
                           && |Valid(C, parameters, signers, true, false)| >= parameters.t)
            && (key.index == 0 ==> r == Err(Error.IndexIsZero))
  {
    PanicsExactly(C, parameters, signers, true, false);
  }

  ghost function PacketsOf<S(!new)>(rs: seq<Resharing<S>>): (ps: seq<Participant<S>>)
    ensures |ps| == |rs| && forall i :: 0 <= i < |rs| ==> ps[i] == rs[i].packet
  {
    seq(|rs|, i requires 0 <= i < |rs| => rs[i].packet)
  }

  /** The share is one that some resharer encrypted for the participant. */
  ghost predicate FromSome<S(!new)>(rs: seq<Resharing<S>>, p: Participant<S>, e: EncryptedShare)
  {
    exists i :: 0 <= i < |rs| && p.index in rs[i].shares && e == rs[i].shares[p.index]
  }

  /** A new participant and the shares it collects: one from each resharer, in any order. */
  ghost predicate Joins<S(!new)>(signers: seq<Participant<S>>, rs: seq<Resharing<S>>, p: Participant<S>,
                                 es: seq<EncryptedShare>)
  {
    && p in signers
    && |es| == |rs| && DistinctSenders(es)
    && forall k :: 0 <= k < |es| ==> FromSome(rs, p, es[k])
  }

  lemma JoinerShare<S(!new)>(C: CipherSuite<S>, newParameters: Parameters, signers: seq<Participant<S>>,
                             r: Resharing<S>, s: Secrets<S>, p: Participant<S>)
    requires s.Well() && DistinctIndices(signers) && p in signers
    requires Reshared(C, newParameters, signers, r)
    requires r.key.index in s.polys && s.polys[r.key.index] == r.Polynomial() && s.draws[r.key.index] == r.d
    ensures p.index in r.shares && HonestShare(C, s, p.index, p.dhPublicKey, r.shares[p.index])
    ensures r.packet == PacketOf(C, s, r.key.index) && r.packet.index == r.key.index
  {
    ResharedShare(C, newParameters, signers, r, p);
  }

  lemma JoinedShare<S(!new)>(C: CipherSuite<S>, newParameters: Parameters, signers: seq<Participant<S>>,
                             rs: seq<Resharing<S>>, s: Secrets<S>, p: Participant<S>, e: EncryptedShare)
    requires DistinctIndices(signers) && p in signers && FromSome(rs, p, e)
    requires AllReshared(C, newParameters, signers, rs) && SecretsMatch(rs, s, newParameters.t)
    ensures HonestShare(C, s, p.index, p.dhPublicKey, e)
  {
    var i :| 0 <= i < |rs| && p.index in rs[i].shares && e == rs[i].shares[p.index];
    assert Reshared(C, newParameters, signers, rs[i]);
    JoinerShare(C, newParameters, signers, rs[i], s, p);
  }

  lemma JoinerShares<S(!new)>(C: CipherSuite<S>, newParameters: Parameters, signers: seq<Participant<S>>,
                              rs: seq<Resharing<S>>, s: Secrets<S>, p: Participant<S>, es: seq<EncryptedShare>)
    requires DistinctIndices(signers) && AllReshared(C, newParameters, signers, rs)
    requires SecretsMatch(rs, s, newParameters.t) && Joins(signers, rs, p, es)
    ensures HonestShares(C, s, p.index, p.dhPublicKey, es)
  {
    forall k | 0 <= k < |es|
      ensures HonestShare(C, s, p.index, p.dhPublicKey, es[k])
    {
      JoinedShare(C, newParameters, signers, rs, s, p, es[k]);
    }
  }

  lemma JoinerPackets<S(!new)>(C: CipherSuite<S>, newParameters: Parameters, signers: seq<Participant<S>>,
                               rs: seq<Resharing<S>>, s: Secrets<S>, p: Participant<S>)
    requires DistinctKeys(rs) && DistinctIndices(signers) && p in signers
    requires AllReshared(C, newParameters, signers, rs)
    requires SecretsMatch(rs, s, newParameters.t)
    ensures HonestPackets(C, s, PacketsOf(rs))
  {
    var ps := PacketsOf(rs);
    forall i | 0 <= i < |rs|
      ensures ps[i].index == rs[i].key.index && ps[i] == PacketOf(C, s, rs[i].key.index)
    {
      assert Reshared(C, newParameters, signers, rs[i]);
      JoinerShare(C, newParameters, signers, rs[i], s, p);
    }
  }

  lemma JoinerSecrets<S(!new)>(C: CipherSuite<S>, newParameters: Parameters, signers: seq<Participant<S>>,
                               rs: seq<Resharing<S>>)
    requires DistinctKeys(rs) && newParameters.Valid()
    requires AllReshared(C, newParameters, signers, rs)
    ensures forall i :: 0 <= i < |rs| ==> rs[i].d.coefficients != []
    ensures SecretsMatch(rs, SecretsOf(rs), newParameters.t)
  {
    forall i | 0 <= i < |rs|
      ensures rs[i].key.index != 0 && |rs[i].d.coefficients| == newParameters.t
    {
      assert Reshared(C, newParameters, signers, rs[i]);
    }
    SecretsAreMatched(rs, newParameters.t);
  }

  /** The three steps of a new participant among honest dealers. */
  ghost predicate JoinsWith<S(!new)>(C: CipherSuite<S>, parameters: Parameters, sk: S, index: u32,
                                     ps: seq<Participant<S>>,
                                     nonces: u32 -> Bytes, es: seq<EncryptedShare>, draws: seq<S>,
                                     keys: (Point<S>, IndividualSigningKey<S>))
    requires |es| <= |draws|
  {
    var one := RoundOne(C, parameters, sk, index, [], ps, false, true, nonces);
    && one.Ok? && one.value.0.theirCommitments.Some?
    && var two := ToRoundTwo(C, one.value.0, es, draws);
       && two.Ok? && two.value.1 == []
       && two.value.0.theirCommitments.Some? && two.value.0.mySecretShares.Some?
       && Finish(C, two.value.0) == Ok(keys)
  }

  lemma HonestJoin<S(!new)>(C: CipherSuite<S>, s: Secrets<S>, parameters: Parameters, sk: S, index: u32,
                            ps: seq<Participant<S>>, nonces: u32 -> Bytes, es: seq<EncryptedShare>, draws: seq<S>)
    requires C.Valid() && parameters.Valid() && |ps| == parameters.n && |es| <= |draws|
    requires HonestPackets(C, s, ps) && HonestShares(C, s, index, C.Base(sk), es)
    ensures JoinsWith(C, parameters, sk, index, ps, nonces, es, draws, JointKeys(C, s, index))
  {
    HonestRoundOne(C, s, parameters, sk, index, [], ps, false, nonces);
    var st := HonestStart(C, s, parameters, sk, index, None);
    HonestRoundTwo(C, s, st, es, draws);
    HonestFinish(C, s, HonestMiddle(C, s, st));
  }

  /** The resharers' packets as they arrive: each once, in any order. */
  ghost predicate Arrive<S(!new)>(rs: seq<Resharing<S>>, ps: seq<Participant<S>>)
  {
    |ps| == |rs| && DistinctIndices(ps) && forall i :: 0 <= i < |ps| ==> ps[i] in PacketsOf(rs)
  }

  lemma ArrivedPackets<S(!new)>(C: CipherSuite<S>, s: Secrets<S>, rs: seq<Resharing<S>>, ps: seq<Participant<S>>)
    requires HonestPackets(C, s, PacketsOf(rs)) && Arrive(rs, ps)
    ensures HonestPackets(C, s, ps)
  {
    forall i | 0 <= i < |ps|
      ensures ps[i].index in s.polys && ps[i] == PacketOf(C, s, ps[i].index)
    {
      var j :| 0 <= j < |rs| && PacketsOf(rs)[j] == ps[i];
    }
  }

  /**
   Resharing keeps the group key. If at least as many old members as the old polynomial P has
   coefficients reshare the values of P they hold, then every new participant who runs `new`,
   `to_round_two` and `finish` gets the old group key, and a value of one new polynomial with at
   most t' coefficients and the same constant term.
   */
  lemma StaticGroupKey<S(!new)>(
    C: CipherSuite<S>, newParameters: Parameters, signers: seq<Participant<S>>, rs: seq<Resharing<S>>, P: seq<S>,
    oldParameters: Parameters, p: Participant<S>, sk: S, nonces: u32 -> Bytes, ps: seq<Participant<S>>,
    es: seq<EncryptedShare>, draws: seq<S>)
    returns (P': seq<S>)
    requires C.Valid() && oldParameters.Valid() && |rs| == oldParameters.n && |P| <= |rs|
    requires newParameters.Valid()
    requires DistinctIndices(signers) && DistinctKeys(rs)
    requires AllReshared(C, newParameters, signers, rs)
    requires forall i :: 0 <= i < |rs| ==> rs[i].key.key == Eval(C.F, P, C.F.From(rs[i].key.index))
    requires Arrive(rs, ps) && Joins(signers, rs, p, es) && p.dhPublicKey == C.Base(sk) && |es| <= |draws|
    ensures forall i :: 0 <= i < |rs| ==> rs[i].d.coefficients != []
    ensures P' == JointPolynomial(C.F, SecretsOf(rs).polys)
    ensures |P'| <= newParameters.t && Eval(C.F, P', C.F.zero) == Eval(C.F, P, C.F.zero)
    ensures JoinsWith(C, oldParameters, sk, p.index, ps, nonces, es, draws,
                      (C.Base(Eval(C.F, P, C.F.zero)), IndividualSigningKey(p.index, Eval(C.F, P', C.F.From(p.index)))))
  {
    JoinerSecrets(C, newParameters, signers, rs);
    var s := SecretsOf(rs);
    P' := JointPolynomial(C.F, s.polys);
    JointPolynomialLength(C.F, s.polys, newParameters.t);
    forall l | l in s.polys
      ensures s.polys[l][0] == Eval(C.F, P, C.F.From(l))
    {
      var i :| 0 <= i < |rs| && rs[i].key.index == l;
    }
    JointKeepsSecret(C.F, s.polys, P);
    JoinerPackets(C, newParameters, signers, rs, s, p);
    ArrivedPackets(C, s, rs, ps);
    JoinerShares(C, newParameters, signers, rs, s, p, es);
    HonestJoin(C, s, oldParameters, sk, p.index, ps, nonces, es, draws);
  }

  // ---------- A resharer that deviates ----------

  /**
   `new` compares no resharer's first point with its old public share. If all but one deal their value
   of the old polynomial, the value at zero is kept exactly when that one deals its own value too.
   */
  lemma ConstantKeptExactly<S(!new)>(F: Field<S>, y: map<nat, S>, P: seq<S>, l: nat)
    requires F.Valid() && Indices(y.Keys) && 0 !in y && l in y && |P| <= |y.Keys|
    requires forall j :: j in y && j != l ==> y[j] == Eval(F, P, F.From(j))
    ensures Interpolate(F, y) == Eval(F, P, F.zero) <==> y[l] == Eval(F, P, F.From(l))
  {
    var X := y.Keys;
    var honest := map j | j in X :: Eval(F, P, F.From(j));
    LagrangeAtZero(F, P, honest, X);
    WeightedSumRemove(F, y, X, X, l);
    WeightedSumRemove(F, honest, X, X, l);
    WeightedSumCongruent(F, y, honest, X, X - {l});
    F.AddCancel(F.Mul(y[l], Lambda(F, l, X)), F.Mul(honest[l], Lambda(F, l, X)), WeightedSum(F, y, X, X - {l}));
    LambdaNonZero(F, l, X);
    F.MulCancel(y[l], honest[l], Lambda(F, l, X));
  }

  /** The joint polynomial at zero interpolates the constant terms. */
  lemma JointConstant<S(!new)>(F: Field<S>, polys: map<u32, seq<S>>, y: map<nat, S>)
    requires F.Valid() && y.Keys == polys.Keys && forall j :: j in polys ==> polys[j] != [] && y[j] == polys[j][0]
    ensures Eval(F, JointPolynomial(F, polys), F.zero) == Interpolate(F, y)
  {
    var ps: map<nat, seq<S>> := map j: nat | j in polys :: polys[j];
    forall j | j in y
      ensures y[j] == Eval(F, ps[j], F.zero)
    {
      EvalAtZero(F, ps[j]);
    }
    CombineEval(F, ps, y.Keys, y.Keys, F.zero, y);
  }

  lemma JointConstantKept<S(!new)>(F: Field<S>, polys: map<u32, seq<S>>, P: seq<S>, l: u32)
    requires F.Valid() && 0 !in polys && l in polys && |P| <= |polys.Keys|
    requires forall j :: j in polys ==> polys[j] != [] && (j != l ==> polys[j][0] == Eval(F, P, F.From(j)))
    ensures Eval(F, JointPolynomial(F, polys), F.zero) == Eval(F, P, F.zero) <==> polys[l][0] == Eval(F, P, F.From(l))
  {
    var y: map<nat, S> := map j: nat | j in polys :: polys[j][0];
    assert y.Keys == polys.Keys;
    JointConstant(F, polys, y);
    ConstantKeptExactly(F, y, P, l);
  }

  lemma GroupKeyKeptExactly<S(!new)>(C: CipherSuite<S>, st: State<S>, P: seq<S>, l: u32)
    requires C.F.Valid() && st.theirCommitments.Some? && 0 !in st.theirCommitments.value
    requires AllHavePoints(st.theirCommitments.value) && l in st.theirCommitments.value
    requires |P| <= |st.theirCommitments.value.Keys|
    requires forall j :: j in st.theirCommitments.value && j != l ==>
               st.theirCommitments.value[j].points[0] == C.Base(Eval(C.F, P, C.F.From(j)))
    ensures GroupKeyOf(C, st) == Ok(C.Base(Eval(C.F, P, C.F.zero)))
       <==> st.theirCommitments.value[l].points[0] == C.Base(Eval(C.F, P, C.F.From(l)))
  {
    var y := ConstantTerms(st.theirCommitments.value);
    assert y.Keys == st.theirCommitments.value.Keys;
    ConstantKeptExactly(C.F, y, P, l);
  }

  /**
   The whole run: whatever polynomials the resharers use, nobody is excluded and every new member
   finishes; with all but resharer l dealing their old values, the group key they finish with is the
   old one if and only if l deals its old value as well.
   */
  lemma DeviatingResharer<S(!new)>(C: CipherSuite<S>, s: Secrets<S>, parameters: Parameters, P: seq<S>, l: u32, sk: S,
                                   index: u32, ps: seq<Participant<S>>, nonces: u32 -> Bytes, es: seq<EncryptedShare>,
                                   draws: seq<S>)
    requires C.Valid() && parameters.Valid() && |ps| == parameters.n && |es| <= |draws|
    requires HonestPackets(C, s, ps) && HonestShares(C, s, index, C.Base(sk), es)
    requires l in s.polys && |P| <= |s.polys.Keys|
    requires forall j :: j in s.polys && j != l ==> s.polys[j][0] == Eval(C.F, P, C.F.From(j))
    ensures JoinsWith(C, parameters, sk, index, ps, nonces, es, draws, JointKeys(C, s, index))
    ensures JointKeys(C, s, index).0 == C.Base(Eval(C.F, P, C.F.zero)) <==> s.polys[l][0] == Eval(C.F, P, C.F.From(l))
  {
    HonestJoin(C, s, parameters, sk, index, ps, nonces, es, draws);
    JointConstantKept(C.F, s.polys, P, l);
  }

  /**
   Nor does `new` check how many coefficients a resharer deals. With all but resharer l dealing at most
   t', every new member finishes, on a joint polynomial that has no power from x^t' on if and only if
   that of l has none. If l deals one coefficient more, t' of the new keys give the group's secret only
   if that coefficient is zero.
   */
  lemma LengtheningResharer<S(!new)>(C: CipherSuite<S>, s: Secrets<S>, parameters: Parameters, t: nat, l: u32, sk: S,
                                     index: u32, ps: seq<Participant<S>>, nonces: u32 -> Bytes,
                                     es: seq<EncryptedShare>, draws: seq<S>, keys: map<nat, S>)
    requires C.Valid() && parameters.Valid() && |ps| == parameters.n && |es| <= |draws|
    requires HonestPackets(C, s, ps) && HonestShares(C, s, index, C.Base(sk), es)
    requires l in s.polys && forall j :: j in s.polys && j != l ==> |s.polys[j]| <= t
    requires |keys.Keys| == t && Indices(keys.Keys) && 0 !in keys
    requires forall k: u32 :: k in keys ==> keys[k] == JointKeys(C, s, k).1.key
    ensures JoinsWith(C, parameters, sk, index, ps, nonces, es, draws, JointKeys(C, s, index))
    ensures DegreeBelow(C.F, JointPolynomial(C.F, s.polys), t) <==> DegreeBelow(C.F, s.polys[l], t)
    ensures |s.polys[l]| <= t + 1 ==>
              (C.Base(Interpolate(C.F, keys)) == JointKeys(C, s, index).0
               <==> CoefficientAt(C.F, s.polys[l], t) == C.F.zero)
  {
    HonestJoin(C, s, parameters, sk, index, ps, nonces, es, draws);
    JointDegreeExactly(C.F, s.polys, t, l);
    if |s.polys[l]| <= t + 1 {
      JointPolynomialLength(C.F, s.polys, t + 1);
      ValuesTellExactly(C.F, JointPolynomial(C.F, s.polys), keys, t);
    }
  }

  lemma JointDegreeExactly<S(!new)>(F: Field<S>, polys: map<u32, seq<S>>, t: nat, l: u32)
    requires F.Valid() && 0 !in polys && l in polys
    requires forall j :: j in polys && j != l ==> |polys[j]| <= t
    ensures DegreeBelow(F, JointPolynomial(F, polys), t) <==> DegreeBelow(F, polys[l], t)
    ensures CoefficientAt(F, JointPolynomial(F, polys), t) == F.zero <==> CoefficientAt(F, polys[l], t) == F.zero
  {
    var dealt: map<nat, seq<S>> := map j: nat | j in polys :: polys[j];
    assert dealt.Keys == polys.Keys;
    CombineDegreeExactly(F, dealt, polys.Keys, t, l);
    CombineTopExactly(F, dealt, polys.Keys, t, l);
  }
}
