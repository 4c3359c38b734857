/**
 The key generation session of one participant, run in place. Every method is proved against the
 function of the same name in `KeyGeneration`, on the value its fields spell.
 */
module DkgSessions {
  import opened Wrappers
  import opened Fields
  import opened Polynomials
  import opened Orderings
  import opened Lagrange
  import opened CipherSuites
  import opened SecretShares
  import opened KnowledgeProofs
  import opened Complaints
  import opened Participants
  import opened Keys
  import KG = KeyGeneration
  import opened RoundOneFacts
  import HonestSessions
  import Robust = RobustKeyGeneration

  class DkgSession<S(==, !new)> {
    var parameters: Parameters
    var index: u32
    var dhPrivateKey: S
    var dhPublicKey: Point<S>
    var theirCommitments: Option<map<u32, VssCommitment<S>>>
    var theirDhPublicKeys: map<u32, Point<S>>
    var theirEncryptedShares: Option<map<u32, EncryptedShare>>
    var mySecretShares: Option<map<u32, SecretShare<S>>>

    ghost function View(): KG.State<S>
      reads this
    {
      KG.State(parameters, index, dhPrivateKey, dhPublicKey, theirCommitments, theirDhPublicKeys,
               theirEncryptedShares, mySecretShares)
    }

    constructor (parameters: Parameters, index: u32, dhPrivateKey: S, dhPublicKey: Point<S>,
                 theirCommitments: Option<map<u32, VssCommitment<S>>>, theirDhPublicKeys: map<u32, Point<S>>,
                 theirEncryptedShares: Option<map<u32, EncryptedShare>>)
      ensures View() == KG.State(parameters, index, dhPrivateKey, dhPublicKey, theirCommitments, theirDhPublicKeys,
                                 theirEncryptedShares, None)
    {
      this.parameters := parameters;
      this.index := index;
      this.dhPrivateKey := dhPrivateKey;
      this.dhPublicKey := dhPublicKey;
      this.theirCommitments := theirCommitments;
      this.theirDhPublicKeys := theirDhPublicKeys;
      this.theirEncryptedShares := theirEncryptedShares;
      this.mySecretShares := None;
    }

    // ---------- Round one ----------

    static method NewState(C: CipherSuite<S>, parameters: Parameters, dhPrivateKey: S, myIndex: u32,
                           myCoefficients: seq<S>, participants: seq<Participant<S>>,
                           fromDealer: bool, fromSigner: bool, nonces: u32 -> Bytes)
      returns (r: Result<(DkgSession<S>, KG.ParticipantList<S>), Error<S>>)
      requires C.F.Valid() && parameters.Valid()
      ensures match KG.RoundOne(C, parameters, dhPrivateKey, myIndex, myCoefficients, participants,
                                fromDealer, fromSigner, nonces)
              case Err(error) => r == Err(error)
              case Ok((st, list)) => r.Ok? && fresh(r.value.0) && r.value.0.View() == st && r.value.1 == list
    {
      if |participants| != parameters.n {
        return Err(InvalidNumberOfParticipants(|participants|, parameters.n));
      }
      var checked := CheckAll(C, parameters, participants, fromDealer, fromSigner);
      if checked.Err? {
        return Err(checked.error);
      }
      var valid, misbehaving := checked.value.valid, checked.value.misbehaving;
      RoundOnePartition(C, parameters, participants, fromDealer, fromSigner);
      if |valid| < parameters.t {
        return Err(TooManyInvalidParticipants(misbehaving));
      }
      var encrypted := EncryptIf(fromDealer, C, dhPrivateKey, myIndex, myCoefficients, participants, nonces);
      var reduced := NewParameters<S>(parameters.n - |misbehaving|, parameters.t);
      var session := new DkgSession(
        reduced.value, myIndex, dhPrivateKey, C.Base(dhPrivateKey),
        if fromSigner then Some(checked.value.commitments) else None, checked.value.dhPublicKeys, encrypted);
      r := Ok((session, KG.ParticipantList(valid, misbehaving)));
    }

    /** `bootstrap`: round one of a first session, as dealer and signer at once. */
    static method Bootstrap(C: CipherSuite<S>, parameters: Parameters, dhPrivateKey: S, myIndex: u32,
                            myCoefficients: seq<S>, participants: seq<Participant<S>>, nonces: u32 -> Bytes)
      returns (r: Result<(DkgSession<S>, KG.ParticipantList<S>), Error<S>>)
      requires C.F.Valid() && parameters.Valid()
      ensures match KG.RoundOne(C, parameters, dhPrivateKey, myIndex, myCoefficients, participants, true, true, nonces)
              case Err(error) => r == Err(error)
              case Ok((st, list)) => r.Ok? && fresh(r.value.0) && r.value.0.View() == st && r.value.1 == list
    {
      r := NewState(C, parameters, dhPrivateKey, myIndex, myCoefficients, participants, true, true, nonces);
    }

    /** `new`: round one of a resharing, for a signer that is not a dealer. */
    static method New(C: CipherSuite<S>, parameters: Parameters, dhPrivateKey: S, myIndex: u32,
                      dealers: seq<Participant<S>>, nonces: u32 -> Bytes)
      returns (r: Result<(DkgSession<S>, KG.ParticipantList<S>), Error<S>>)
      requires C.F.Valid() && parameters.Valid()
      ensures match KG.RoundOne(C, parameters, dhPrivateKey, myIndex, [], dealers, false, true, nonces)
              case Err(error) => r == Err(error)
              case Ok((st, list)) => r.Ok? && fresh(r.value.0) && r.value.0.View() == st && r.value.1 == list
    {
      r := NewState(C, parameters, dhPrivateKey, myIndex, [], dealers, false, true, nonces);
    }

    // ---------- Round two ----------

    method ToRoundTwo(C: CipherSuite<S>, es: seq<EncryptedShare>, draws: seq<S>)
      returns (r: Result<seq<Complaint<S>>, Error<S>>)
      requires C.F.Valid() && |es| <= |draws|
      modifies this
      ensures match KG.ToRoundTwo(C, old(View()), es, draws)
              case Err(error) => r == Err(error)
              case Ok((st, complaints)) => r == Ok(complaints) && View() == st
      ensures r.Ok? && parameters.Valid() ==> theirCommitments.Some? && mySecretShares.Some?
    {
      ghost var start := View();
      theirEncryptedShares := None;
      if |es| < parameters.t {
        return Err(MissingShares);
      }
      var collected := CollectShares(C, es, draws);
      CollectIgnores(C, start, es, draws);
      if collected.Err? {
        return Err(collected.error);
      }
      var complaints := collected.value.complaints;
      if |complaints| > parameters.n {
        return Err(Panicked);
      }
      if parameters.n - |complaints| < parameters.t {
        return Err(TooManyComplaints(complaints));
      }
      mySecretShares := Some(collected.value.shares);
      r := Ok(complaints);
    }

    /** The loop of round two over the shares received. */
    method CollectShares(C: CipherSuite<S>, es: seq<EncryptedShare>, draws: seq<S>)
      returns (r: Result<KG.Collected<S>, Error<S>>)
      requires C.F.Valid() && |es| <= |draws|
      ensures r == KG.Collect(C, View(), es, draws)
    {
      ghost var st := View();
      var got: KG.Collected<S> := KG.Collected(map[], []);
      for k := 0 to |es|
        invariant KG.Collect(C, st, es[..k], draws) == Ok(got)
      {
        CollectNext(C, st, es, draws, k);
        var next := Receive(C, got, es[k], draws[k]);
        if next.Err? {
          CollectStuck(C, st, es, draws, k + 1);
          return Err(next.error);
        }
        got := next.value;
      }
      assert es[..|es|] == es;
      r := Ok(got);
    }

    /** The turn of one share in the loop of round two. */
    method Receive(C: CipherSuite<S>, got: KG.Collected<S>, e: EncryptedShare, draw: S)
      returns (r: Result<KG.Collected<S>, Error<S>>)
      requires C.F.Valid()
      ensures r == KG.Receive(C, View(), got, e, draw)
    {
      if e.sender !in theirDhPublicKeys {
        return Err(InvalidShareIndices);
      }
      if theirCommitments.None? {
        return Err(Panicked);
      }
      var key := theirDhPublicKeys[e.sender];
      var dhSharedKey := C.GMul(key, dhPrivateKey);
      var share := DecryptShare(C, e, dhSharedKey);
      var complaints := got.complaints;
      if e.sender in theirCommitments.value {
        var incorrect := share.None?;
        if share.Some? {
          var ok := VerifyShare(C, share.value, theirCommitments.value[e.sender]);
          incorrect := !ok;
        }
        if incorrect {
          complaints := complaints + [NewComplaint(C, key, dhPrivateKey, dhSharedKey, e, draw)];
        }
      }
      r := Ok(KG.Collected(if share.Some? then got.shares[share.value.sender := share.value] else got.shares,
                           complaints));
    }

    // ---------- Complaints ----------

    method Blame(C: CipherSuite<S>, complaints: seq<Complaint<S>>) returns (keys: seq<Point<S>>)
      requires C.F.Valid() && theirCommitments.Some? && mySecretShares.Some?
      modifies this
      ensures View() == KG.Blame(C, old(View()), complaints)
      ensures keys == KG.KeysOf(old(theirDhPublicKeys), KG.BlamedList(C, old(View()), complaints))
    {
      var pending := Settlements(C, complaints);
      pending := Dedup(SortUnstable(pending));
      KG.BlamedListMembers(C, View(), complaints);
      Remove(pending);
      keys := KnownKeys(theirDhPublicKeys, pending);
    }

    /** What every complaint counts against, in order. */
    method Settlements(C: CipherSuite<S>, complaints: seq<Complaint<S>>) returns (pending: seq<u32>)
      requires C.F.Valid() && theirCommitments.Some?
      ensures pending == KG.Verdicts(C, View(), complaints)
    {
      pending := [];
      for k := 0 to |complaints|
        invariant pending == KG.Verdicts(C, View(), complaints)[..k]
      {
        var target := Settle(C, complaints[k]);
        pending := pending + [target];
      }
    }

    /** Removes the indices from both maps. */
    method Remove(pending: seq<u32>)
      requires theirCommitments.Some? && mySecretShares.Some?
      modifies this
      ensures View() == old(View().(theirCommitments := Some(theirCommitments.value - ToSet(pending)),
                                    mySecretShares := Some(mySecretShares.value - ToSet(pending))))
    {
      ghost var commitments, shares := theirCommitments.value, mySecretShares.value;
      ghost var start := View();
      for k := 0 to |pending|
        invariant theirCommitments.Some? && theirCommitments.value == commitments - ToSet(pending[..k])
        invariant mySecretShares.Some? && mySecretShares.value == shares - ToSet(pending[..k])
        invariant View() == start.(theirCommitments := theirCommitments, mySecretShares := mySecretShares)
      {
        ToSetPrefix(pending, k);
        theirCommitments := Some(theirCommitments.value - {pending[k]});
        mySecretShares := Some(mySecretShares.value - {pending[k]});
      }
      assert pending[..|pending|] == pending;
    }

    /** The branch of `blame` that one complaint takes. */
    method Settle(C: CipherSuite<S>, complaint: Complaint<S>) returns (target: u32)
      requires C.F.Valid() && theirCommitments.Some?
      ensures target == KG.Verdict(C, View(), complaint)
      ensures var e := complaint.encryptedShare;
              target == if && Robust.Substantiated(C, View(), complaint)
                           && Robust.Disclosed(C, complaint)
                              != Some(PowerSum(C.F, Dlogs(theirCommitments.value[e.sender].points),
                                               C.F.From(e.receiver)))
                        then e.sender else e.receiver
    {
      Robust.VerdictExactly(C, View(), complaint);
      var accused, maker := complaint.encryptedShare.sender, complaint.encryptedShare.receiver;
      if accused == 0 || accused > parameters.n {
        return maker;
      }
      if accused !in theirCommitments.value {
        return maker;
      }
      var key := C.Identity();
      if accused in theirDhPublicKeys {
        key := theirDhPublicKeys[accused];
      }
      if !ComplaintVerifies(C, complaint, key) {
        return maker;
      }
      var share := DecryptShare(C, complaint.encryptedShare, complaint.dhSharedKey);
      if share.None? {
        return accused;
      }
      var ok := VerifyShare(C, share.value, theirCommitments.value[accused]);
      target := if ok then maker else accused;
    }

    // ---------- Keys ----------

    method Finish(C: CipherSuite<S>) returns (r: Result<(Point<S>, IndividualSigningKey<S>), Error<S>>)
      requires C.F.Valid()
      ensures r == KG.Finish(C, View())
      ensures r == Err(InvalidGroupKey)
         <==> mySecretShares.Some? && 0 !in mySecretShares.value && theirCommitments.None?
      ensures r == Err(Interpolation(LagrangeError.IndexIsZero))
         <==> mySecretShares.Some?
              && (0 in mySecretShares.value || (theirCommitments.Some? && 0 in theirCommitments.value))
      ensures r == Err(Panicked)
         <==> || mySecretShares.None?
              || (&& 0 !in mySecretShares.value && theirCommitments.Some? && 0 !in theirCommitments.value
                  && exists l :: l in theirCommitments.value && theirCommitments.value[l].points == [])
    {
      var secretKey := CalculateSigningKey(C);
      if secretKey.Err? {
        return Err(secretKey.error);
      }
      var groupKey := CalculateGroupKey(C);
      if groupKey.Err? {
        return Err(groupKey.error);
      }
      r := Ok((groupKey.value, secretKey.value));
    }

    method CalculateSigningKey(C: CipherSuite<S>) returns (r: Result<IndividualSigningKey<S>, Error<S>>)
      requires C.F.Valid()
      ensures r == KG.SigningKeyOf(C, View())
    {
      if mySecretShares.None? {
        return Err(Panicked);
      }
      var shares := mySecretShares.value;
      var indexVector := AscendingKeys(shares);
      IncreasingDistinct(indexVector);
      var key := C.F.zero;
      ghost var y := KG.Evaluations(shares);
      ghost var X: set<nat> := shares.Keys;
      for k := 0 to |indexVector|
        invariant ToSet(indexVector[..k]) <= y.Keys
        invariant key == WeightedSum(C.F, y, X, ToSet(indexVector[..k]))
        invariant k > 0 ==> 0 !in shares
      {
        var i := indexVector[k];
        var coeff := CalculateLagrangeCoefficients(C.F, i, indexVector);
        if coeff.Err? {
          return Err(Interpolation(coeff.error));
        }
        ToSetPrefix(indexVector, k);
        WeightedSumExtend(C.F, y, X, ToSet(indexVector[..k]), i);
        key := C.F.Add(key, C.F.Mul(shares[i].evaluation, coeff.value));
      }
      assert indexVector[..|indexVector|] == indexVector;
      assert y.Keys == X;
      if indexVector == [] {
        assert forall l :: l in shares ==> l in ToSet(indexVector);
      }
      r := Ok(IndividualSigningKey(index, key));
    }

    method CalculateGroupKey(C: CipherSuite<S>) returns (r: Result<Point<S>, Error<S>>)
      requires C.F.Valid()
      ensures r == KG.GroupKeyOf(C, View())
    {
      if theirCommitments.None? {
        return Err(InvalidGroupKey);
      }
      var commitments := theirCommitments.value;
      var indexVector := AscendingKeys(commitments);
      IncreasingDistinct(indexVector);
      var groupKey := C.Identity();
      ghost var y := KG.FirstPoints(C.F, commitments);
      ghost var X: set<nat> := commitments.Keys;
      for k := 0 to |indexVector|
        invariant ToSet(indexVector[..k]) <= y.Keys
        invariant groupKey.dlog == WeightedSum(C.F, y, X, ToSet(indexVector[..k]))
        invariant k > 0 ==> 0 !in commitments
        invariant forall j :: 0 <= j < k ==> commitments[indexVector[j]].points != []
      {
        var i := indexVector[k];
        var coeff := CalculateLagrangeCoefficients(C.F, i, indexVector);
        if coeff.Err? {
          return Err(Interpolation(coeff.error));
        }
        var publicKey := commitments[i].PublicKey();
        if publicKey.None? {
          return Err(Panicked);
        }
        ToSetPrefix(indexVector, k);
        WeightedSumExtend(C.F, y, X, ToSet(indexVector[..k]), i);
        groupKey := C.GAdd(groupKey, C.GMul(publicKey.value, coeff.value));
      }
      assert indexVector[..|indexVector|] == indexVector;
      assert KG.AllHavePoints(commitments);
      FirstPointsAreConstantTerms(C.F, commitments);
      r := Ok(groupKey);
    }
  }

  lemma FirstPointsAreConstantTerms<S(!new)>(F: Field<S>, commitments: map<u32, VssCommitment<S>>)
    requires KG.AllHavePoints(commitments)
    ensures KG.FirstPoints(F, commitments) == KG.ConstantTerms(commitments)
    ensures KG.FirstPoints(F, commitments).Keys == commitments.Keys
  {
  }

  /** An old member shares its key anew: a dealer for the signers of a new session. */
  method Reshare<S(==, !new)>(C: CipherSuite<S>, parameters: Parameters, secretKey: IndividualSigningKey<S>,
                              signers: seq<Participant<S>>, d: Draws<S>, nonces: u32 -> Bytes)
    returns (r: Result<(Participant<S>, map<u32, EncryptedShare>, KG.ParticipantList<S>), Error<S>>)
    requires C.F.Valid() && parameters.Valid() && |d.coefficients| == parameters.t
    ensures r == HonestSessions.Reshare(C, parameters, secretKey, signers, d, nonces)
  {
    var created := NewInternal(C, parameters, false, secretKey.index, Some(secretKey.key), d);
    if created.Err? {
      return Err(created.error);
    }
    var dealer, coefficients := created.value.participant, created.value.coefficients.value;
    var started := DkgSession<S>.NewState(C, parameters, created.value.dhPrivateKey, secretKey.index, coefficients,
                                          signers, true, false, nonces);
    if started.Err? {
      return Err(started.error);
    }
    var (session, lists) := started.value;
    if session.theirEncryptedShares.None? {
      return Err(NoEncryptedShares);
    }
    r := Ok((dealer, session.theirEncryptedShares.value, lists));
  }

  method KnownKeys<S>(keys: map<u32, Point<S>>, indices: seq<u32>) returns (known: seq<Point<S>>)
    ensures known == KG.KeysOf(keys, indices)
  {
    known := [];
    for k := 0 to |indices|
      invariant known == KG.KeysOf(keys, indices[..k])
    {
      assert indices[..k + 1][..k] == indices[..k];
      if indices[k] in keys {
        known := known + [keys[indices[k]]];
      }
    }
    assert indices[..|indices|] == indices;
  }

  datatype Checked<S> = Checked(
    valid: seq<Participant<S>>,
    misbehaving: seq<u32>,
    commitments: map<u32, VssCommitment<S>>,
    dhPublicKeys: map<u32, Point<S>>)

  method CheckOne<S(==, !new)>(C: CipherSuite<S>, parameters: Parameters, p: Participant<S>,
                               fromDealer: bool, fromSigner: bool)
    returns (check: KG.Check)
    ensures check == KG.CheckParticipant(C, parameters, p, fromDealer, fromSigner)
    ensures C.F.Valid() ==> (check.Accept? <==> Qualifies(C, parameters, p, fromDealer, fromSigner))
    ensures check.Accept? && fromSigner ==> p.commitments.Some?
  {
    if C.F.Valid() {
      AcceptsExactly(C, parameters, p, fromDealer, fromSigner);
    }
    if !Verifies(C, p.proofOfDhPrivateKey, p.index, p.dhPublicKey) {
      return KG.Reject;
    }
    if fromSigner {
      var publicKey := p.PublicKey();
      if publicKey.None? {
        return KG.Reject;
      }
      if p.proofOfSecretKey.None? {
        return KG.Panics;
      }
      if !Verifies(C, p.proofOfSecretKey.value, p.index, publicKey.value) {
        return KG.Reject;
      }
      if fromDealer && |p.commitments.value.points| != parameters.t {
        return KG.Reject;
      }
    }
    check := KG.Accept;
  }

  /** What the first loop has gathered after the participants ps. */
  ghost function CheckedOf<S(!new)>(C: CipherSuite<S>, parameters: Parameters, ps: seq<Participant<S>>,
                                    fromDealer: bool, fromSigner: bool): Checked<S>
  {
    var valid := KG.Valid(C, parameters, ps, fromDealer, fromSigner);
    Checked(valid, KG.Misbehaving(C, parameters, ps, fromDealer, fromSigner),
            if fromSigner then KG.CommitmentsOf(valid) else map[], KG.DhKeysOf(valid))
  }

  lemma CheckedStep<S(!new)>(C: CipherSuite<S>, parameters: Parameters, ps: seq<Participant<S>>, i: nat,
                             fromDealer: bool, fromSigner: bool)
    requires i < |ps|
    requires KG.CheckParticipant(C, parameters, ps[i], fromDealer, fromSigner).Accept?
    requires fromSigner ==> ps[i].commitments.Some?
    ensures var before, p := CheckedOf(C, parameters, ps[..i], fromDealer, fromSigner), ps[i];
            CheckedOf(C, parameters, ps[..i + 1], fromDealer, fromSigner)
            == Checked(before.valid + [p], before.misbehaving,
                       if fromSigner then before.commitments[p.index := p.commitments.value] else before.commitments,
                       before.dhPublicKeys[p.index := p.dhPublicKey])
  {
    PrefixStep(C, parameters, ps, i, fromDealer, fromSigner);
    var valid := KG.Valid(C, parameters, ps[..i], fromDealer, fromSigner);
    assert (valid + [ps[i]])[..|valid|] == valid;
  }

  /** The first loop of round one: the checks on every participant in turn. */
  method CheckAll<S(==, !new)>(C: CipherSuite<S>, parameters: Parameters, ps: seq<Participant<S>>,
                               fromDealer: bool, fromSigner: bool)
    returns (r: Result<Checked<S>, Error<S>>)
    ensures r == if KG.SomePanics(C, parameters, ps, fromDealer, fromSigner) then Err(Panicked)
                 else Ok(CheckedOf(C, parameters, ps, fromDealer, fromSigner))
  {
    var checked: Checked<S> := Checked([], [], map[], map[]);
    for i := 0 to |ps|
      invariant !KG.SomePanics(C, parameters, ps[..i], fromDealer, fromSigner)
      invariant checked == CheckedOf(C, parameters, ps[..i], fromDealer, fromSigner)
    {
      var p := ps[i];
      var check := CheckOne(C, parameters, p, fromDealer, fromSigner);
      PrefixStep(C, parameters, ps, i, fromDealer, fromSigner);
      if check.Panics? {
        PanicsStuck(C, parameters, ps, fromDealer, fromSigner, i + 1);
        return Err(Panicked);
      }
      if check.Accept? {
        CheckedStep(C, parameters, ps, i, fromDealer, fromSigner);
        checked := Checked(
          checked.valid + [p],
          checked.misbehaving,
          if fromSigner then checked.commitments[p.index := p.commitments.value] else checked.commitments,
          checked.dhPublicKeys[p.index := p.dhPublicKey]);
      } else {
        checked := checked.(misbehaving := checked.misbehaving + [p.index]);
      }
    }
    assert ps[..|ps|] == ps;
    r := Ok(checked);
  }

  lemma {:induction false} PanicsStuck<S(!new)>(C: CipherSuite<S>, parameters: Parameters, ps: seq<Participant<S>>,
                                                fromDealer: bool, fromSigner: bool, k: nat)
    requires k <= |ps| && KG.SomePanics(C, parameters, ps[..k], fromDealer, fromSigner)
    ensures KG.SomePanics(C, parameters, ps, fromDealer, fromSigner)
    decreases |ps|
  {
    if k == |ps| {
      assert ps[..k] == ps;
    } else {
      var n := |ps| - 1;
      assert ps[..n][..k] == ps[..k];
      PanicsStuck(C, parameters, ps[..n], fromDealer, fromSigner, k);
    }
  }

  /** The second loop of round one: one encrypted share for each participant. */
  method EncryptAll<S(==, !new)>(C: CipherSuite<S>, dhPrivateKey: S, myIndex: u32, myCoefficients: seq<S>,
                                 ps: seq<Participant<S>>, nonces: u32 -> Bytes)
    returns (shares: map<u32, EncryptedShare>)
    requires C.F.Valid()
    ensures shares == KG.EncryptedFor(C, myIndex, myCoefficients, dhPrivateKey, ps, nonces)
  {
    shares := map[];
    for i := 0 to |ps|
      invariant shares == KG.EncryptedFor(C, myIndex, myCoefficients, dhPrivateKey, ps[..i], nonces)
    {
      var p := ps[i];
      assert ps[..i + 1][..i] == ps[..i];
      var share := EvaluatePolynomial(C.F, myIndex, p.index, myCoefficients);
      var dhKey := C.GMul(p.dhPublicKey, dhPrivateKey);
      shares := shares[p.index := EncryptShare(C, share, dhKey, KG.NonceFor(nonces, p.index))];
    }
    assert ps[..|ps|] == ps;
  }

  /** The shares are made in the modes of a dealer. */
  method EncryptIf<S(==, !new)>(fromDealer: bool, C: CipherSuite<S>, dhPrivateKey: S, myIndex: u32,
                                myCoefficients: seq<S>, ps: seq<Participant<S>>, nonces: u32 -> Bytes)
    returns (encrypted: Option<map<u32, EncryptedShare>>)
    requires C.F.Valid()
    ensures encrypted == if fromDealer then Some(KG.EncryptedFor(C, myIndex, myCoefficients, dhPrivateKey, ps, nonces))
                         else None
  {
    if !fromDealer {
      return None;
    }
    var shares := EncryptAll(C, dhPrivateKey, myIndex, myCoefficients, ps, nonces);
    encrypted := Some(shares);
  }

  lemma CollectNext<S(!new)>(C: CipherSuite<S>, st: KG.State<S>, es: seq<EncryptedShare>, draws: seq<S>, k: nat)
    requires k < |es| <= |draws| && KG.Collect(C, st, es[..k], draws).Ok?
    ensures KG.Collect(C, st, es[..k + 1], draws)
         == KG.Receive(C, st, KG.Collect(C, st, es[..k], draws).value, es[k], draws[k])
  {
    assert es[..k + 1][..k] == es[..k];
  }

  /** The participant's own shares for the others play no part. */
  lemma {:induction false} CollectIgnores<S(!new)>(C: CipherSuite<S>, st: KG.State<S>, es: seq<EncryptedShare>,
                                                   draws: seq<S>)
    requires |es| <= |draws|
    ensures KG.Collect(C, st.(theirEncryptedShares := None), es, draws) == KG.Collect(C, st, es, draws)
    decreases |es|
  {
    if es != [] {
      CollectIgnores(C, st, es[..|es| - 1], draws);
    }
  }

  /** Once a share fails, no later share changes the outcome. */
  lemma {:induction false} CollectStuck<S(!new)>(C: CipherSuite<S>, st: KG.State<S>, es: seq<EncryptedShare>,
                                                 draws: seq<S>, k: nat)
    requires |es| <= |draws| && k <= |es|
    requires KG.Collect(C, st, es[..k], draws).Err?
    ensures KG.Collect(C, st, es, draws) == KG.Collect(C, st, es[..k], draws)
    decreases |es|
  {
    if k == |es| {
      assert es[..k] == es;
    } else {
      var n := |es| - 1;
      assert es[..n][..k] == es[..k];
      CollectStuck(C, st, es[..n], draws, k);
    }
  }
}
