/**
 The actor that drives key generation over gossip: it starts round one when it holds a packet from
 every node, and round two when it holds a share from every node, counting itself.
 */
module DkgEngines {
  import opened Wrappers
  import opened Fields
  import opened CipherSuites
  import opened Participants
  import opened Keys
  import opened Precomputation
  import opened DkgSessions
  import KG = KeyGeneration

  /** A handler unwraps an error, or its assertion fails. */
  datatype Panic = Panic

  type ShareMap = map<u32, EncryptedShare>

  datatype Engine<S> = Engine(
    participant: Participant<S>,
    coefficients: seq<S>,
    threshold: u32,
    totalNodes: u32,
    otherParticipants: seq<Participant<S>>,
    dhPrivateKey: S,
    encryptedShares: seq<EncryptedShare>,
    states: seq<KG.State<S>>)

  /** The cast from a wider integer. */
  function AsU32(x: nat): u32 { x % U32_LIMIT }

  // ---------- The handlers, on values ----------

  /** `dkg_init`: the engine, and the packet it gossips. */
  ghost function Initialized<S(!new)>(C: CipherSuite<S>, idx: nat, peers: nat, threshold: nat, d: Draws<S>)
    : Result<(Engine<S>, Participant<S>), Panic>
    requires |d.coefficients| == AsU32(threshold)
  {
    var n, t := AsU32(peers), AsU32(threshold);
    if NewParameters<S>(n, t).Err? || AsU32(idx) == 0 then Err(Panic)
    else
      var p := DealerPacket(C, AsU32(idx), d.coefficients, d);
      Ok((Engine(p, d.coefficients, t, n, [p], d.dhPrivateKey, [], []), p))
  }

  /** The bootstrap over the packets collected, and the shares it deals. */
  ghost function Begun<S(!new)>(C: CipherSuite<S>, e: Engine<S>, ps: seq<Participant<S>>, nonces: u32 -> Bytes)
    : Result<(KG.State<S>, ShareMap), Panic>
  {
    if NewParameters<S>(e.totalNodes, e.threshold).Err? then Err(Panic)
    else
      match KG.RoundOne(C, Parameters(e.totalNodes, e.threshold), e.dhPrivateKey, e.participant.index, e.coefficients,
                        ps, true, true, nonces)
      case Err(_) => Err(Panic)
      case Ok((st, _)) => Ok((st, st.theirEncryptedShares.value))
  }

  /** `handle_init_round_output`: the engine after one more packet, and the shares it gossips, if any. */
  ghost function PacketHandled<S(!new)>(C: CipherSuite<S>, e: Engine<S>, p: Participant<S>, nonces: u32 -> Bytes)
    : Result<(Engine<S>, Option<ShareMap>), Panic>
  {
    var e' := e.(otherParticipants := e.otherParticipants + [p]);
    if AsU32(|e'.otherParticipants|) != e.totalNodes then Ok((e', None))
    else
      match Begun(C, e, e'.otherParticipants, nonces)
      case Err(_) => Err(Panic)
      case Ok((st, shares)) =>
        if e.participant.index !in shares then Err(Panic)
        else Ok((e'.(states := [st], encryptedShares := e.encryptedShares + [shares[e.participant.index]]),
                 Some(shares)))
  }

  /** Round two and the end of the session, which tolerate neither an error nor a complaint. */
  ghost function Closed<S(!new)>(C: CipherSuite<S>, st: KG.State<S>, es: seq<EncryptedShare>, draws: seq<S>)
    : Result<(Point<S>, IndividualSigningKey<S>), Panic>
    requires |es| <= |draws|
  {
    match KG.ToRoundTwo(C, st, es, draws)
    case Err(_) => Err(Panic)
    case Ok((st', complaints)) =>
      if complaints != [] || KG.Finish(C, st').Err? then Err(Panic) else Ok(KG.Finish(C, st').value)
  }

  /** The engine with its own share out of the map, if there is one. */
  function Extended<S>(e: Engine<S>, shares: ShareMap): Engine<S>
  {
    if e.participant.index in shares
    then e.(encryptedShares := e.encryptedShares + [shares[e.participant.index]])
    else e
  }

  /** The last state is taken off the list and closed. */
  ghost function LastClosed<S(!new)>(C: CipherSuite<S>, e: Engine<S>, draws: seq<S>)
    : Result<(Engine<S>, (Point<S>, IndividualSigningKey<S>)), Panic>
    requires |draws| >= |e.encryptedShares|
  {
    if e.states == [] then Err(Panic)
    else
      var k := |e.states| - 1;
      match Closed(C, e.states[k], e.encryptedShares, draws)
      case Err(_) => Err(Panic)
      case Ok(keys) => Ok((e.(states := e.states[..k]), keys))
  }

  /** `store_shares`: the engine after one more share map, and the keys it finishes with, if it does. */
  ghost function SharesHandled<S(!new)>(C: CipherSuite<S>, e: Engine<S>, shares: ShareMap, draws: seq<S>)
    : Result<(Engine<S>, Option<(Point<S>, IndividualSigningKey<S>)>), Panic>
    requires |draws| > |e.encryptedShares|
  {
    var e' := Extended(e, shares);
    if AsU32(|e'.encryptedShares|) != e.totalNodes then Ok((e', None))
    else
      match LastClosed(C, e', draws)
      case Err(_) => Err(Panic)
      case Ok((e'', keys)) => Ok((e'', Some(keys)))
  }

  /**
   What a finished node sends: to its own application the group key, its signing key and one pair of
   nonces, and to everybody the published nonces, its verifying key and the group key.
   */
  datatype Announced<S> = Announced(
    index: u32,
    groupKey: Point<S>,
    signingKey: IndividualSigningKey<S>,
    secretShares: seq<CommitmentShare<S>>,
    publicShares: PublicCommitmentShareList<S>,
    verifyingKey: IndividualVerifyingKey<S>)

  function Announce<S(!new)>(C: CipherSuite<S>, index: u32, keys: (Point<S>, IndividualSigningKey<S>),
                             nonces: (S, S)): Announced<S>
  {
    var share := ShareFromNonces(C, nonces);
    Announced(index, keys.0, keys.1, [share], PublicCommitmentShareList(keys.1.index, [share.Publish()]),
              ToPublic(C, keys.1))
  }

  // ---------- The handlers, in place ----------

  class DkgEngineState<S(==, !new)> {
    var participant: Participant<S>
    var coefficients: seq<S>
    var threshold: u32
    var totalNodes: u32
    var otherParticipants: seq<Participant<S>>
    var dhPrivateKey: S
    var encryptedShares: seq<EncryptedShare>
    var myState: seq<DkgSession<S>>

    ghost function Views(): (states: seq<KG.State<S>>)
      reads this, myState
      ensures |states| == |myState|
      ensures forall i :: 0 <= i < |states| ==> states[i] == myState[i].View()
    {
      seq(|myState|, i requires 0 <= i < |myState| reads this, myState => myState[i].View())
    }

    ghost function View(): Engine<S>
      reads this, myState
    {
      Engine(participant, coefficients, threshold, totalNodes, otherParticipants, dhPrivateKey, encryptedShares,
             Views())
    }

    constructor (participant: Participant<S>, coefficients: seq<S>, threshold: u32, totalNodes: u32, dhPrivateKey: S)
      ensures myState == []
      ensures View() == Engine(participant, coefficients, threshold, totalNodes, [participant], dhPrivateKey, [], [])
    {
      this.participant := participant;
      this.coefficients := coefficients;
      this.threshold := threshold;
      this.totalNodes := totalNodes;
      this.otherParticipants := [participant];
      this.dhPrivateKey := dhPrivateKey;
      this.encryptedShares := [];
      this.myState := [];
    }

    static method DkgInit(C: CipherSuite<S>, idx: nat, peers: nat, threshold: nat, d: Draws<S>)
      returns (r: Result<DkgEngineState<S>, Panic>)
      requires |d.coefficients| == AsU32(threshold)
      ensures match Initialized(C, idx, peers, threshold, d)
              case Err(_) => r.Err?
              case Ok((engine, packet)) =>
                r.Ok? && fresh(r.value) && r.value.View() == engine && r.value.participant == packet
      ensures var n, t, i := peers % 0x1_0000_0000, threshold % 0x1_0000_0000, idx % 0x1_0000_0000;
              && (r.Ok? <==> 0 < t <= n && i != 0)
              && (r.Ok? ==> r.value.totalNodes == n && r.value.threshold == t && r.value.participant.index == i)
    {
      var params := NewParameters<S>(AsU32(peers), AsU32(threshold));
      if params.Err? {
        return Err(Panic);
      }
      var created := NewDealer(C, params.value, AsU32(idx), d);
      if created.Err? {
        return Err(Panic);
      }
      var state := new DkgEngineState(created.value.participant, created.value.coefficients.value,
                                      AsU32(threshold), AsU32(peers), created.value.dhPrivateKey);
      r := Ok(state);
    }

    method HandleInitRoundOutput(C: CipherSuite<S>, p: Participant<S>, nonces: u32 -> Bytes)
      returns (r: Result<Option<ShareMap>, Panic>)
      requires C.F.Valid()
      modifies this
      ensures match PacketHandled(C, old(View()), p, nonces)
              case Err(_) => r.Err?
              case Ok((engine, shares)) => r == Ok(shares) && View() == engine
      ensures forall s :: s in myState && s !in old(myState) ==> fresh(s)
    {
      otherParticipants := otherParticipants + [p];
      if AsU32(|otherParticipants|) != totalNodes {
        return Ok(None);
      }
      var begun := BeginSession(C, nonces);
      if begun.Err? {
        return Err(Panic);
      }
      var (session, shares) := begun.value;
      myState := [session];
      if participant.index !in shares {
        return Err(Panic);
      }
      encryptedShares := encryptedShares + [shares[participant.index]];
      r := Ok(Some(shares));
    }

    method BeginSession(C: CipherSuite<S>, nonces: u32 -> Bytes) returns (r: Result<(DkgSession<S>, ShareMap), Panic>)
      requires C.F.Valid()
      ensures match Begun(C, View(), otherParticipants, nonces)
              case Err(_) => r.Err?
              case Ok((st, shares)) => r.Ok? && fresh(r.value.0) && r.value.0.View() == st && r.value.1 == shares
    {
      var params := NewParameters<S>(totalNodes, threshold);
      if params.Err? {
        return Err(Panic);
      }
      var started := DkgSession<S>.Bootstrap(C, params.value, dhPrivateKey, participant.index, coefficients,
                                             otherParticipants, nonces);
      if started.Err? {
        return Err(Panic);
      }
      var session := started.value.0;
      r := Ok((session, session.theirEncryptedShares.value));
    }

    method StoreShares(C: CipherSuite<S>, shares: ShareMap, draws: seq<S>, nonces: (S, S))
      returns (r: Result<Option<Announced<S>>, Panic>)
      requires C.F.Valid() && |draws| > |encryptedShares|
      requires forall i, j :: 0 <= i < j < |myState| ==> myState[i] != myState[j]
      modifies this, myState
      ensures match SharesHandled(C, old(View()), shares, draws)
              case Err(_) => r.Err?
              case Ok((engine, keys)) =>
                && View() == engine
                && r == Ok(if keys.None? then None else Some(Announce(C, participant.index, keys.value, nonces)))
      ensures forall s :: s in myState ==> s in old(myState)
    {
      AddShare(shares);
      if AsU32(|encryptedShares|) != totalNodes {
        return Ok(None);
      }
      var closed := CloseLast(C, draws);
      if closed.Err? {
        return Err(Panic);
      }
      var announced := AnnounceKeys(C, participant.index, closed.value, nonces);
      r := Ok(Some(announced));
    }

    method AddShare(shares: ShareMap)
      modifies this`encryptedShares
      ensures View() == Extended(old(View()), shares)
    {
      ghost var states := Views();
      if participant.index in shares {
        encryptedShares := encryptedShares + [shares[participant.index]];
      }
      assert Views() == states;
    }

    method CloseLast(C: CipherSuite<S>, draws: seq<S>) returns (r: Result<(Point<S>, IndividualSigningKey<S>), Panic>)
      requires C.F.Valid() && |draws| >= |encryptedShares|
      requires forall i, j :: 0 <= i < j < |myState| ==> myState[i] != myState[j]
      modifies this`myState, myState
      ensures match LastClosed(C, old(View()), draws)
              case Err(_) => r.Err?
              case Ok((engine, keys)) => r == Ok(keys) && View() == engine
      ensures forall s :: s in myState ==> s in old(myState)
    {
      if myState == [] {
        return Err(Panic);
      }
      ghost var states := Views();
      var k := |myState| - 1;
      var session := myState[k];
      myState := myState[..k];
      r := Close(C, session, encryptedShares, draws);
      assert Views() == states[..k];
    }
  }

  method AnnounceKeys<S(==, !new)>(C: CipherSuite<S>, index: u32, keys: (Point<S>, IndividualSigningKey<S>),
                                   nonces: (S, S))
    returns (a: Announced<S>)
    ensures a == Announce(C, index, keys, nonces)
    ensures a.index == index && a.groupKey == keys.0 && a.signingKey == keys.1
    ensures a.verifyingKey == IndividualVerifyingKey(keys.1.index, C.Base(keys.1.key))
    ensures a.publicShares == PublicCommitmentShareList(keys.1.index, [(C.Base(nonces.0), C.Base(nonces.1))])
    ensures a.secretShares == [CommitmentShare(Commitment(nonces.0, C.Base(nonces.0)),
                                               Commitment(nonces.1, C.Base(nonces.1)))]
  {
    var public, secret := GenerateCommitmentShareLists(C, keys.1, [nonces]);
    assert secret.commitments == [ShareFromNonces(C, nonces)];
    assert public.commitments == [ShareFromNonces(C, nonces).Publish()];
    a := Announced(index, keys.0, keys.1, secret.commitments, public, ToPublic(C, keys.1));
  }

  method Close<S(==, !new)>(C: CipherSuite<S>, session: DkgSession<S>, es: seq<EncryptedShare>, draws: seq<S>)
    returns (r: Result<(Point<S>, IndividualSigningKey<S>), Panic>)
    requires C.F.Valid() && |es| <= |draws|
    modifies session
    ensures r == Closed(C, old(session.View()), es, draws)
  {
    var complaints := session.ToRoundTwo(C, es, draws);
    if complaints.Err? || complaints.value != [] {
      return Err(Panic);
    }
    var keys := session.Finish(C);
    r := if keys.Err? then Err(Panic) else Ok(keys.value);
  }
}
