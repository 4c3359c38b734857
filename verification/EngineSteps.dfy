/** One honest engine among n: what it keeps as packets and share maps arrive, in any order. */
module EngineSteps {
  import opened Wrappers
  import opened Fields
  import opened Orderings
  import opened CipherSuites
  import opened Participants
  import opened Keys
  import opened DkgEngines
  import opened RobustKeyGeneration
  import opened RoundOneFacts
  import KG = KeyGeneration

  type KeyPair<S> = (Point<S>, IndividualSigningKey<S>)

  /**
   What a session fixes for one node: its secrets, the packet of every node, the shares dealt to it
   and by it, the state its bootstrap reaches and the keys it finishes with.
   */
  datatype Role<S> = Role(
    index: u32,
    parameters: Parameters,
    coefficients: seq<S>,
    dhPrivateKey: S,
    packets: map<u32, Participant<S>>,
    dealt: ShareMap,
    outgoing: ShareMap,
    start: KG.State<S>,
    keys: KeyPair<S>)
  {
    ghost predicate Fits()
    {
      && index in packets && packets.Keys == dealt.Keys == outgoing.Keys && dealt[index] == outgoing[index]
      && 2 <= |packets.Keys| == parameters.n && parameters.Valid()
      && start.theirCommitments.Some?
      && (forall l :: l in packets ==> packets[l].index == l)
      && (forall l :: l in dealt ==> dealt[l].sender == l)
    }
  }

  // ---------- What an engine keeps ----------

  ghost predicate Configured<S(!new)>(role: Role<S>, e: Engine<S>)
    requires role.Fits()
  {
    && e.participant == role.packets[role.index]
    && e.coefficients == role.coefficients
    && e.dhPrivateKey == role.dhPrivateKey
    && Parameters(e.totalNodes, e.threshold) == role.parameters
  }

  /** The packets held are its own and those heard since it started, each once. */
  ghost predicate PacketsHeld<S(!new)>(role: Role<S>, ps: seq<Participant<S>>, heard: set<u32>)
  {
    && DistinctIndices(ps)
    && (forall k :: 0 <= k < |ps| ==> ps[k].index in role.packets && ps[k] == role.packets[ps[k].index])
    && role.index in IndexSet(ps)
    && IndexSet(ps) == heard + {role.index}
  }

  /** The shares held are those received since then, each once; whether its own is among them is left open. */
  ghost predicate SharesHeld<S(!new)>(role: Role<S>, es: seq<EncryptedShare>, got: set<u32>)
  {
    && DistinctSenders(es)
    && (forall k :: 0 <= k < |es| ==> es[k].sender in role.dealt && es[k] == role.dealt[es[k].sender])
    && Senders(es) + {role.index} == got + {role.index}
  }

  /** It holds all n packets: it has bootstrapped. */
  predicate HasBootstrapped<S>(e: Engine<S>)
  {
    |e.otherParticipants| == e.totalNodes
  }

  /** The state stored between the rounds. */
  ghost predicate Waiting<S(!new)>(role: Role<S>, states: seq<KG.State<S>>)
  {
    |states| == 1 && states[0] == role.start.(theirEncryptedShares := states[0].theirEncryptedShares)
  }

  /**
   It holds its own share exactly from the bootstrap on, waits in one state from the bootstrap to the
   finish, and has finished at most once, with all n shares and the keys of its role.
   */
  ghost predicate InPhase<S(!new)>(role: Role<S>, e: Engine<S>, finished: seq<KeyPair<S>>)
  {
    && |e.otherParticipants| <= e.totalNodes
    && (role.index in Senders(e.encryptedShares) <==> HasBootstrapped(e))
    && (finished == [] || (finished == [role.keys] && |e.encryptedShares| == e.totalNodes))
    && (if HasBootstrapped(e) && finished == [] then Waiting(role, e.states) else e.states == [])
  }

  ghost predicate EngineInv<S(!new)>(role: Role<S>, e: Engine<S>, heard: set<u32>, got: set<u32>,
                                     finished: seq<KeyPair<S>>)
  {
    && role.Fits()
    && Configured(role, e)
    && PacketsHeld(role, e.otherParticipants, heard)
    && SharesHeld(role, e.encryptedShares, got)
    && InPhase(role, e, finished)
  }

  lemma StartInv<S(!new)>(role: Role<S>, e: Engine<S>)
    requires role.Fits() && Configured(role, e)
    requires e.otherParticipants == [role.packets[role.index]] && e.encryptedShares == [] && e.states == []
    ensures EngineInv(role, e, {}, {}, [])
  {
  }

  // ---------- What a role promises ----------

  predicate Covers(shares: ShareMap, outgoing: ShareMap)
  {
    forall j :: j in outgoing ==> j in shares && shares[j] == outgoing[j]
  }

  // Each law is a predicate of its own, so that it is used only where a proof names it.

  /** A bootstrap on all n packets reaches the role's state and deals its shares. */
  ghost predicate StartLaw<S(!new)>(C: CipherSuite<S>, role: Role<S>, nonces: u32 -> Bytes, ps: seq<Participant<S>>,
                                    heard: set<u32>)
  {
    PacketsHeld(role, ps, heard) && |ps| == role.parameters.n ==>
      var r := KG.RoundOne(C, role.parameters, role.dhPrivateKey, role.index, role.coefficients, ps, true, true,
                           nonces);
      && r.Ok? && r.value.0.theirEncryptedShares.Some?
      && r.value.0 == role.start.(theirEncryptedShares := r.value.0.theirEncryptedShares)
      && Covers(r.value.0.theirEncryptedShares.value, role.outgoing)
  }

  /** Round two on all n shares ends, without complaints, in the role's keys. */
  ghost predicate CloseLaw<S(!new)>(C: CipherSuite<S>, role: Role<S>, states: seq<KG.State<S>>, es: seq<EncryptedShare>,
                                    got: set<u32>, draws: seq<S>)
  {
    Waiting(role, states) && SharesHeld(role, es, got) && |es| == role.parameters.n <= |draws| ==>
      && |states| == 1 && states[0].theirCommitments.Some?
      && Closed(C, states[0], es, draws) == Ok(role.keys)
  }

  ghost predicate Lawful<S(!new)>(C: CipherSuite<S>, role: Role<S>, nonces: u32 -> Bytes)
  {
    && role.Fits()
    && StartsLawfully(C, role, nonces)
    && ClosesLawfully(C, role)
  }

  ghost predicate StartsLawfully<S(!new)>(C: CipherSuite<S>, role: Role<S>, nonces: u32 -> Bytes)
  {
    forall ps, heard :: StartLaw(C, role, nonces, ps, heard)
  }

  ghost predicate ClosesLawfully<S(!new)>(C: CipherSuite<S>, role: Role<S>)
  {
    forall states, es, got, draws :: CloseLaw(C, role, states, es, got, draws)
  }

  // ---------- Lists that grow ----------

  lemma IndexSetAppend<S>(ps: seq<Participant<S>>, p: Participant<S>)
    requires DistinctIndices(ps) && p.index !in IndexSet(ps)
    ensures DistinctIndices(ps + [p]) && IndexSet(ps + [p]) == IndexSet(ps) + {p.index} && |IndexSet(ps)| == |ps|
  {
    assert (ps + [p])[..|ps|] == ps;
    assert forall k :: 0 <= k < |ps| ==> ps[k] in ps;
    IndexSetExtend(ps + [p]);
    IndexCount(ps);
  }

  lemma PacketsKnown<S(!new)>(role: Role<S>, ps: seq<Participant<S>>, heard: set<u32>)
    requires PacketsHeld(role, ps, heard)
    ensures IndexSet(ps) <= role.packets.Keys
  {
  }

  lemma PacketAdded<S(!new)>(role: Role<S>, ps: seq<Participant<S>>, heard: set<u32>, from: u32)
    requires role.Fits() && PacketsHeld(role, ps, heard)
    requires from in role.packets && from !in heard && from != role.index
    ensures PacketsHeld(role, ps + [role.packets[from]], heard + {from})
  {
    IndexSetAppend(ps, role.packets[from]);
    var ps' := ps + [role.packets[from]];
    forall k | 0 <= k < |ps'|
      ensures ps'[k].index in role.packets && ps'[k] == role.packets[ps'[k].index]
    {
      assert k < |ps| ==> ps'[k] == ps[k];
    }
  }

  lemma PacketRoom<S(!new)>(role: Role<S>, ps: seq<Participant<S>>, heard: set<u32>, from: u32)
    requires role.Fits() && PacketsHeld(role, ps, heard)
    requires from in role.packets && from !in heard && from != role.index
    ensures |ps| + 1 <= |role.packets.Keys|
  {
    IndexCount(ps);
    PacketsKnown(role, ps, heard);
    SubsetSize(IndexSet(ps) + {from}, role.packets.Keys);
  }

  lemma SendersAppend(es: seq<EncryptedShare>, e: EncryptedShare)
    requires DistinctSenders(es) && e.sender !in Senders(es)
    ensures DistinctSenders(es + [e]) && Senders(es + [e]) == Senders(es) + {e.sender} && |Senders(es)| == |es|
  {
    assert (es + [e])[..|es|] == es;
    SendersExtend(es + [e]);
    SenderCount(es);
  }

  lemma ShareAdded<S(!new)>(role: Role<S>, es: seq<EncryptedShare>, got: set<u32>, from: u32)
    requires role.Fits() && SharesHeld(role, es, got)
    requires from in role.dealt && from !in Senders(es)
    ensures SharesHeld(role, es + [role.dealt[from]], got + {from})
    ensures Senders(es + [role.dealt[from]]) == Senders(es) + {from}
  {
    SendersAppend(es, role.dealt[from]);
  }

  lemma ShareRoom<S(!new)>(role: Role<S>, es: seq<EncryptedShare>, got: set<u32>, from: u32)
    requires role.Fits() && SharesHeld(role, es, got)
    requires from in role.dealt && from !in Senders(es)
    ensures |es| + 1 <= |role.packets.Keys|
    ensures |es| + 1 == |role.packets.Keys| ==> Senders(es) + {from} == role.packets.Keys
  {
    SenderCount(es);
    assert Senders(es) <= role.dealt.Keys;
    SubsetSize(Senders(es) + {from}, role.packets.Keys);
  }

  // ---------- The start ----------

  /** A node that starts publishes the packet its role holds. */
  ghost predicate StartsAs<S(!new)>(C: CipherSuite<S>, role: Role<S>, d: Draws<S>)
  {
    && role.Fits()
    && |d.coefficients| == role.parameters.t
    && role.packets[role.index] == DealerPacket(C, role.index, d.coefficients, d)
    && role.coefficients == d.coefficients && role.dhPrivateKey == d.dhPrivateKey
    && role.index != 0
  }

  lemma NodeStarts<S(!new)>(C: CipherSuite<S>, role: Role<S>, d: Draws<S>)
    returns (e: Engine<S>)
    requires StartsAs(C, role, d)
    ensures Initialized(C, role.index, role.parameters.n, role.parameters.t, d) == Ok((e, role.packets[role.index]))
    ensures EngineInv(role, e, {}, {}, []) && e.encryptedShares == []
  {
    e := Initialized(C, role.index, role.parameters.n, role.parameters.t, d).value.0;
    StartComputes(C, role, d);
    StartInv(role, e);
  }

  lemma StartComputes<S(!new)>(C: CipherSuite<S>, role: Role<S>, d: Draws<S>)
    requires role.parameters.Valid() && role.index != 0 && role.index in role.packets
    requires |d.coefficients| == role.parameters.t
    requires role.packets[role.index] == DealerPacket(C, role.index, d.coefficients, d)
    requires role.coefficients == d.coefficients && role.dhPrivateKey == d.dhPrivateKey
    ensures var p := role.packets[role.index];
            Initialized(C, role.index, role.parameters.n, role.parameters.t, d)
            == Ok((Engine(p, role.coefficients, role.parameters.t, role.parameters.n, [p], role.dhPrivateKey, [], []),
                   p))
  {
    assert AsU32(role.parameters.n) == role.parameters.n && AsU32(role.parameters.t) == role.parameters.t;
    assert AsU32(role.index) == role.index;
  }

  // ---------- A packet arrives ----------

  /** The engine after a packet: it bootstraps, and gossips its shares, when the packet is the last. */
  ghost function WithPacket<S(!new)>(role: Role<S>, e: Engine<S>, p: Participant<S>,
                                     encrypted: Option<ShareMap>): Engine<S>
    requires role.Fits()
  {
    var e' := e.(otherParticipants := e.otherParticipants + [p]);
    if !HasBootstrapped(e') then e'
    else e'.(states := [role.start.(theirEncryptedShares := encrypted)],
             encryptedShares := e.encryptedShares + [role.dealt[role.index]])
  }

  lemma WithPacketInv<S(!new)>(role: Role<S>, e: Engine<S>, heard: set<u32>, got: set<u32>, finished: seq<KeyPair<S>>,
                               from: u32, encrypted: Option<ShareMap>)
    requires EngineInv(role, e, heard, got, finished)
    requires from in role.packets && from !in heard && from != role.index
    ensures finished == [] && |e.otherParticipants| < e.totalNodes
    ensures EngineInv(role, WithPacket(role, e, role.packets[from], encrypted), heard + {from}, got, [])
  {
    var e' := WithPacket(role, e, role.packets[from], encrypted);
    PacketAdded(role, e.otherParticipants, heard, from);
    PacketRoom(role, e.otherParticipants, heard, from);
    AllSharesMeanOwn(role, e.encryptedShares, got);
    if HasBootstrapped(e') {
      ShareAdded(role, e.encryptedShares, got, role.index);
      ShareRoom(role, e.encryptedShares, got, role.index);
      assert got + {role.index} + {role.index} == got + {role.index};
    }
  }

  lemma AllSharesMeanOwn<S(!new)>(role: Role<S>, es: seq<EncryptedShare>, got: set<u32>)
    requires role.Fits() && SharesHeld(role, es, got)
    ensures |es| == |role.packets.Keys| ==> role.index in Senders(es)
  {
    SenderCount(es);
    assert Senders(es) <= role.dealt.Keys;
    if |es| == |role.packets.Keys| {
      SubsetSize(Senders(es), role.dealt.Keys);
    }
  }

  /** The handler does that, provided the bootstrap on the last packet reaches the role's state. */
  lemma PacketComputes<S(!new)>(C: CipherSuite<S>, role: Role<S>, e: Engine<S>, p: Participant<S>, nonces: u32 -> Bytes,
                                encrypted: Option<ShareMap>)
    requires role.Fits() && Configured(role, e) && |e.otherParticipants| < e.totalNodes
    requires encrypted.Some? <==> |e.otherParticipants| + 1 == e.totalNodes
    requires encrypted.Some? ==>
               && Covers(encrypted.value, role.outgoing)
               && var r := KG.RoundOne(C, role.parameters, role.dhPrivateKey, role.index, role.coefficients,
                                       e.otherParticipants + [p], true, true, nonces);
                  r.Ok? && r.value.0 == role.start.(theirEncryptedShares := encrypted)
    ensures PacketHandled(C, e, p, nonces) == Ok((WithPacket(role, e, p, encrypted), encrypted))
  {
  }

  lemma LastPacketStarts<S(!new)>(C: CipherSuite<S>, role: Role<S>, nonces: u32 -> Bytes, ps: seq<Participant<S>>,
                                  heard: set<u32>)
    returns (encrypted: Option<ShareMap>)
    requires Lawful(C, role, nonces) && PacketsHeld(role, ps, heard)
    ensures encrypted.Some? <==> |ps| == role.parameters.n
    ensures encrypted.Some? ==>
              && Covers(encrypted.value, role.outgoing)
              && var r := KG.RoundOne(C, role.parameters, role.dhPrivateKey, role.index, role.coefficients, ps, true,
                                      true, nonces);
                 r.Ok? && r.value.0 == role.start.(theirEncryptedShares := encrypted)
  {
    encrypted := None;
    if |ps| == role.parameters.n {
      assert StartLaw(C, role, nonces, ps, heard);
      encrypted := KG.RoundOne(C, role.parameters, role.dhPrivateKey, role.index, role.coefficients, ps, true, true,
                               nonces)
        .value.0.theirEncryptedShares;
    }
  }

  /** Hearing a further node never fails, and keeps the invariant. */
  lemma NodeHears<S(!new)>(C: CipherSuite<S>, role: Role<S>, nonces: u32 -> Bytes, e: Engine<S>, heard: set<u32>,
                           got: set<u32>, finished: seq<KeyPair<S>>, from: u32)
    returns (e': Engine<S>, sent: Option<ShareMap>)
    requires Lawful(C, role, nonces) && EngineInv(role, e, heard, got, finished)
    requires from in role.packets && from !in heard && from != role.index
    ensures PacketHandled(C, e, role.packets[from], nonces) == Ok((e', sent))
    ensures EngineInv(role, e', heard + {from}, got, []) && finished == []
    ensures sent.Some? ==> Covers(sent.value, role.outgoing)
    ensures e'.otherParticipants == e.otherParticipants + [role.packets[from]]
  {
    var p := role.packets[from];
    PacketAdded(role, e.otherParticipants, heard, from);
    PacketRoom(role, e.otherParticipants, heard, from);
    sent := LastPacketStarts(C, role, nonces, e.otherParticipants + [p], heard + {from});
    WithPacketInv(role, e, heard, got, finished, from, sent);
    PacketComputes(C, role, e, p, nonces, sent);
    e' := WithPacket(role, e, p, sent);
  }

  // ---------- A share map arrives ----------

  ghost function WithShare<S(!new)>(role: Role<S>, e: Engine<S>, share: EncryptedShare): Engine<S>
  {
    var e' := e.(encryptedShares := e.encryptedShares + [share]);
    if |e'.encryptedShares| == e.totalNodes then e'.(states := []) else e'
  }

  /** A further share is never one too many, and the last one finds the waiting state. */
  lemma ShareExpected<S(!new)>(role: Role<S>, e: Engine<S>, heard: set<u32>, got: set<u32>, finished: seq<KeyPair<S>>,
                               from: u32)
    requires EngineInv(role, e, heard, got, finished)
    requires from in role.packets && from !in got && from != role.index
    ensures finished == [] && |e.encryptedShares| < e.totalNodes && from !in Senders(e.encryptedShares)
    ensures |e.encryptedShares| + 1 == e.totalNodes ==> HasBootstrapped(e) && Waiting(role, e.states)
  {
    ShareRoom(role, e.encryptedShares, got, from);
    if |e.encryptedShares| + 1 == e.totalNodes {
      assert role.index in Senders(e.encryptedShares) + {from};
    }
  }

  lemma WithShareInv<S(!new)>(role: Role<S>, e: Engine<S>, heard: set<u32>, got: set<u32>, finished: seq<KeyPair<S>>,
                              from: u32)
    requires EngineInv(role, e, heard, got, finished)
    requires from in role.packets && from !in got && from != role.index
    ensures EngineInv(role, WithShare(role, e, role.dealt[from]), heard, got + {from},
                      if |e.encryptedShares| + 1 == e.totalNodes then [role.keys] else [])
  {
    ShareExpected(role, e, heard, got, finished, from);
    var e' := WithShare(role, e, role.dealt[from]);
    ShareAdded(role, e.encryptedShares, got, from);
    assert role.index in Senders(e'.encryptedShares) <==> HasBootstrapped(e');
  }

  /** The handler does that, provided the waiting state closes with the role's keys. */
  lemma SharesCompute<S(!new)>(C: CipherSuite<S>, role: Role<S>, e: Engine<S>, shares: ShareMap, draws: seq<S>)
    requires role.Fits() && Configured(role, e) && |e.encryptedShares| < e.totalNodes <= |draws|
    requires role.index in shares
    requires |e.encryptedShares| + 1 == e.totalNodes ==>
               && |e.states| == 1
               && Closed(C, e.states[0], e.encryptedShares + [shares[role.index]], draws) == Ok(role.keys)
    ensures SharesHandled(C, e, shares, draws)
         == Ok((WithShare(role, e, shares[role.index]),
                if |e.encryptedShares| + 1 == e.totalNodes then Some(role.keys) else None))
  {
  }

  lemma LastShareCloses<S(!new)>(C: CipherSuite<S>, role: Role<S>, nonces: u32 -> Bytes, e: Engine<S>, heard: set<u32>,
                                 got: set<u32>, finished: seq<KeyPair<S>>, from: u32, draws: seq<S>)
    requires Lawful(C, role, nonces) && EngineInv(role, e, heard, got, finished)
    requires from in role.packets && from !in got && from != role.index
    requires |e.encryptedShares| + 1 == e.totalNodes <= |draws|
    ensures |e.states| == 1 && e.states[0].theirCommitments.Some?
    ensures Closed(C, e.states[0], e.encryptedShares + [role.dealt[from]], draws) == Ok(role.keys)
  {
    ShareExpected(role, e, heard, got, finished, from);
    ShareAdded(role, e.encryptedShares, got, from);
    assert CloseLaw(C, role, e.states, e.encryptedShares + [role.dealt[from]], got + {from}, draws);
  }

  /** Receiving a further share never fails, keeps the invariant, and finishes the node with the last share. */
  lemma NodeReceives<S(!new)>(C: CipherSuite<S>, role: Role<S>, nonces: u32 -> Bytes, e: Engine<S>, heard: set<u32>,
                              got: set<u32>, finished: seq<KeyPair<S>>, from: u32, shares: ShareMap, draws: seq<S>)
    returns (e': Engine<S>, keys: Option<KeyPair<S>>)
    requires Lawful(C, role, nonces) && EngineInv(role, e, heard, got, finished)
    requires from in role.packets && from !in got && from != role.index
    requires role.index in shares && shares[role.index] == role.dealt[from] && |draws| == role.parameters.n
    ensures |draws| > |e.encryptedShares| && finished == []
    ensures SharesHandled(C, e, shares, draws) == Ok((e', keys))
    ensures keys == if |e'.encryptedShares| == e'.totalNodes then Some(role.keys) else None
    ensures EngineInv(role, e', heard, got + {from}, if keys.Some? then [keys.value] else [])
    ensures e'.encryptedShares == e.encryptedShares + [role.dealt[from]]
  {
    ShareExpected(role, e, heard, got, finished, from);
    if |e.encryptedShares| + 1 == e.totalNodes {
      LastShareCloses(C, role, nonces, e, heard, got, finished, from, draws);
    }
    WithShareInv(role, e, heard, got, finished, from);
    SharesCompute(C, role, e, shares, draws);
    e' := WithShare(role, e, shares[role.index]);
    keys := if |e.encryptedShares| + 1 == e.totalNodes then Some(role.keys) else None;
  }
}
