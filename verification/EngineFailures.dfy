/**
 When the actor panics. Unlike the library, it tolerates neither a packet that round one cannot
 handle nor a single bad share: what could be settled by complaints stops the node.
 */
module EngineFailures {
  import opened Wrappers
  import opened Fields
  import opened CipherSuites
  import opened Complaints
  import opened Participants
  import opened DkgEngines
  import opened RobustKeyGeneration
  import opened RoundOneFacts
  import KG = KeyGeneration

  // ---------- The last packet ----------

  lemma {:induction false} EncryptedKeys<S(!new)>(C: CipherSuite<S>, myIndex: u32, a: seq<S>, sk: S,
                                                  ps: seq<Participant<S>>, nonces: u32 -> Bytes)
    ensures KG.EncryptedFor(C, myIndex, a, sk, ps, nonces).Keys == IndexSet(ps)
  {
    if ps != [] {
      EncryptedKeys(C, myIndex, a, sk, ps[..|ps| - 1], nonces);
      IndexSetExtend(ps);
    }
  }

  /** With this packet the bootstrap can begin. */
  ghost predicate CanBegin<S(!new)>(C: CipherSuite<S>, e: Engine<S>, ps: seq<Participant<S>>)
  {
    && 0 < e.threshold <= e.totalNodes
    && EnoughValid(C, Parameters(e.totalNodes, e.threshold), ps, true)
    && exists q :: q in ps && q.index == e.participant.index
  }

  /**
   Handling a packet panics exactly if it completes the count, which is compared modulo 2^32, and the
   parameters are bad, round one fails on the packets, or none of them has the node's own index.
   */
  lemma HearPanicsExactly<S(!new)>(C: CipherSuite<S>, e: Engine<S>, p: Participant<S>, nonces: u32 -> Bytes)
    ensures var ps := e.otherParticipants + [p];
            PacketHandled(C, e, p, nonces).Err?
            <==> |ps| % 0x1_0000_0000 == e.totalNodes && !CanBegin(C, e, ps)
  {
    var ps := e.otherParticipants + [p];
    RoundOneSucceedsExactly(C, Parameters(e.totalNodes, e.threshold), e.dhPrivateKey, e.participant.index,
                            e.coefficients, ps, true, nonces);
    EncryptedKeys(C, e.participant.index, e.coefficients, e.dhPrivateKey, ps, nonces);
    if e.participant.index in IndexSet(ps) {
      var i :| 0 <= i < |ps| && ps[i].index == e.participant.index;
      assert ps[i] in ps;
    }
  }

  /**
   Otherwise the packet is kept; if it completes the count, the node waits in the one state that round
   one reaches, keeps its own share and gossips all of them.
   */
  lemma HearsExactly<S(!new)>(C: CipherSuite<S>, e: Engine<S>, p: Participant<S>, nonces: u32 -> Bytes)
    requires PacketHandled(C, e, p, nonces).Ok?
    ensures var (after, sent) := PacketHandled(C, e, p, nonces).value;
            var ps := e.otherParticipants + [p];
            if |ps| % 0x1_0000_0000 != e.totalNodes then after == e.(otherParticipants := ps) && sent == None
            else
              var one := KG.RoundOne(C, Parameters(e.totalNodes, e.threshold), e.dhPrivateKey, e.participant.index,
                                     e.coefficients, ps, true, true, nonces);
              && one.Ok? && sent == one.value.0.theirEncryptedShares && sent.Some?
              && e.participant.index in sent.value
              && after == e.(otherParticipants := ps, states := [one.value.0],
                             encryptedShares := e.encryptedShares + [sent.value[e.participant.index]])
  {
  }

  // ---------- The last share ----------

  lemma BlameNobody<S(!new)>(C: CipherSuite<S>, st: KG.State<S>)
    requires st.theirCommitments.Some? && st.mySecretShares.Some?
    ensures KG.Blame(C, st, []) == st
  {
    assert KG.Blamed(C, st, []) == {};
    assert st.theirCommitments.value - {} == st.theirCommitments.value;
    assert st.mySecretShares.value - {} == st.mySecretShares.value;
  }

  /** Without complaints, nothing has to be settled before the end. */
  lemma UncontestedFinishes<S(!new)>(C: CipherSuite<S>, st: KG.State<S>, es: seq<EncryptedShare>, draws: seq<S>,
                                     mid: KG.State<S>)
    requires C.F.Valid() && Outcome(C, st, es, draws, mid, []) && OneShareEach(st, es)
    requires KG.AllHavePoints(st.theirCommitments.value)
    ensures KG.Finish(C, mid).Ok?
  {
    ConsistentAfterBlame(C, st, es, draws, mid, [], []);
    BlameNobody(C, mid);
    FinishConsistent(C, mid);
  }

  /** There are none exactly if no share is bad. */
  lemma UncontestedExactly<S(!new)>(C: CipherSuite<S>, st: KG.State<S>, es: seq<EncryptedShare>, draws: seq<S>,
                                    mid: KG.State<S>, own: seq<Complaint<S>>)
    requires Outcome(C, st, es, draws, mid, own)
    ensures forall i :: 0 <= i < |es| ==> es[i].sender in st.theirDhPublicKeys
    ensures own == [] <==> forall i :: 0 <= i < |es| ==> !KG.Bad(C, st, es[i])
  {
    KnownSenders(C, st, es);
    if i :| 0 <= i < |es| && KG.Bad(C, st, es[i]) {
      OwnComplaint(C, st, es, draws, mid, own, i);
    } else if own != [] {
      var i := ComplaintOrigin(C, st, es, draws, mid, own, own[0]);
    }
  }

  /** What the end of a session relies on: n dealers with a first point, and one share from each. */
  ghost predicate AllArrived<S(!new)>(C: CipherSuite<S>, st: KG.State<S>, es: seq<EncryptedShare>)
  {
    && Started(C, st) && OneShareEach(st, es)
    && |st.theirCommitments.value.Keys| == st.parameters.n && KG.AllHavePoints(st.theirCommitments.value)
  }

  lemma RoundTwoUncontested<S(!new)>(C: CipherSuite<S>, st: KG.State<S>, es: seq<EncryptedShare>, draws: seq<S>)
    requires AllArrived(C, st, es) && |es| <= |draws|
    requires forall i :: 0 <= i < |es| ==> es[i].sender in st.theirDhPublicKeys && !KG.Bad(C, st, es[i])
    ensures KG.ToRoundTwo(C, st, es, draws).Ok?
  {
    RoundTwoSucceedsExactly(C, st, es, draws);
    SenderCount(es);
    assert SendersOf(C, st, es, false) == Senders(es);
  }

  /** With all shares there, the end goes through exactly if all of them are good. */
  lemma ClosesExactly<S(!new)>(C: CipherSuite<S>, st: KG.State<S>, es: seq<EncryptedShare>, draws: seq<S>)
    requires C.F.Valid() && AllArrived(C, st, es) && |es| <= |draws|
    ensures forall i :: 0 <= i < |es| ==> es[i].sender in st.theirDhPublicKeys
    ensures Closed(C, st, es, draws).Ok? <==> forall i :: 0 <= i < |es| ==> !KG.Bad(C, st, es[i])
  {
    KnownSenders(C, st, es);
    if KG.ToRoundTwo(C, st, es, draws).Ok? {
      ClosesAfter(C, st, es, draws);
    } else if forall i :: 0 <= i < |es| ==> !KG.Bad(C, st, es[i]) {
      RoundTwoUncontested(C, st, es, draws);
    }
  }

  lemma ClosesAfter<S(!new)>(C: CipherSuite<S>, st: KG.State<S>, es: seq<EncryptedShare>, draws: seq<S>)
    requires C.F.Valid() && AllArrived(C, st, es) && |es| <= |draws| && KG.ToRoundTwo(C, st, es, draws).Ok?
    requires forall i :: 0 <= i < |es| ==> es[i].sender in st.theirDhPublicKeys
    ensures Closed(C, st, es, draws).Ok? <==> forall i :: 0 <= i < |es| ==> !KG.Bad(C, st, es[i])
  {
    var (mid, own) := KG.ToRoundTwo(C, st, es, draws).value;
    RoundTwoOutcome(C, st, es, draws);
    UncontestedExactly(C, st, es, draws, mid, own);
    if own == [] {
      UncontestedFinishes(C, st, es, draws, mid);
    }
  }

  /**
   Storing a share map panics exactly if it completes the count and a share is bad: one dealer that
   sends one bad share stops every node it sends one to, although `blame` could remove it.
   */
  lemma StoringPanicsExactly<S(!new)>(C: CipherSuite<S>, e: Engine<S>, shares: ShareMap, draws: seq<S>)
    requires C.F.Valid() && |draws| > |e.encryptedShares| && e.states != []
    requires AllArrived(C, e.states[|e.states| - 1], Extended(e, shares).encryptedShares)
    ensures var st, es := e.states[|e.states| - 1], Extended(e, shares).encryptedShares;
            && (forall i :: 0 <= i < |es| ==> es[i].sender in st.theirDhPublicKeys)
            && (SharesHandled(C, e, shares, draws).Err?
                <==> |es| % 0x1_0000_0000 == e.totalNodes && exists i :: 0 <= i < |es| && KG.Bad(C, st, es[i]))
  {
    StoringCloses(C, e, shares, draws);
    ClosesExactly(C, e.states[|e.states| - 1], Extended(e, shares).encryptedShares, draws);
  }

  lemma StoringCloses<S(!new)>(C: CipherSuite<S>, e: Engine<S>, shares: ShareMap, draws: seq<S>)
    requires |draws| > |e.encryptedShares| && e.states != []
    ensures var st, es := e.states[|e.states| - 1], Extended(e, shares).encryptedShares;
            SharesHandled(C, e, shares, draws).Err?
            <==> |es| % 0x1_0000_0000 == e.totalNodes && Closed(C, st, es, draws).Err?
  {
  }

  /** It also panics if it completes the count before the node has bootstrapped. */
  lemma StoringTooEarlyPanics<S(!new)>(C: CipherSuite<S>, e: Engine<S>, shares: ShareMap, draws: seq<S>)
    requires |draws| > |e.encryptedShares| && e.states == []
    ensures SharesHandled(C, e, shares, draws).Err?
       <==> |Extended(e, shares).encryptedShares| % 0x1_0000_0000 == e.totalNodes
  {
  }

  /** Until the count is complete it only keeps the share, if the map has one for this node. */
  lemma StoringWaits<S(!new)>(C: CipherSuite<S>, e: Engine<S>, shares: ShareMap, draws: seq<S>)
    requires |draws| > |e.encryptedShares|
    ensures var es := e.encryptedShares
                      + if e.participant.index in shares then [shares[e.participant.index]] else [];
            |es| % 0x1_0000_0000 != e.totalNodes ==>
              SharesHandled(C, e, shares, draws) == Ok((e.(encryptedShares := es), None))
  {
    assert e.encryptedShares + [] == e.encryptedShares;
  }

  /** When the last share closes the session, its state is used up and the keys are those of `finish`. */
  lemma StoringEnds<S(!new)>(C: CipherSuite<S>, e: Engine<S>, shares: ShareMap, draws: seq<S>)
    requires |draws| > |e.encryptedShares| && SharesHandled(C, e, shares, draws).Ok?
    requires |Extended(e, shares).encryptedShares| % 0x1_0000_0000 == e.totalNodes
    ensures e.states != []
    ensures var (after, keys) := SharesHandled(C, e, shares, draws).value;
            var es, n := Extended(e, shares).encryptedShares, |e.states| - 1;
            && after == e.(encryptedShares := es, states := e.states[..n])
            && var two := KG.ToRoundTwo(C, e.states[n], es, draws);
               two.Ok? && two.value.1 == [] && keys.Some? && KG.Finish(C, two.value.0) == Ok(keys.value)
  {
  }
}
