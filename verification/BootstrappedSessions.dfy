/**
 Whole sessions with dishonest dealers, from `bootstrap`, or in a resharing from `new`, to `finish`:
 the theorem on honest participants' keys, with everything it relies on traced back to the packets
 and shares received.
 */
module BootstrappedSessions {
  import opened Wrappers
  import opened Fields
  import opened Polynomials
  import opened CipherSuites
  import opened Complaints
  import opened Participants
  import opened Keys
  import opened KeyGeneration
  import opened RobustKeyGeneration
  import opened RoundOneFacts
  import opened HonestSessions
  import opened Orderings

  /** What one honest participant starts from, receives and draws. */
  datatype Party<S> = Party(
    dhPrivateKey: S,
    index: u32,
    coefficients: seq<S>,
    packets: seq<Participant<S>>,
    nonces: u32 -> Bytes,
    received: seq<EncryptedShare>,
    draws: seq<S>,
    batch: seq<Complaint<S>>)

  /** Round one: in a bootstrap, or otherwise as a new participant of a resharing runs it. */
  ghost function Began<S(!new)>(C: CipherSuite<S>, parameters: Parameters, bootstrap: bool, p: Party<S>)
    : Result<(State<S>, ParticipantList<S>), Error<S>>
  {
    RoundOne(C, parameters, p.dhPrivateKey, p.index, p.coefficients, p.packets, bootstrap, true, p.nonces)
  }

  /** What it is given: packets over distinct non-zero indices, and a scalar for each complaint it may make. */
  ghost predicate Prepared<S(!new)>(p: Party<S>)
  {
    && DistinctIndices(p.packets)
    && (forall q :: q in p.packets ==> q.index != 0)
    && |p.received| <= |p.draws|
  }

  /** Both rounds succeed on one share per valid dealer, and its own complaints are among those it settles. */
  ghost predicate Proceeds<S(!new)>(C: CipherSuite<S>, parameters: Parameters, bootstrap: bool, p: Party<S>)
  {
    && Prepared(p)
    && Began(C, parameters, bootstrap, p).Ok?
    && var st := Began(C, parameters, bootstrap, p).value.0;
       && st.theirCommitments.Some? && OneShareEach(st, p.received)
       && ToRoundTwo(C, st, p.received, p.draws).Ok?
       && Includes(p.batch, ToRoundTwo(C, st, p.received, p.draws).value.1)
  }

  /**
   Round one succeeds exactly on n packets, each with the proof of its secret key, of which t are
   valid; and round two, on one share from each valid dealer, exactly if t of these shares are good.
   */
  lemma ProceedsExactly<S(!new)>(C: CipherSuite<S>, parameters: Parameters, bootstrap: bool, p: Party<S>)
    requires parameters.Valid() && Prepared(p)
    ensures Began(C, parameters, bootstrap, p).Ok? <==> EnoughValid(C, parameters, p.packets, bootstrap)
    ensures Began(C, parameters, bootstrap, p).Ok? ==>
              var st := Began(C, parameters, bootstrap, p).value.0;
              && st.theirCommitments.Some?
              && (OneShareEach(st, p.received) ==>
                    && (forall i :: 0 <= i < |p.received| ==> p.received[i].sender in st.theirDhPublicKeys)
                    && (ToRoundTwo(C, st, p.received, p.draws).Ok?
                        <==> |SendersOf(C, st, p.received, false)| >= parameters.t))
  {
    RoundOneSucceedsExactly(C, parameters, p.dhPrivateKey, p.index, p.coefficients, p.packets, bootstrap, p.nonces);
    if Began(C, parameters, bootstrap, p).Ok? {
      var st := Began(C, parameters, bootstrap, p).value.0;
      RoundOneStarts(C, parameters, p.dhPrivateKey, p.index, p.coefficients, p.packets, bootstrap, p.nonces);
      if OneShareEach(st, p.received) {
        RoundTwoSucceedsExactly(C, st, p.received, p.draws);
      }
    }
  }

  ghost function RunOf<S(!new)>(C: CipherSuite<S>, parameters: Parameters, bootstrap: bool, p: Party<S>): Run<S>
    requires Proceeds(C, parameters, bootstrap, p)
  {
    var st := Began(C, parameters, bootstrap, p).value.0;
    var (mid, own) := ToRoundTwo(C, st, p.received, p.draws).value;
    Run(st, p.received, p.draws, mid, own, p.batch)
  }

  /** Its own complaints accuse no index that the n left by round one puts out of reach of `blame`. */
  ghost predicate WithinReach<S(!new)>(C: CipherSuite<S>, parameters: Parameters, bootstrap: bool, p: Party<S>)
    requires Proceeds(C, parameters, bootstrap, p)
  {
    var r := RunOf(C, parameters, bootstrap, p);
    AccusesWithin(r.own, r.start.parameters.n)
  }

  lemma PartyIsHonest<S(!new)>(C: CipherSuite<S>, parameters: Parameters, bootstrap: bool, p: Party<S>)
    requires C.F.Valid() && parameters.Valid()
    requires Proceeds(C, parameters, bootstrap, p) && WithinReach(C, parameters, bootstrap, p)
    ensures HonestRun(C, RunOf(C, parameters, bootstrap, p))
    ensures bootstrap ==> Bounded(RunOf(C, parameters, bootstrap, p), parameters.t)
  {
    var r := RunOf(C, parameters, bootstrap, p);
    RoundOneStarts(C, parameters, p.dhPrivateKey, p.index, p.coefficients, p.packets, bootstrap, p.nonces);
    RoundTwoOutcome(C, r.start, r.received, r.draws);
  }

  /** Both saw the same packets and settle the same complaints, in any order. */
  ghost predicate SameView<S(!new)>(a: Party<S>, b: Party<S>)
  {
    && (forall q :: q in a.packets <==> q in b.packets)
    && (forall c :: c in a.batch <==> c in b.batch)
  }

  lemma PartiesAgree<S(!new)>(C: CipherSuite<S>, parameters: Parameters, bootstrap: bool, a: Party<S>, b: Party<S>)
    requires parameters.Valid() && SameView(a, b)
    requires Proceeds(C, parameters, bootstrap, a) && Proceeds(C, parameters, bootstrap, b)
    ensures SameSession(RunOf(C, parameters, bootstrap, a), RunOf(C, parameters, bootstrap, b))
  {
    RoundOnesAgree(C, parameters, bootstrap, a.dhPrivateKey, a.index, a.coefficients, a.packets, a.nonces,
                   b.dhPrivateKey, b.index, b.coefficients, b.packets, b.nonces);
  }

  ghost predicate SameSessions<S(!new)>(C: CipherSuite<S>, parameters: Parameters, bootstrap: bool,
                                        parties: seq<Party<S>>)
  {
    forall i :: 0 <= i < |parties| ==>
      && Proceeds(C, parameters, bootstrap, parties[i]) && WithinReach(C, parameters, bootstrap, parties[i])
      && SameView(parties[0], parties[i])
  }

  ghost function RunsOf<S(!new)>(C: CipherSuite<S>, parameters: Parameters, bootstrap: bool, parties: seq<Party<S>>)
    : (runs: seq<Run<S>>)
    requires SameSessions(C, parameters, bootstrap, parties)
    ensures |runs| == |parties|
    ensures forall i :: 0 <= i < |runs| ==> runs[i] == RunOf(C, parameters, bootstrap, parties[i])
  {
    seq(|parties|, i requires 0 <= i < |parties| => RunOf(C, parameters, bootstrap, parties[i]))
  }

  lemma RunsAreHonest<S(!new)>(C: CipherSuite<S>, parameters: Parameters, bootstrap: bool, parties: seq<Party<S>>,
                               i: nat)
    requires C.F.Valid() && parameters.Valid() && SameSessions(C, parameters, bootstrap, parties) && i < |parties|
    ensures var runs := RunsOf(C, parameters, bootstrap, parties);
            && HonestRun(C, runs[i]) && SameSession(runs[0], runs[i]) && runs[i].start.index == parties[i].index
            && (bootstrap ==> Bounded(runs[i], parameters.t))
  {
    PartyIsHonest(C, parameters, bootstrap, parties[i]);
    PartiesAgree(C, parameters, bootstrap, parties[0], parties[i]);
    RunStarts(C, parameters, bootstrap, parties[i]);
  }

  lemma RunStarts<S(!new)>(C: CipherSuite<S>, parameters: Parameters, bootstrap: bool, p: Party<S>)
    requires Proceeds(C, parameters, bootstrap, p)
    ensures RunOf(C, parameters, bootstrap, p).start.index == p.index
  {
  }

  /** It finishes with its value of this polynomial, and with the group key that belongs to it. */
  ghost predicate HoldsValue<S(!new)>(C: CipherSuite<S>, r: Run<S>, p: Party<S>, P: seq<S>)
  {
    && HonestRun(C, r)
    && Finish(C, Blame(C, r.middle, p.batch))
       == Ok((C.Base(Eval(C.F, P, C.F.zero)), IndividualSigningKey(p.index, Eval(C.F, P, C.F.From(p.index)))))
  }

  lemma SessionKeys<S(!new)>(C: CipherSuite<S>, parameters: Parameters, bootstrap: bool, parties: seq<Party<S>>)
    returns (P: seq<S>)
    requires C.F.Valid() && parameters.Valid() && parties != [] && SameSessions(C, parameters, bootstrap, parties)
    ensures forall k: nat :: Bounded(RunsOf(C, parameters, bootstrap, parties)[0], k) ==> |P| <= k
    ensures bootstrap ==> |P| <= parameters.t
    ensures forall i :: 0 <= i < |parties| ==>
              HoldsValue(C, RunsOf(C, parameters, bootstrap, parties)[i], parties[i], P)
  {
    var runs := RunsOf(C, parameters, bootstrap, parties);
    forall i | 0 <= i < |runs|
      ensures HonestRun(C, runs[i]) && SameSession(runs[0], runs[i]) && runs[i].start.index == parties[i].index
      ensures bootstrap ==> Bounded(runs[i], parameters.t)
    {
      RunsAreHonest(C, parameters, bootstrap, parties, i);
    }
    P := RobustKeys(C, runs);
  }

  /**
   For any packets over distinct non-zero indices, whoever round one turns away, and any shares the
   remaining dealers send, good or bad: participants who proceed and whose complaints are within reach
   of `blame` all finish with the same group key and with their values of one polynomial of at most t
   coefficients, whose value at zero is the secret.
   */
  lemma BootstrappedKeys<S(!new)>(C: CipherSuite<S>, parameters: Parameters, parties: seq<Party<S>>) returns (P: seq<S>)
    requires C.F.Valid() && parameters.Valid() && parties != [] && SameSessions(C, parameters, true, parties)
    ensures |P| <= parameters.t
    ensures forall i :: 0 <= i < |parties| ==>
              HoldsValue(C, RunsOf(C, parameters, true, parties)[i], parties[i], P)
  {
    P := SessionKeys(C, parameters, true, parties);
  }

  /**
   The same for the new participants of a resharing, with dealers of any kind; but `new` does not
   check the length of a commitment, so the polynomial is only as short as the longest of those.
   */
  lemma ResharedKeys<S(!new)>(C: CipherSuite<S>, parameters: Parameters, parties: seq<Party<S>>) returns (P: seq<S>)
    requires C.F.Valid() && parameters.Valid() && parties != [] && SameSessions(C, parameters, false, parties)
    ensures forall k: nat :: Bounded(RunsOf(C, parameters, false, parties)[0], k) ==> |P| <= k
    ensures forall i :: 0 <= i < |parties| ==>
              HoldsValue(C, RunsOf(C, parameters, false, parties)[i], parties[i], P)
  {
    P := SessionKeys(C, parameters, false, parties);
  }

  // ---------- Enough honest dealers ----------

  /** The packets of these honest dealers are among those received; any other packets have their proof. */
  ghost predicate HonestAmong<S(!new)>(C: CipherSuite<S>, parameters: Parameters, s: Secrets<S>, p: Party<S>)
  {
    && s.Well() && |s.polys.Keys| >= parameters.t && |p.packets| == parameters.n
    && (forall q :: q in p.packets ==> !Unproven(C, q))
    && forall l :: l in s.polys ==> |s.polys[l]| == parameters.t && PacketOf(C, s, l) in p.packets
  }

  lemma HonestAreValid<S(!new)>(C: CipherSuite<S>, parameters: Parameters, bootstrap: bool, s: Secrets<S>, p: Party<S>)
    requires C.F.Valid() && Prepared(p) && HonestAmong(C, parameters, s, p)
    ensures EnoughValid(C, parameters, p.packets, bootstrap)
    ensures forall l :: l in s.polys ==> PacketOf(C, s, l) in Valid(C, parameters, p.packets, bootstrap, true)
  {
    var valid := Valid(C, parameters, p.packets, bootstrap, true);
    forall l | l in s.polys
      ensures PacketOf(C, s, l) in valid && l in IndexSet(valid)
    {
      HonestDealerAccepted(C, parameters, l, s.polys[l], s.draws[l], bootstrap, true);
      ValidMembers(C, parameters, p.packets, bootstrap, true, PacketOf(C, s, l));
    }
    ValidDistinct(C, parameters, p.packets, bootstrap, true);
    IndexCount(valid);
    SubsetSize(s.polys.Keys, IndexSet(valid));
  }

  lemma KeptAreKnown<S(!new)>(C: CipherSuite<S>, s: Secrets<S>, valid: seq<Participant<S>>, st: State<S>)
    requires s.Well() && DistinctIndices(valid) && forall l :: l in s.polys ==> PacketOf(C, s, l) in valid
    requires st.theirCommitments == Some(CommitmentsOf(valid)) && st.theirDhPublicKeys == DhKeysOf(valid)
    ensures KnowsAll(C, s, st)
  {
    forall l | l in s.polys
      ensures KnowsDealer(C, s, st, l)
    {
      MapEntry(valid, PacketOf(C, s, l));
    }
  }

  lemma BeganKeeps<S(!new)>(C: CipherSuite<S>, parameters: Parameters, bootstrap: bool, p: Party<S>)
    requires Began(C, parameters, bootstrap, p).Ok?
    ensures var st := Began(C, parameters, bootstrap, p).value.0;
            var valid := Valid(C, parameters, p.packets, bootstrap, true);
            st.theirCommitments == Some(CommitmentsOf(valid)) && st.theirDhPublicKeys == DhKeysOf(valid)
  {
  }

  lemma HonestKnown<S(!new)>(C: CipherSuite<S>, parameters: Parameters, bootstrap: bool, s: Secrets<S>, p: Party<S>)
    requires C.F.Valid() && Prepared(p) && HonestAmong(C, parameters, s, p)
    requires Began(C, parameters, bootstrap, p).Ok?
    ensures KnowsAll(C, s, Began(C, parameters, bootstrap, p).value.0)
  {
    var valid := Valid(C, parameters, p.packets, bootstrap, true);
    HonestAreValid(C, parameters, bootstrap, s, p);
    ValidDistinct(C, parameters, p.packets, bootstrap, true);
    BeganKeeps(C, parameters, bootstrap, p);
    KeptAreKnown(C, s, valid, Began(C, parameters, bootstrap, p).value.0);
  }

  ghost predicate KnowsAll<S(!new)>(C: CipherSuite<S>, s: Secrets<S>, st: State<S>)
    requires s.Well()
  {
    forall l :: l in s.polys ==> KnowsDealer(C, s, st, l)
  }

  /** The shares that reach this participant from the honest dealers are those they sent. */
  ghost predicate HonestDeliver<S(!new)>(C: CipherSuite<S>, s: Secrets<S>, p: Party<S>)
    requires s.Well()
  {
    forall i :: 0 <= i < |p.received| && p.received[i].sender in s.polys ==>
      HonestShare(C, s, p.index, C.Base(p.dhPrivateKey), p.received[i])
  }

  /**
   As long as t dealers are honest, a participant gets through both rounds: whatever the other dealers
   publish, if it has the proof of its secret key, and whatever shares they send.
   */
  lemma HonestDealersSuffice<S(!new)>(C: CipherSuite<S>, parameters: Parameters, bootstrap: bool, s: Secrets<S>,
                                      p: Party<S>)
    requires C.Valid() && parameters.Valid() && Prepared(p) && HonestAmong(C, parameters, s, p)
    ensures Began(C, parameters, bootstrap, p).Ok?
    ensures var st := Began(C, parameters, bootstrap, p).value.0;
            && st.theirCommitments.Some?
            && (OneShareEach(st, p.received) && HonestDeliver(C, s, p) ==> ToRoundTwo(C, st, p.received, p.draws).Ok?)
  {
    HonestAreValid(C, parameters, bootstrap, s, p);
    ProceedsExactly(C, parameters, bootstrap, p);
    HonestKnown(C, parameters, bootstrap, s, p);
    if OneShareEach(Began(C, parameters, bootstrap, p).value.0, p.received) && HonestDeliver(C, s, p) {
      HonestAreGood(C, s, Began(C, parameters, bootstrap, p).value.0, p.received);
    }
  }

  lemma HonestAreGood<S(!new)>(C: CipherSuite<S>, s: Secrets<S>, st: State<S>, es: seq<EncryptedShare>)
    requires C.Valid() && s.Well() && KnowsAll(C, s, st)
    requires st.theirCommitments.Some? && OneShareEach(st, es)
    requires forall i :: 0 <= i < |es| ==> es[i].sender in st.theirDhPublicKeys
    requires forall i :: 0 <= i < |es| && es[i].sender in s.polys ==>
               HonestShare(C, s, st.index, C.Base(st.dhPrivateKey), es[i])
    ensures |SendersOf(C, st, es, false)| >= |s.polys.Keys|
  {
    forall l | l in s.polys
      ensures l in SendersOf(C, st, es, false)
    {
      assert KnowsDealer(C, s, st, l) && l in Senders(es);
      var i :| 0 <= i < |es| && es[i].sender == l;
      HonestShareOpens(C, s, st, es[i]);
    }
    SubsetSize(s.polys.Keys, SendersOf(C, st, es, false));
  }

  // ---------- Sessions that turn nobody away ----------

  /** Nobody was excluded and the dealers are numbered up to n. */
  ghost predicate AllWithin<S(!new)>(C: CipherSuite<S>, parameters: Parameters, p: Party<S>)
    requires Began(C, parameters, true, p).Ok?
  {
    && Began(C, parameters, true, p).value.1.misbehaving == []
    && forall q :: q in p.packets ==> q.index <= parameters.n
  }

  lemma NobodyExcluded<S(!new)>(C: CipherSuite<S>, parameters: Parameters, p: Party<S>)
    requires parameters.Valid() && Proceeds(C, parameters, true, p) && AllWithin(C, parameters, p)
    ensures var st := Began(C, parameters, true, p).value.0;
            st.parameters.n == parameters.n && forall l :: l in st.theirCommitments.value ==> l <= parameters.n
  {
    var (st, list) := Began(C, parameters, true, p).value;
    RoundOneConservation(C, parameters, p.dhPrivateKey, p.index, p.coefficients, p.packets, true, true, p.nonces);
    forall l | l in st.theirCommitments.value
      ensures l <= parameters.n
    {
      var i :| 0 <= i < |list.valid| && list.valid[i].index == l;
      ValidMembers(C, parameters, p.packets, true, true, list.valid[i]);
    }
  }

  lemma AccusationsWithin<S(!new)>(C: CipherSuite<S>, r: Run<S>)
    requires Outcome(C, r.start, r.received, r.draws, r.middle, r.own)
    requires forall l :: l in r.start.theirCommitments.value ==> l <= r.start.parameters.n
    ensures AccusesWithin(r.own, r.start.parameters.n)
  {
    forall c | c in r.own
      ensures c.encryptedShare.sender <= r.start.parameters.n
    {
      var i := ComplaintOrigin(C, r.start, r.received, r.draws, r.middle, r.own, c);
    }
  }

  lemma AllAreReached<S(!new)>(C: CipherSuite<S>, parameters: Parameters, p: Party<S>)
    requires C.F.Valid() && parameters.Valid() && Proceeds(C, parameters, true, p) && AllWithin(C, parameters, p)
    ensures WithinReach(C, parameters, true, p)
  {
    var r := RunOf(C, parameters, true, p);
    RoundOneStarts(C, parameters, p.dhPrivateKey, p.index, p.coefficients, p.packets, true, p.nonces);
    RoundTwoOutcome(C, r.start, r.received, r.draws);
    NobodyExcluded(C, parameters, p);
    AccusationsWithin(C, r);
  }

  /** Then every complaint is within reach, and the theorem needs no condition on complaints. */
  lemma FullSessionKeys<S(!new)>(C: CipherSuite<S>, parameters: Parameters, parties: seq<Party<S>>) returns (P: seq<S>)
    requires C.F.Valid() && parameters.Valid() && parties != []
    requires forall i :: 0 <= i < |parties| ==>
               Proceeds(C, parameters, true, parties[i]) && AllWithin(C, parameters, parties[i])
               && SameView(parties[0], parties[i])
    ensures SameSessions(C, parameters, true, parties)
    ensures |P| <= parameters.t
    ensures forall i :: 0 <= i < |parties| ==>
              HoldsValue(C, RunsOf(C, parameters, true, parties)[i], parties[i], P)
  {
    forall i | 0 <= i < |parties|
      ensures WithinReach(C, parameters, true, parties[i])
    {
      AllAreReached(C, parameters, parties[i]);
    }
    P := BootstrappedKeys(C, parameters, parties);
  }
}
