/**
 Key generation with dishonest dealers. After round two and one settlement of all complaints, the
 honest participants hold the values of a single polynomial whose constant term is the group's
 secret key.
 */
module RobustKeyGeneration {
  import opened Wrappers
  import opened Fields
  import opened Polynomials
  import opened Orderings
  import opened Lagrange
  import opened CipherSuites
  import opened SecretShares
  import opened Complaints
  import opened Participants
  import opened Keys
  import opened KeyGeneration

  // ---------- What round one leaves behind ----------

  /** A state out of round one whose dealers have distinct non-zero indices. */
  ghost predicate Started<S(!new)>(C: CipherSuite<S>, st: State<S>)
  {
    && st.parameters.Valid()
    && st.theirCommitments.Some?
    && st.theirCommitments.value.Keys == st.theirDhPublicKeys.Keys
    && |st.theirCommitments.value.Keys| <= st.parameters.n
    && 0 !in st.theirCommitments.value
    && st.dhPublicKey == C.Base(st.dhPrivateKey)
  }

  ghost predicate LengthsAtMost<S>(commitments: map<u32, VssCommitment<S>>, t: nat)
  {
    forall l :: l in commitments ==> 0 < |commitments[l].points| <= t
  }

  predicate DistinctSenders(es: seq<EncryptedShare>)
  {
    forall i, j :: 0 <= i < j < |es| ==> es[i].sender != es[j].sender
  }

  ghost function Senders(es: seq<EncryptedShare>): (s: set<u32>)
    ensures forall i :: 0 <= i < |es| ==> es[i].sender in s
    ensures forall l :: l in s ==> exists i :: 0 <= i < |es| && es[i].sender == l
  {
    set i | 0 <= i < |es| :: es[i].sender
  }

  /** Exactly one share from each valid dealer, addressed to this participant. */
  ghost predicate OneShareEach<S>(st: State<S>, es: seq<EncryptedShare>)
    requires st.theirCommitments.Some?
  {
    && DistinctSenders(es)
    && Senders(es) == st.theirCommitments.value.Keys
    && forall i :: 0 <= i < |es| ==> es[i].receiver == st.index
  }

  /** At most one share from each valid dealer: some may withhold theirs. */
  ghost predicate AtMostOneEach<S>(st: State<S>, es: seq<EncryptedShare>)
    requires st.theirCommitments.Some?
  {
    && DistinctSenders(es)
    && Senders(es) <= st.theirCommitments.value.Keys
    && forall i :: 0 <= i < |es| ==> es[i].receiver == st.index
  }

  lemma SendersExtend(es: seq<EncryptedShare>)
    requires es != []
    ensures Senders(es) == Senders(es[..|es| - 1]) + {es[|es| - 1].sender}
    ensures DistinctSenders(es) ==> es[|es| - 1].sender !in Senders(es[..|es| - 1])
  {
  }

  lemma {:induction false} SenderCount(es: seq<EncryptedShare>)
    requires DistinctSenders(es)
    ensures |Senders(es)| == |es|
  {
    if es != [] {
      var k := |es| - 1;
      SenderCount(es[..k]);
      SendersExtend(es);
    }
  }

  // ---------- Round two, share by share ----------

  ghost predicate SharesMatch<S(!new)>(C: CipherSuite<S>, st: State<S>, es: seq<EncryptedShare>,
                                       shares: map<u32, SecretShare<S>>)
    requires forall i :: 0 <= i < |es| ==> es[i].sender in st.theirDhPublicKeys
  {
    && shares.Keys <= Senders(es)
    && forall i :: 0 <= i < |es| ==> StoredIfOpened(C, st, es[i], shares)
  }

  ghost predicate StoredIfOpened<S(!new)>(C: CipherSuite<S>, st: State<S>, e: EncryptedShare,
                                          shares: map<u32, SecretShare<S>>)
    requires e.sender in st.theirDhPublicKeys
  {
    if e.sender in shares then Opened(C, st, e) == Some(shares[e.sender]) else Opened(C, st, e) == None
  }

  ghost predicate ComplaintsMatch<S(!new)>(C: CipherSuite<S>, st: State<S>, es: seq<EncryptedShare>, draws: seq<S>,
                                           cs: seq<Complaint<S>>)
    requires st.theirCommitments.Some? && |es| <= |draws|
    requires forall i :: 0 <= i < |es| ==> es[i].sender in st.theirDhPublicKeys
  {
    && |cs| <= |es|
    && (forall i :: 0 <= i < |es| && Bad(C, st, es[i]) ==> ComplaintOn(C, st, es[i], draws[i]) in cs)
    && (forall c :: c in cs ==>
          exists i :: 0 <= i < |es| && Bad(C, st, es[i]) && c == ComplaintOn(C, st, es[i], draws[i]))
  }

  /** What collecting leaves: every share that opens, and one complaint for every bad one. */
  lemma {:induction false} CollectMatches<S(!new)>(C: CipherSuite<S>, st: State<S>, es: seq<EncryptedShare>,
                                                   draws: seq<S>)
    requires st.theirCommitments.Some? && |es| <= |draws|
    requires DistinctSenders(es)
    requires forall i :: 0 <= i < |es| ==> es[i].sender in st.theirDhPublicKeys
    ensures Collect(C, st, es, draws).Ok?
    ensures SharesMatch(C, st, es, Collect(C, st, es, draws).value.shares)
    ensures ComplaintsMatch(C, st, es, draws, Collect(C, st, es, draws).value.complaints)
    decreases |es|
  {
    if es != [] {
      var k := |es| - 1;
      CollectMatches(C, st, es[..k], draws);
      var before := Collect(C, st, es[..k], draws).value;
      var after := Collect(C, st, es, draws).value;
      SendersExtend(es);
      SharesExtend(C, st, es, before.shares, after.shares);
      ComplaintsExtend(C, st, es, draws, before.complaints, after.complaints);
    }
  }

  /** Handling one sender does not change what holds of another. */
  lemma StoredKept<S(!new)>(C: CipherSuite<S>, st: State<S>, e: EncryptedShare, last: EncryptedShare,
                            before: map<u32, SecretShare<S>>, share: Option<SecretShare<S>>)
    requires e.sender in st.theirDhPublicKeys && e.sender != last.sender
    requires StoredIfOpened(C, st, e, before)
    ensures StoredIfOpened(C, st, e, AddOpened(before, last, share))
  {
  }

  ghost function AddOpened<S>(before: map<u32, SecretShare<S>>, e: EncryptedShare, share: Option<SecretShare<S>>)
      : map<u32, SecretShare<S>>
  {
    if share.Some? then before[e.sender := share.value] else before
  }

  lemma SharesExtend<S(!new)>(C: CipherSuite<S>, st: State<S>, es: seq<EncryptedShare>,
                              before: map<u32, SecretShare<S>>, after: map<u32, SecretShare<S>>)
    requires es != [] && DistinctSenders(es)
    requires forall i :: 0 <= i < |es| ==> es[i].sender in st.theirDhPublicKeys
    requires SharesMatch(C, st, es[..|es| - 1], before)
    requires Senders(es) == Senders(es[..|es| - 1]) + {es[|es| - 1].sender}
    requires es[|es| - 1].sender !in Senders(es[..|es| - 1])
    requires after == AddOpened(before, es[|es| - 1], Opened(C, st, es[|es| - 1]))
    ensures SharesMatch(C, st, es, after)
  {
    var k := |es| - 1;
    forall i | 0 <= i < k
      ensures StoredIfOpened(C, st, es[i], after)
    {
      assert es[..k][i] == es[i];
      StoredKept(C, st, es[i], es[k], before, Opened(C, st, es[k]));
    }
  }

  lemma ComplaintsExtend<S(!new)>(C: CipherSuite<S>, st: State<S>, es: seq<EncryptedShare>, draws: seq<S>,
                                  before: seq<Complaint<S>>, after: seq<Complaint<S>>)
    requires es != [] && st.theirCommitments.Some? && |es| <= |draws|
    requires forall i :: 0 <= i < |es| ==> es[i].sender in st.theirDhPublicKeys
    requires ComplaintsMatch(C, st, es[..|es| - 1], draws, before)
    requires var k := |es| - 1;
             after == if Bad(C, st, es[k]) then before + [ComplaintOn(C, st, es[k], draws[k])] else before
    ensures ComplaintsMatch(C, st, es, draws, after)
  {
  }

  /** What round two leaves behind, given at most one share from each valid dealer. */
  ghost predicate Outcome<S(!new)>(C: CipherSuite<S>, st: State<S>, es: seq<EncryptedShare>, draws: seq<S>,
                                   mid: State<S>, own: seq<Complaint<S>>)
  {
    && Started(C, st) && AtMostOneEach(st, es) && |es| <= |draws|
    && mid.mySecretShares.Some?
    && mid == st.(theirEncryptedShares := None, mySecretShares := mid.mySecretShares)
    && Collect(C, st, es, draws) == Ok(Collected(mid.mySecretShares.value, own))
  }

  lemma KnownSenders<S(!new)>(C: CipherSuite<S>, st: State<S>, es: seq<EncryptedShare>)
    requires Started(C, st) && AtMostOneEach(st, es)
    ensures forall i :: 0 <= i < |es| ==>
              es[i].sender in st.theirDhPublicKeys && es[i].sender in st.theirCommitments.value
  {
  }

  lemma CollectFits<S(!new)>(C: CipherSuite<S>, st: State<S>, es: seq<EncryptedShare>, draws: seq<S>)
    requires Started(C, st) && AtMostOneEach(st, es) && |es| <= |draws|
    ensures Collect(C, st, es, draws).Ok?
    ensures |Collect(C, st, es, draws).value.complaints| <= st.parameters.n
  {
    KnownSenders(C, st, es);
    CollectMatches(C, st, es, draws);
    SenderCount(es);
    SubsetSize(Senders(es), st.theirCommitments.value.Keys);
  }

  /**
   With at most one share from each valid dealer, round two neither meets an unknown index nor
   subtracts below zero; unless shares or good dealers are too few, it has the outcome above.
   */
  lemma RoundTwoOutcome<S(!new)>(C: CipherSuite<S>, st: State<S>, es: seq<EncryptedShare>, draws: seq<S>)
    requires Started(C, st) && AtMostOneEach(st, es) && |es| <= |draws|
    ensures var r := ToRoundTwo(C, st, es, draws);
            match r
            case Ok((mid, own)) => Outcome(C, st, es, draws, mid, own)
            case Err(error) => error.MissingShares? || error.TooManyComplaints?
  {
    CollectFits(C, st, es, draws);
  }

  // ---------- When round two succeeds ----------

  lemma {:induction false} CollectErrorsExactly<S(!new)>(C: CipherSuite<S>, st: State<S>, es: seq<EncryptedShare>,
                                                         draws: seq<S>)
    requires |es| <= |draws|
    ensures Collect(C, st, es, draws) == Err(InvalidShareIndices)
       <==> exists i :: 0 <= i < |es| && es[i].sender !in st.theirDhPublicKeys && (i == 0 || st.theirCommitments.Some?)
    ensures Collect(C, st, es, draws) == Err(Panicked)
       <==> es != [] && st.theirCommitments.None? && es[0].sender in st.theirDhPublicKeys
    ensures Collect(C, st, es, draws).Err? ==>
              Collect(C, st, es, draws).error == InvalidShareIndices || Collect(C, st, es, draws).error == Panicked
    decreases |es|
  {
    if es != [] {
      var k := |es| - 1;
      CollectErrorsExactly(C, st, es[..k], draws);
      if i :| 0 <= i < k && es[..k][i].sender !in st.theirDhPublicKeys && (i == 0 || st.theirCommitments.Some?) {
        assert es[i] == es[..k][i];
      }
      assert forall i :: 0 <= i < k ==> es[..k][i] == es[i];
    }
  }

  /**
   Before complaints are counted, round two fails exactly for fewer than t shares, for a share of an
   unknown sender, or by a panic if the state has no commitments.
   */
  lemma RoundTwoErrorsExactly<S(!new)>(C: CipherSuite<S>, st: State<S>, es: seq<EncryptedShare>, draws: seq<S>)
    requires |es| <= |draws| && st.parameters.Valid()
    ensures var r := ToRoundTwo(C, st, es, draws);
            && (r == Err(MissingShares) <==> |es| < st.parameters.t)
            && (r == Err(InvalidShareIndices)
                <==> |es| >= st.parameters.t
                     && exists i :: 0 <= i < |es| && es[i].sender !in st.theirDhPublicKeys
                                    && (i == 0 || st.theirCommitments.Some?))
            && (|es| >= st.parameters.t && st.theirCommitments.None? && es[0].sender in st.theirDhPublicKeys ==>
                  r == Err(Panicked))
  {
    CollectErrorsExactly(C, st, es, draws);
  }

  /** Too many complaints leave fewer than t dealers, or panic if there are more than n; all of them are returned. */
  lemma TooManyComplaintsExactly<S(!new)>(C: CipherSuite<S>, st: State<S>, es: seq<EncryptedShare>, draws: seq<S>)
    requires st.theirCommitments.Some? && st.parameters.t <= |es| <= |draws| && DistinctSenders(es)
    requires forall i :: 0 <= i < |es| ==> es[i].sender in st.theirDhPublicKeys
    ensures var r, bad := ToRoundTwo(C, st, es, draws), |SendersOf(C, st, es, true)|;
            && (r == Err(Panicked) <==> bad > st.parameters.n)
            && (r.Err? && bad <= st.parameters.n <==> bad <= st.parameters.n < bad + st.parameters.t)
            && (r.Err? && bad <= st.parameters.n ==>
                  && r.error.TooManyComplaints? && |r.error.complaints| == bad
                  && ComplaintsMatch(C, st, es, draws, r.error.complaints))
  {
    ComplaintCount(C, st, es, draws);
    CollectMatches(C, st, es, draws);
  }

  /** The dealers whose shares are bad, or are good. */
  ghost function SendersOf<S(!new)>(C: CipherSuite<S>, st: State<S>, es: seq<EncryptedShare>, bad: bool): set<u32>
    requires st.theirCommitments.Some? && forall i :: 0 <= i < |es| ==> es[i].sender in st.theirDhPublicKeys
  {
    set i | 0 <= i < |es| && Bad(C, st, es[i]) == bad :: es[i].sender
  }

  lemma SendersOfExtend<S(!new)>(C: CipherSuite<S>, st: State<S>, es: seq<EncryptedShare>, bad: bool)
    requires st.theirCommitments.Some? && forall i :: 0 <= i < |es| ==> es[i].sender in st.theirDhPublicKeys
    requires es != [] && DistinctSenders(es)
    ensures var k := |es| - 1;
            && es[k].sender !in SendersOf(C, st, es[..k], bad)
            && SendersOf(C, st, es, bad)
               == SendersOf(C, st, es[..k], bad) + if Bad(C, st, es[k]) == bad then {es[k].sender} else {}
  {
    var k := |es| - 1;
    var before, after := SendersOf(C, st, es[..k], bad), SendersOf(C, st, es, bad);
    forall x | x in after
      ensures x in before || (x == es[k].sender && Bad(C, st, es[k]) == bad)
    {
      var i :| 0 <= i < |es| && Bad(C, st, es[i]) == bad && es[i].sender == x;
      assert i < k ==> es[..k][i] == es[i];
    }
    forall x | x in before
      ensures x in after && x != es[k].sender
    {
      var i :| 0 <= i < k && Bad(C, st, es[..k][i]) == bad && es[..k][i].sender == x;
      assert es[i] == es[..k][i];
    }
  }

  lemma {:induction false} ComplaintCount<S(!new)>(C: CipherSuite<S>, st: State<S>, es: seq<EncryptedShare>,
                                                   draws: seq<S>)
    requires st.theirCommitments.Some? && |es| <= |draws| && DistinctSenders(es)
    requires forall i :: 0 <= i < |es| ==> es[i].sender in st.theirDhPublicKeys
    ensures Collect(C, st, es, draws).Ok?
    ensures |Collect(C, st, es, draws).value.complaints| == |SendersOf(C, st, es, true)|
    ensures |es| == |SendersOf(C, st, es, true)| + |SendersOf(C, st, es, false)|
    decreases |es|
  {
    if es != [] {
      ComplaintCount(C, st, es[..|es| - 1], draws);
      SendersOfExtend(C, st, es, true);
      SendersOfExtend(C, st, es, false);
    }
  }

  /** With one share from each of the n valid dealers, round two succeeds exactly if t of the shares are good. */
  lemma RoundTwoSucceedsExactly<S(!new)>(C: CipherSuite<S>, st: State<S>, es: seq<EncryptedShare>, draws: seq<S>)
    requires Started(C, st) && OneShareEach(st, es) && |es| <= |draws|
    requires |st.theirCommitments.value.Keys| == st.parameters.n
    ensures forall i :: 0 <= i < |es| ==> es[i].sender in st.theirDhPublicKeys
    ensures ToRoundTwo(C, st, es, draws).Ok? <==> |SendersOf(C, st, es, false)| >= st.parameters.t
  {
    KnownSenders(C, st, es);
    SenderCount(es);
    ComplaintCount(C, st, es, draws);
  }

  lemma ShareStored<S(!new)>(C: CipherSuite<S>, st: State<S>, es: seq<EncryptedShare>, draws: seq<S>,
                             mid: State<S>, own: seq<Complaint<S>>, i: nat)
    requires Outcome(C, st, es, draws, mid, own) && i < |es|
    ensures es[i].sender in st.theirDhPublicKeys && es[i].sender in st.theirCommitments.value
    ensures es[i].sender in mid.mySecretShares.value <==> Opened(C, st, es[i]).Some?
    ensures es[i].sender in mid.mySecretShares.value ==>
              mid.mySecretShares.value[es[i].sender] == Opened(C, st, es[i]).value
    ensures mid.mySecretShares.value.Keys <= st.theirCommitments.value.Keys
  {
    KnownSenders(C, st, es);
    CollectMatches(C, st, es, draws);
  }

  lemma OwnComplaint<S(!new)>(C: CipherSuite<S>, st: State<S>, es: seq<EncryptedShare>, draws: seq<S>,
                              mid: State<S>, own: seq<Complaint<S>>, i: nat)
    requires Outcome(C, st, es, draws, mid, own) && i < |es|
    ensures es[i].sender in st.theirDhPublicKeys && es[i].sender in st.theirCommitments.value
    ensures Bad(C, st, es[i]) ==> ComplaintOn(C, st, es[i], draws[i]) in own
  {
    KnownSenders(C, st, es);
    CollectMatches(C, st, es, draws);
  }

  lemma ComplaintOrigin<S(!new)>(C: CipherSuite<S>, st: State<S>, es: seq<EncryptedShare>, draws: seq<S>,
                                 mid: State<S>, own: seq<Complaint<S>>, c: Complaint<S>) returns (i: nat)
    requires Outcome(C, st, es, draws, mid, own) && c in own
    ensures i < |es| && es[i].sender in st.theirDhPublicKeys && es[i].sender in st.theirCommitments.value
    ensures Bad(C, st, es[i]) && c == ComplaintOn(C, st, es[i], draws[i])
  {
    KnownSenders(C, st, es);
    CollectMatches(C, st, es, draws);
    i :| 0 <= i < |es| && Bad(C, st, es[i]) && c == ComplaintOn(C, st, es[i], draws[i]);
  }

  // ---------- Verdicts ----------

  /** What `decrypt_share` opens the share of the complaint to, under the shared key it discloses. */
  ghost function Disclosed<S(!new)>(C: CipherSuite<S>, c: Complaint<S>): Option<S>
  {
    C.unseal(C.compress(c.dhSharedKey), c.encryptedShare.nonce, c.encryptedShare.ciphertext)
  }

  /** The accused is within n and held, and both equations of the complaint hold for its key. */
  ghost predicate Substantiated<S(!new)>(C: CipherSuite<S>, st: State<S>, c: Complaint<S>)
    requires st.theirCommitments.Some?
  {
    var accused := c.encryptedShare.sender;
    && 0 < accused <= st.parameters.n && accused in st.theirCommitments.value
    && ComplaintEquations(C, c, if accused in st.theirDhPublicKeys then st.theirDhPublicKeys[accused] else C.Identity())
  }

  /**
   Whoever made the complaint and however: it counts against the accused if and only if it is
   substantiated and the share does not open to the value of the committed polynomial; otherwise
   against its maker.
   */
  lemma VerdictExactly<S(!new)>(C: CipherSuite<S>, st: State<S>, c: Complaint<S>)
    requires C.F.Valid() && st.theirCommitments.Some?
    ensures var accused, maker := c.encryptedShare.sender, c.encryptedShare.receiver;
            Verdict(C, st, c)
            == if && Substantiated(C, st, c)
                  && Disclosed(C, c) != Some(PowerSum(C.F, Dlogs(st.theirCommitments.value[accused].points),
                                                      C.F.From(maker)))
               then accused else maker
  {
    var accused := c.encryptedShare.sender;
    if accused in st.theirCommitments.value {
      var share := DecryptShare(C, c.encryptedShare, c.dhSharedKey);
      if share.Some? {
        ShareVerifiesExactly(C, share.value, st.theirCommitments.value[accused]);
      }
    }
  }

  /** A complaint whose proof fails counts against its maker, whatever share it shows. */
  lemma FailedProofBlamesMaker<S(!new)>(C: CipherSuite<S>, st: State<S>, c: Complaint<S>)
    requires C.F.Valid() && st.theirCommitments.Some?
    requires c.encryptedShare.sender in st.theirDhPublicKeys
    requires !ComplaintEquations(C, c, st.theirDhPublicKeys[c.encryptedShare.sender])
    ensures Verdict(C, st, c) == c.encryptedShare.receiver
  {
    VerdictExactly(C, st, c);
  }

  /** A complaint about any share with a proof that no hash function can make hold. */
  function FalseComplaint<S(!new)>(C: CipherSuite<S>, sharedKey: Point<S>, e: EncryptedShare): Complaint<S>
  {
    Complaint(sharedKey, C.Identity(), e, ComplaintProof(C.Base(C.F.one), C.Identity(), C.F.zero))
  }

  /** It removes its maker and not the dealer it accuses, even if the share is bad. */
  lemma FalseComplaintRemovesMaker<S(!new)>(C: CipherSuite<S>, st: State<S>, sharedKey: Point<S>, e: EncryptedShare)
    requires C.F.Valid() && st.theirCommitments.Some? && st.mySecretShares.Some?
    requires e.sender in st.theirCommitments.value && e.sender != e.receiver
    ensures var end := Blame(C, st, [FalseComplaint(C, sharedKey, e)]);
            end.theirCommitments.value.Keys == st.theirCommitments.value.Keys - {e.receiver}
  {
    var c := FalseComplaint(C, sharedKey, e);
    var A := if e.sender in st.theirDhPublicKeys then st.theirDhPublicKeys[e.sender] else C.Identity();
    if ComplaintEquations(C, c, A) {
      // the first equation would read 0 = 1 + 0 h
      var h := C.hashComplaint(C.compress(c.dhPublicKey) + C.compress(A) + C.compress(c.dhSharedKey)
                               + C.compress(c.proof.a1) + C.compress(c.proof.a2) + C.compressShare(e));
      C.F.MulZero(h);
      C.F.AddZero(C.F.one);
      assert false;
    }
    VerdictExactly(C, st, c);
    assert [c][0] == c;
    assert Blamed(C, st, [c]) == {e.receiver};
  }

  /** Whose fault the code takes it to be: the dealer's if it is within n and the share is bad, else the maker's. */
  ghost function AtFault<S(!new)>(C: CipherSuite<S>, st: State<S>, f: Filed<S>): u32
    requires SharesView(st, f)
  {
    if 0 < f.e.sender <= st.parameters.n && Bad(C, f.maker, f.e) then f.e.sender else f.e.receiver
  }

  /** A complaint as its maker files it: the maker's own state, the share, and a random scalar. */
  datatype Filed<S> = Filed(maker: State<S>, e: EncryptedShare, r: S)

  /** The maker knows the same commitments and keys, and the key of the dealer it accuses. */
  ghost predicate SharesView<S(!new)>(st: State<S>, f: Filed<S>)
  {
    && st.theirCommitments.Some?
    && f.maker.theirCommitments == st.theirCommitments && f.maker.theirDhPublicKeys == st.theirDhPublicKeys
    && f.e.sender in st.theirDhPublicKeys
  }

  /**
   A complaint made by `Complaint::new`, with whatever secret key, counts against the accused exactly
   when its index is at most the stored n and the share is bad under that key; otherwise against the
   maker.
   */
  lemma CorrectVerdict<S(!new)>(C: CipherSuite<S>, st: State<S>, f: Filed<S>)
    requires C.F.Valid() && SharesView(st, f)
    ensures Verdict(C, st, ComplaintOn(C, f.maker, f.e, f.r)) == AtFault(C, st, f)
  {
    var key := st.theirDhPublicKeys[f.e.sender];
    ComplaintVerifiesExactly(C, key, f.maker.dhPrivateKey, C.GMul(key, f.maker.dhPrivateKey), f.e, f.r);
  }

  ghost predicate AllFiled<S(!new)>(C: CipherSuite<S>, st: State<S>, cs: seq<Complaint<S>>, filed: seq<Filed<S>>)
  {
    && |filed| == |cs|
    && forall i :: 0 <= i < |cs| ==>
         SharesView(st, filed[i]) && cs[i] == ComplaintOn(C, filed[i].maker, filed[i].e, filed[i].r)
  }

  /** When all complaints come from `Complaint::new`, a settlement removes exactly those at fault in this sense. */
  lemma BlamedExactly<S(!new)>(C: CipherSuite<S>, st: State<S>, cs: seq<Complaint<S>>, filed: seq<Filed<S>>, x: u32)
    requires C.F.Valid() && st.theirCommitments.Some? && AllFiled(C, st, cs, filed)
    ensures x in Blamed(C, st, cs) <==> exists i :: 0 <= i < |cs| && AtFault(C, st, filed[i]) == x
  {
    forall i | 0 <= i < |cs|
      ensures Verdict(C, st, cs[i]) == AtFault(C, st, filed[i])
    {
      CorrectVerdict(C, st, filed[i]);
    }
  }

  // ---------- Consistency ----------

  /** Shares and commitments from the same dealers, every share on its committed polynomial. */
  ghost predicate Consistent<S(!new)>(C: CipherSuite<S>, st: State<S>)
  {
    && st.theirCommitments.Some? && st.mySecretShares.Some?
    && st.theirCommitments.value.Keys == st.mySecretShares.value.Keys
    && forall l :: l in st.mySecretShares.value ==>
         && st.mySecretShares.value[l].receiver == st.index
         && ShareVerifies(C, st.mySecretShares.value[l], st.theirCommitments.value[l])
  }

  ghost predicate AccusesWithin<S>(cs: seq<Complaint<S>>, n: u32)
  {
    forall c :: c in cs ==> c.encryptedShare.sender <= n
  }

  ghost predicate Includes<S>(batch: seq<Complaint<S>>, own: seq<Complaint<S>>)
  {
    forall c :: c in own ==> c in batch
  }

  /** A participant's own complaint settles on its target when the target is at most n. */
  lemma OwnComplaintSettles<S(!new)>(C: CipherSuite<S>, st: State<S>, mid: State<S>, e: EncryptedShare, r: S)
    requires C.F.Valid() && Started(C, st)
    requires mid == st.(theirEncryptedShares := None, mySecretShares := mid.mySecretShares)
    requires e.sender in st.theirCommitments.value && e.receiver == st.index
    requires Bad(C, st, e)
    ensures Verdict(C, mid, ComplaintOn(C, st, e, r)) == if e.sender <= st.parameters.n then e.sender else st.index
  {
    CorrectVerdict(C, mid, Filed(st, e, r));
  }

  lemma BlamedMember<S(!new)>(C: CipherSuite<S>, st: State<S>, cs: seq<Complaint<S>>, c: Complaint<S>)
    requires st.theirCommitments.Some? && c in cs
    ensures Verdict(C, st, c) in Blamed(C, st, cs)
  {
  }

  /** A dealer that survives a settlement and is not complained about has dealt a good share. */
  lemma SurvivorIsGood<S(!new)>(C: CipherSuite<S>, st: State<S>, es: seq<EncryptedShare>, draws: seq<S>,
                                mid: State<S>, own: seq<Complaint<S>>, l: u32)
    requires C.F.Valid() && Outcome(C, st, es, draws, mid, own)
    requires l in Senders(es) && forall c :: c in own ==> c.encryptedShare.sender != l
    ensures l in mid.mySecretShares.value && l in st.theirCommitments.value
    ensures mid.mySecretShares.value[l].receiver == st.index
    ensures ShareVerifies(C, mid.mySecretShares.value[l], st.theirCommitments.value[l])
  {
    var i :| 0 <= i < |es| && es[i].sender == l;
    ShareStored(C, st, es, draws, mid, own, i);
    OwnComplaint(C, st, es, draws, mid, own, i);
    assert ComplaintOn(C, st, es[i], draws[i]).encryptedShare == es[i];
  }

  /** The dealers that sent no share are settled against. */
  ghost predicate WithheldSettled<S(!new)>(C: CipherSuite<S>, st: State<S>, es: seq<EncryptedShare>, mid: State<S>,
                                      batch: seq<Complaint<S>>)
    requires st.theirCommitments.Some? && mid.theirCommitments.Some?
  {
    forall l :: l in st.theirCommitments.value && l !in Senders(es) ==> l in Blamed(C, mid, batch)
  }

  lemma SettledConsistent<S(!new)>(C: CipherSuite<S>, st: State<S>, es: seq<EncryptedShare>, draws: seq<S>,
                                   mid: State<S>, own: seq<Complaint<S>>, batch: seq<Complaint<S>>)
    requires C.F.Valid() && Outcome(C, st, es, draws, mid, own)
    requires forall c :: c in own ==> c.encryptedShare.sender in Blamed(C, mid, batch)
    requires WithheldSettled(C, st, es, mid, batch)
    ensures Consistent(C, Blame(C, mid, batch))
  {
    var blamed := Blamed(C, mid, batch);
    forall l | l in st.theirCommitments.value && l !in blamed
      ensures l in mid.mySecretShares.value
      ensures mid.mySecretShares.value[l].receiver == st.index
      ensures ShareVerifies(C, mid.mySecretShares.value[l], st.theirCommitments.value[l])
    {
      SurvivorIsGood(C, st, es, draws, mid, own, l);
    }
    StoredFromDealers(C, st, es, draws, mid, own);
  }

  /**
   Round two followed by one settlement that includes the participant's own complaints leaves a
   consistent state, although shares that fail their check are stored until then.
   */
  lemma ConsistentAfterBlame<S(!new)>(C: CipherSuite<S>, st: State<S>, es: seq<EncryptedShare>, draws: seq<S>,
                                      mid: State<S>, own: seq<Complaint<S>>, batch: seq<Complaint<S>>)
    requires C.F.Valid() && Outcome(C, st, es, draws, mid, own) && OneShareEach(st, es)
    requires Includes(batch, own) && AccusesWithin(own, st.parameters.n)
    ensures Consistent(C, Blame(C, mid, batch))
  {
    forall c | c in own
      ensures c.encryptedShare.sender in Blamed(C, mid, batch)
    {
      OwnTargetBlamed(C, st, es, draws, mid, own, batch, c);
    }
    SettledConsistent(C, st, es, draws, mid, own, batch);
  }

  lemma StoredFromDealers<S(!new)>(C: CipherSuite<S>, st: State<S>, es: seq<EncryptedShare>, draws: seq<S>,
                                   mid: State<S>, own: seq<Complaint<S>>)
    requires Outcome(C, st, es, draws, mid, own)
    ensures mid.mySecretShares.value.Keys <= st.theirCommitments.value.Keys
  {
    KnownSenders(C, st, es);
    CollectMatches(C, st, es, draws);
  }

  /**
   Settling any batch leaves a consistent state if and only if it settles against every dealer complained
   about and against every dealer that sent no share, about which nobody can complain.
   */
  lemma ConsistentAfterBatch<S(!new)>(C: CipherSuite<S>, st: State<S>, es: seq<EncryptedShare>, draws: seq<S>,
                                      mid: State<S>, own: seq<Complaint<S>>, batch: seq<Complaint<S>>)
    requires C.F.Valid() && Outcome(C, st, es, draws, mid, own)
    ensures Consistent(C, Blame(C, mid, batch))
       <==> && WithheldSettled(C, st, es, mid, batch)
            && forall c :: c in own ==> c.encryptedShare.sender in Blamed(C, mid, batch)
  {
    if c :| c in own && c.encryptedShare.sender !in Blamed(C, mid, batch) {
      BadDealerStays(C, st, es, draws, mid, own, batch, c);
    } else if l :| l in st.theirCommitments.value && l !in Senders(es) && l !in Blamed(C, mid, batch) {
      SilentDealerStays(C, st, es, draws, mid, own, batch, l);
    } else {
      SettledConsistent(C, st, es, draws, mid, own, batch);
    }
  }

  lemma SilentDealerStays<S(!new)>(C: CipherSuite<S>, st: State<S>, es: seq<EncryptedShare>, draws: seq<S>,
                                   mid: State<S>, own: seq<Complaint<S>>, batch: seq<Complaint<S>>, l: u32)
    requires Outcome(C, st, es, draws, mid, own)
    requires l in st.theirCommitments.value && l !in Senders(es) && l !in Blamed(C, mid, batch)
    ensures !Consistent(C, Blame(C, mid, batch))
  {
    KnownSenders(C, st, es);
    CollectMatches(C, st, es, draws);
    assert l !in mid.mySecretShares.value && l in Blame(C, mid, batch).theirCommitments.value;
  }

  /**
   The n that `blame` compares an accused index with was reduced in round one. A batch of complaints
   made by `Complaint::new`, one's own among them, leaves a consistent state if and only if every
   dealer above that n against whom one complains is itself the maker of a complaint that counts
   against it.
   */
  lemma ConsistentBatchExactly<S(!new)>(C: CipherSuite<S>, st: State<S>, es: seq<EncryptedShare>, draws: seq<S>,
                                        mid: State<S>, own: seq<Complaint<S>>, batch: seq<Complaint<S>>,
                                        filed: seq<Filed<S>>)
    requires C.F.Valid() && Outcome(C, st, es, draws, mid, own) && OneShareEach(st, es)
    requires Includes(batch, own) && AllFiled(C, mid, batch, filed)
    ensures Consistent(C, Blame(C, mid, batch))
       <==> forall c :: c in own && c.encryptedShare.sender > st.parameters.n ==>
              CounterBlamed(C, mid, filed, c.encryptedShare.sender)
  {
    ConsistentAfterBatch(C, st, es, draws, mid, own, batch);
    forall c | c in own
      ensures c.encryptedShare.sender in Blamed(C, mid, batch)
         <==> c.encryptedShare.sender <= st.parameters.n || CounterBlamed(C, mid, filed, c.encryptedShare.sender)
    {
      if c.encryptedShare.sender <= st.parameters.n {
        OwnTargetBlamed(C, st, es, draws, mid, own, batch, c);
      } else {
        BlamedAbove(C, mid, batch, filed, c.encryptedShare.sender);
      }
    }
  }

  /** A settlement that includes an own complaint removes its target, if that is at most n. */
  lemma OwnTargetBlamed<S(!new)>(C: CipherSuite<S>, st: State<S>, es: seq<EncryptedShare>, draws: seq<S>,
                                 mid: State<S>, own: seq<Complaint<S>>, batch: seq<Complaint<S>>, c: Complaint<S>)
    requires C.F.Valid() && Outcome(C, st, es, draws, mid, own) && c in own && c in batch
    requires c.encryptedShare.sender <= st.parameters.n
    ensures c.encryptedShare.sender in Blamed(C, mid, batch)
  {
    var i := ComplaintOrigin(C, st, es, draws, mid, own, c);
    OwnComplaintSettles(C, st, mid, es[i], draws[i]);
    BlamedMember(C, mid, batch, c);
  }

  /** An index above n can only be removed as the maker of a complaint. */
  lemma BlamedAbove<S(!new)>(C: CipherSuite<S>, st: State<S>, cs: seq<Complaint<S>>, filed: seq<Filed<S>>, x: u32)
    requires C.F.Valid() && st.theirCommitments.Some? && AllFiled(C, st, cs, filed) && x > st.parameters.n
    ensures x in Blamed(C, st, cs) <==> CounterBlamed(C, st, filed, x)
  {
    BlamedExactly(C, st, cs, filed, x);
  }

  /** Some complaint made by this participant counts against it. */
  ghost predicate CounterBlamed<S(!new)>(C: CipherSuite<S>, st: State<S>, filed: seq<Filed<S>>, x: u32)
    requires forall i :: 0 <= i < |filed| ==> SharesView(st, filed[i])
  {
    exists i :: 0 <= i < |filed| && filed[i].e.receiver == x && AtFault(C, st, filed[i]) == x
  }

  /**
   Settling exactly one's own complaints leaves a consistent state if and only if every accused
   index is at most that n. The participant's share to itself is taken to be good.
   */
  lemma ConsistentExactly<S(!new)>(C: CipherSuite<S>, st: State<S>, es: seq<EncryptedShare>, draws: seq<S>,
                                   mid: State<S>, own: seq<Complaint<S>>)
    requires C.F.Valid() && Outcome(C, st, es, draws, mid, own) && OneShareEach(st, es)
    requires forall c :: c in own ==> c.encryptedShare.sender != st.index
    ensures Consistent(C, Blame(C, mid, own)) <==> AccusesWithin(own, st.parameters.n)
  {
    ConsistentAfterBatch(C, st, es, draws, mid, own, own);
    forall c | c in own
      ensures c.encryptedShare.sender in Blamed(C, mid, own) <==> c.encryptedShare.sender <= st.parameters.n
    {
      if c.encryptedShare.sender <= st.parameters.n {
        OwnTargetBlamed(C, st, es, draws, mid, own, own, c);
      } else {
        AboveNotBlamed(C, st, es, draws, mid, own, c.encryptedShare.sender);
      }
    }
  }

  lemma AboveNotBlamed<S(!new)>(C: CipherSuite<S>, st: State<S>, es: seq<EncryptedShare>, draws: seq<S>,
                                mid: State<S>, own: seq<Complaint<S>>, l: u32)
    requires C.F.Valid() && Outcome(C, st, es, draws, mid, own)
    requires l > st.parameters.n && l != st.index
    ensures l !in Blamed(C, mid, own)
  {
    forall k | 0 <= k < |own|
      ensures Verdict(C, mid, own[k]) != l
    {
      var i := ComplaintOrigin(C, st, es, draws, mid, own, own[k]);
      OwnComplaintSettles(C, st, mid, es[i], draws[i]);
    }
  }

  lemma BadDealerStays<S(!new)>(C: CipherSuite<S>, st: State<S>, es: seq<EncryptedShare>, draws: seq<S>,
                                mid: State<S>, own: seq<Complaint<S>>, batch: seq<Complaint<S>>, c: Complaint<S>)
    requires C.F.Valid() && Outcome(C, st, es, draws, mid, own)
    requires c in own && c.encryptedShare.sender !in Blamed(C, mid, batch)
    ensures !Consistent(C, Blame(C, mid, batch))
  {
    var l := c.encryptedShare.sender;
    var i := ComplaintOrigin(C, st, es, draws, mid, own, c);
    ShareStored(C, st, es, draws, mid, own, i);
    assert es[i].sender == l;
    assert l in Blame(C, mid, batch).theirCommitments.value;
    if l in mid.mySecretShares.value {
      assert !ShareVerifies(C, mid.mySecretShares.value[l], st.theirCommitments.value[l]);
    }
  }

  // ---------- The keys ----------

  ghost function CommittedPolynomials<S>(commitments: map<u32, VssCommitment<S>>): map<nat, seq<S>>
  {
    map l: nat | l in commitments :: Dlogs(commitments[l].points)
  }

  /** The group's polynomial: the dealers' polynomials combined by their coefficients at zero. */
  ghost function GroupPolynomial<S(!new)>(F: Field<S>, commitments: map<u32, VssCommitment<S>>): seq<S>
  {
    Combine(F, CommittedPolynomials(commitments), commitments.Keys, commitments.Keys)
  }

  lemma GroupPolynomialLength<S(!new)>(F: Field<S>, commitments: map<u32, VssCommitment<S>>, t: nat)
    requires LengthsAtMost(commitments, t)
    ensures |GroupPolynomial(F, commitments)| <= t
  {
    CombineLength(F, CommittedPolynomials(commitments), commitments.Keys, commitments.Keys, t);
  }

  /**
   With all but one commitment of at most t points, the group's polynomial has no power from x^t on
   if and only if that one commits to none.
   */
  lemma DegreeKeptExactly<S(!new)>(F: Field<S>, commitments: map<u32, VssCommitment<S>>, t: nat, l: u32)
    requires F.Valid() && 0 !in commitments && l in commitments
    requires forall j :: j in commitments && j != l ==> |commitments[j].points| <= t
    ensures DegreeBelow(F, GroupPolynomial(F, commitments), t) <==> DegreeBelow(F, Dlogs(commitments[l].points), t)
  {
    CombineDegreeExactly(F, CommittedPolynomials(commitments), commitments.Keys, t, l);
  }

  /** The group key is the value at zero of the group's polynomial, in the exponent. */
  lemma GroupKeyIsConstantTerm<S(!new)>(C: CipherSuite<S>, st: State<S>)
    requires C.F.Valid()
    requires st.theirCommitments.Some? && 0 !in st.theirCommitments.value
    requires AllHavePoints(st.theirCommitments.value)
    ensures GroupKeyOf(C, st) == Ok(C.Base(Eval(C.F, GroupPolynomial(C.F, st.theirCommitments.value), C.F.zero)))
  {
    var commitments := st.theirCommitments.value;
    var polys, y := CommittedPolynomials(commitments), ConstantTerms(commitments);
    assert y.Keys == commitments.Keys;
    forall l | l in commitments
      ensures y[l] == Eval(C.F, polys[l], C.F.zero)
    {
      EvalAtZero(C.F, polys[l]);
    }
    CombineEval(C.F, polys, commitments.Keys, commitments.Keys, C.F.zero, y);
  }

  /** Out of a consistent state come the values of the group's polynomial. */
  lemma FinishConsistent<S(!new)>(C: CipherSuite<S>, st: State<S>)
    requires C.F.Valid() && Consistent(C, st)
    requires 0 !in st.theirCommitments.value && AllHavePoints(st.theirCommitments.value)
    ensures var P := GroupPolynomial(C.F, st.theirCommitments.value);
            Finish(C, st) == Ok((C.Base(Eval(C.F, P, C.F.zero)),
                                 IndividualSigningKey(st.index, Eval(C.F, P, C.F.From(st.index)))))
  {
    var commitments, shares := st.theirCommitments.value, st.mySecretShares.value;
    var polys, y := CommittedPolynomials(commitments), Evaluations(shares);
    assert y.Keys == commitments.Keys;
    forall l | l in commitments
      ensures y[l] == Eval(C.F, polys[l], C.F.From(st.index))
    {
      ShareVerifiesExactly(C, shares[l], commitments[l]);
    }
    CombineEval(C.F, polys, commitments.Keys, commitments.Keys, C.F.From(st.index), y);
    GroupKeyIsConstantTerm(C, st);
  }

  // ---------- The theorem for one and for all honest participants ----------

  /** What settles: an honest participant's run through round two and the batch it then settles. */
  datatype Run<S> = Run(
    start: State<S>,
    received: seq<EncryptedShare>,
    draws: seq<S>,
    middle: State<S>,
    own: seq<Complaint<S>>,
    batch: seq<Complaint<S>>)

  ghost predicate HonestRun<S(!new)>(C: CipherSuite<S>, r: Run<S>)
  {
    && Started(C, r.start) && OneShareEach(r.start, r.received) && |r.received| <= |r.draws|
    && ToRoundTwo(C, r.start, r.received, r.draws) == Ok((r.middle, r.own))
    && AllHavePoints(r.start.theirCommitments.value)
    && Includes(r.batch, r.own)
    && AccusesWithin(r.own, r.start.parameters.n)
    && r.middle.theirCommitments.Some? && r.middle.mySecretShares.Some?
  }

  /** No commitment is longer than k; in a bootstrap round one checks that of k = t, in a resharing of no k. */
  ghost predicate Bounded<S>(r: Run<S>, k: nat)
  {
    r.start.theirCommitments.Some? ==> LengthsAtMost(r.start.theirCommitments.value, k)
  }

  ghost function Final<S(!new)>(C: CipherSuite<S>, r: Run<S>): State<S>
    requires HonestRun(C, r)
  {
    Blame(C, r.middle, r.batch)
  }

  lemma HonestRunFinishes<S(!new)>(C: CipherSuite<S>, r: Run<S>)
    requires C.F.Valid() && HonestRun(C, r)
    ensures var commitments := Final(C, r).theirCommitments;
            && commitments.Some?
            && var P := GroupPolynomial(C.F, commitments.value);
               && (forall k: nat :: Bounded(r, k) ==> |P| <= k)
               && Finish(C, Final(C, r)) == Ok((C.Base(Eval(C.F, P, C.F.zero)),
                                                IndividualSigningKey(r.start.index,
                                                                     Eval(C.F, P, C.F.From(r.start.index)))))
  {
    RoundTwoOutcome(C, r.start, r.received, r.draws);
    ConsistentAfterBlame(C, r.start, r.received, r.draws, r.middle, r.own, r.batch);
    FinishConsistent(C, Final(C, r));
    forall k: nat | Bounded(r, k)
      ensures |GroupPolynomial(C.F, Final(C, r).theirCommitments.value)| <= k
    {
      GroupPolynomialLength(C.F, Final(C, r).theirCommitments.value, k);
    }
  }

  /** Participants of one session: the same round-one view, the same complaints in any order. */
  ghost predicate SameSession<S(!new)>(a: Run<S>, b: Run<S>)
  {
    && a.start.parameters == b.start.parameters
    && a.start.theirCommitments == b.start.theirCommitments
    && a.start.theirDhPublicKeys == b.start.theirDhPublicKeys
    && (forall c :: c in a.batch <==> c in b.batch)
  }

  /** The settled indices depend only on the set of complaints, not on order or repetition. */
  lemma BlamedAgree<S(!new)>(C: CipherSuite<S>, a: State<S>, b: State<S>, cs: seq<Complaint<S>>, ds: seq<Complaint<S>>)
    requires a.theirCommitments.Some? && a.theirCommitments == b.theirCommitments
    requires a.theirDhPublicKeys == b.theirDhPublicKeys && a.parameters == b.parameters
    requires forall c :: c in cs <==> c in ds
    ensures Blamed(C, a, cs) == Blamed(C, b, ds)
  {
    forall x | x in Blamed(C, a, cs)
      ensures x in Blamed(C, b, ds)
    {
      var i :| 0 <= i < |cs| && Verdict(C, a, cs[i]) == x;
      assert cs[i] in ds;
      BlamedMember(C, b, ds, cs[i]);
      assert Verdict(C, b, cs[i]) == x;
    }
    forall x | x in Blamed(C, b, ds)
      ensures x in Blamed(C, a, cs)
    {
      var i :| 0 <= i < |ds| && Verdict(C, b, ds[i]) == x;
      assert ds[i] in cs;
      BlamedMember(C, a, cs, ds[i]);
      assert Verdict(C, a, ds[i]) == x;
    }
  }

  /**
   So participants with one view who settle the same complaints remove the same dealers, keep the
   same commitments, report the same keys in the same order and reach the same group key.
   */
  lemma SettlementAgrees<S(!new)>(C: CipherSuite<S>, a: State<S>, b: State<S>, cs: seq<Complaint<S>>,
                                  ds: seq<Complaint<S>>)
    requires a.theirCommitments.Some? && a.theirCommitments == b.theirCommitments
    requires a.mySecretShares.Some? && b.mySecretShares.Some?
    requires a.theirDhPublicKeys == b.theirDhPublicKeys && a.parameters == b.parameters
    requires forall c :: c in cs <==> c in ds
    ensures BlamedList(C, a, cs) == BlamedList(C, b, ds)
    ensures KeysOf(a.theirDhPublicKeys, BlamedList(C, a, cs)) == KeysOf(b.theirDhPublicKeys, BlamedList(C, b, ds))
    ensures Blame(C, a, cs).theirCommitments == Blame(C, b, ds).theirCommitments
    ensures GroupKeyOf(C, Blame(C, a, cs)) == GroupKeyOf(C, Blame(C, b, ds))
  {
    BlamedAgree(C, a, b, cs, ds);
    BlamedListMembers(C, a, cs);
    BlamedListMembers(C, b, ds);
    IncreasingUnique(BlamedList(C, a, cs), BlamedList(C, b, ds));
  }

  lemma {:induction false} KeysOfMembers<S(!new)>(keys: map<u32, Point<S>>, indices: seq<u32>, p: Point<S>)
    ensures p in KeysOf(keys, indices) <==> exists x :: x in indices && x in keys && keys[x] == p
  {
    if indices != [] {
      var k := |indices| - 1;
      KeysOfMembers(keys, indices[..k], p);
      assert indices == indices[..k] + [indices[k]];
    }
  }

  /** The keys reported are those of the blamed participants whose key is known. */
  lemma BlamedKeys<S(!new)>(C: CipherSuite<S>, st: State<S>, cs: seq<Complaint<S>>, p: Point<S>)
    requires st.theirCommitments.Some?
    ensures p in KeysOf(st.theirDhPublicKeys, BlamedList(C, st, cs))
       <==> exists x :: x in Blamed(C, st, cs) && x in st.theirDhPublicKeys && st.theirDhPublicKeys[x] == p
  {
    BlamedListMembers(C, st, cs);
    KeysOfMembers(st.theirDhPublicKeys, BlamedList(C, st, cs), p);
    assert forall x :: x in BlamedList(C, st, cs) <==> x in Blamed(C, st, cs);
  }

  /** The known ones among increasing indices, and their keys in that order. */
  lemma {:induction false} KeysInOrder<S(!new)>(keys: map<u32, Point<S>>, indices: seq<u32>) returns (known: seq<u32>)
    requires Increasing(indices)
    ensures Increasing(known) && forall x :: x in known <==> x in indices && x in keys
    ensures |KeysOf(keys, indices)| == |known|
    ensures forall i :: 0 <= i < |known| ==> KeysOf(keys, indices)[i] == keys[known[i]]
  {
    known := [];
    if indices != [] {
      var k := |indices| - 1;
      var before := KeysInOrder(keys, indices[..k]);
      assert indices == indices[..k] + [indices[k]];
      known := if indices[k] in keys then before + [indices[k]] else before;
      if indices[k] in keys {
        IncreasingAppend(before, indices[k], indices[..k]);
      }
    }
  }

  lemma IncreasingAppend(xs: seq<u32>, x: u32, bound: seq<u32>)
    requires Increasing(xs) && (forall y :: y in xs ==> y in bound) && forall j :: 0 <= j < |bound| ==> bound[j] < x
    ensures Increasing(xs + [x])
  {
    forall i | 0 <= i < |xs|
      ensures xs[i] < x
    {
      assert xs[i] in bound;
    }
  }

  /** They are reported in ascending order of their indices, each once. */
  lemma BlamedKeysInOrder<S(!new)>(C: CipherSuite<S>, st: State<S>, cs: seq<Complaint<S>>) returns (known: seq<u32>)
    requires st.theirCommitments.Some?
    ensures Increasing(known) && forall x :: x in known <==> x in Blamed(C, st, cs) && x in st.theirDhPublicKeys
    ensures var reported := KeysOf(st.theirDhPublicKeys, BlamedList(C, st, cs));
            |reported| == |known| && forall i :: 0 <= i < |known| ==> reported[i] == st.theirDhPublicKeys[known[i]]
  {
    BlamedListMembers(C, st, cs);
    known := KeysInOrder(st.theirDhPublicKeys, BlamedList(C, st, cs));
    assert forall x :: x in BlamedList(C, st, cs) <==> x in Blamed(C, st, cs);
  }

  lemma FinalCommitmentsAgree<S(!new)>(C: CipherSuite<S>, a: Run<S>, b: Run<S>)
    requires C.F.Valid() && HonestRun(C, a) && HonestRun(C, b) && SameSession(a, b)
    ensures Final(C, a).theirCommitments == Final(C, b).theirCommitments
  {
    RoundTwoOutcome(C, a.start, a.received, a.draws);
    RoundTwoOutcome(C, b.start, b.received, b.draws);
    BlamedAgree(C, a.middle, b.middle, a.batch, b.batch);
  }

  /**
   For dealers of any kind: all honest participants of a session finish with one group key, and
   their keys are the values of one polynomial P whose value at zero is the secret of the group key.
   P has no more coefficients than the longest commitment, so at most t after a bootstrap.
   */
  lemma RobustKeys<S(!new)>(C: CipherSuite<S>, runs: seq<Run<S>>) returns (P: seq<S>)
    requires C.F.Valid() && runs != []
    requires forall i :: 0 <= i < |runs| ==> HonestRun(C, runs[i]) && SameSession(runs[0], runs[i])
    ensures Final(C, runs[0]).theirCommitments.Some?
    ensures P == GroupPolynomial(C.F, Final(C, runs[0]).theirCommitments.value)
    ensures forall k: nat :: Bounded(runs[0], k) ==> |P| <= k
    ensures forall i :: 0 <= i < |runs| ==>
              Finish(C, Final(C, runs[i])) == Ok((C.Base(Eval(C.F, P, C.F.zero)),
                IndividualSigningKey(runs[i].start.index, Eval(C.F, P, C.F.From(runs[i].start.index)))))
  {
    HonestRunFinishes(C, runs[0]);
    P := GroupPolynomial(C.F, Final(C, runs[0]).theirCommitments.value);
    forall i | 0 <= i < |runs|
      ensures Finish(C, Final(C, runs[i])) == Ok((C.Base(Eval(C.F, P, C.F.zero)),
                IndividualSigningKey(runs[i].start.index, Eval(C.F, P, C.F.From(runs[i].start.index)))))
    {
      HonestRunFinishes(C, runs[i]);
      FinalCommitmentsAgree(C, runs[0], runs[i]);
    }
  }

  /** Any t of those keys from distinct participants interpolate to the group's secret, if no commitment is longer. */
  lemma ThresholdRecovers<S(!new)>(C: CipherSuite<S>, runs: seq<Run<S>>, keys: map<nat, S>, groupKey: Point<S>, t: nat)
    requires C.F.Valid() && runs != []
    requires forall i :: 0 <= i < |runs| ==> HonestRun(C, runs[i]) && SameSession(runs[0], runs[i])
    requires Bounded(runs[0], t)
    requires Finish(C, Final(C, runs[0])).Ok? && Finish(C, Final(C, runs[0])).value.0 == groupKey
    requires |keys.Keys| >= t
    requires forall k :: k in keys ==>
               exists i :: 0 <= i < |runs| && runs[i].start.index == k
                        && Finish(C, Final(C, runs[i])).Ok? && Finish(C, Final(C, runs[i])).value.1.key == keys[k]
    ensures C.Base(Interpolate(C.F, keys)) == groupKey
  {
    var P := RobustKeys(C, runs);
    LagrangeAtZero(C.F, P, keys, keys.Keys);
  }

  /**
   The threshold is tight: with t - 1 keys, the secret comes out only if the polynomial happens to
   have no coefficient t - 1.
   */
  lemma OneKeyShortExactly<S(!new)>(C: CipherSuite<S>, runs: seq<Run<S>>, keys: map<nat, S>, groupKey: Point<S>, t: nat)
    requires C.F.Valid() && runs != []
    requires forall i :: 0 <= i < |runs| ==> HonestRun(C, runs[i]) && SameSession(runs[0], runs[i])
    requires Bounded(runs[0], t)
    requires Finish(C, Final(C, runs[0])).Ok? && Finish(C, Final(C, runs[0])).value.0 == groupKey
    requires |keys.Keys| + 1 == t && 0 !in keys
    requires forall k :: k in keys ==>
               exists i :: 0 <= i < |runs| && runs[i].start.index == k
                        && Finish(C, Final(C, runs[i])).Ok? && Finish(C, Final(C, runs[i])).value.1.key == keys[k]
    ensures Final(C, runs[0]).theirCommitments.Some?
    ensures var P := GroupPolynomial(C.F, Final(C, runs[0]).theirCommitments.value);
            C.Base(Interpolate(C.F, keys)) == groupKey <==> CoefficientAt(C.F, P, t - 1) == C.F.zero
  {
    var P := RobustKeys(C, runs);
    ValuesTellExactly(C.F, P, keys, t - 1);
  }
}
