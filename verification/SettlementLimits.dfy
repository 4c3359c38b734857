/**
 Where settling complaints falls short of its description: a complaint settled in a later call turns
 against its maker, a dealer whose index exceeds the reduced n cannot be removed, one that withholds
 a share cannot be complained about, and nothing ties a complaint to what was sent or to the
 registered key of its maker.
 */
module SettlementLimits {
  import opened Wrappers
  import opened Fields
  import opened Polynomials
  import opened Lagrange
  import opened CipherSuites
  import opened SecretShares
  import opened Complaints
  import opened Participants
  import opened Keys
  import opened KeyGeneration
  import opened RobustKeyGeneration
  import opened SmallSessions

  /**
   After a settlement, every complaint against an index it removed counts against its maker, good
   or not; the verdict on any other complaint has not changed.
   */
  lemma LaterSettlement<S(!new)>(C: CipherSuite<S>, st: State<S>, cs: seq<Complaint<S>>, c: Complaint<S>)
    requires st.theirCommitments.Some? && st.mySecretShares.Some?
    ensures Verdict(C, Blame(C, st, cs), c)
         == if c.encryptedShare.sender in Blamed(C, st, cs) then c.encryptedShare.receiver else Verdict(C, st, c)
  {
  }

  /** The state still has a commitment or a share of this index. */
  ghost predicate Holds<S>(st: State<S>, x: u32)
    requires st.theirCommitments.Some? && st.mySecretShares.Some?
  {
    x in st.theirCommitments.value || x in st.mySecretShares.value
  }

  lemma UnchangedExactly<S(!new)>(C: CipherSuite<S>, st: State<S>, cs: seq<Complaint<S>>)
    requires st.theirCommitments.Some? && st.mySecretShares.Some?
    ensures Blame(C, st, cs) == st <==> forall x :: x in Blamed(C, st, cs) ==> !Holds(st, x)
  {
    var commitments, shares := st.theirCommitments.value, st.mySecretShares.value;
    var blamed := Blamed(C, st, cs);
    if forall x :: x in blamed ==> !Holds(st, x) {
      assert commitments - blamed == commitments && shares - blamed == shares;
    } else {
      var x :| x in blamed && Holds(st, x);
      assert x !in commitments - blamed && x !in shares - blamed;
    }
  }

  /**
   A later batch of complaints against removed dealers leaves the state as it is if and only if none
   of their makers is held any more.
   */
  lemma LaterBatchExactly<S(!new)>(C: CipherSuite<S>, st: State<S>, cs: seq<Complaint<S>>, later: seq<Complaint<S>>)
    requires st.theirCommitments.Some? && st.mySecretShares.Some?
    requires forall c :: c in later ==> c.encryptedShare.sender in Blamed(C, st, cs)
    ensures var once := Blame(C, st, cs);
            Blame(C, once, later) == once <==> forall c :: c in later ==> !Holds(once, c.encryptedShare.receiver)
  {
    var once := Blame(C, st, cs);
    UnchangedExactly(C, once, later);
    forall c | c in later
      ensures c.encryptedShare.receiver in Blamed(C, once, later)
    {
      LaterSettlement(C, st, cs, c);
      BlamedMember(C, once, later, c);
    }
    forall x | x in Blamed(C, once, later)
      ensures exists c :: c in later && c.encryptedShare.receiver == x
    {
      var i :| 0 <= i < |later| && Verdict(C, once, later[i]) == x;
      LaterSettlement(C, st, cs, later[i]);
      assert later[i] in later;
    }
  }

  /** The maker of the complaint is removed with the rest, or was never held. */
  ghost predicate MakerGone<S(!new)>(C: CipherSuite<S>, st: State<S>, cs: seq<Complaint<S>>, c: Complaint<S>)
    requires st.theirCommitments.Some? && st.mySecretShares.Some?
  {
    c.encryptedShare.receiver in Blamed(C, st, cs) || !Holds(st, c.encryptedShare.receiver)
  }

  /** Who is still held and removed by the second settlement is the maker of such a complaint. */
  lemma RemovedAgain<S(!new)>(C: CipherSuite<S>, st: State<S>, cs: seq<Complaint<S>>, x: u32)
    requires st.theirCommitments.Some? && st.mySecretShares.Some?
    requires x in Blamed(C, Blame(C, st, cs), cs) && Holds(Blame(C, st, cs), x)
    ensures exists c :: c in cs && c.encryptedShare.sender in Blamed(C, st, cs) && !MakerGone(C, st, cs, c)
  {
    var i :| 0 <= i < |cs| && Verdict(C, Blame(C, st, cs), cs[i]) == x;
    assert cs[i] in cs;
    LaterSettlement(C, st, cs, cs[i]);
    BlamedMember(C, st, cs, cs[i]);
  }

  lemma RemovesMaker<S(!new)>(C: CipherSuite<S>, st: State<S>, cs: seq<Complaint<S>>, c: Complaint<S>)
    requires st.theirCommitments.Some? && st.mySecretShares.Some?
    requires c in cs && c.encryptedShare.sender in Blamed(C, st, cs) && !MakerGone(C, st, cs, c)
    ensures var x := c.encryptedShare.receiver;
            x in Blamed(C, Blame(C, st, cs), cs) && Holds(Blame(C, st, cs), x)
  {
    LaterSettlement(C, st, cs, c);
    BlamedMember(C, Blame(C, st, cs), cs, c);
  }

  /**
   Settling a batch a second time leaves the state as it is if and only if the makers of all its
   complaints against removed dealers are gone too.
   */
  lemma SettledTwiceExactly<S(!new)>(C: CipherSuite<S>, st: State<S>, cs: seq<Complaint<S>>)
    requires st.theirCommitments.Some? && st.mySecretShares.Some?
    ensures Blame(C, Blame(C, st, cs), cs) == Blame(C, st, cs)
       <==> forall c :: c in cs && c.encryptedShare.sender in Blamed(C, st, cs) ==> MakerGone(C, st, cs, c)
  {
    var once := Blame(C, st, cs);
    UnchangedExactly(C, once, cs);
    if x :| x in Blamed(C, once, cs) && Holds(once, x) {
      RemovedAgain(C, st, cs, x);
    }
    if c :| c in cs && c.encryptedShare.sender in Blamed(C, st, cs) && !MakerGone(C, st, cs, c) {
      RemovesMaker(C, st, cs, c);
    }
  }

  // ---------- A session settled twice ----------

  /** The two dealers deal the constant one, and dealer 2 sends participant 1 the value zero. */
  function Session<S(!new)>(C: CipherSuite<S>, other: u32): Pair<S>
  {
    Pair(other, C.F.one, C.F.one, 1, other)
  }

  /** Participant 1 is left alone with its own share. */
  ghost predicate Alone<S(!new)>(C: CipherSuite<S>, st: State<S>)
  {
    && st.theirCommitments == Some(map[1 := ConstantCommitment(C, 1, C.F.one)])
    && st.mySecretShares == Some(map[1 := SecretShare(1, 1, C.F.one)])
    && Consistent(C, st)
    && Finish(C, st) == Ok((C.Base(C.F.one), IndividualSigningKey(st.index, C.F.one)))
  }

  lemma AloneFinishes<S(!new)>(C: CipherSuite<S>, st: State<S>)
    requires C.F.Valid() && st.index == 1
    requires st.theirCommitments == Some(map[1 := ConstantCommitment(C, 1, C.F.one)])
    requires st.mySecretShares == Some(map[1 := SecretShare(1, 1, C.F.one)])
    ensures Alone(C, st)
  {
    ConstantShareVerifies(C, SecretShare(1, 1, C.F.one), 1, C.F.one);
    OneValue(C.F, C.F.one);
    assert Evaluations(st.mySecretShares.value) == map[1 := C.F.one];
    assert ConstantTerms(st.theirCommitments.value) == map[1 := C.F.one];
  }

  lemma OneValue<S(!new)>(F: Field<S>, a: S)
    requires F.Valid()
    ensures Interpolate(F, map[1 := a]) == a
  {
    var y: map<nat, S> := map[1 := a];
    ConstantEval(F, a, F.From(1));
    ConstantEval(F, a, F.zero);
    assert y.Keys == {1};
    LagrangeAtZero(F, [a], y, {1});
  }

  /** Nothing is left: `finish` then gives the neutral group key, and zero as its secret. */
  ghost predicate Emptied<S(!new)>(C: CipherSuite<S>, st: State<S>)
  {
    && st.theirCommitments == Some(map[])
    && st.mySecretShares == Some(map[])
    && Finish(C, st) == Ok((C.Identity(), IndividualSigningKey(st.index, C.F.zero)))
  }

  lemma EmptyFinishes<S(!new)>(C: CipherSuite<S>, st: State<S>)
    requires st.theirCommitments == Some(map[]) && st.mySecretShares == Some(map[])
    ensures Emptied(C, st)
  {
    assert Evaluations(st.mySecretShares.value) == map[] == ConstantTerms(st.theirCommitments.value);
  }

  /**
   Dealer 2 sends a bad share, participant 1 complains, and everyone settles the complaint: dealer 2
   is removed. Settling it in another call removes the honest participant 1 as well, and with it
   the group key.
   */
  lemma SecondCallRemovesMaker<S(!new)>(C: CipherSuite<S>, d: Draws<S>, nonce: Bytes, nonces: u32 -> Bytes, r: seq<S>)
    requires C.Valid() && |r| == 2
    ensures var w := Session(C, 2);
            var one := RoundOne(C, Parameters(2, 1), d.dhPrivateKey, 1, [w.a], TwoPackets(C, w, d), true, true, nonces);
            && one.Ok?
            && var two := ToRoundTwo(C, one.value.0, PairShares(C, w, C.F.zero, d, nonce), r);
               && two.Ok? && |two.value.1| == 1
               && two.value.0.theirCommitments.Some? && two.value.0.mySecretShares.Some?
               && var once := Blame(C, two.value.0, two.value.1);
                  Alone(C, once) && Emptied(C, Blame(C, once, two.value.1))
  {
    var w := Session(C, 2);
    TwoRoundOne(C, w, d, nonces);
    var st := RoundOne(C, Parameters(2, 1), d.dhPrivateKey, 1, [w.a], TwoPackets(C, w, d), true, true, nonces).value.0;
    PairRoundTwo(C, w, C.F.zero, d, nonce, st, r);
    PairOpened(C, w, C.F.zero, d, nonce, st);
    var e := PairShares(C, w, C.F.zero, d, nonce)[1];
    var mid := PairMiddle(C, w, C.F.zero, d);
    CorrectVerdict(C, mid, Filed(st, e, r[1]));
    SettleOnce(C, mid, ComplaintOn(C, st, e, r[1]));
  }

  lemma SettleOnce<S(!new)>(C: CipherSuite<S>, mid: State<S>, c: Complaint<S>)
    requires C.F.Valid() && mid.index == 1
    requires mid.theirCommitments == Some(PairCommitments(C, Session(C, 2)))
    requires mid.mySecretShares == Some(PairStored(Session(C, 2), C.F.zero))
    requires c.encryptedShare.sender == 2 && c.encryptedShare.receiver == 1 && Verdict(C, mid, c) == 2
    ensures Alone(C, Blame(C, mid, [c])) && Emptied(C, Blame(C, Blame(C, mid, [c]), [c]))
  {
    assert [c][0] == c;
    assert Blamed(C, mid, [c]) == {2};
    assert PairCommitments(C, Session(C, 2)) - {2} == map[1 := ConstantCommitment(C, 1, C.F.one)];
    assert PairStored(Session(C, 2), C.F.zero) - {2} == map[1 := SecretShare(1, 1, C.F.one)];
    var once := Blame(C, mid, [c]);
    AloneFinishes(C, once);
    LaterSettlement(C, mid, [c], c);
    assert Blamed(C, once, [c]) == {1};
    assert once.theirCommitments.value - {1} == map[] && once.mySecretShares.value - {1} == map[];
    EmptyFinishes(C, Blame(C, once, [c]));
  }

  // ---------- A session in which a bad dealer stays ----------

  /**
   Three participants bootstrap with t = 1, and the second is turned away. Dealer 3 then sends
   participant 1 a share off its committed polynomial, and 1 complains. Settling that complaint
   removes 1 and keeps 3, because 3 exceeds the reduced n: the state is not consistent.
   */
  lemma ReducedCountKeepsBadDealer<S(!new)>(C: CipherSuite<S>, d: Draws<S>, nonce: Bytes, nonces: u32 -> Bytes,
                                            r: seq<S>)
    requires C.Valid() && |r| == 2
    ensures var w := Session(C, 3);
            var one := RoundOne(C, Parameters(3, 1), d.dhPrivateKey, 1, [w.a], ThreePackets(C, w, d), true, true,
                                nonces);
            && one.Ok?
            && var two := ToRoundTwo(C, one.value.0, PairShares(C, w, C.F.zero, d, nonce), r);
               && two.Ok? && |two.value.1| == 1
               && two.value.0.theirCommitments.Some? && two.value.0.mySecretShares.Some?
               && var end := Blame(C, two.value.0, two.value.1);
                  end.theirCommitments.value.Keys == {3} && !Consistent(C, end)
  {
    var w := Session(C, 3);
    ThreeRoundOne(C, w, d, nonces);
    var st := RoundOne(C, Parameters(3, 1), d.dhPrivateKey, 1, [w.a], ThreePackets(C, w, d), true, true,
                       nonces).value.0;
    PairRoundTwo(C, w, C.F.zero, d, nonce, st, r);
    var c := ComplaintOn(C, st, PairShares(C, w, C.F.zero, d, nonce)[1], r[1]);
    KeepsThree(C, PairMiddle(C, w, C.F.zero, d), c);
  }

  lemma KeepsThree<S(!new)>(C: CipherSuite<S>, mid: State<S>, c: Complaint<S>)
    requires C.F.Valid() && mid.parameters.n == 2
    requires mid.theirCommitments == Some(PairCommitments(C, Session(C, 3)))
    requires mid.mySecretShares == Some(PairStored(Session(C, 3), C.F.zero))
    requires c.encryptedShare.sender == 3 && c.encryptedShare.receiver == 1
    ensures var end := Blame(C, mid, [c]);
            end.theirCommitments.value.Keys == {3} && !Consistent(C, end)
  {
    assert [c][0] == c;
    assert Blamed(C, mid, [c]) == {1};
    ConstantShareVerifies(C, SecretShare(3, 1, C.F.zero), 3, C.F.one);
  }

  // ---------- A session in which a share is withheld ----------

  /** Participant 1 got no share from dealer 2. */
  ghost function Bereft<S(!new)>(C: CipherSuite<S>, w: Pair<S>, d: Draws<S>): State<S>
  {
    PairStart(C, w, d, None).(mySecretShares := Some(map[1 := SecretShare(1, 1, w.a)]))
  }

  lemma BereftFinishes<S(!new)>(C: CipherSuite<S>, w: Pair<S>, d: Draws<S>)
    requires C.F.Valid() && w.other == 2
    ensures Finish(C, Bereft(C, w, d))
         == Ok((C.Base(C.F.Sub(w.a, C.F.Sub(w.b, w.a))), IndividualSigningKey(1, w.a)))
  {
    var mid := Bereft(C, w, d);
    var y: map<nat, S> := map[1 := w.a, 2 := w.b];
    assert Evaluations(mid.mySecretShares.value) == map[1 := w.a];
    assert ConstantTerms(mid.theirCommitments.value) == y;
    OneValue(C.F, w.a);
    TwoValues(C.F, w.a, w.b, y);
  }

  lemma BereftRoundTwo<S(!new)>(C: CipherSuite<S>, w: Pair<S>, d: Draws<S>, nonce: Bytes, st: State<S>, r: seq<S>)
    requires C.Valid() && w.other == 2 && st == PairStart(C, w, d, st.theirEncryptedShares) && |r| == 2
    ensures ToRoundTwo(C, st, PairShares(C, w, w.b, d, nonce)[..1], r) == Ok((Bereft(C, w, d), []))
  {
    var es := PairShares(C, w, w.b, d, nonce)[..1];
    PairOpened(C, w, w.b, d, nonce, st);
    assert es[..0] == [] && Collect(C, st, es[..0], r) == Ok(Collected(map[], []));
    assert Collect(C, st, es, r) == Ok(Collected(map[1 := SecretShare(1, 1, w.a)], []));
  }

  /**
   With t = 1 every key should be the secret. Dealer 2 publishes its commitment and sends participant 1
   nothing: round two succeeds without a complaint, and `finish` gives a key that is not the secret of
   the group key, unless the two constants are equal.
   */
  lemma WithheldShareMisleads<S(!new)>(C: CipherSuite<S>, a: S, b: S, d: Draws<S>, nonce: Bytes, nonces: u32 -> Bytes,
                                       r: seq<S>)
    requires C.Valid() && |r| == 2 && a != b
    ensures var w := Pair(2, a, b, 1, 2);
            var one := RoundOne(C, Parameters(2, 1), d.dhPrivateKey, 1, [a], TwoPackets(C, w, d), true, true, nonces);
            && one.Ok?
            && var two := ToRoundTwo(C, one.value.0, PairShares(C, w, b, d, nonce)[..1], r);
               && two.Ok? && two.value.1 == []
               && Finish(C, two.value.0).Ok?
               && Finish(C, two.value.0).value.0 != C.Base(Finish(C, two.value.0).value.1.key)
  {
    var w := Pair(2, a, b, 1, 2);
    TwoRoundOne(C, w, d, nonces);
    var st := RoundOne(C, Parameters(2, 1), d.dhPrivateKey, 1, [a], TwoPackets(C, w, d), true, true, nonces).value.0;
    BereftRoundTwo(C, w, d, nonce, st, r);
    BereftFinishes(C, w, d);
    C.F.SubZero(b, a);
    C.F.SubAdd(a, C.F.Sub(b, a));
    C.F.AddComm(a, C.F.Sub(b, a));
    C.F.AddZero(a);
    C.F.AddCancel(C.F.Sub(b, a), C.F.zero, a);
  }

  // ---------- Made-up shares ----------

  /**
   `blame` does not know what was sent. With any key pair, the receiver's registered one included, a
   complaint about a made-up share counts against any dealer up to n, honest or not.
   */
  lemma MadeUpShareAccepted<S(!new)>(C: CipherSuite<S>, st: State<S>, dealer: u32, receiver: u32, sk: S,
                                     nonce: Bytes, r: S)
    returns (c: Complaint<S>)
    requires C.Valid() && st.theirCommitments.Some? && 0 < dealer <= st.parameters.n
    requires dealer in st.theirCommitments.value && dealer in st.theirDhPublicKeys
    ensures c.encryptedShare.sender == dealer && c.encryptedShare.receiver == receiver && c.dhPublicKey == C.Base(sk)
    ensures Verdict(C, st, c) == dealer
  {
    var F, commitment := C.F, st.theirCommitments.value[dealer];
    var value := Eval(F, Dlogs(commitment.points), F.From(receiver));
    var share := SecretShare(dealer, receiver, F.Add(F.one, value));
    var sharedKey := C.GMul(st.theirDhPublicKeys[dealer], sk);
    var e := EncryptShare(C, share, sharedKey, nonce);
    var f := Filed(st.(dhPrivateKey := sk), e, r);
    c := ComplaintOn(C, f.maker, e, r);
    DecryptEncrypt(C, share, sharedKey, nonce);
    ShareVerifiesExactly(C, share, commitment);
    F.AddZero(value);
    F.AddCancel(F.one, F.zero, value);
    CorrectVerdict(C, st, f);
  }

  // ---------- Shares that were sent, under another key ----------

  /** The same complaint, filed with the secret key that belongs to the registered key of its receiver. */
  function WithKey<S>(f: Filed<S>, key: S): Filed<S>
  {
    f.(maker := f.maker.(dhPrivateKey := key))
  }

  /**
   Nor does `blame` compare the key of a complaint with the registered key of its maker. The verdict is
   the one that the registered key gives exactly when the share is bad under both keys or under neither.
   */
  lemma RegisteredVerdictExactly<S(!new)>(C: CipherSuite<S>, st: State<S>, f: Filed<S>, key: S)
    requires C.F.Valid() && SharesView(st, f)
    requires 0 < f.e.sender <= st.parameters.n && f.e.sender != f.e.receiver
    requires f.e.receiver in st.theirDhPublicKeys && st.theirDhPublicKeys[f.e.receiver] == C.Base(key)
    ensures var c := ComplaintOn(C, f.maker, f.e, f.r);
            && (Verdict(C, st, c) == AtFault(C, st, WithKey(f, key))
                <==> (Bad(C, f.maker, f.e) <==> Bad(C, WithKey(f, key).maker, f.e)))
            && (c.dhPublicKey == st.theirDhPublicKeys[f.e.receiver]
                ==> Verdict(C, st, c) == AtFault(C, st, WithKey(f, key)))
  {
    CorrectVerdict(C, st, f);
  }

  /** The share is the one that its dealer, of the polynomial a and the secret key sk, sent to the receiver. */
  ghost predicate WasSent<S(!new)>(C: CipherSuite<S>, st: State<S>, f: Filed<S>, a: seq<S>, sk: S)
    requires SharesView(st, f)
  {
    && f.e.sender in st.theirCommitments.value && f.e.receiver in st.theirDhPublicKeys
    && st.theirCommitments.value[f.e.sender].points == CommitTo(C, a)
    && st.theirDhPublicKeys[f.e.sender] == C.Base(sk)
    && f.e == EncryptShare(C, ShareFor(C.F, f.e.sender, f.e.receiver, a),
                           C.GMul(st.theirDhPublicKeys[f.e.receiver], sk), f.e.nonce)
  }

  /**
   A complaint about a share that an honest dealer sent, filed with any key, counts against the dealer
   exactly if the share does not open under that key to what was sent; it always does under the
   registered key.
   */
  lemma SentShareExactly<S(!new)>(C: CipherSuite<S>, st: State<S>, f: Filed<S>, a: seq<S>, sk: S)
    requires C.Valid() && SharesView(st, f) && WasSent(C, st, f, a, sk)
    requires 0 < f.e.sender <= st.parameters.n && f.e.sender != f.e.receiver
    ensures Verdict(C, st, ComplaintOn(C, f.maker, f.e, f.r)) == f.e.sender
       <==> Opened(C, f.maker, f.e) != Some(ShareFor(C.F, f.e.sender, f.e.receiver, a))
    ensures C.Base(f.maker.dhPrivateKey) == st.theirDhPublicKeys[f.e.receiver] ==>
              Opened(C, f.maker, f.e) == Some(ShareFor(C.F, f.e.sender, f.e.receiver, a))
  {
    var share := ShareFor(C.F, f.e.sender, f.e.receiver, a);
    CorrectVerdict(C, st, f);
    ShareVerifiesExactly(C, share, st.theirCommitments.value[f.e.sender]);
    if Opened(C, f.maker, f.e).Some? {
      ShareVerifiesExactly(C, Opened(C, f.maker, f.e).value, st.theirCommitments.value[f.e.sender]);
    }
    if C.Base(f.maker.dhPrivateKey) == st.theirDhPublicKeys[f.e.receiver] {
      C.F.MulComm(sk, f.maker.dhPrivateKey);
      DecryptEncrypt(C, share, C.GMul(st.theirDhPublicKeys[f.e.receiver], sk), f.e.nonce);
    }
  }

  /** An honest dealer is safe from complaints about a share it sent, filed with the registered key. */
  lemma HonestDealerSafe<S(!new)>(C: CipherSuite<S>, st: State<S>, f: Filed<S>, a: seq<S>, sk: S)
    requires C.Valid() && SharesView(st, f)
    requires f.e.sender in st.theirCommitments.value
    requires st.theirCommitments.value[f.e.sender].points == CommitTo(C, a)
    requires st.theirDhPublicKeys[f.e.sender] == C.Base(sk)
    requires f.e == EncryptShare(C, ShareFor(C.F, f.e.sender, f.e.receiver, a),
                                 C.GMul(C.Base(f.maker.dhPrivateKey), sk), f.e.nonce)
    ensures Verdict(C, st, ComplaintOn(C, f.maker, f.e, f.r)) == f.e.receiver
  {
    var share := ShareFor(C.F, f.e.sender, f.e.receiver, a);
    CorrectVerdict(C, st, f);
    C.F.MulComm(sk, f.maker.dhPrivateKey);
    DecryptEncrypt(C, share, C.GMul(C.Base(f.maker.dhPrivateKey), sk), f.e.nonce);
    ShareVerifiesExactly(C, share, st.theirCommitments.value[f.e.sender]);
  }

  /** If the cipher checks its key, it counts against the dealer exactly if the key is not the registered one. */
  lemma ForeignKeyExactly<S(!new)>(C: CipherSuite<S>, st: State<S>, f: Filed<S>, a: seq<S>, sk: S)
    requires C.Valid() && C.ChecksKeys() && SharesView(st, f) && WasSent(C, st, f, a, sk) && sk != C.F.zero
    requires 0 < f.e.sender <= st.parameters.n && f.e.sender != f.e.receiver
    ensures Verdict(C, st, ComplaintOn(C, f.maker, f.e, f.r)) == f.e.sender
       <==> C.Base(f.maker.dhPrivateKey) != st.theirDhPublicKeys[f.e.receiver]
  {
    SentShareExactly(C, st, f, a, sk);
    var registered := st.theirDhPublicKeys[f.e.receiver];
    var key, other := C.GMul(registered, sk), C.GMul(C.Base(sk), f.maker.dhPrivateKey);
    var share := ShareFor(C.F, f.e.sender, f.e.receiver, a);
    if C.Base(f.maker.dhPrivateKey) != registered {
      C.F.MulComm(sk, f.maker.dhPrivateKey);
      C.F.MulCancel(f.maker.dhPrivateKey, registered.dlog, sk);
      assert C.CompressLaw(key, other);
      assert C.KeyLaw(C.Compress(key), C.Compress(other), f.e.nonce, share.evaluation);
    }
  }

  /**
   Both dealers are honest and participant 1 has no complaint. A complaint in its name about the share
   that dealer 2 did send, filed with another key, removes dealer 2.
   */
  lemma ForeignKeyRemovesHonest<S(!new)>(C: CipherSuite<S>, d: Draws<S>, nonce: Bytes, nonces: u32 -> Bytes, r: seq<S>,
                                         foreign: S)
    requires C.Valid() && C.ChecksKeys() && |r| == 2
    requires d.dhPrivateKey != C.F.zero && foreign != d.dhPrivateKey
    ensures var w := Session(C, 2);
            var one := RoundOne(C, Parameters(2, 1), d.dhPrivateKey, 1, [w.a], TwoPackets(C, w, d), true, true, nonces);
            && one.Ok?
            && var es := PairShares(C, w, w.b, d, nonce);
               var two := ToRoundTwo(C, one.value.0, es, r);
               && two.Ok? && two.value.1 == []
               && two.value.0.theirCommitments.Some? && two.value.0.mySecretShares.Some?
               && 2 in two.value.0.theirDhPublicKeys
               && var c := ComplaintOn(C, two.value.0.(dhPrivateKey := foreign), es[1], r[1]);
                  Blame(C, two.value.0, [c]).theirCommitments.value.Keys == {1}
  {
    var w := Session(C, 2);
    TwoRoundOne(C, w, d, nonces);
    var st := RoundOne(C, Parameters(2, 1), d.dhPrivateKey, 1, [w.a], TwoPackets(C, w, d), true, true, nonces).value.0;
    PairRoundTwo(C, w, w.b, d, nonce, st, r);
    ForeignComplaint(C, w, d, nonce, r[1], foreign);
  }

  lemma ForeignComplaint<S(!new)>(C: CipherSuite<S>, w: Pair<S>, d: Draws<S>, nonce: Bytes, r: S, foreign: S)
    requires C.Valid() && C.ChecksKeys() && w == Session(C, 2)
    requires d.dhPrivateKey != C.F.zero && foreign != d.dhPrivateKey
    ensures var mid := PairMiddle(C, w, w.b, d);
            var c := ComplaintOn(C, mid.(dhPrivateKey := foreign), PairShares(C, w, w.b, d, nonce)[1], r);
            Blame(C, mid, [c]).theirCommitments.value.Keys == {1}
  {
    var mid := PairMiddle(C, w, w.b, d);
    var f := Filed(mid.(dhPrivateKey := foreign), PairShares(C, w, w.b, d, nonce)[1], r);
    ConstantEval(C.F, w.b, C.F.From(1));
    assert WasSent(C, mid, f, [w.b], d.dhPrivateKey);
    ForeignKeyExactly(C, mid, f, [w.b], d.dhPrivateKey);
    var c := ComplaintOn(C, f.maker, f.e, f.r);
    assert [c][0] == c;
    assert Blamed(C, mid, [c]) == {2};
  }
}
