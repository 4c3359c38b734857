/** What round one keeps: nobody is lost or duplicated, and honest dealers are never excluded. */
module RoundOneFacts {
  import opened Wrappers
  import opened Fields
  import opened Polynomials
  import opened CipherSuites
  import opened KnowledgeProofs
  import opened Participants
  import opened KeyGeneration
  import opened RobustKeyGeneration

  ghost predicate DistinctIndices<S>(ps: seq<Participant<S>>)
  {
    forall i, j :: 0 <= i < j < |ps| ==> ps[i].index != ps[j].index
  }

  ghost function IndicesOf<S>(ps: seq<Participant<S>>): (xs: seq<u32>)
    ensures |xs| == |ps|
  {
    seq(|ps|, i requires 0 <= i < |ps| => ps[i].index)
  }

  lemma IndicesExtend<S>(ps: seq<Participant<S>>, p: Participant<S>)
    ensures multiset(IndicesOf(ps + [p])) == multiset(IndicesOf(ps)) + multiset{p.index}
  {
    assert IndicesOf(ps + [p]) == IndicesOf(ps) + [p.index];
  }

  /** As many entries as there are, with the same indices, repetitions included. */
  ghost predicate Partitions<S>(ps: seq<Participant<S>>, valid: seq<Participant<S>>, misbehaving: seq<u32>)
  {
    && |valid| + |misbehaving| == |ps|
    && multiset(IndicesOf(valid)) + multiset(misbehaving) == multiset(IndicesOf(ps))
  }

  lemma PartitionStep<S>(valid: seq<Participant<S>>, misbehaving: seq<u32>, ps: seq<Participant<S>>, p: Participant<S>)
    requires Partitions(ps, valid, misbehaving)
    ensures Partitions(ps + [p], valid + [p], misbehaving) && Partitions(ps + [p], valid, misbehaving + [p.index])
  {
    IndicesExtend(ps, p);
    IndicesExtend(valid, p);
  }

  lemma PrefixStep<S(!new)>(C: CipherSuite<S>, parameters: Parameters, ps: seq<Participant<S>>, i: nat,
                            fromDealer: bool, fromSigner: bool)
    requires i < |ps|
    ensures var check := CheckParticipant(C, parameters, ps[i], fromDealer, fromSigner);
            var valid := Valid(C, parameters, ps[..i], fromDealer, fromSigner);
            var misbehaving := Misbehaving(C, parameters, ps[..i], fromDealer, fromSigner);
            && Valid(C, parameters, ps[..i + 1], fromDealer, fromSigner)
               == (if check.Accept? then valid + [ps[i]] else valid)
            && Misbehaving(C, parameters, ps[..i + 1], fromDealer, fromSigner)
               == (if check.Accept? then misbehaving else misbehaving + [ps[i].index])
            && SomePanics(C, parameters, ps[..i + 1], fromDealer, fromSigner)
               == (check.Panics? || SomePanics(C, parameters, ps[..i], fromDealer, fromSigner))
  {
    assert ps[..i + 1][..i] == ps[..i];
  }

  lemma PartitionNext<S(!new)>(C: CipherSuite<S>, parameters: Parameters, ps: seq<Participant<S>>, k: nat,
                               fromDealer: bool, fromSigner: bool)
    requires k < |ps| && Partitioned(C, parameters, ps[..k], fromDealer, fromSigner)
    ensures Partitioned(C, parameters, ps[..k + 1], fromDealer, fromSigner)
  {
    PrefixStep(C, parameters, ps, k, fromDealer, fromSigner);
    PartitionStep(Valid(C, parameters, ps[..k], fromDealer, fromSigner),
                  Misbehaving(C, parameters, ps[..k], fromDealer, fromSigner), ps[..k], ps[k]);
    assert ps[..k] + [ps[k]] == ps[..k + 1];
  }

  /** Valid and misbehaving entries partition the list, repetitions included. */
  ghost predicate Partitioned<S(!new)>(C: CipherSuite<S>, parameters: Parameters, ps: seq<Participant<S>>,
                                       fromDealer: bool, fromSigner: bool)
  {
    Partitions(ps, Valid(C, parameters, ps, fromDealer, fromSigner),
               Misbehaving(C, parameters, ps, fromDealer, fromSigner))
  }

  lemma RoundOnePartition<S(!new)>(C: CipherSuite<S>, parameters: Parameters, ps: seq<Participant<S>>,
                                   fromDealer: bool, fromSigner: bool)
    ensures Partitioned(C, parameters, ps, fromDealer, fromSigner)
  {
    for k := 0 to |ps|
      invariant Partitioned(C, parameters, ps[..k], fromDealer, fromSigner)
    {
      PartitionNext(C, parameters, ps, k, fromDealer, fromSigner);
    }
    assert ps[..|ps|] == ps;
  }

  lemma {:induction false} ValidMembers<S(!new)>(C: CipherSuite<S>, parameters: Parameters, ps: seq<Participant<S>>,
                                                 fromDealer: bool, fromSigner: bool, p: Participant<S>)
    ensures p in Valid(C, parameters, ps, fromDealer, fromSigner)
       <==> p in ps && CheckParticipant(C, parameters, p, fromDealer, fromSigner) == Accept
    decreases |ps|
  {
    if ps != [] {
      var k := |ps| - 1;
      ValidMembers(C, parameters, ps[..k], fromDealer, fromSigner, p);
      assert ps == ps[..k] + [ps[k]];
    }
  }

  lemma {:induction false} ValidDistinct<S(!new)>(C: CipherSuite<S>, parameters: Parameters, ps: seq<Participant<S>>,
                                                  fromDealer: bool, fromSigner: bool)
    requires DistinctIndices(ps)
    ensures DistinctIndices(Valid(C, parameters, ps, fromDealer, fromSigner))
    decreases |ps|
  {
    if ps != [] {
      var k := |ps| - 1;
      var rest := Valid(C, parameters, ps[..k], fromDealer, fromSigner);
      ValidDistinct(C, parameters, ps[..k], fromDealer, fromSigner);
      forall i | 0 <= i < |rest|
        ensures rest[i].index != ps[k].index
      {
        ValidMembers(C, parameters, ps[..k], fromDealer, fromSigner, rest[i]);
        assert rest[i] in ps[..k];
      }
    }
  }

  // ---------- The maps keyed by index ----------

  ghost function IndexSet<S>(ps: seq<Participant<S>>): (s: set<u32>)
    ensures forall p :: p in ps ==> p.index in s
  {
    set i | 0 <= i < |ps| :: ps[i].index
  }

  lemma IndexSetExtend<S>(ps: seq<Participant<S>>)
    requires ps != []
    ensures IndexSet(ps) == IndexSet(ps[..|ps| - 1]) + {ps[|ps| - 1].index}
    ensures DistinctIndices(ps) ==> ps[|ps| - 1].index !in IndexSet(ps[..|ps| - 1])
  {
  }

  lemma {:induction false} IndexCount<S>(ps: seq<Participant<S>>)
    requires DistinctIndices(ps)
    ensures |IndexSet(ps)| == |ps|
  {
    if ps != [] {
      var k := |ps| - 1;
      IndexCount(ps[..k]);
      IndexSetExtend(ps);
    }
  }

  ghost predicate AllCommitted<S>(ps: seq<Participant<S>>)
  {
    forall p :: p in ps ==> p.commitments.Some?
  }

  lemma {:induction false} MapKeys<S>(ps: seq<Participant<S>>)
    ensures DhKeysOf(ps).Keys == IndexSet(ps)
    ensures AllCommitted(ps) ==> CommitmentsOf(ps).Keys == IndexSet(ps)
  {
    if ps != [] {
      MapKeys(ps[..|ps| - 1]);
      IndexSetExtend(ps);
    }
  }

  lemma {:induction false} MapEntry<S>(ps: seq<Participant<S>>, p: Participant<S>)
    requires DistinctIndices(ps) && p in ps
    ensures p.index in DhKeysOf(ps) && DhKeysOf(ps)[p.index] == p.dhPublicKey
    ensures p.commitments.Some? ==>
              p.index in CommitmentsOf(ps) && CommitmentsOf(ps)[p.index] == p.commitments.value
  {
    var k := |ps| - 1;
    assert ps == ps[..k] + [ps[k]];
    if p != ps[k] {
      MapEntry(ps[..k], p);
      var i :| 0 <= i < k && ps[i] == p;
    }
  }

  /** When packets repeat an index, round one keeps the last of them. */
  lemma {:induction false} LastPacketCounts<S>(ps: seq<Participant<S>>, i: nat)
    requires AllCommitted(ps) && i < |ps| && forall j :: i < j < |ps| ==> ps[j].index != ps[i].index
    ensures ps[i].index in DhKeysOf(ps) && DhKeysOf(ps)[ps[i].index] == ps[i].dhPublicKey
    ensures ps[i].index in CommitmentsOf(ps) && CommitmentsOf(ps)[ps[i].index] == ps[i].commitments.value
  {
    var k := |ps| - 1;
    assert ps[k].commitments.Some?;
    if i < k {
      assert AllCommitted(ps[..k]);
      LastPacketCounts(ps[..k], i);
    }
  }

  lemma {:induction false} EncryptedEntry<S(!new)>(C: CipherSuite<S>, myIndex: u32, a: seq<S>, sk: S,
                                                   ps: seq<Participant<S>>, nonces: u32 -> Bytes, p: Participant<S>)
    requires DistinctIndices(ps) && p in ps
    ensures p.index in EncryptedFor(C, myIndex, a, sk, ps, nonces)
    ensures EncryptedFor(C, myIndex, a, sk, ps, nonces)[p.index]
         == EncryptFor(C, myIndex, a, sk, p.index, p.dhPublicKey, nonces)
  {
    var k := |ps| - 1;
    assert ps == ps[..k] + [ps[k]];
    if p != ps[k] {
      EncryptedEntry(C, myIndex, a, sk, ps[..k], nonces, p);
      var i :| 0 <= i < k && ps[i] == p;
    }
  }

  lemma ValidCommitted<S(!new)>(C: CipherSuite<S>, parameters: Parameters, ps: seq<Participant<S>>, fromDealer: bool)
    ensures AllCommitted(Valid(C, parameters, ps, fromDealer, true))
  {
  }

  /**
   A successful round one reduces n by the misbehaving entries, keeps it at least t, and, for
   signers, keys both maps by exactly the valid indices.
   */
  lemma RoundOneConservation<S(!new)>(
    C: CipherSuite<S>, parameters: Parameters, sk: S, myIndex: u32, a: seq<S>,
    ps: seq<Participant<S>>, fromDealer: bool, fromSigner: bool, nonces: u32 -> Bytes)
    requires parameters.Valid()
    requires RoundOne(C, parameters, sk, myIndex, a, ps, fromDealer, fromSigner, nonces).Ok?
    ensures var (st, list) := RoundOne(C, parameters, sk, myIndex, a, ps, fromDealer, fromSigner, nonces).value;
            && parameters.n == |list.valid| + |list.misbehaving|
            && NewParameters<S>(parameters.n - |list.misbehaving|, parameters.t) == Ok(st.parameters)
            && multiset(IndicesOf(list.valid)) + multiset(list.misbehaving) == multiset(IndicesOf(ps))
            && st.theirDhPublicKeys.Keys == IndexSet(list.valid)
            && (fromSigner ==> st.theirCommitments.Some? && st.theirCommitments.value.Keys == IndexSet(list.valid))
  {
    var list := RoundOne(C, parameters, sk, myIndex, a, ps, fromDealer, fromSigner, nonces).value.1;
    RoundOnePartition(C, parameters, ps, fromDealer, fromSigner);
    MapKeys(list.valid);
    if fromSigner {
      ValidCommitted(C, parameters, ps, fromDealer);
    }
  }

  /** A dealer that round one keeps has published a commitment, which gets into the map. */
  lemma KeptCommitment<S(!new)>(C: CipherSuite<S>, parameters: Parameters, ps: seq<Participant<S>>, fromDealer: bool,
                                l: u32)
    requires DistinctIndices(ps) && l in CommitmentsOf(Valid(C, parameters, ps, fromDealer, true))
    ensures var points := CommitmentsOf(Valid(C, parameters, ps, fromDealer, true))[l].points;
            0 < |points| && (fromDealer ==> |points| == parameters.t)
    ensures exists p :: p in ps && p.index == l
  {
    var valid := Valid(C, parameters, ps, fromDealer, true);
    ValidCommitted(C, parameters, ps, fromDealer);
    ValidDistinct(C, parameters, ps, fromDealer, true);
    MapKeys(valid);
    var i :| 0 <= i < |valid| && valid[i].index == l;
    ValidMembers(C, parameters, ps, fromDealer, true, valid[i]);
    MapEntry(valid, valid[i]);
  }

  /** Round one over distinct non-zero indices establishes what round two relies on. */
  lemma RoundOneStarts<S(!new)>(C: CipherSuite<S>, parameters: Parameters, sk: S, myIndex: u32, a: seq<S>,
                                ps: seq<Participant<S>>, fromDealer: bool, nonces: u32 -> Bytes)
    requires parameters.Valid() && DistinctIndices(ps)
    requires forall p :: p in ps ==> p.index != 0
    requires RoundOne(C, parameters, sk, myIndex, a, ps, fromDealer, true, nonces).Ok?
    ensures var st := RoundOne(C, parameters, sk, myIndex, a, ps, fromDealer, true, nonces).value.0;
            && Started(C, st) && |st.theirCommitments.value.Keys| == st.parameters.n
            && AllHavePoints(st.theirCommitments.value)
            && (fromDealer ==> LengthsAtMost(st.theirCommitments.value, parameters.t))
  {
    var (st, list) := RoundOne(C, parameters, sk, myIndex, a, ps, fromDealer, true, nonces).value;
    RoundOneConservation(C, parameters, sk, myIndex, a, ps, fromDealer, true, nonces);
    ValidDistinct(C, parameters, ps, fromDealer, true);
    IndexCount(list.valid);
    forall l | l in st.theirCommitments.value
      ensures l != 0 && 0 < |st.theirCommitments.value[l].points|
      ensures fromDealer ==> |st.theirCommitments.value[l].points| == parameters.t
    {
      KeptCommitment(C, parameters, ps, fromDealer, l);
    }
  }

  /** Two participants who run round one on the same packets, in any order, see the same session. */
  lemma RoundOnesAgree<S(!new)>(
    C: CipherSuite<S>, parameters: Parameters, fromDealer: bool,
    sk: S, myIndex: u32, a: seq<S>, ps: seq<Participant<S>>, nonces: u32 -> Bytes,
    sk': S, myIndex': u32, a': seq<S>, ps': seq<Participant<S>>, nonces': u32 -> Bytes)
    requires parameters.Valid() && DistinctIndices(ps) && DistinctIndices(ps')
    requires forall p :: p in ps <==> p in ps'
    requires RoundOne(C, parameters, sk, myIndex, a, ps, fromDealer, true, nonces).Ok?
    requires RoundOne(C, parameters, sk', myIndex', a', ps', fromDealer, true, nonces').Ok?
    ensures var st := RoundOne(C, parameters, sk, myIndex, a, ps, fromDealer, true, nonces).value.0;
            var st' := RoundOne(C, parameters, sk', myIndex', a', ps', fromDealer, true, nonces').value.0;
            && st.theirCommitments == st'.theirCommitments
            && st.theirDhPublicKeys == st'.theirDhPublicKeys
            && st.parameters == st'.parameters
  {
    var valid, valid' := Valid(C, parameters, ps, fromDealer, true), Valid(C, parameters, ps', fromDealer, true);
    ValidDistinct(C, parameters, ps, fromDealer, true);
    ValidDistinct(C, parameters, ps', fromDealer, true);
    ValidCommitted(C, parameters, ps, fromDealer);
    ValidCommitted(C, parameters, ps', fromDealer);
    forall p
      ensures p in valid <==> p in valid'
    {
      ValidMembers(C, parameters, ps, fromDealer, true, p);
      ValidMembers(C, parameters, ps', fromDealer, true, p);
    }
    MapsAgree(valid, valid');
  }

  lemma MapsAgree<S>(ps: seq<Participant<S>>, ps': seq<Participant<S>>)
    requires DistinctIndices(ps) && DistinctIndices(ps') && AllCommitted(ps) && AllCommitted(ps')
    requires forall p :: p in ps <==> p in ps'
    ensures CommitmentsOf(ps) == CommitmentsOf(ps') && DhKeysOf(ps) == DhKeysOf(ps') && |ps| == |ps'|
  {
    IndexCount(ps);
    IndexCount(ps');
    IndexSetMonotone(ps, ps');
    IndexSetMonotone(ps', ps);
    DhKeysAgree(ps, ps');
    CommitmentsAgree(ps, ps');
  }

  lemma DhKeysAgree<S>(ps: seq<Participant<S>>, ps': seq<Participant<S>>)
    requires DistinctIndices(ps) && DistinctIndices(ps') && AllCommitted(ps)
    requires (forall p :: p in ps ==> p in ps') && IndexSet(ps) == IndexSet(ps')
    ensures DhKeysOf(ps) == DhKeysOf(ps')
  {
    MapKeys(ps);
    MapKeys(ps');
    var m, m' := DhKeysOf(ps), DhKeysOf(ps');
    forall l | l in m
      ensures m[l] == m'[l]
    {
      EntriesAgree(ps, ps', l);
    }
  }

  lemma CommitmentsAgree<S>(ps: seq<Participant<S>>, ps': seq<Participant<S>>)
    requires DistinctIndices(ps) && DistinctIndices(ps') && AllCommitted(ps) && AllCommitted(ps')
    requires (forall p :: p in ps ==> p in ps') && IndexSet(ps) == IndexSet(ps')
    ensures CommitmentsOf(ps) == CommitmentsOf(ps')
  {
    var m, m' := CommitmentsOf(ps), CommitmentsOf(ps');
    assert m.Keys == m'.Keys by {
      MapKeys(ps);
      MapKeys(ps');
    }
    forall l | l in m
      ensures m[l] == m'[l]
    {
      MapKeys(ps);
      EntriesAgree(ps, ps', l);
    }
  }

  lemma IndexSetMonotone<S>(ps: seq<Participant<S>>, ps': seq<Participant<S>>)
    requires forall p :: p in ps ==> p in ps'
    ensures IndexSet(ps) <= IndexSet(ps')
  {
  }

  lemma EntriesAgree<S>(ps: seq<Participant<S>>, ps': seq<Participant<S>>, l: u32)
    requires DistinctIndices(ps) && DistinctIndices(ps') && AllCommitted(ps)
    requires forall p :: p in ps ==> p in ps'
    requires l in IndexSet(ps)
    ensures l in CommitmentsOf(ps) && l in CommitmentsOf(ps') && CommitmentsOf(ps)[l] == CommitmentsOf(ps')[l]
    ensures l in DhKeysOf(ps) && l in DhKeysOf(ps') && DhKeysOf(ps)[l] == DhKeysOf(ps')[l]
  {
    var i :| 0 <= i < |ps| && ps[i].index == l;
    assert ps[i] in ps && ps[i] in ps';
    MapEntry(ps, ps[i]);
    MapEntry(ps', ps[i]);
  }

  // ---------- Honest participants ----------

  /** A dealer made for the session's parameters passes every check, whoever checks. */
  lemma HonestDealerAccepted<S(!new)>(C: CipherSuite<S>, parameters: Parameters, index: u32, a: seq<S>, d: Draws<S>,
                                      fromDealer: bool, fromSigner: bool)
    requires C.F.Valid() && a != []
    requires fromDealer && fromSigner ==> |a| == parameters.t
    ensures CheckParticipant(C, parameters, DealerPacket(C, index, a, d), fromDealer, fromSigner) == Accept
  {
    ProofComplete(C, index, d.dhPrivateKey, d.dhNonce);
    ProofComplete(C, index, a[0], d.secretNonce);
  }

  lemma HonestSignerAccepted<S(!new)>(C: CipherSuite<S>, parameters: Parameters, index: u32, d: Draws<S>)
    requires C.F.Valid()
    ensures CheckParticipant(C, parameters, SignerPacket(C, index, d), true, false) == Accept
  {
    ProofComplete(C, index, d.dhPrivateKey, d.dhNonce);
  }

  // ---------- When round one succeeds ----------

  /** The proof of the DH key verifies and there is a public key, but no proof of the secret key. */
  predicate Unproven<S(==, !new)>(C: CipherSuite<S>, p: Participant<S>)
  {
    Verifies(C, p.proofOfDhPrivateKey, p.index, p.dhPublicKey) && p.PublicKey().Some? && p.proofOfSecretKey.None?
  }

  /** Round one panics exactly if a packet of the list lacks the proof of its secret key in this way. */
  lemma {:induction false} PanicsExactly<S(!new)>(C: CipherSuite<S>, parameters: Parameters, ps: seq<Participant<S>>,
                                                  fromDealer: bool, fromSigner: bool)
    ensures SomePanics(C, parameters, ps, fromDealer, fromSigner)
       <==> fromSigner && exists p :: p in ps && Unproven(C, p)
    decreases |ps|
  {
    if ps != [] {
      var k := |ps| - 1;
      PanicsExactly(C, parameters, ps[..k], fromDealer, fromSigner);
      assert ps == ps[..k] + [ps[k]];
      assert CheckParticipant(C, parameters, ps[k], fromDealer, fromSigner) == Panics
        <==> fromSigner && Unproven(C, ps[k]);
    }
  }

  /** As many packets as n, each with its proof, and at least t that pass the checks. */
  ghost predicate EnoughValid<S(!new)>(C: CipherSuite<S>, parameters: Parameters, ps: seq<Participant<S>>,
                                       fromDealer: bool)
  {
    && |ps| == parameters.n
    && (forall p :: p in ps ==> !Unproven(C, p))
    && |Valid(C, parameters, ps, fromDealer, true)| >= parameters.t
  }

  lemma RoundOneSucceedsExactly<S(!new)>(
    C: CipherSuite<S>, parameters: Parameters, sk: S, myIndex: u32, a: seq<S>,
    ps: seq<Participant<S>>, fromDealer: bool, nonces: u32 -> Bytes)
    ensures RoundOne(C, parameters, sk, myIndex, a, ps, fromDealer, true, nonces).Ok?
       <==> EnoughValid(C, parameters, ps, fromDealer)
  {
    PanicsExactly(C, parameters, ps, fromDealer, true);
  }

  /**
   One packet is enough to stop everybody: an honest dealer's with the proof of its secret key left
   out, among any other packets, makes round one panic where it should turn one dealer away.
   */
  lemma MissingProofPanics<S(!new)>(
    C: CipherSuite<S>, parameters: Parameters, sk: S, myIndex: u32, a: seq<S>,
    ps: seq<Participant<S>>, fromDealer: bool, nonces: u32 -> Bytes, index: u32, b: seq<S>, d: Draws<S>)
    requires C.F.Valid() && b != [] && |ps| + 1 == parameters.n
    ensures var q := DealerPacket(C, index, b, d).(proofOfSecretKey := None);
            RoundOne(C, parameters, sk, myIndex, a, ps + [q], fromDealer, true, nonces) == Err(Panicked)
  {
    var q := DealerPacket(C, index, b, d).(proofOfSecretKey := None);
    ProofComplete(C, index, d.dhPrivateKey, d.dhNonce);
    assert q in ps + [q] && Unproven(C, q);
    PanicsExactly(C, parameters, ps + [q], fromDealer, true);
  }

  /**
   Whatever the rest of the list is, if every packet brings its proof and enough are valid, the
   bootstrap succeeds and counts an honest dealer as valid.
   */
  lemma HonestDealerNeverExcluded<S(!new)>(
    C: CipherSuite<S>, parameters: Parameters, sk: S, myIndex: u32, a: seq<S>,
    ps: seq<Participant<S>>, nonces: u32 -> Bytes, index: u32, b: seq<S>, d: Draws<S>)
    requires C.F.Valid() && b != [] && |b| == parameters.t
    requires DealerPacket(C, index, b, d) in ps && EnoughValid(C, parameters, ps, true)
    ensures var r := RoundOne(C, parameters, sk, myIndex, a, ps, true, true, nonces);
            r.Ok? && DealerPacket(C, index, b, d) in r.value.1.valid
  {
    RoundOneSucceedsExactly(C, parameters, sk, myIndex, a, ps, true, nonces);
    HonestDealerAccepted(C, parameters, index, b, d, true, true);
    ValidMembers(C, parameters, ps, true, true, DealerPacket(C, index, b, d));
  }

  // ---------- Who is kept and who is listed ----------

  /**
   The equation of the DH proof holds and, for signers, there is a first point, the equation of the
   proof of its secret key holds too, and in a bootstrap there are t points.
   */
  ghost predicate Qualifies<S(!new)>(C: CipherSuite<S>, parameters: Parameters, p: Participant<S>,
                                     fromDealer: bool, fromSigner: bool)
  {
    && Proves(C, p.proofOfDhPrivateKey, p.index, p.dhPublicKey)
    && (fromSigner ==>
          && p.commitments.Some? && p.commitments.value.points != []
          && p.proofOfSecretKey.Some?
          && Proves(C, p.proofOfSecretKey.value, p.index, p.commitments.value.points[0])
          && (fromDealer ==> |p.commitments.value.points| == parameters.t))
  }

  lemma AcceptsExactly<S(!new)>(C: CipherSuite<S>, parameters: Parameters, p: Participant<S>,
                                fromDealer: bool, fromSigner: bool)
    requires C.F.Valid()
    ensures CheckParticipant(C, parameters, p, fromDealer, fromSigner) == Accept
       <==> Qualifies(C, parameters, p, fromDealer, fromSigner)
  {
    VerifiesExactly(C, p.proofOfDhPrivateKey, p.index, p.dhPublicKey);
    if p.PublicKey().Some? && p.proofOfSecretKey.Some? {
      VerifiesExactly(C, p.proofOfSecretKey.value, p.index, p.PublicKey().value);
    }
  }

  lemma {:induction false} MisbehavingMembers<S(!new)>(C: CipherSuite<S>, parameters: Parameters,
                                                       ps: seq<Participant<S>>, fromDealer: bool, fromSigner: bool,
                                                       x: u32)
    requires C.F.Valid()
    ensures x in Misbehaving(C, parameters, ps, fromDealer, fromSigner)
       <==> exists p :: p in ps && p.index == x && !Qualifies(C, parameters, p, fromDealer, fromSigner)
    decreases |ps|
  {
    if ps != [] {
      var k := |ps| - 1;
      MisbehavingMembers(C, parameters, ps[..k], fromDealer, fromSigner, x);
      AcceptsExactly(C, parameters, ps[k], fromDealer, fromSigner);
      assert ps == ps[..k] + [ps[k]];
    }
  }

  /** A successful round one keeps exactly the participants that qualify, and lists the others. */
  lemma KeptExactly<S(!new)>(
    C: CipherSuite<S>, parameters: Parameters, sk: S, myIndex: u32, a: seq<S>, ps: seq<Participant<S>>,
    fromDealer: bool, fromSigner: bool, nonces: u32 -> Bytes, p: Participant<S>, x: u32)
    requires C.F.Valid()
    requires RoundOne(C, parameters, sk, myIndex, a, ps, fromDealer, fromSigner, nonces).Ok?
    ensures var list := RoundOne(C, parameters, sk, myIndex, a, ps, fromDealer, fromSigner, nonces).value.1;
            && (p in list.valid <==> p in ps && Qualifies(C, parameters, p, fromDealer, fromSigner))
            && (x in list.misbehaving
                <==> exists q :: q in ps && q.index == x && !Qualifies(C, parameters, q, fromDealer, fromSigner))
  {
    ValidMembers(C, parameters, ps, fromDealer, fromSigner, p);
    AcceptsExactly(C, parameters, p, fromDealer, fromSigner);
    MisbehavingMembers(C, parameters, ps, fromDealer, fromSigner, x);
  }

  /** A dealer's packet whose proof of the secret key has this hash in place of the right one. */
  function ForgedPacket<S(==, !new)>(C: CipherSuite<S>, index: u32, b: seq<S>, d: Draws<S>, s: S): Participant<S>
    requires b != []
  {
    DealerPacket(C, index, b, d)
      .(proofOfSecretKey := Some(KnowledgeProof(s, C.F.Add(d.secretNonce, C.F.Mul(b[0], s)))))
  }

  /** Among any other packets, such a dealer is kept if the hash is right, and listed as misbehaving if it is not. */
  lemma ForgedPacketExactly<S(!new)>(
    C: CipherSuite<S>, parameters: Parameters, sk: S, myIndex: u32, a: seq<S>, ps: seq<Participant<S>>,
    fromDealer: bool, nonces: u32 -> Bytes, index: u32, b: seq<S>, d: Draws<S>, s: S)
    requires C.F.Valid() && b != [] && |b| == parameters.t
    requires ForgedPacket(C, index, b, d, s) in ps
    requires RoundOne(C, parameters, sk, myIndex, a, ps, fromDealer, true, nonces).Ok?
    ensures var list := RoundOne(C, parameters, sk, myIndex, a, ps, fromDealer, true, nonces).value.1;
            if s == C.hash0(LeBytes(index) + C.compress(C.Base(b[0])) + C.compress(C.Base(d.secretNonce)))
            then ForgedPacket(C, index, b, d, s) in list.valid
            else ForgedPacket(C, index, b, d, s) !in list.valid && index in list.misbehaving
  {
    var p := ForgedPacket(C, index, b, d, s);
    ProofComplete(C, index, d.dhPrivateKey, d.dhNonce);
    ForgedProofExactly(C, index, b[0], d.secretNonce, s);
    KeptExactly(C, parameters, sk, myIndex, a, ps, fromDealer, true, nonces, p, index);
    AcceptsExactly(C, parameters, p, fromDealer, true);
  }

  /** Round one fails for a wrong number of packets, a panic, or too few that qualify, and then lists the others. */
  lemma RoundOneErrorsExactly<S(!new)>(
    C: CipherSuite<S>, parameters: Parameters, sk: S, myIndex: u32, a: seq<S>, ps: seq<Participant<S>>,
    fromDealer: bool, fromSigner: bool, nonces: u32 -> Bytes, x: u32)
    requires C.F.Valid()
    ensures var r := RoundOne(C, parameters, sk, myIndex, a, ps, fromDealer, fromSigner, nonces);
            var panics := fromSigner && exists p :: p in ps && Unproven(C, p);
            && (r == Err(InvalidNumberOfParticipants(|ps|, parameters.n)) <==> |ps| != parameters.n)
            && (r == Err(Panicked) <==> |ps| == parameters.n && panics)
            && (r.Err? && |ps| == parameters.n && !panics ==>
                  && r.error.TooManyInvalidParticipants?
                  && (x in r.error.indices
                      <==> exists q :: q in ps && q.index == x && !Qualifies(C, parameters, q, fromDealer, fromSigner)))
  {
    PanicsExactly(C, parameters, ps, fromDealer, fromSigner);
    MisbehavingMembers(C, parameters, ps, fromDealer, fromSigner, x);
  }

  // ---------- What is dealt ----------

  /** The share dealt to a participant of the list: the power sum, sealed under the common key with its own nonce. */
  ghost predicate DealtTo<S(!new)>(C: CipherSuite<S>, e: EncryptedShare, sender: u32, a: seq<S>, sk: S,
                                   p: Participant<S>, nonce: Bytes)
  {
    && e.sender == sender && e.receiver == p.index && e.nonce == nonce
    && e.ciphertext == C.seal(C.compress(C.GMul(p.dhPublicKey, sk)), nonce, PowerSum(C.F, a, C.F.From(p.index)))
  }

  lemma RoundOneDeals<S(!new)>(
    C: CipherSuite<S>, parameters: Parameters, sk: S, myIndex: u32, a: seq<S>, ps: seq<Participant<S>>,
    fromSigner: bool, nonces: u32 -> Bytes, p: Participant<S>)
    requires C.F.Valid() && DistinctIndices(ps) && p in ps
    requires RoundOne(C, parameters, sk, myIndex, a, ps, true, fromSigner, nonces).Ok?
    ensures var shares := RoundOne(C, parameters, sk, myIndex, a, ps, true, fromSigner, nonces).value.0
                            .theirEncryptedShares;
            shares.Some? && p.index in shares.value
            && DealtTo(C, shares.value[p.index], myIndex, a, sk, p, nonces(p.index))
  {
    EncryptedEntry(C, myIndex, a, sk, ps, nonces, p);
    EvalIsPowerSum(C.F, a, C.F.From(p.index));
  }
}
