/** Every node of an honest session has a role: what it meets is what honest dealers send. */
module HonestNodes {
  import opened Wrappers
  import opened Fields
  import opened CipherSuites
  import opened Participants
  import opened DkgEngines
  import opened RoundOneFacts
  import opened HonestSessions
  import opened EngineSteps
  import opened GossipNetwork
  import KG = KeyGeneration

  ghost function Packets<S(!new)>(C: CipherSuite<S>, u: Setup<S>): map<u32, Participant<S>>
    requires u.Valid()
  {
    map l | l in u.secrets.polys :: PacketOf(C, u.secrets, l)
  }

  /** The share that one node deals to another, whatever the order its packets came in. */
  ghost function Deal<S(!new)>(C: CipherSuite<S>, u: Setup<S>, from: u32, to: u32): (e: EncryptedShare)
    requires u.Valid() && from in u.Nodes() && to in u.Nodes()
    ensures e.sender == from
  {
    KG.EncryptFor(C, from, u.secrets.polys[from], u.secrets.draws[from].dhPrivateKey,
                  to, C.Base(u.secrets.draws[to].dhPrivateKey), u.NoncesOf(from))
  }

  ghost function DealtTo<S(!new)>(C: CipherSuite<S>, u: Setup<S>, to: u32): ShareMap
    requires u.Valid() && to in u.Nodes()
  {
    map l | l in u.secrets.polys :: Deal(C, u, l, to)
  }

  ghost function DealtBy<S(!new)>(C: CipherSuite<S>, u: Setup<S>, from: u32): ShareMap
    requires u.Valid() && from in u.Nodes()
  {
    map l | l in u.secrets.polys :: Deal(C, u, from, l)
  }

  /** The role of a node, for any state its bootstrap reaches and any keys it ends with. */
  ghost function RoleWith<S(!new)>(C: CipherSuite<S>, u: Setup<S>, i: u32, start: KG.State<S>,
                                   keys: KeyPair<S>): Role<S>
    requires u.Valid() && i in u.Nodes()
  {
    Role(i, Parameters(|u.Nodes()|, u.t), u.secrets.polys[i], u.secrets.draws[i].dhPrivateKey,
         Packets(C, u), DealtTo(C, u, i), DealtBy(C, u, i), start, keys)
  }

  ghost function StartOf<S(!new)>(C: CipherSuite<S>, u: Setup<S>, i: u32): (st: KG.State<S>)
    requires u.Valid() && i in u.Nodes()
    ensures st.theirCommitments.Some?
  {
    HonestStart(C, u.secrets, Parameters(|u.Nodes()|, u.t), u.secrets.draws[i].dhPrivateKey, i, None)
  }

  ghost function RoleOf<S(!new)>(C: CipherSuite<S>, u: Setup<S>, i: u32): Role<S>
    requires u.Valid() && i in u.Nodes()
  {
    RoleWith(C, u, i, StartOf(C, u, i), JointKeys(C, u.secrets, i))
  }

  ghost function RolesOf<S(!new)>(C: CipherSuite<S>, u: Setup<S>): map<u32, Role<S>>
    requires u.Valid()
  {
    map i | i in u.secrets.polys :: RoleOf(C, u, i)
  }

  lemma PacketLabels<S(!new)>(C: CipherSuite<S>, u: Setup<S>)
    requires u.Valid()
    ensures Packets(C, u).Keys == u.Nodes()
    ensures forall l :: l in Packets(C, u) ==> Packets(C, u)[l].index == l
  {
  }

  lemma ShareKeys<S(!new)>(C: CipherSuite<S>, u: Setup<S>, i: u32)
    requires u.Valid() && i in u.Nodes()
    ensures DealtTo(C, u, i).Keys == DealtBy(C, u, i).Keys == u.Nodes()
    ensures DealtTo(C, u, i)[i] == DealtBy(C, u, i)[i]
  {
  }

  lemma ShareSenders<S(!new)>(C: CipherSuite<S>, u: Setup<S>, i: u32)
    requires u.Valid() && i in u.Nodes()
    ensures forall l :: l in DealtTo(C, u, i) ==> DealtTo(C, u, i)[l].sender == l
  {
  }

  lemma RoleFits<S(!new)>(C: CipherSuite<S>, u: Setup<S>, i: u32, start: KG.State<S>, keys: KeyPair<S>)
    requires u.Valid() && i in u.Nodes() && start.theirCommitments.Some?
    ensures RoleWith(C, u, i, start, keys).Fits()
  {
    PacketLabels(C, u);
    ShareKeys(C, u, i);
    ShareSenders(C, u, i);
  }

  // ---------- The laws of a role ----------

  lemma PacketsHonest<S(!new)>(C: CipherSuite<S>, u: Setup<S>, i: u32, ps: seq<Participant<S>>, heard: set<u32>)
    requires u.Valid() && i in u.Nodes()
    requires PacketsHeld(RoleOf(C, u, i), ps, heard) && |ps| == |u.Nodes()|
    ensures HonestPackets(C, u.secrets, ps)
  {
  }

  lemma EncryptedCovers<S(!new)>(C: CipherSuite<S>, u: Setup<S>, i: u32, ps: seq<Participant<S>>)
    requires u.Valid() && i in u.Nodes() && HonestPackets(C, u.secrets, ps)
    ensures Covers(KG.EncryptedFor(C, i, u.secrets.polys[i], u.secrets.draws[i].dhPrivateKey, ps, u.NoncesOf(i)),
                   DealtBy(C, u, i))
  {
    var s := u.secrets;
    var shares := KG.EncryptedFor(C, i, s.polys[i], s.draws[i].dhPrivateKey, ps, u.NoncesOf(i));
    PacketIndices(C, s, ps);
    forall j | j in DealtBy(C, u, i)
      ensures j in shares && shares[j] == DealtBy(C, u, i)[j]
    {
      EncryptedEntry(C, i, s.polys[i], s.draws[i].dhPrivateKey, ps, u.NoncesOf(i), PacketOf(C, s, j));
    }
  }

  lemma StartLawHolds<S(!new)>(C: CipherSuite<S>, u: Setup<S>, i: u32, ps: seq<Participant<S>>, heard: set<u32>)
    requires C.Valid() && u.Valid() && i in u.Nodes()
    ensures StartLaw(C, RoleOf(C, u, i), u.NoncesOf(i), ps, heard)
  {
    var s := u.secrets;
    if PacketsHeld(RoleOf(C, u, i), ps, heard) && |ps| == |u.Nodes()| {
      PacketsHonest(C, u, i, ps, heard);
      EncryptedCovers(C, u, i, ps);
      HonestRoundOne(C, s, Parameters(|u.Nodes()|, u.t), s.draws[i].dhPrivateKey, i, s.polys[i], ps, true,
                     u.NoncesOf(i));
    }
  }

  lemma SharesHonest<S(!new)>(C: CipherSuite<S>, u: Setup<S>, i: u32, es: seq<EncryptedShare>, got: set<u32>)
    requires u.Valid() && i in u.Nodes()
    requires SharesHeld(RoleOf(C, u, i), es, got) && |es| == |u.Nodes()|
    ensures HonestShares(C, u.secrets, i, C.Base(u.secrets.draws[i].dhPrivateKey), es)
  {
  }

  lemma ClosesHonestly<S(!new)>(C: CipherSuite<S>, u: Setup<S>, i: u32, st: KG.State<S>, es: seq<EncryptedShare>,
                                draws: seq<S>)
    requires C.Valid() && u.Valid() && i in u.Nodes()
    requires st == HonestStart(C, u.secrets, Parameters(|u.Nodes()|, u.t), u.secrets.draws[i].dhPrivateKey, i,
                               st.theirEncryptedShares)
    requires HonestShares(C, u.secrets, i, C.Base(u.secrets.draws[i].dhPrivateKey), es) && |es| <= |draws|
    ensures st.theirCommitments.Some? && Closed(C, st, es, draws) == Ok(JointKeys(C, u.secrets, i))
  {
    HonestRoundTwo(C, u.secrets, st, es, draws);
    HonestFinish(C, u.secrets, HonestMiddle(C, u.secrets, st));
  }

  lemma CloseLawHolds<S(!new)>(C: CipherSuite<S>, u: Setup<S>, i: u32, states: seq<KG.State<S>>,
                               es: seq<EncryptedShare>, got: set<u32>, draws: seq<S>)
    requires C.Valid() && u.Valid() && i in u.Nodes()
    ensures CloseLaw(C, RoleOf(C, u, i), states, es, got, draws)
  {
    var role := RoleOf(C, u, i);
    if Waiting(role, states) && SharesHeld(role, es, got) && |es| == role.parameters.n <= |draws| {
      SharesHonest(C, u, i, es, got);
      ClosesHonestly(C, u, i, states[0], es, draws);
    }
  }

  lemma RoleStartsLawfully<S(!new)>(C: CipherSuite<S>, u: Setup<S>, i: u32)
    requires C.Valid() && u.Valid() && i in u.Nodes()
    ensures StartsLawfully(C, RoleOf(C, u, i), u.NoncesOf(i))
  {
    forall ps, heard
      ensures StartLaw(C, RoleOf(C, u, i), u.NoncesOf(i), ps, heard)
    {
      StartLawHolds(C, u, i, ps, heard);
    }
  }

  lemma RoleClosesLawfully<S(!new)>(C: CipherSuite<S>, u: Setup<S>, i: u32)
    requires C.Valid() && u.Valid() && i in u.Nodes()
    ensures ClosesLawfully(C, RoleOf(C, u, i))
  {
    forall states, es, got, draws
      ensures CloseLaw(C, RoleOf(C, u, i), states, es, got, draws)
    {
      CloseLawHolds(C, u, i, states, es, got, draws);
    }
  }

  lemma RoleLawful<S(!new)>(C: CipherSuite<S>, u: Setup<S>, i: u32)
    requires C.Valid() && u.Valid() && i in u.Nodes()
    ensures Lawful(C, RoleOf(C, u, i), u.NoncesOf(i))
  {
    RoleFits(C, u, i, StartOf(C, u, i), JointKeys(C, u.secrets, i));
    RoleStartsLawfully(C, u, i);
    RoleClosesLawfully(C, u, i);
  }

  lemma RoleStarts<S(!new)>(C: CipherSuite<S>, u: Setup<S>, i: u32, start: KG.State<S>, keys: KeyPair<S>)
    requires u.Valid() && i in u.Nodes() && start.theirCommitments.Some?
    ensures StartsAs(C, RoleWith(C, u, i, start, keys), u.secrets.draws[i])
  {
    RoleFits(C, u, i, start, keys);
  }

  lemma RolesMatch<S(!new)>(C: CipherSuite<S>, u: Setup<S>, i: u32, l: u32)
    requires u.Valid() && i in u.Nodes() && l in u.Nodes()
    ensures Matched(RoleOf(C, u, i), RoleOf(C, u, l))
  {
  }

  lemma RoleIsOk<S(!new)>(C: CipherSuite<S>, u: Setup<S>, i: u32)
    requires C.Valid() && u.Valid() && i in u.Nodes()
    ensures RoleOk(C, u, RoleOf(C, u, i), i)
  {
    PacketLabels(C, u);
    RoleLawful(C, u, i);
    RoleStarts(C, u, i, StartOf(C, u, i), JointKeys(C, u.secrets, i));
  }

  lemma HonestRoles<S(!new)>(C: CipherSuite<S>, u: Setup<S>)
    requires C.Valid() && u.Valid()
    ensures AllOk(C, u, RolesOf(C, u))
  {
    forall i | i in RolesOf(C, u)
      ensures RoleOk(C, u, RolesOf(C, u)[i], i)
    {
      RoleIsOk(C, u, i);
    }
  }

  lemma HonestMatches<S(!new)>(C: CipherSuite<S>, u: Setup<S>)
    requires u.Valid()
    ensures AllMatched(RolesOf(C, u))
  {
    forall i, l | i in RolesOf(C, u) && l in RolesOf(C, u)
      ensures Matched(RolesOf(C, u)[i], RolesOf(C, u)[l])
    {
      RolesMatch(C, u, i, l);
    }
  }

  lemma HonestKeys<S(!new)>(C: CipherSuite<S>, u: Setup<S>)
    requires u.Valid()
    ensures RolesOf(C, u).Keys == u.Nodes()
    ensures forall i :: i in RolesOf(C, u) ==> RolesOf(C, u)[i].keys == JointKeys(C, u.secrets, i)
  {
  }

  /** Roles for an honest session: they fit together, and end with the keys of the joint polynomial. */
  lemma HonestCast<S(!new)>(C: CipherSuite<S>, u: Setup<S>) returns (roles: map<u32, Role<S>>)
    requires C.Valid() && u.Valid()
    ensures Cast(C, u, roles)
    ensures forall i :: i in roles ==> roles[i].keys == JointKeys(C, u.secrets, i)
  {
    roles := RolesOf(C, u);
    HonestKeys(C, u);
    HonestRoles(C, u);
    HonestMatches(C, u);
  }
}
