/** Runs of the protocol: safety of every run, agreement of the finished nodes, and who finishes. */
module GossipRuns {
  import opened Wrappers
  import opened Fields
  import opened Polynomials
  import opened Orderings
  import opened CipherSuites
  import opened SecretShares
  import opened Participants
  import opened Keys
  import opened DkgEngines
  import opened RobustKeyGeneration
  import opened RoundOneFacts
  import opened HonestSessions
  import opened EngineSteps
  import opened GossipNetwork
  import opened HonestNodes
  import opened PublicRecomputation

  ghost predicate Takes<S(!new)>(C: CipherSuite<S>, u: Setup<S>, net: Net<S>, step: Step<S>, net': Net<S>)
    requires u.Valid()
  {
    Enabled(u, net, step) && Apply(C, u, net, step) == Ok(net')
  }

  /** Any interleaving: a list of steps and the nets before, between and after them. */
  ghost predicate IsRun<S(!new)>(C: CipherSuite<S>, u: Setup<S>, steps: seq<Step<S>>, nets: seq<Net<S>>)
    requires u.Valid()
  {
    && |nets| == |steps| + 1
    && nets[0] == Initial(u)
    && forall k :: 0 <= k < |steps| ==> TakesAt(C, u, steps, nets, k)
  }

  ghost predicate TakesAt<S(!new)>(C: CipherSuite<S>, u: Setup<S>, steps: seq<Step<S>>, nets: seq<Net<S>>, k: nat)
    requires u.Valid() && k < |steps| < |nets|
  {
    Takes(C, u, nets[k], steps[k], nets[k + 1])
  }

  lemma RunStep<S(!new)>(C: CipherSuite<S>, u: Setup<S>, roles: map<u32, Role<S>>, steps: seq<Step<S>>,
                         nets: seq<Net<S>>, k: nat)
    requires u.Valid() && Cast(C, u, roles) && IsRun(C, u, steps, nets) && k < |steps| && NetInv(roles, nets[k])
    ensures steps[k].to in roles && Kept(roles, nets[k], steps[k], nets[k + 1])
  {
    assert TakesAt(C, u, steps, nets, k);
    StepKeeps(C, u, roles, nets[k], steps[k]);
  }

  lemma NextInv<S(!new)>(C: CipherSuite<S>, u: Setup<S>, roles: map<u32, Role<S>>, steps: seq<Step<S>>,
                         nets: seq<Net<S>>, k: nat)
    requires u.Valid() && Cast(C, u, roles) && IsRun(C, u, steps, nets) && k < |steps| && NetInv(roles, nets[k])
    ensures NetInv(roles, nets[k + 1])
  {
    RunStep(C, u, roles, steps, nets, k);
  }

  lemma FirstInv<S(!new)>(C: CipherSuite<S>, u: Setup<S>, roles: map<u32, Role<S>>, nets: seq<Net<S>>)
    requires u.Valid() && Cast(C, u, roles) && nets != [] && nets[0] == Initial(u)
    ensures NetInv(roles, nets[0])
  {
    InitialInv(C, u, roles);
  }

  lemma RunInv<S(!new)>(C: CipherSuite<S>, u: Setup<S>, roles: map<u32, Role<S>>, steps: seq<Step<S>>,
                                           nets: seq<Net<S>>, k: nat)
    requires u.Valid() && Cast(C, u, roles) && IsRun(C, u, steps, nets) && k <= |steps|
    ensures NetInv(roles, nets[k])
  {
    FirstInv(C, u, roles, nets);
    for i := 0 to k
      invariant NetInv(roles, nets[i])
    {
      NextInv(C, u, roles, steps, nets, i);
    }
  }

  /** No handler ever panics: whatever has happened, every step that may come next succeeds. */
  lemma NoHandlerPanics<S(!new)>(C: CipherSuite<S>, u: Setup<S>, steps: seq<Step<S>>, nets: seq<Net<S>>, next: Step<S>)
    requires C.Valid() && u.Valid() && IsRun(C, u, steps, nets)
    requires Enabled(u, nets[|steps|], next)
    ensures Apply(C, u, nets[|steps|], next).Ok?
  {
    var roles := HonestCast(C, u);
    RunInv(C, u, roles, steps, nets, |steps|);
    StepSafe(C, u, roles, nets[|steps|], next);
  }

  // ---------- Who holds what when it finishes ----------

  lemma FinishedHolds<S(!new)>(role: Role<S>, node: Node<S>)
    requires role.Fits() && NodeInv(role, node) && node.finished != []
    ensures node.finished == [role.keys] && Full(node)
    ensures node.engine.value.states == [] && HasBootstrapped(node.engine.value)
    ensures DistinctSenders(node.engine.value.encryptedShares)
    ensures Senders(node.engine.value.encryptedShares) == role.packets.Keys
  {
    AllSenders(role, node);
  }

  lemma AllSenders<S(!new)>(role: Role<S>, node: Node<S>)
    requires role.Fits() && NodeInv(role, node) && Full(node)
    ensures DistinctSenders(node.engine.value.encryptedShares)
    ensures Senders(node.engine.value.encryptedShares) == role.packets.Keys
  {
    var es := node.engine.value.encryptedShares;
    SenderCount(es);
    assert Senders(es) <= role.dealt.Keys;
    SubsetSize(Senders(es), role.dealt.Keys);
  }

  /**
   Finished nodes agree. Each has put out keys once, holding exactly one share of every node; all have
   the same group key, and their signing keys are the values of one polynomial of at most t
   coefficients whose value at zero is the secret of that key.
   */
  lemma FinishedNodesAgree<S(!new)>(C: CipherSuite<S>, u: Setup<S>, steps: seq<Step<S>>, nets: seq<Net<S>>, i: u32)
    returns (P: seq<S>)
    requires C.Valid() && u.Valid() && IsRun(C, u, steps, nets)
    requires i in u.Nodes() && i in nets[|steps|].nodes && nets[|steps|].nodes[i].finished != []
    ensures P == JointPolynomial(C.F, u.secrets.polys) && |P| <= u.t
    ensures nets[|steps|].nodes[i].finished
         == [(C.Base(Eval(C.F, P, C.F.zero)), IndividualSigningKey(i, Eval(C.F, P, C.F.From(i))))]
    ensures var engine := nets[|steps|].nodes[i].engine;
            engine.Some? && DistinctSenders(engine.value.encryptedShares)
            && Senders(engine.value.encryptedShares) == u.Nodes()
  {
    P := JointPolynomial(C.F, u.secrets.polys);
    JointPolynomialLength(C.F, u.secrets.polys, u.t);
    var roles := HonestCast(C, u);
    FinishedAtEnd(C, u, roles, steps, nets, i);
  }

  lemma FinishedAtEnd<S(!new)>(C: CipherSuite<S>, u: Setup<S>, roles: map<u32, Role<S>>, steps: seq<Step<S>>,
                               nets: seq<Net<S>>, i: u32)
    requires u.Valid() && Cast(C, u, roles) && IsRun(C, u, steps, nets)
    requires i in u.Nodes() && i in nets[|steps|].nodes && nets[|steps|].nodes[i].finished != []
    ensures i in roles && nets[|steps|].nodes[i].finished == [roles[i].keys]
    ensures var engine := nets[|steps|].nodes[i].engine;
            engine.Some? && DistinctSenders(engine.value.encryptedShares)
            && Senders(engine.value.encryptedShares) == u.Nodes()
  {
    NodeAtEnd(C, u, roles, steps, nets, i);
    FinishedHolds(roles[i], nets[|steps|].nodes[i]);
  }

  lemma NodeAtEnd<S(!new)>(C: CipherSuite<S>, u: Setup<S>, roles: map<u32, Role<S>>, steps: seq<Step<S>>,
                           nets: seq<Net<S>>, i: u32)
    requires u.Valid() && Cast(C, u, roles) && IsRun(C, u, steps, nets) && i in u.Nodes()
    ensures i in roles && i in nets[|steps|].nodes && NodeInv(roles[i], nets[|steps|].nodes[i])
    ensures roles[i].Fits() && roles[i].index == i && roles[i].packets.Keys == u.Nodes()
  {
    RunInv(C, u, roles, steps, nets, |steps|);
    CastAt(C, u, roles, i);
    assert NodeInv(roles[i], nets[|steps|].nodes[i]);
    assert RoleOk(C, u, roles[i], i);
  }

  /**
   What a finished node announces fits: its verifying key and the group key are the ones that anyone
   recomputes from the commitments of all nodes, listed in any order.
   */
  lemma AnnouncementFits<S(!new)>(C: CipherSuite<S>, u: Setup<S>, steps: seq<Step<S>>, nets: seq<Net<S>>, i: u32,
                                  nonces: (S, S), cs: seq<VssCommitment<S>>)
    requires C.Valid() && u.Valid() && IsRun(C, u, steps, nets)
    requires i in u.Nodes() && i in nets[|steps|].nodes && nets[|steps|].nodes[i].finished != []
    requires Lists(cs, HonestCommitments(C, u.secrets))
    ensures var a := Announce(C, i, nets[|steps|].nodes[i].finished[0], nonces);
            PublicShare(C, i, cs) == Ok(a.verifyingKey.share) && PublicShare(C, 0, cs) == Ok(a.groupKey)
  {
    var P := FinishedNodesAgree(C, u, steps, nets, i);
    JointRecomputed(C, u.secrets, i, cs);
    JointRecomputed(C, u.secrets, 0, cs);
  }

  lemma JointRecomputed<S(!new)>(C: CipherSuite<S>, s: Secrets<S>, i: u32, cs: seq<VssCommitment<S>>)
    requires C.F.Valid() && s.Well() && Lists(cs, HonestCommitments(C, s))
    ensures PublicShare(C, i, cs) == Ok(C.Base(Eval(C.F, JointPolynomial(C.F, s.polys), C.F.From(i))))
  {
    PublicShareIsPolynomial(C, cs, HonestCommitments(C, s), i);
    HonestGroupPolynomial(C, s);
  }

  // ---------- Who finishes ----------

  /** The last message delivered to a node. */
  ghost function LastDelivery<S>(steps: seq<Step<S>>, i: u32): Option<Step<S>>
  {
    if steps == [] then None
    else
      var step := steps[|steps| - 1];
      if step.to == i && !step.Start? then Some(step) else LastDelivery(steps[..|steps| - 1], i)
  }

  predicate LastIsShares<S>(last: Option<Step<S>>)
  {
    last.Some? && last.value.DeliverShares?
  }

  /** The node has finished exactly if it is full and the last message delivered to it was a share map. */
  predicate Settled<S(==)>(node: Node<S>, last: Option<Step<S>>)
  {
    node.finished != [] <==> Full(node) && LastIsShares(last)
  }

  lemma FinishStep<S(!new)>(roles: map<u32, Role<S>>, net: Net<S>, step: Step<S>, net': Net<S>, i: u32,
                            last: Option<Step<S>>, last': Option<Step<S>>)
    requires Kept(roles, net, step, net') && i in roles && i in net.nodes && i in net'.nodes
    requires Settled(net.nodes[i], last) && last' == if step.to == i && !step.Start? then Some(step) else last
    ensures Settled(net'.nodes[i], last')
  {
  }

  lemma {:induction false} FinishesWhenFull<S(!new)>(C: CipherSuite<S>, u: Setup<S>, roles: map<u32, Role<S>>,
                                                     steps: seq<Step<S>>, nets: seq<Net<S>>, i: u32, k: nat)
    requires u.Valid() && Cast(C, u, roles) && IsRun(C, u, steps, nets) && k <= |steps| && i in roles
    ensures i in nets[k].nodes && Settled(nets[k].nodes[i], LastDelivery(steps[..k], i))
  {
    if k == 0 {
      assert nets[0].nodes[i] == Node(None, {}, {}, {}, {}, []);
    } else {
      FinishesWhenFull(C, u, roles, steps, nets, i, k - 1);
      SettledNext(C, u, roles, steps, nets, i, k - 1);
    }
  }

  lemma SettledNext<S(!new)>(C: CipherSuite<S>, u: Setup<S>, roles: map<u32, Role<S>>, steps: seq<Step<S>>,
                             nets: seq<Net<S>>, i: u32, k: nat)
    requires u.Valid() && Cast(C, u, roles) && IsRun(C, u, steps, nets) && k < |steps| && i in roles
    requires i in nets[k].nodes && Settled(nets[k].nodes[i], LastDelivery(steps[..k], i))
    ensures i in nets[k + 1].nodes && Settled(nets[k + 1].nodes[i], LastDelivery(steps[..k + 1], i))
  {
    RunKeeps(C, u, roles, steps, nets, k);
    LastExtends(steps, i, k);
    FinishStep(roles, nets[k], steps[k], nets[k + 1], i, LastDelivery(steps[..k], i), LastDelivery(steps[..k + 1], i));
  }

  lemma RunKeeps<S(!new)>(C: CipherSuite<S>, u: Setup<S>, roles: map<u32, Role<S>>, steps: seq<Step<S>>,
                          nets: seq<Net<S>>, k: nat)
    requires u.Valid() && Cast(C, u, roles) && IsRun(C, u, steps, nets) && k < |steps|
    ensures nets[k + 1].nodes.Keys == roles.Keys && Kept(roles, nets[k], steps[k], nets[k + 1])
  {
    RunInv(C, u, roles, steps, nets, k);
    RunStep(C, u, roles, steps, nets, k);
  }

  lemma LastExtends<S>(steps: seq<Step<S>>, i: u32, k: nat)
    requires k < |steps|
    ensures LastDelivery(steps[..k + 1], i)
         == if steps[k].to == i && !steps[k].Start? then Some(steps[k]) else LastDelivery(steps[..k], i)
  {
    assert steps[..k + 1][..k] == steps[..k];
  }

  /** Everything has reached the node: since it started it has handled every other node's packet and share map. */
  ghost predicate Served<S(!new)>(u: Setup<S>, i: u32, node: Node<S>)
  {
    node.engine.Some? && node.heard + {i} == u.Nodes() && node.got + {i} == u.Nodes()
  }

  lemma FullIsServed<S(!new)>(u: Setup<S>, role: Role<S>, node: Node<S>)
    requires role.Fits() && role.packets.Keys == u.Nodes() && NodeInv(role, node)
    ensures Full(node) <==> Served(u, role.index, node)
  {
    if node.engine.Some? {
      HeldCounts(role, node.engine.value, node.heard, node.got, node.finished);
    }
  }

  lemma HeldCounts<S(!new)>(role: Role<S>, e: Engine<S>, heard: set<u32>, got: set<u32>, finished: seq<KeyPair<S>>)
    requires EngineInv(role, e, heard, got, finished)
    ensures |e.encryptedShares| == e.totalNodes
       <==> heard + {role.index} == role.packets.Keys && got + {role.index} == role.packets.Keys
  {
    AllPackets(role, e.otherParticipants, heard);
    AllShares(role, e.encryptedShares, got);
  }

  lemma AllPackets<S(!new)>(role: Role<S>, ps: seq<Participant<S>>, heard: set<u32>)
    requires role.Fits() && PacketsHeld(role, ps, heard)
    ensures |ps| == role.parameters.n <==> heard + {role.index} == role.packets.Keys
  {
    IndexCount(ps);
    PacketsKnown(role, ps, heard);
    if |ps| == role.parameters.n {
      SubsetSize(IndexSet(ps), role.packets.Keys);
    }
  }

  lemma AllShares<S(!new)>(role: Role<S>, es: seq<EncryptedShare>, got: set<u32>)
    requires role.Fits() && SharesHeld(role, es, got)
    ensures |es| == role.parameters.n <==> role.index in Senders(es) && got + {role.index} == role.packets.Keys
  {
    SenderCount(es);
    assert Senders(es) <= role.dealt.Keys;
    if |es| == role.parameters.n {
      SubsetSize(Senders(es), role.packets.Keys);
    } else if role.index in Senders(es) {
      assert Senders(es) == Senders(es) + {role.index};
    }
  }

  /**
   A node finishes exactly when every other node's packet and share map has reached it since it
   started and the last of all these messages was a share map: the bootstrap does not look again at
   the shares that came before it.
   */
  lemma FinishesExactly<S(!new)>(C: CipherSuite<S>, u: Setup<S>, steps: seq<Step<S>>, nets: seq<Net<S>>, i: u32)
    requires C.Valid() && u.Valid() && IsRun(C, u, steps, nets) && i in u.Nodes()
    ensures i in nets[|steps|].nodes
    ensures nets[|steps|].nodes[i].finished != []
       <==> Served(u, i, nets[|steps|].nodes[i]) && LastIsShares(LastDelivery(steps, i))
  {
    var roles := HonestCast(C, u);
    NodeAtEnd(C, u, roles, steps, nets, i);
    FinishesWhenFull(C, u, roles, steps, nets, i, |steps|);
    assert steps[..|steps|] == steps;
    FullIsServed(u, roles[i], nets[|steps|].nodes[i]);
  }
}
