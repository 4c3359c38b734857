/**
 The whole protocol over gossip: n honest nodes start, packets and share maps are delivered at most
 once to each other node and in any order, and may be lost or reach a node before it starts.
 */
module GossipNetwork {
  import opened Wrappers
  import opened Fields
  import opened CipherSuites
  import opened Participants
  import opened DkgEngines
  import opened RobustKeyGeneration
  import opened HonestSessions
  import opened EngineSteps

  /** The secrets of the n nodes, their threshold and the nonces they encrypt with. */
  datatype Setup<!S(!new)> = Setup(t: u32, secrets: Secrets<S>, nonces: u32 -> u32 -> Bytes)
  {
    ghost function Nodes(): set<u32> { secrets.polys.Keys }

    ghost predicate Valid()
    {
      && secrets.Well()
      && 2 <= |Nodes()| < U32_LIMIT
      && 0 < t <= |Nodes()|
      && forall l :: l in secrets.polys ==> |secrets.polys[l]| == t && secrets.draws[l].coefficients == secrets.polys[l]
    }

    function NoncesOf(i: u32): u32 -> Bytes { nonces(i) }
  }

  /**
   A node: its engine once started, the nodes whose packets and share maps it has handled since, those
   whose messages were dropped before, and the keys it has put out.
   */
  datatype Node<S> = Node(
    engine: Option<Engine<S>>,
    heard: set<u32>,
    got: set<u32>,
    droppedPackets: set<u32>,
    droppedShares: set<u32>,
    finished: seq<KeyPair<S>>)

  /** The nodes, and what has been gossiped. */
  datatype Net<S> = Net(nodes: map<u32, Node<S>>, packets: map<u32, Participant<S>>, shares: map<u32, ShareMap>)

  datatype Step<S> =
    | Start(to: u32)
    | DeliverPacket(from: u32, to: u32)
    | DeliverShares(from: u32, to: u32, draws: seq<S>)

  ghost function Initial<S(!new)>(u: Setup<S>): Net<S>
  {
    Net(map i | i in u.Nodes() :: Node(None, {}, {}, {}, {}, []), map[], map[])
  }

  /** Every node starts once, and a gossiped message may reach each other node once. */
  ghost predicate Enabled<S(!new)>(u: Setup<S>, net: Net<S>, step: Step<S>)
  {
    && step.to in u.Nodes() && step.to in net.nodes
    && match step
       case Start(to) => net.nodes[to].engine.None?
       case DeliverPacket(from, to) =>
         from in net.packets && from != to && from !in net.nodes[to].heard + net.nodes[to].droppedPackets
       case DeliverShares(from, to, draws) =>
         from in net.shares && from != to && from !in net.nodes[to].got + net.nodes[to].droppedShares
         && |draws| == |u.Nodes()|
  }

  /** A step that runs a handler; messages to a node that has not started are dropped. */
  ghost function Apply<S(!new)>(C: CipherSuite<S>, u: Setup<S>, net: Net<S>, step: Step<S>): Result<Net<S>, Panic>
    requires u.Valid() && Enabled(u, net, step)
  {
    match step
    case Start(to) =>
      AfterStart(net, to, Initialized(C, to, |u.Nodes()|, u.t, u.secrets.draws[to]))
    case DeliverPacket(from, to) =>
      var engine := net.nodes[to].engine;
      if engine.None? then Ok(Dropped(net, step))
      else AfterPacket(net, from, to, PacketHandled(C, engine.value, net.packets[from], u.NoncesOf(to)))
    case DeliverShares(from, to, draws) =>
      var engine := net.nodes[to].engine;
      if engine.None? then Ok(Dropped(net, step))
      else if |draws| <= |engine.value.encryptedShares| then Err(Panic)
      else AfterShares(net, from, to, SharesHandled(C, engine.value, net.shares[from], draws))
  }

  /** The message is spent. */
  ghost function Dropped<S(!new)>(net: Net<S>, step: Step<S>): Net<S>
    requires !step.Start? && step.to in net.nodes
  {
    var node := net.nodes[step.to];
    var spent := if step.DeliverPacket? then node.(droppedPackets := node.droppedPackets + {step.from})
                 else node.(droppedShares := node.droppedShares + {step.from});
    net.(nodes := net.nodes[step.to := spent])
  }

  ghost function AfterStart<S(!new)>(net: Net<S>, to: u32,
                                     r: Result<(Engine<S>, Participant<S>), Panic>): Result<Net<S>, Panic>
    requires to in net.nodes
  {
    match r
    case Err(_) => Err(Panic)
    case Ok((engine, packet)) =>
      Ok(net.(nodes := net.nodes[to := net.nodes[to].(engine := Some(engine))], packets := net.packets[to := packet]))
  }

  ghost function AfterPacket<S(!new)>(net: Net<S>, from: u32, to: u32, r: Result<(Engine<S>, Option<ShareMap>), Panic>)
    : Result<Net<S>, Panic>
    requires to in net.nodes
  {
    match r
    case Err(_) => Err(Panic)
    case Ok((engine, sent)) =>
      var node := net.nodes[to];
      Ok(net.(nodes := net.nodes[to := node.(engine := Some(engine), heard := node.heard + {from})],
              shares := if sent.Some? then net.shares[to := sent.value] else net.shares))
  }

  ghost function AfterShares<S(!new)>(net: Net<S>, from: u32, to: u32,
                                      r: Result<(Engine<S>, Option<KeyPair<S>>), Panic>)
    : Result<Net<S>, Panic>
    requires to in net.nodes
  {
    match r
    case Err(_) => Err(Panic)
    case Ok((engine, keys)) =>
      var node := net.nodes[to];
      var finished := if keys.Some? then node.finished + [keys.value] else node.finished;
      Ok(net.(nodes := net.nodes[to := node.(engine := Some(engine), got := node.got + {from}, finished := finished)]))
  }

  // ---------- Roles that fit together ----------

  ghost predicate Matched<S(!new)>(a: Role<S>, b: Role<S>)
  {
    && a.packets == b.packets
    && b.index in a.dealt && a.index in b.outgoing && a.dealt[b.index] == b.outgoing[a.index]
  }

  lemma DealtArrives<S(!new)>(a: Role<S>, b: Role<S>, shares: ShareMap)
    requires Matched(a, b) && Covers(shares, b.outgoing)
    ensures a.index in shares && shares[a.index] == a.dealt[b.index]
  {
  }

  /** A role for every node; each deals what the others expect of it. */
  ghost predicate Cast<S(!new)>(C: CipherSuite<S>, u: Setup<S>, roles: map<u32, Role<S>>)
  {
    && roles.Keys == u.Nodes()
    && AllOk(C, u, roles)
    && AllMatched(roles)
  }

  ghost predicate AllOk<S(!new)>(C: CipherSuite<S>, u: Setup<S>, roles: map<u32, Role<S>>)
  {
    forall i {:trigger RoleOk(C, u, roles[i], i)} :: i in roles ==> RoleOk(C, u, roles[i], i)
  }

  ghost predicate AllMatched<S(!new)>(roles: map<u32, Role<S>>)
  {
    forall i, l {:trigger Matched(roles[i], roles[l])} :: i in roles && l in roles ==> Matched(roles[i], roles[l])
  }

  ghost predicate RoleOk<S(!new)>(C: CipherSuite<S>, u: Setup<S>, role: Role<S>, i: u32)
  {
    && i in u.secrets.draws && i in u.Nodes()
    && role.index == i
    && role.parameters.n == |u.Nodes()| && role.parameters.t == u.t
    && role.packets.Keys == u.Nodes()
    && StartsAs(C, role, u.secrets.draws[i])
    && Lawful(C, role, u.NoncesOf(i))
  }

  // ---------- The invariant ----------

  ghost predicate NodeInv<S(!new)>(role: Role<S>, node: Node<S>)
  {
    match node.engine
    case None => node.finished == [] && node.heard == {} && node.got == {}
    case Some(engine) => EngineInv(role, engine, node.heard, node.got, node.finished)
  }

  /** What has been gossiped is what the roles of its senders say. */
  ghost predicate SentInv<S(!new)>(roles: map<u32, Role<S>>, net: Net<S>)
  {
    && net.packets.Keys <= roles.Keys && net.shares.Keys <= roles.Keys
    && (forall l :: l in net.packets ==> l in roles[l].packets && net.packets[l] == roles[l].packets[l])
    && (forall l :: l in net.shares ==> Covers(net.shares[l], roles[l].outgoing))
  }

  ghost predicate NetInv<S(!new)>(roles: map<u32, Role<S>>, net: Net<S>)
  {
    && net.nodes.Keys == roles.Keys
    && (forall i {:trigger NodeInv(roles[i], net.nodes[i])} :: i in roles ==> NodeInv(roles[i], net.nodes[i]))
    && SentInv(roles, net)
  }

  /** The node holds as many shares as there are nodes. */
  predicate Full<S>(node: Node<S>)
  {
    node.engine.Some? && |node.engine.value.encryptedShares| == node.engine.value.totalNodes
  }

  /** What a step does to the node it runs on: only the share map that makes it full finishes it. */
  ghost predicate Outcome<S(!new)>(step: Step<S>, node: Node<S>)
  {
    && (node.finished != [] <==> step.DeliverShares? && Full(node))
    && (step.Start? ==> !Full(node))
  }

  lemma InitialInv<S(!new)>(C: CipherSuite<S>, u: Setup<S>, roles: map<u32, Role<S>>)
    requires Cast(C, u, roles)
    ensures NetInv(roles, Initial(u))
  {
  }

  lemma NodeReplaced<S(!new)>(roles: map<u32, Role<S>>, net: Net<S>, to: u32, node: Node<S>, net': Net<S>)
    requires NetInv(roles, net) && to in roles
    requires net'.nodes == net.nodes[to := node] && NodeInv(roles[to], node) && SentInv(roles, net')
    ensures NetInv(roles, net')
  {
  }

  lemma AfterStartInv<S(!new)>(roles: map<u32, Role<S>>, net: Net<S>, to: u32, e: Engine<S>, packet: Participant<S>)
    requires NetInv(roles, net) && to in roles && net.nodes[to].engine.None?
    requires EngineInv(roles[to], e, {}, {}, [])
    requires to in roles[to].packets && packet == roles[to].packets[to]
    ensures AfterStart(net, to, Ok((e, packet))).Ok? && NetInv(roles, AfterStart(net, to, Ok((e, packet))).value)
  {
    assert NodeInv(roles[to], net.nodes[to]);
    NodeReplaced(roles, net, to, net.nodes[to].(engine := Some(e)), AfterStart(net, to, Ok((e, packet))).value);
  }

  lemma DroppedInv<S(!new)>(roles: map<u32, Role<S>>, net: Net<S>, step: Step<S>)
    requires NetInv(roles, net) && !step.Start? && step.to in roles && net.nodes[step.to].engine.None?
    ensures NetInv(roles, Dropped(net, step))
  {
    assert NodeInv(roles[step.to], net.nodes[step.to]);
    NodeReplaced(roles, net, step.to, Dropped(net, step).nodes[step.to], Dropped(net, step));
  }

  lemma AfterPacketInv<S(!new)>(roles: map<u32, Role<S>>, net: Net<S>, from: u32, to: u32, e: Engine<S>,
                                sent: Option<ShareMap>)
    requires NetInv(roles, net) && to in roles && net.nodes[to].finished == []
    requires EngineInv(roles[to], e, net.nodes[to].heard + {from}, net.nodes[to].got, [])
    requires sent.Some? ==> Covers(sent.value, roles[to].outgoing)
    ensures AfterPacket(net, from, to, Ok((e, sent))).Ok?
            && NetInv(roles, AfterPacket(net, from, to, Ok((e, sent))).value)
  {
  }

  lemma AfterSharesInv<S(!new)>(roles: map<u32, Role<S>>, net: Net<S>, from: u32, to: u32, e: Engine<S>,
                                keys: Option<KeyPair<S>>)
    requires NetInv(roles, net) && to in roles && net.nodes[to].finished == []
    requires EngineInv(roles[to], e, net.nodes[to].heard, net.nodes[to].got + {from},
                       if keys.Some? then [keys.value] else [])
    ensures AfterShares(net, from, to, Ok((e, keys))).Ok?
            && NetInv(roles, AfterShares(net, from, to, Ok((e, keys))).value)
  {
  }

  // ---------- The steps ----------

  lemma StartStep<S(!new)>(C: CipherSuite<S>, u: Setup<S>, roles: map<u32, Role<S>>, net: Net<S>, to: u32)
    requires u.Valid() && Cast(C, u, roles) && NetInv(roles, net) && Enabled(u, net, Start(to))
    ensures var r := Apply(C, u, net, Start(to));
            r.Ok? && NetInv(roles, r.value) && Outcome(Start(to), r.value.nodes[to])
  {
    var node, role := net.nodes[to], roles[to];
    assert RoleOk(C, u, role, to) && NodeInv(role, node);
    var e := NodeStarts(C, role, u.secrets.draws[to]);
    AfterStartInv(roles, net, to, e, role.packets[to]);
  }

  /** A message that reaches a node before it starts changes nothing but its account. */
  lemma DroppedStep<S(!new)>(C: CipherSuite<S>, u: Setup<S>, roles: map<u32, Role<S>>, net: Net<S>, step: Step<S>)
    requires u.Valid() && NetInv(roles, net) && Enabled(u, net, step)
    requires !step.Start? && net.nodes[step.to].engine.None?
    ensures Apply(C, u, net, step) == Ok(Dropped(net, step))
    ensures NetInv(roles, Dropped(net, step)) && Outcome(step, Dropped(net, step).nodes[step.to])
  {
    assert NodeInv(roles[step.to], net.nodes[step.to]);
    DroppedInv(roles, net, step);
  }

  lemma PacketFrom<S(!new)>(C: CipherSuite<S>, u: Setup<S>, roles: map<u32, Role<S>>, net: Net<S>, from: u32, to: u32)
    returns (e: Engine<S>, sent: Option<ShareMap>)
    requires Cast(C, u, roles) && NetInv(roles, net) && Enabled(u, net, DeliverPacket(from, to))
    requires net.nodes[to].engine.Some?
    ensures PacketHandled(C, net.nodes[to].engine.value, net.packets[from], u.NoncesOf(to)) == Ok((e, sent))
    ensures net.nodes[to].finished == []
    ensures NetInv(roles, AfterPacket(net, from, to, Ok((e, sent))).value)
  {
    var node, role := net.nodes[to], roles[to];
    assert RoleOk(C, u, role, to) && Matched(role, roles[from]) && NodeInv(role, node);
    e, sent := NodeHears(C, role, u.NoncesOf(to), node.engine.value, node.heard, node.got, node.finished, from);
    AfterPacketInv(roles, net, from, to, e, sent);
  }

  lemma PacketStep<S(!new)>(C: CipherSuite<S>, u: Setup<S>, roles: map<u32, Role<S>>, net: Net<S>, from: u32, to: u32)
    requires u.Valid() && Cast(C, u, roles) && NetInv(roles, net) && Enabled(u, net, DeliverPacket(from, to))
    ensures var r := Apply(C, u, net, DeliverPacket(from, to));
            r.Ok? && NetInv(roles, r.value) && Outcome(DeliverPacket(from, to), r.value.nodes[to])
  {
    if net.nodes[to].engine.None? {
      DroppedStep(C, u, roles, net, DeliverPacket(from, to));
    } else {
      var e, sent := PacketFrom(C, u, roles, net, from, to);
      ApplyPacket(C, u, net, from, to, e, sent);
    }
  }

  lemma ApplyPacket<S(!new)>(C: CipherSuite<S>, u: Setup<S>, net: Net<S>, from: u32, to: u32, e: Engine<S>,
                             sent: Option<ShareMap>)
    requires u.Valid() && Enabled(u, net, DeliverPacket(from, to)) && net.nodes[to].engine.Some?
    requires PacketHandled(C, net.nodes[to].engine.value, net.packets[from], u.NoncesOf(to)) == Ok((e, sent))
    ensures Apply(C, u, net, DeliverPacket(from, to)) == AfterPacket(net, from, to, Ok((e, sent)))
  {
  }

  lemma SharesArrive<S(!new)>(C: CipherSuite<S>, u: Setup<S>, role: Role<S>, sender: Role<S>, node: Node<S>,
                              shares: ShareMap, draws: seq<S>)
    returns (e: Engine<S>, keys: Option<KeyPair<S>>)
    requires RoleOk(C, u, role, role.index) && Matched(role, sender) && Covers(shares, sender.outgoing)
    requires NodeInv(role, node) && node.engine.Some?
    requires sender.index in role.packets && sender.index !in node.got && sender.index != role.index
    requires |draws| == |u.Nodes()|
    ensures var before := node.engine.value;
            && |draws| > |before.encryptedShares|
            && SharesHandled(C, before, shares, draws) == Ok((e, keys))
    ensures node.finished == [] && (keys.Some? <==> |e.encryptedShares| == e.totalNodes)
    ensures EngineInv(role, e, node.heard, node.got + {sender.index}, if keys.Some? then [keys.value] else [])
  {
    DealtArrives(role, sender, shares);
    e, keys := NodeReceives(C, role, u.NoncesOf(role.index), node.engine.value, node.heard, node.got, node.finished,
                            sender.index, shares, draws);
  }

  lemma SharesFrom<S(!new)>(C: CipherSuite<S>, u: Setup<S>, roles: map<u32, Role<S>>, net: Net<S>, from: u32, to: u32,
                            draws: seq<S>)
    returns (e: Engine<S>, keys: Option<KeyPair<S>>)
    requires Cast(C, u, roles) && NetInv(roles, net) && Enabled(u, net, DeliverShares(from, to, draws))
    requires net.nodes[to].engine.Some?
    ensures var before := net.nodes[to].engine.value;
            && |draws| > |before.encryptedShares|
            && SharesHandled(C, before, net.shares[from], draws) == Ok((e, keys))
    ensures net.nodes[to].finished == [] && (keys.Some? <==> |e.encryptedShares| == e.totalNodes)
    ensures NetInv(roles, AfterShares(net, from, to, Ok((e, keys))).value)
  {
    CastAt(C, u, roles, from);
    assert RoleOk(C, u, roles[to], to);
    assert Matched(roles[to], roles[from]) && NodeInv(roles[to], net.nodes[to]);
    e, keys := SharesArrive(C, u, roles[to], roles[from], net.nodes[to], net.shares[from], draws);
    AfterSharesInv(roles, net, from, to, e, keys);
  }

  lemma CastAt<S(!new)>(C: CipherSuite<S>, u: Setup<S>, roles: map<u32, Role<S>>, i: u32)
    requires Cast(C, u, roles) && i in roles
    ensures roles[i].index == i && roles[i].packets.Keys == u.Nodes()
  {
    assert RoleOk(C, u, roles[i], i);
  }

  lemma SharesStep<S(!new)>(C: CipherSuite<S>, u: Setup<S>, roles: map<u32, Role<S>>, net: Net<S>, from: u32, to: u32,
                            draws: seq<S>)
    requires u.Valid() && Cast(C, u, roles) && NetInv(roles, net) && Enabled(u, net, DeliverShares(from, to, draws))
    ensures var r := Apply(C, u, net, DeliverShares(from, to, draws));
            r.Ok? && NetInv(roles, r.value) && Outcome(DeliverShares(from, to, draws), r.value.nodes[to])
  {
    if net.nodes[to].engine.None? {
      DroppedStep(C, u, roles, net, DeliverShares(from, to, draws));
    } else {
      var e, keys := SharesFrom(C, u, roles, net, from, to, draws);
      ApplyShares(C, u, net, from, to, draws, e, keys);
    }
  }

  lemma ApplyShares<S(!new)>(C: CipherSuite<S>, u: Setup<S>, net: Net<S>, from: u32, to: u32, draws: seq<S>,
                             e: Engine<S>, keys: Option<KeyPair<S>>)
    requires u.Valid() && Enabled(u, net, DeliverShares(from, to, draws)) && net.nodes[to].engine.Some?
    requires |draws| > |net.nodes[to].engine.value.encryptedShares|
    requires SharesHandled(C, net.nodes[to].engine.value, net.shares[from], draws) == Ok((e, keys))
    ensures Apply(C, u, net, DeliverShares(from, to, draws)) == AfterShares(net, from, to, Ok((e, keys)))
  {
  }

  lemma OthersUntouched<S(!new)>(C: CipherSuite<S>, u: Setup<S>, net: Net<S>, step: Step<S>, i: u32)
    requires u.Valid() && Enabled(u, net, step) && Apply(C, u, net, step).Ok?
    requires i in net.nodes && i != step.to
    ensures i in Apply(C, u, net, step).value.nodes && Apply(C, u, net, step).value.nodes[i] == net.nodes[i]
  {
  }

  /** What every step that may happen keeps: no handler panics, and the invariant holds afterwards. */
  ghost predicate Kept<S(!new)>(roles: map<u32, Role<S>>, net: Net<S>, step: Step<S>, net': Net<S>)
  {
    && NetInv(roles, net')
    && step.to in net'.nodes && Outcome(step, net'.nodes[step.to])
    && forall i :: i in roles && i != step.to ==> i in net.nodes && i in net'.nodes && net'.nodes[i] == net.nodes[i]
  }

  lemma StepSafe<S(!new)>(C: CipherSuite<S>, u: Setup<S>, roles: map<u32, Role<S>>, net: Net<S>, step: Step<S>)
    requires u.Valid() && Cast(C, u, roles) && NetInv(roles, net) && Enabled(u, net, step)
    ensures var r := Apply(C, u, net, step);
            r.Ok? && NetInv(roles, r.value) && Outcome(step, r.value.nodes[step.to])
  {
    match step
    case Start(to) => StartStep(C, u, roles, net, to);
    case DeliverPacket(from, to) => PacketStep(C, u, roles, net, from, to);
    case DeliverShares(from, to, draws) => SharesStep(C, u, roles, net, from, to, draws);
  }

  lemma StepKeeps<S(!new)>(C: CipherSuite<S>, u: Setup<S>, roles: map<u32, Role<S>>, net: Net<S>, step: Step<S>)
    requires u.Valid() && Cast(C, u, roles) && NetInv(roles, net) && Enabled(u, net, step)
    ensures Apply(C, u, net, step).Ok? && Kept(roles, net, step, Apply(C, u, net, step).value)
  {
    StepSafe(C, u, roles, net, step);
    forall i | i in roles && i != step.to
      ensures i in Apply(C, u, net, step).value.nodes && Apply(C, u, net, step).value.nodes[i] == net.nodes[i]
    {
      OthersUntouched(C, u, net, step, i);
    }
  }
}
