/**
 Which runs can still be completed: every node can finish as long as no message was dropped and no
 node has used up the share maps it waits for. A protocol that has not begun therefore can.
 */
module GossipCompletion {
  import opened Wrappers
  import opened Fields
  import opened CipherSuites
  import opened DkgEngines
  import opened HonestSessions
  import opened EngineSteps
  import opened GossipNetwork
  import opened HonestNodes
  import opened GossipRuns

  // ---------- What a step changes ----------

  lemma StartEffect<S(!new)>(C: CipherSuite<S>, u: Setup<S>, net: Net<S>, to: u32, net': Net<S>) returns (e: Engine<S>)
    requires u.Valid() && Takes(C, u, net, Start(to), net')
    ensures net'.nodes == net.nodes[to := net.nodes[to].(engine := Some(e))]
    ensures net'.packets.Keys == net.packets.Keys + {to} && net'.shares == net.shares
  {
    e := net'.nodes[to].engine.value;
  }

  lemma PacketEffect<S(!new)>(C: CipherSuite<S>, u: Setup<S>, net: Net<S>, from: u32, to: u32, net': Net<S>)
    returns (e: Engine<S>)
    requires u.Valid() && Takes(C, u, net, DeliverPacket(from, to), net') && net.nodes[to].engine.Some?
    ensures net'.nodes == net.nodes[to := net.nodes[to].(engine := Some(e), heard := net.nodes[to].heard + {from})]
    ensures net'.packets == net.packets && net.shares.Keys <= net'.shares.Keys
    ensures HasBootstrapped(e) ==> to in net'.shares
  {
    e := net'.nodes[to].engine.value;
  }

  lemma SharesEffect<S(!new)>(C: CipherSuite<S>, u: Setup<S>, net: Net<S>, from: u32, to: u32, draws: seq<S>,
                              net': Net<S>)
    returns (e: Engine<S>, finished: seq<KeyPair<S>>)
    requires u.Valid() && Takes(C, u, net, DeliverShares(from, to, draws), net') && net.nodes[to].engine.Some?
    ensures net'.nodes == net.nodes[to := net.nodes[to].(engine := Some(e), got := net.nodes[to].got + {from},
                                                         finished := finished)]
    ensures net'.packets == net.packets && net'.shares == net.shares
  {
    e := net'.nodes[to].engine.value;
    finished := net'.nodes[to].finished;
  }

  // ---------- What every run keeps ----------

  ghost predicate NodeFacts<S(!new)>(u: Setup<S>, net: Net<S>, i: u32, node: Node<S>)
  {
    && node.heard <= u.Nodes() - {i} && node.droppedPackets <= u.Nodes() - {i} - node.heard
    && node.got <= u.Nodes() - {i} && node.droppedShares <= u.Nodes() - {i} - node.got
    && (node.engine.None? ==> node.heard == {} && node.got == {} && node.finished == [])
    && (node.engine.Some? ==> i in net.packets)
    && (node.engine.Some? && node.heard + {i} == u.Nodes() ==> i in net.shares)
    && (node.finished != [] ==> Served(u, i, node))
  }

  ghost predicate Facts<S(!new)>(u: Setup<S>, net: Net<S>)
  {
    net.nodes.Keys == u.Nodes() && forall i :: i in net.nodes ==> NodeFacts(u, net, i, net.nodes[i])
  }

  lemma InitialFacts<S(!new)>(u: Setup<S>)
    requires u.Valid()
    ensures Facts(u, Initial(u))
  {
    forall i | i in u.Nodes()
      ensures NodeFacts(u, Initial(u), i, Initial(u).nodes[i])
    {
      assert Initial(u).nodes[i] == Node(None, {}, {}, {}, {}, []);
    }
  }

  lemma GossipGrows<S(!new)>(C: CipherSuite<S>, u: Setup<S>, net: Net<S>, step: Step<S>, net': Net<S>)
    requires u.Valid() && Takes(C, u, net, step, net')
    ensures net.packets.Keys <= net'.packets.Keys && net.shares.Keys <= net'.shares.Keys
    ensures net'.nodes.Keys == net.nodes.Keys
  {
  }

  lemma StartFacts<S(!new)>(u: Setup<S>, net: Net<S>, to: u32, e: Engine<S>, net': Net<S>)
    requires u.Valid() && to in net.nodes && NodeFacts(u, net, to, net.nodes[to]) && net.nodes[to].engine.None?
    requires net'.nodes == net.nodes[to := net.nodes[to].(engine := Some(e))] && to in net'.packets
    ensures NodeFacts(u, net', to, net'.nodes[to])
  {
    assert |{to}| == 1;
    assert {} + {to} == {to};
  }

  lemma DroppedFacts<S(!new)>(u: Setup<S>, net: Net<S>, step: Step<S>)
    requires u.Valid() && Enabled(u, net, step) && !step.Start? && step.from in u.Nodes()
    requires NodeFacts(u, net, step.to, net.nodes[step.to]) && net.nodes[step.to].engine.None?
    ensures NodeFacts(u, Dropped(net, step), step.to, Dropped(net, step).nodes[step.to])
  {
  }

  lemma PacketFacts<S(!new)>(u: Setup<S>, role: Role<S>, net: Net<S>, from: u32, to: u32, e: Engine<S>, net': Net<S>)
    requires role.Fits() && role.packets.Keys == u.Nodes() && role.index == to
    requires to in net.nodes && NodeFacts(u, net, to, net.nodes[to])
    requires net.nodes[to].engine.Some? && net.nodes[to].finished == [] && from in u.Nodes() && from != to
    requires from !in net.nodes[to].heard + net.nodes[to].droppedPackets
    requires net'.nodes == net.nodes[to := net.nodes[to].(engine := Some(e), heard := net.nodes[to].heard + {from})]
    requires net'.packets == net.packets && (HasBootstrapped(e) ==> to in net'.shares)
    requires NodeInv(role, net'.nodes[to])
    ensures NodeFacts(u, net', to, net'.nodes[to])
  {
    AllPackets(role, e.otherParticipants, net.nodes[to].heard + {from});
  }

  lemma SharesFacts<S(!new)>(u: Setup<S>, net: Net<S>, from: u32, to: u32, e: Engine<S>, finished: seq<KeyPair<S>>,
                             net': Net<S>)
    requires to in net.nodes && NodeFacts(u, net, to, net.nodes[to]) && net.nodes[to].engine.Some?
    requires from in u.Nodes() && from != to && from !in net.nodes[to].got + net.nodes[to].droppedShares
    requires net'.nodes == net.nodes[to := net.nodes[to].(engine := Some(e), got := net.nodes[to].got + {from},
                                                          finished := finished)]
    requires net'.packets == net.packets && net'.shares == net.shares
    requires finished != [] ==> Served(u, to, net'.nodes[to])
    ensures NodeFacts(u, net', to, net'.nodes[to])
  {
  }

  lemma FinishedIsServed<S(!new)>(C: CipherSuite<S>, u: Setup<S>, roles: map<u32, Role<S>>, net: Net<S>, to: u32)
    requires u.Valid() && Cast(C, u, roles) && NetInv(roles, net) && to in roles
    ensures to in net.nodes && roles[to].Fits() && roles[to].index == to && roles[to].packets.Keys == u.Nodes()
    ensures NodeInv(roles[to], net.nodes[to])
    ensures Full(net.nodes[to]) <==> Served(u, to, net.nodes[to])
    ensures net.nodes[to].finished != [] ==> Served(u, to, net.nodes[to])
  {
    CastAt(C, u, roles, to);
    assert RoleOk(C, u, roles[to], to) && NodeInv(roles[to], net.nodes[to]);
    FullIsServed(u, roles[to], net.nodes[to]);
  }

  /** The node a step runs on. */
  lemma StepNodeFacts<S(!new)>(C: CipherSuite<S>, u: Setup<S>, roles: map<u32, Role<S>>, net: Net<S>, step: Step<S>,
                               net': Net<S>)
    requires u.Valid() && Cast(C, u, roles) && NetInv(roles, net) && Takes(C, u, net, step, net')
    requires step.to in net.nodes && NodeFacts(u, net, step.to, net.nodes[step.to]) && Kept(roles, net, step, net')
    ensures NodeFacts(u, net', step.to, net'.nodes[step.to])
  {
    var to := step.to;
    FinishedIsServed(C, u, roles, net', to);
    match step {
      case Start(_) =>
        var e := StartEffect(C, u, net, to, net');
        StartFacts(u, net, to, e, net');
      case DeliverPacket(from, _) =>
        if net.nodes[to].engine.None? {
          DroppedFacts(u, net, step);
        } else {
          var e := PacketEffect(C, u, net, from, to, net');
          PacketFacts(u, roles[to], net, from, to, e, net');
        }
      case DeliverShares(from, _, draws) =>
        if net.nodes[to].engine.None? {
          DroppedFacts(u, net, step);
        } else {
          var e, finished := SharesEffect(C, u, net, from, to, draws, net');
          SharesFacts(u, net, from, to, e, finished, net');
        }
    }
  }

  lemma StepFacts<S(!new)>(C: CipherSuite<S>, u: Setup<S>, roles: map<u32, Role<S>>, net: Net<S>, step: Step<S>,
                           net': Net<S>)
    requires u.Valid() && Cast(C, u, roles) && NetInv(roles, net) && Facts(u, net) && Takes(C, u, net, step, net')
    requires Kept(roles, net, step, net')
    ensures Facts(u, net')
  {
    StepNodeFacts(C, u, roles, net, step, net');
    GossipGrows(C, u, net, step, net');
    forall i | i in net'.nodes && i != step.to
      ensures NodeFacts(u, net', i, net'.nodes[i])
    {
      assert net'.nodes[i] == net.nodes[i] && NodeFacts(u, net, i, net.nodes[i]);
    }
  }

  lemma NextFacts<S(!new)>(C: CipherSuite<S>, u: Setup<S>, roles: map<u32, Role<S>>, steps: seq<Step<S>>,
                           nets: seq<Net<S>>, k: nat)
    requires u.Valid() && Cast(C, u, roles) && IsRun(C, u, steps, nets) && k < |steps| && Facts(u, nets[k])
    ensures Facts(u, nets[k + 1])
  {
    RunInv(C, u, roles, steps, nets, k);
    RunKeeps(C, u, roles, steps, nets, k);
    assert TakesAt(C, u, steps, nets, k);
    StepFacts(C, u, roles, nets[k], steps[k], nets[k + 1]);
  }

  lemma RunFacts<S(!new)>(C: CipherSuite<S>, u: Setup<S>, roles: map<u32, Role<S>>, steps: seq<Step<S>>,
                          nets: seq<Net<S>>, k: nat)
    requires u.Valid() && Cast(C, u, roles) && IsRun(C, u, steps, nets) && k <= |steps|
    ensures Facts(u, nets[k])
  {
    InitialFacts(u);
    for i := 0 to k
      invariant Facts(u, nets[i])
    {
      NextFacts(C, u, roles, steps, nets, i);
    }
  }

  // ---------- Runs that are spoilt ----------

  /** Some message for this node was dropped, or it got all share maps and has not finished. */
  ghost predicate Spoilt<S(!new)>(u: Setup<S>, i: u32, node: Node<S>)
  {
    || node.droppedPackets != {} || node.droppedShares != {}
    || (node.finished == [] && node.got + {i} == u.Nodes())
  }

  lemma SpoiltIsUnfinished<S(!new)>(u: Setup<S>, net: Net<S>, i: u32)
    requires u.Valid() && Facts(u, net) && i in net.nodes && Spoilt(u, i, net.nodes[i])
    ensures net.nodes[i].finished == []
  {
    var node := net.nodes[i];
    assert NodeFacts(u, net, i, node);
    if l :| l in node.droppedPackets {
      assert l in u.Nodes() && l !in node.heard + {i};
    } else if l :| l in node.droppedShares {
      assert l in u.Nodes() && l !in node.got + {i};
    }
  }

  lemma SpoiltStays<S(!new)>(C: CipherSuite<S>, u: Setup<S>, roles: map<u32, Role<S>>, net: Net<S>, step: Step<S>,
                             net': Net<S>, i: u32)
    requires u.Valid() && NetInv(roles, net) && roles.Keys == u.Nodes() && Facts(u, net)
    requires Takes(C, u, net, step, net') && Kept(roles, net, step, net')
    requires i in roles && i in net.nodes && Spoilt(u, i, net.nodes[i])
    ensures i in net'.nodes && Spoilt(u, i, net'.nodes[i])
  {
    if i == step.to {
      assert NodeFacts(u, net, i, net.nodes[i]);
      match step {
        case Start(_) =>
          var e := StartEffect(C, u, net, i, net');
        case DeliverPacket(from, _) =>
          if net.nodes[i].engine.Some? {
            var e := PacketEffect(C, u, net, from, i, net');
          }
        case DeliverShares(from, _, draws) =>
          if net.nodes[i].engine.Some? {
            var e, finished := SharesEffect(C, u, net, from, i, draws, net');
          }
      }
    }
  }

  lemma SpoiltNext<S(!new)>(C: CipherSuite<S>, u: Setup<S>, steps: seq<Step<S>>, nets: seq<Net<S>>, k: nat, i: u32)
    requires C.Valid() && u.Valid() && IsRun(C, u, steps, nets) && k < |steps|
    requires i in u.Nodes() && i in nets[k].nodes && Spoilt(u, i, nets[k].nodes[i])
    ensures i in nets[k + 1].nodes && Spoilt(u, i, nets[k + 1].nodes[i])
  {
    var roles := HonestCast(C, u);
    RunInv(C, u, roles, steps, nets, k);
    RunFacts(C, u, roles, steps, nets, k);
    RunKeeps(C, u, roles, steps, nets, k);
    assert TakesAt(C, u, steps, nets, k);
    SpoiltStays(C, u, roles, nets[k], steps[k], nets[k + 1], i);
  }

  lemma SpoiltForever<S(!new)>(C: CipherSuite<S>, u: Setup<S>, steps: seq<Step<S>>, nets: seq<Net<S>>, k: nat, i: u32)
    requires C.Valid() && u.Valid() && IsRun(C, u, steps, nets) && k <= |steps|
    requires i in u.Nodes() && i in nets[k].nodes && Spoilt(u, i, nets[k].nodes[i])
    ensures i in nets[|steps|].nodes && Spoilt(u, i, nets[|steps|].nodes[i])
  {
    for j := k to |steps|
      invariant i in nets[j].nodes && Spoilt(u, i, nets[j].nodes[i])
    {
      SpoiltNext(C, u, steps, nets, j, i);
    }
  }

  // ---------- Going on ----------

  datatype Trace<S> = Trace(steps: seq<Step<S>>, nets: seq<Net<S>>)

  ghost predicate Runs<S(!new)>(C: CipherSuite<S>, u: Setup<S>, t: Trace<S>)
    requires u.Valid()
  {
    IsRun(C, u, t.steps, t.nets)
  }

  function Last<S>(t: Trace<S>): Net<S>
    requires t.nets != []
  {
    t.nets[|t.nets| - 1]
  }

  ghost predicate Continues<S>(t: Trace<S>, t': Trace<S>)
  {
    t.steps <= t'.steps && t.nets <= t'.nets
  }

  ghost predicate Leads<S(!new)>(C: CipherSuite<S>, u: Setup<S>, t: Trace<S>, t': Trace<S>)
    requires u.Valid()
  {
    Runs(C, u, t') && Continues(t, t')
  }

  lemma ContinuesOn<S(!new)>(t: Trace<S>, t': Trace<S>, t'': Trace<S>)
    requires Continues(t, t') && Continues(t', t'')
    ensures Continues(t, t'')
  {
  }

  /** Taking one more step; that it panics is ruled out. */
  lemma GoOn<S(!new)>(C: CipherSuite<S>, u: Setup<S>, t: Trace<S>, step: Step<S>) returns (t': Trace<S>)
    requires C.Valid() && u.Valid() && Runs(C, u, t) && Enabled(u, Last(t), step)
    ensures Leads(C, u, t, t') && Takes(C, u, Last(t), step, Last(t'))
  {
    NoHandlerPanics(C, u, t.steps, t.nets, step);
    var next := Apply(C, u, Last(t), step).value;
    t' := Trace(t.steps + [step], t.nets + [next]);
    forall k | 0 <= k < |t'.steps|
      ensures TakesAt(C, u, t'.steps, t'.nets, k)
    {
      if k < |t.steps| {
        assert TakesAt(C, u, t.steps, t.nets, k);
      }
    }
  }

  lemma LastFacts<S(!new)>(C: CipherSuite<S>, u: Setup<S>, t: Trace<S>)
    requires C.Valid() && u.Valid() && Runs(C, u, t)
    ensures Facts(u, Last(t))
  {
    var roles := HonestCast(C, u);
    RunFacts(C, u, roles, t.steps, t.nets, |t.steps|);
  }

  /** Two nets that differ in one node at most; what has been gossiped stays. */
  ghost predicate OnlyAt<S(!new)>(net: Net<S>, net': Net<S>, to: u32)
  {
    && net'.nodes.Keys == net.nodes.Keys
    && (forall i :: i in net.nodes && i != to ==> net'.nodes[i] == net.nodes[i])
    && net.packets.Keys <= net'.packets.Keys && net.shares.Keys <= net'.shares.Keys
  }

  /** Nothing was dropped at this node, and a share map is still to come unless it has finished. */
  ghost predicate Sound<S(!new)>(u: Setup<S>, net: Net<S>, i: u32)
  {
    i in net.nodes && !Spoilt(u, i, net.nodes[i])
  }

  ghost predicate Awake<S(!new)>(u: Setup<S>, net: Net<S>, i: u32)
  {
    Sound(u, net, i) && net.nodes[i].engine.Some?
  }

  // ---------- One node starts ----------

  lemma StartNode<S(!new)>(C: CipherSuite<S>, u: Setup<S>, t: Trace<S>, to: u32) returns (t': Trace<S>)
    requires C.Valid() && u.Valid() && Runs(C, u, t) && to in u.Nodes() && Sound(u, Last(t), to)
    ensures Leads(C, u, t, t') && OnlyAt(Last(t), Last(t'), to) && Awake(u, Last(t'), to)
  {
    if Last(t).nodes[to].engine.Some? {
      t' := t;
    } else {
      t' := GoOn(C, u, t, Start(to));
      var e := StartEffect(C, u, Last(t), to, Last(t'));
    }
  }

  // ---------- One node hears all packets ----------

  lemma HearOne<S(!new)>(C: CipherSuite<S>, u: Setup<S>, t: Trace<S>, from: u32, to: u32) returns (t': Trace<S>)
    requires C.Valid() && u.Valid() && Runs(C, u, t) && to in u.Nodes() && Awake(u, Last(t), to)
    requires from in Last(t).packets && from != to && from in u.Nodes() && from !in Last(t).nodes[to].heard
    ensures Leads(C, u, t, t') && OnlyAt(Last(t), Last(t'), to) && Awake(u, Last(t'), to)
    ensures Last(t').nodes[to].heard == Last(t).nodes[to].heard + {from}
  {
    t' := GoOn(C, u, t, DeliverPacket(from, to));
    var e := PacketEffect(C, u, Last(t), from, to, Last(t'));
  }

  /** The node has in addition heard these. */
  ghost predicate Hearing<S(!new)>(C: CipherSuite<S>, u: Setup<S>, t: Trace<S>, to: u32, t': Trace<S>, Y: set<u32>)
    requires u.Valid() && Runs(C, u, t) && Awake(u, Last(t), to)
  {
    && Leads(C, u, t, t') && OnlyAt(Last(t), Last(t'), to) && Awake(u, Last(t'), to)
    && Last(t').nodes[to].heard == Last(t).nodes[to].heard + Y
  }

  lemma HearNext<S(!new)>(C: CipherSuite<S>, u: Setup<S>, t: Trace<S>, to: u32, t': Trace<S>, Y: set<u32>, from: u32)
    returns (t'': Trace<S>)
    requires C.Valid() && u.Valid() && Runs(C, u, t) && to in u.Nodes() && Awake(u, Last(t), to)
    requires u.Nodes() <= Last(t).packets.Keys && Hearing(C, u, t, to, t', Y)
    requires from in u.Nodes() - {to} - Last(t).nodes[to].heard - Y
    ensures Hearing(C, u, t, to, t'', Y + {from})
  {
    t'' := HearOne(C, u, t', from, to);
    ContinuesOn(t, t', t'');
  }

  lemma {:induction false} HearThese<S(!new)>(C: CipherSuite<S>, u: Setup<S>, t: Trace<S>, to: u32, Y: set<u32>)
    returns (t': Trace<S>)
    requires C.Valid() && u.Valid() && Runs(C, u, t) && to in u.Nodes() && Awake(u, Last(t), to)
    requires u.Nodes() <= Last(t).packets.Keys && Y <= u.Nodes() - {to} - Last(t).nodes[to].heard
    ensures Hearing(C, u, t, to, t', Y)
    decreases Y
  {
    if Y == {} {
      t' := t;
    } else {
      var from :| from in Y;
      var rest := Y - {from};
      assert rest + {from} == Y;
      var before := HearThese(C, u, t, to, rest);
      t' := HearNext(C, u, t, to, before, rest, from);
    }
  }

  /** The node hears the packets it has not heard, and so has gossiped its shares. */
  lemma HearAll<S(!new)>(C: CipherSuite<S>, u: Setup<S>, t: Trace<S>, to: u32) returns (t': Trace<S>)
    requires C.Valid() && u.Valid() && Runs(C, u, t) && to in u.Nodes() && Awake(u, Last(t), to)
    requires u.Nodes() <= Last(t).packets.Keys
    ensures Leads(C, u, t, t') && OnlyAt(Last(t), Last(t'), to) && Informed(u, Last(t'), to)
  {
    t' := HearThese(C, u, t, to, u.Nodes() - {to} - Last(t).nodes[to].heard);
    InformedNow(C, u, t', to);
  }

  lemma InformedNow<S(!new)>(C: CipherSuite<S>, u: Setup<S>, t: Trace<S>, to: u32)
    requires C.Valid() && u.Valid() && Runs(C, u, t) && to in u.Nodes() && Awake(u, Last(t), to)
    requires u.Nodes() <= Last(t).nodes[to].heard + {to}
    ensures Informed(u, Last(t), to)
  {
    LastFacts(C, u, t);
    assert NodeFacts(u, Last(t), to, Last(t).nodes[to]);
    assert Last(t).nodes[to].heard + {to} == u.Nodes();
  }

  /** It has heard every other node, and has gossiped its shares. */
  ghost predicate Informed<S(!new)>(u: Setup<S>, net: Net<S>, i: u32)
  {
    Awake(u, net, i) && net.nodes[i].heard + {i} == u.Nodes() && i in net.shares
  }

  // ---------- One node gets all share maps ----------

  lemma GetOne<S(!new)>(C: CipherSuite<S>, u: Setup<S>, t: Trace<S>, from: u32, to: u32) returns (t': Trace<S>)
    requires C.Valid() && u.Valid() && Runs(C, u, t) && to in u.Nodes() && Informed(u, Last(t), to)
    requires from in Last(t).shares && from in u.Nodes() && from != to && from !in Last(t).nodes[to].got
    ensures Leads(C, u, t, t') && OnlyAt(Last(t), Last(t'), to) && Informed(u, Last(t'), to)
    ensures Last(t').nodes[to].got == Last(t).nodes[to].got + {from}
  {
    var draws := seq(|u.Nodes()|, k => C.F.zero);
    t' := GoOn(C, u, t, DeliverShares(from, to, draws));
    var e, finished := SharesEffect(C, u, Last(t), from, to, draws, Last(t'));
    LastSharesFinish(C, u, t, Last(t'), from, to, draws);
  }

  /** A share map that completes what the node waits for makes it finish. */
  lemma LastSharesFinish<S(!new)>(C: CipherSuite<S>, u: Setup<S>, t: Trace<S>, net': Net<S>, from: u32, to: u32,
                                  draws: seq<S>)
    requires C.Valid() && u.Valid() && Runs(C, u, t) && to in u.Nodes()
    requires Takes(C, u, Last(t), DeliverShares(from, to, draws), net')
    ensures to in net'.nodes
    ensures Served(u, to, net'.nodes[to]) ==> net'.nodes[to].finished != []
  {
    var roles := HonestCast(C, u);
    RunInv(C, u, roles, t.steps, t.nets, |t.steps|);
    StepKeeps(C, u, roles, Last(t), DeliverShares(from, to, draws));
    FinishedIsServed(C, u, roles, net', to);
  }

  /** The node has in addition got the share maps of these. */
  ghost predicate Getting<S(!new)>(C: CipherSuite<S>, u: Setup<S>, t: Trace<S>, to: u32, t': Trace<S>, Y: set<u32>)
    requires u.Valid() && Runs(C, u, t) && Informed(u, Last(t), to)
  {
    && Leads(C, u, t, t') && OnlyAt(Last(t), Last(t'), to) && Informed(u, Last(t'), to)
    && Last(t').nodes[to].got == Last(t).nodes[to].got + Y
  }

  lemma GetNext<S(!new)>(C: CipherSuite<S>, u: Setup<S>, t: Trace<S>, to: u32, t': Trace<S>, Y: set<u32>, from: u32)
    returns (t'': Trace<S>)
    requires C.Valid() && u.Valid() && Runs(C, u, t) && to in u.Nodes() && Informed(u, Last(t), to)
    requires u.Nodes() <= Last(t).shares.Keys && Getting(C, u, t, to, t', Y)
    requires from in u.Nodes() - {to} - Last(t).nodes[to].got - Y
    ensures Getting(C, u, t, to, t'', Y + {from})
  {
    t'' := GetOne(C, u, t', from, to);
    ContinuesOn(t, t', t'');
  }

  lemma {:induction false} GetThese<S(!new)>(C: CipherSuite<S>, u: Setup<S>, t: Trace<S>, to: u32, Y: set<u32>)
    returns (t': Trace<S>)
    requires C.Valid() && u.Valid() && Runs(C, u, t) && to in u.Nodes() && Informed(u, Last(t), to)
    requires u.Nodes() <= Last(t).shares.Keys && Y <= u.Nodes() - {to} - Last(t).nodes[to].got
    ensures Getting(C, u, t, to, t', Y)
    decreases Y
  {
    if Y == {} {
      t' := t;
    } else {
      var from :| from in Y;
      var rest := Y - {from};
      assert rest + {from} == Y;
      var before := GetThese(C, u, t, to, rest);
      t' := GetNext(C, u, t, to, before, rest, from);
    }
  }

  /** The node gets the share maps it has not got; with the last of them it finishes. */
  lemma GetAll<S(!new)>(C: CipherSuite<S>, u: Setup<S>, t: Trace<S>, to: u32) returns (t': Trace<S>)
    requires C.Valid() && u.Valid() && Runs(C, u, t) && to in u.Nodes() && Informed(u, Last(t), to)
    requires u.Nodes() <= Last(t).shares.Keys
    ensures Leads(C, u, t, t') && OnlyAt(Last(t), Last(t'), to)
    ensures HasFinished(Last(t'), to)
  {
    t' := GetThese(C, u, t, to, u.Nodes() - {to} - Last(t).nodes[to].got);
    ServedFinishes(C, u, t', to);
  }

  lemma ServedFinishes<S(!new)>(C: CipherSuite<S>, u: Setup<S>, t: Trace<S>, to: u32)
    requires C.Valid() && u.Valid() && Runs(C, u, t) && to in u.Nodes() && Sound(u, Last(t), to)
    requires u.Nodes() <= Last(t).nodes[to].got + {to}
    ensures Last(t).nodes[to].finished != []
  {
    LastFacts(C, u, t);
    assert NodeFacts(u, Last(t), to, Last(t).nodes[to]);
    assert Last(t).nodes[to].got + {to} == u.Nodes();
  }

  // ---------- All nodes ----------

  ghost predicate AllSound<S(!new)>(u: Setup<S>, net: Net<S>)
  {
    forall i {:trigger Sound(u, net, i)} :: i in u.Nodes() ==> Sound(u, net, i)
  }

  ghost predicate AllAwake<S(!new)>(u: Setup<S>, net: Net<S>)
  {
    forall i {:trigger Awake(u, net, i)} :: i in u.Nodes() ==> Awake(u, net, i)
  }

  ghost predicate AllInformed<S(!new)>(u: Setup<S>, net: Net<S>)
  {
    forall i {:trigger Informed(u, net, i)} :: i in u.Nodes() ==> Informed(u, net, i)
  }

  ghost predicate HasFinished<S(!new)>(net: Net<S>, i: u32)
  {
    i in net.nodes && net.nodes[i].finished != []
  }

  ghost predicate AllFinished<S(!new)>(u: Setup<S>, net: Net<S>)
  {
    forall i {:trigger HasFinished(net, i)} :: i in u.Nodes() ==> HasFinished(net, i)
  }

  /** All nodes can still go on, and these have started. */
  ghost predicate Starting<S(!new)>(C: CipherSuite<S>, u: Setup<S>, t: Trace<S>, t': Trace<S>, Y: set<u32>)
    requires u.Valid()
  {
    && Leads(C, u, t, t')
    && forall i {:trigger AwakeIn(u, Last(t'), Y, i)} :: i in u.Nodes() ==> AwakeIn(u, Last(t'), Y, i)
  }

  ghost predicate AwakeIn<S(!new)>(u: Setup<S>, net: Net<S>, Y: set<u32>, i: u32)
  {
    if i in Y then Awake(u, net, i) else Sound(u, net, i)
  }

  lemma StartNext<S(!new)>(C: CipherSuite<S>, u: Setup<S>, t: Trace<S>, t': Trace<S>, Y: set<u32>, i: u32)
    returns (t'': Trace<S>)
    requires C.Valid() && u.Valid() && Starting(C, u, t, t', Y) && i in u.Nodes() - Y
    ensures Starting(C, u, t, t'', Y + {i})
  {
    assert AwakeIn(u, Last(t'), Y, i);
    t'' := StartNode(C, u, t', i);
    ContinuesOn(t, t', t'');
    forall j | j in u.Nodes()
      ensures AwakeIn(u, Last(t''), Y + {i}, j)
    {
      assert AwakeIn(u, Last(t'), Y, j);
    }
  }

  lemma {:induction false} StartThese<S(!new)>(C: CipherSuite<S>, u: Setup<S>, t: Trace<S>, Y: set<u32>)
    returns (t': Trace<S>)
    requires C.Valid() && u.Valid() && Y <= u.Nodes() && Starting(C, u, t, t, {})
    ensures Starting(C, u, t, t', Y)
    decreases Y
  {
    if Y == {} {
      t' := t;
    } else {
      var i :| i in Y;
      var before := StartThese(C, u, t, Y - {i});
      t' := StartNext(C, u, t, before, Y - {i}, i);
      assert Y - {i} + {i} == Y;
    }
  }

  lemma StartNone<S(!new)>(C: CipherSuite<S>, u: Setup<S>, t: Trace<S>)
    requires C.Valid() && u.Valid() && Runs(C, u, t) && AllSound(u, Last(t))
    ensures Starting(C, u, t, t, {})
  {
    forall i | i in u.Nodes()
      ensures AwakeIn(u, Last(t), {}, i)
    {
      assert Sound(u, Last(t), i);
    }
  }

  lemma StartDone<S(!new)>(C: CipherSuite<S>, u: Setup<S>, t: Trace<S>, t': Trace<S>)
    requires C.Valid() && u.Valid() && Starting(C, u, t, t', u.Nodes())
    ensures Leads(C, u, t, t') && AllAwake(u, Last(t')) && u.Nodes() <= Last(t').packets.Keys
  {
    forall i | i in u.Nodes()
      ensures Awake(u, Last(t'), i)
    {
      assert AwakeIn(u, Last(t'), u.Nodes(), i);
    }
    LastFacts(C, u, t');
    forall i | i in u.Nodes()
      ensures i in Last(t').packets
    {
      assert Awake(u, Last(t'), i) && NodeFacts(u, Last(t'), i, Last(t').nodes[i]);
    }
  }

  lemma StartAll<S(!new)>(C: CipherSuite<S>, u: Setup<S>, t: Trace<S>) returns (t': Trace<S>)
    requires C.Valid() && u.Valid() && Runs(C, u, t) && AllSound(u, Last(t))
    ensures Leads(C, u, t, t') && AllAwake(u, Last(t')) && u.Nodes() <= Last(t').packets.Keys
  {
    StartNone(C, u, t);
    t' := StartThese(C, u, t, u.Nodes());
    StartDone(C, u, t, t');
  }

  /** All nodes have started, and these have heard all packets. */
  ghost predicate Informing<S(!new)>(C: CipherSuite<S>, u: Setup<S>, t: Trace<S>, t': Trace<S>, Y: set<u32>)
    requires u.Valid()
  {
    && Leads(C, u, t, t') && u.Nodes() <= Last(t').packets.Keys
    && forall i {:trigger InformedIn(u, Last(t'), Y, i)} :: i in u.Nodes() ==> InformedIn(u, Last(t'), Y, i)
  }

  ghost predicate InformedIn<S(!new)>(u: Setup<S>, net: Net<S>, Y: set<u32>, i: u32)
  {
    if i in Y then Informed(u, net, i) else Awake(u, net, i)
  }

  lemma InformNext<S(!new)>(C: CipherSuite<S>, u: Setup<S>, t: Trace<S>, t': Trace<S>, Y: set<u32>, i: u32)
    returns (t'': Trace<S>)
    requires C.Valid() && u.Valid() && Informing(C, u, t, t', Y) && i in u.Nodes() - Y
    ensures Informing(C, u, t, t'', Y + {i})
  {
    assert InformedIn(u, Last(t'), Y, i);
    t'' := HearAll(C, u, t', i);
    ContinuesOn(t, t', t'');
    forall j | j in u.Nodes()
      ensures InformedIn(u, Last(t''), Y + {i}, j)
    {
      assert InformedIn(u, Last(t'), Y, j);
    }
  }

  lemma {:induction false} InformThese<S(!new)>(C: CipherSuite<S>, u: Setup<S>, t: Trace<S>, Y: set<u32>)
    returns (t': Trace<S>)
    requires C.Valid() && u.Valid() && Y <= u.Nodes() && Informing(C, u, t, t, {})
    ensures Informing(C, u, t, t', Y)
    decreases Y
  {
    if Y == {} {
      t' := t;
    } else {
      var i :| i in Y;
      var before := InformThese(C, u, t, Y - {i});
      t' := InformNext(C, u, t, before, Y - {i}, i);
      assert Y - {i} + {i} == Y;
    }
  }

  lemma InformNone<S(!new)>(C: CipherSuite<S>, u: Setup<S>, t: Trace<S>)
    requires C.Valid() && u.Valid() && Runs(C, u, t) && AllAwake(u, Last(t)) && u.Nodes() <= Last(t).packets.Keys
    ensures Informing(C, u, t, t, {})
  {
    forall i | i in u.Nodes()
      ensures InformedIn(u, Last(t), {}, i)
    {
      assert Awake(u, Last(t), i);
    }
  }

  lemma InformDone<S(!new)>(C: CipherSuite<S>, u: Setup<S>, t: Trace<S>, t': Trace<S>)
    requires C.Valid() && u.Valid() && Informing(C, u, t, t', u.Nodes())
    ensures Leads(C, u, t, t') && AllInformed(u, Last(t'))
  {
    forall i | i in u.Nodes()
      ensures Informed(u, Last(t'), i)
    {
      assert InformedIn(u, Last(t'), u.Nodes(), i);
    }
  }

  lemma InformAll<S(!new)>(C: CipherSuite<S>, u: Setup<S>, t: Trace<S>) returns (t': Trace<S>)
    requires C.Valid() && u.Valid() && Runs(C, u, t) && AllAwake(u, Last(t)) && u.Nodes() <= Last(t).packets.Keys
    ensures Leads(C, u, t, t') && AllInformed(u, Last(t'))
  {
    InformNone(C, u, t);
    t' := InformThese(C, u, t, u.Nodes());
    InformDone(C, u, t, t');
  }

  /** All nodes only wait for share maps, all of which have been gossiped, and these have finished. */
  ghost predicate Finishing<S(!new)>(C: CipherSuite<S>, u: Setup<S>, t: Trace<S>, t': Trace<S>, Y: set<u32>)
    requires u.Valid()
  {
    && Leads(C, u, t, t') && u.Nodes() <= Last(t').shares.Keys
    && forall i {:trigger FinishedIn(u, Last(t'), Y, i)} :: i in u.Nodes() ==> FinishedIn(u, Last(t'), Y, i)
  }

  ghost predicate FinishedIn<S(!new)>(u: Setup<S>, net: Net<S>, Y: set<u32>, i: u32)
  {
    if i in Y then HasFinished(net, i) else Informed(u, net, i)
  }

  lemma FinishNext<S(!new)>(C: CipherSuite<S>, u: Setup<S>, t: Trace<S>, t': Trace<S>, Y: set<u32>, i: u32)
    returns (t'': Trace<S>)
    requires C.Valid() && u.Valid() && Finishing(C, u, t, t', Y) && i in u.Nodes() - Y
    ensures Finishing(C, u, t, t'', Y + {i})
  {
    assert FinishedIn(u, Last(t'), Y, i);
    t'' := GetAll(C, u, t', i);
    ContinuesOn(t, t', t'');
    forall j | j in u.Nodes()
      ensures FinishedIn(u, Last(t''), Y + {i}, j)
    {
      assert FinishedIn(u, Last(t'), Y, j);
    }
  }

  lemma {:induction false} FinishThese<S(!new)>(C: CipherSuite<S>, u: Setup<S>, t: Trace<S>, Y: set<u32>)
    returns (t': Trace<S>)
    requires C.Valid() && u.Valid() && Y <= u.Nodes() && Finishing(C, u, t, t, {})
    ensures Finishing(C, u, t, t', Y)
    decreases Y
  {
    if Y == {} {
      t' := t;
    } else {
      var i :| i in Y;
      var before := FinishThese(C, u, t, Y - {i});
      t' := FinishNext(C, u, t, before, Y - {i}, i);
      assert Y - {i} + {i} == Y;
    }
  }

  lemma NoneFinished<S(!new)>(u: Setup<S>, net: Net<S>)
    requires AllInformed(u, net)
    ensures u.Nodes() <= net.shares.Keys
    ensures forall i {:trigger FinishedIn(u, net, {}, i)} :: i in u.Nodes() ==> FinishedIn(u, net, {}, i)
  {
    forall i | i in u.Nodes()
      ensures i in net.shares && FinishedIn(u, net, {}, i)
    {
      assert Informed(u, net, i);
    }
  }

  lemma FinishNone<S(!new)>(C: CipherSuite<S>, u: Setup<S>, t: Trace<S>)
    requires C.Valid() && u.Valid() && Runs(C, u, t) && AllInformed(u, Last(t))
    ensures Finishing(C, u, t, t, {})
  {
    NoneFinished(u, Last(t));
  }

  lemma FinishDone<S(!new)>(C: CipherSuite<S>, u: Setup<S>, t: Trace<S>, t': Trace<S>)
    requires C.Valid() && u.Valid() && Finishing(C, u, t, t', u.Nodes())
    ensures Leads(C, u, t, t') && AllFinished(u, Last(t'))
  {
    forall i | i in u.Nodes()
      ensures HasFinished(Last(t'), i)
    {
      assert FinishedIn(u, Last(t'), u.Nodes(), i);
    }
  }

  lemma FinishAll<S(!new)>(C: CipherSuite<S>, u: Setup<S>, t: Trace<S>) returns (t': Trace<S>)
    requires C.Valid() && u.Valid() && Runs(C, u, t) && AllInformed(u, Last(t))
    ensures Leads(C, u, t, t') && AllFinished(u, Last(t'))
  {
    FinishNone(C, u, t);
    t' := FinishThese(C, u, t, u.Nodes());
    FinishDone(C, u, t, t');
  }

  // ---------- The theorem ----------

  /** The run can be continued to one in which every node has finished. */
  ghost predicate CanComplete<S(!new)>(C: CipherSuite<S>, u: Setup<S>, t: Trace<S>)
    requires u.Valid()
  {
    exists t': Trace<S> :: Completes(C, u, t, t')
  }

  ghost predicate Completes<S(!new)>(C: CipherSuite<S>, u: Setup<S>, t: Trace<S>, t': Trace<S>)
    requires u.Valid()
  {
    Leads(C, u, t, t') && AllFinished(u, Last(t'))
  }

  lemma SoundCompletes<S(!new)>(C: CipherSuite<S>, u: Setup<S>, t: Trace<S>) returns (end: Trace<S>)
    requires C.Valid() && u.Valid() && Runs(C, u, t) && AllSound(u, Last(t))
    ensures Completes(C, u, t, end)
  {
    var started := StartAll(C, u, t);
    var informed := InformAll(C, u, started);
    end := FinishAll(C, u, informed);
    ContinuesOn(t, started, informed);
    ContinuesOn(t, informed, end);
  }

  lemma SpoiltEnds<S(!new)>(C: CipherSuite<S>, u: Setup<S>, t: Trace<S>, k: nat, i: u32)
    requires C.Valid() && u.Valid() && Runs(C, u, t) && k < |t.nets|
    requires i in u.Nodes() && i in t.nets[k].nodes && Spoilt(u, i, t.nets[k].nodes[i])
    ensures !HasFinished(Last(t), i)
  {
    SpoiltForever(C, u, t.steps, t.nets, k, i);
    LastFacts(C, u, t);
    SpoiltIsUnfinished(u, Last(t), i);
  }

  lemma SpoiltNeverCompletes<S(!new)>(C: CipherSuite<S>, u: Setup<S>, t: Trace<S>, i: u32, t': Trace<S>)
    requires C.Valid() && u.Valid() && Runs(C, u, t) && Leads(C, u, t, t')
    requires i in u.Nodes() && !Sound(u, Last(t), i)
    ensures !AllFinished(u, Last(t'))
  {
    LastFacts(C, u, t);
    var k := |t.nets| - 1;
    assert t'.nets[k] == t.nets[k];
    SpoiltEnds(C, u, t', k, i);
    assert !HasFinished(Last(t'), i);
  }

  /**
   A run can be completed if and only if no message was dropped because its receiver had not started,
   and no unfinished node has got all the share maps it waits for.
   */
  lemma CompletesExactly<S(!new)>(C: CipherSuite<S>, u: Setup<S>, t: Trace<S>)
    requires C.Valid() && u.Valid() && Runs(C, u, t)
    ensures CanComplete(C, u, t) <==> AllSound(u, Last(t))
  {
    if AllSound(u, Last(t)) {
      var end := SoundCompletes(C, u, t);
    } else {
      var i :| i in u.Nodes() && !Sound(u, Last(t), i);
      forall t': Trace<S> | Leads(C, u, t, t')
        ensures !Completes(C, u, t, t')
      {
        SpoiltNeverCompletes(C, u, t, i, t');
      }
    }
  }

  lemma InitiallySound<S(!new)>(u: Setup<S>)
    requires u.Valid()
    ensures AllSound(u, Initial(u))
  {
    forall i | i in u.Nodes()
      ensures Sound(u, Initial(u), i)
    {
      assert Initial(u).nodes[i] == Node(None, {}, {}, {}, {}, []);
      assert |{i}| == 1 && {} + {i} == {i};
    }
  }

  /** Every set-up has a run in which all nodes finish, and then all hold keys of the joint polynomial. */
  lemma CompleteRun<S(!new)>(C: CipherSuite<S>, u: Setup<S>) returns (steps: seq<Step<S>>, nets: seq<Net<S>>)
    requires C.Valid() && u.Valid()
    ensures IsRun(C, u, steps, nets)
    ensures forall i :: i in u.Nodes() ==>
              i in nets[|steps|].nodes && nets[|steps|].nodes[i].finished == [JointKeys(C, u.secrets, i)]
  {
    InitiallySound(u);
    var end := SoundCompletes(C, u, Trace([], [Initial(u)]));
    steps, nets := end.steps, end.nets;
    forall i | i in u.Nodes()
      ensures i in nets[|steps|].nodes && nets[|steps|].nodes[i].finished == [JointKeys(C, u.secrets, i)]
    {
      assert HasFinished(Last(end), i);
      var P := FinishedNodesAgree(C, u, steps, nets, i);
    }
  }
}
