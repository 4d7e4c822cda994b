/** The host and its peers as one system, and what every run of it keeps
    (ElDorito/Source/Server/VariableSynchronization.cpp:205-326, 385-400). */
module Protocol {
  import opened Messages
  import opened Packets
  import opened Replication

  /** Assumed of the engine: one reliable channel for each peer that keeps packets in order. Assumed of the session: a
      peer index is taken over by another machine only after a tick has seen it not ready.

      `ready` peers are those IsPeerReady holds of; `connected` ones have a channel and a game at its other end;
      `absent` ones have been seen not ready by a tick since they were last connected. */
  datatype System = System(
    wiring: Wiring, order: seq<nat>, bindings: Bindings,
    ready: set<nat>, connected: set<nat>, absent: set<nat>,
    channels: seq<seq<Message>>, clients: seq<Variables>)
  {
    /** What a peer's client variables will be once its channel is empty. */
    function Drained(p: nat): Variables
      requires p < |channels| && p < |clients|
    {
      Drain(wiring, clients[p], channels[p])
    }
  }

  datatype Step =
    | ServerWrite(id: nat, value: Value) // somebody sets a server variable
    | HostTick
    | Deliver(peer: nat)                 // a peer handles the first packet in its channel
    | BecomeReady(peer: nat)
    | BecomeUnready(peer: nat)           // the connection lives on, with what is in the channel
    | Leave(peer: nat)                   // the connection is gone, with what was in the channel
    | Join(peer: nat, game: Variables)   // another machine takes the index

  predicate Distinct(order: seq<nat>) {
    forall i, j :: 0 <= i < j < |order| ==> order[i] != order[j]
  }

  /** The fixed facts: the table of bindings, and the shape of the rest. */
  ghost predicate Shape(s: System) {
    && s.wiring.Valid() && AllValid(s.bindings)
    && Distinct(s.order) && |s.order| <= MAX_UPDATES && (forall id :: id in s.order <==> id in s.bindings)
    && |s.channels| == MAX_PEERS && |s.clients| == MAX_PEERS
    && s.ready <= s.connected && (forall p <- s.connected :: p < MAX_PEERS)
  }

  function AllPeers(): (peers: set<nat>)
    ensures forall p: nat :: p in peers <==> p < MAX_PEERS
  {
    {0, 1, 2, 3, 4, 5, 6, 7, 8, 9, 10, 11, 12, 13, 14, 15, 16}
  }

  /** A tick: every ready peer gets, in one packet, the updates that it lacks. */
  ghost function Tick(s: System): System
    requires Shape(s)
  {
    TickAllValid(s.bindings);
    s.(bindings := AfterTick(s.bindings, s.ready),
       absent := AllPeers() - s.ready,
       channels := seq(MAX_PEERS, p requires 0 <= p < MAX_PEERS =>
         if p in s.ready then s.channels[p] + Sent(s.wiring, TickAll(s.bindings), s.order, p) else s.channels[p]))
  }

  ghost predicate Enabled(s: System, step: Step)
    requires Shape(s)
  {
    match step
    case ServerWrite(id, v) => id in s.bindings && v.Valid() && SameType(v, s.bindings[id].server)
    case HostTick => true
    case Deliver(p) => p in s.connected && s.channels[p] != []
    case BecomeReady(p) => p in s.connected
    case BecomeUnready(p) => true
    case Leave(p) => p in s.connected
    case Join(p, _) => p < MAX_PEERS && p !in s.connected && p in s.absent
  }

  ghost function Next(s: System, step: Step): System
    requires Shape(s) && Enabled(s, step)
  {
    match step
    case ServerWrite(id, v) => s.(bindings := s.bindings[id := s.bindings[id].(server := v)])
    case HostTick => Tick(s)
    case Deliver(p) =>
      s.(clients := s.clients[p := Receive(s.wiring, s.clients[p], s.channels[p][0])],
         channels := s.channels[p := s.channels[p][1..]])
    case BecomeReady(p) => s.(ready := s.ready + {p})
    case BecomeUnready(p) => s.(ready := s.ready - {p})
    case Leave(p) =>
      s.(ready := s.ready - {p}, connected := s.connected - {p}, absent := s.absent - {p}, channels := s.channels[p := []])
    case Join(p, game) => s.(connected := s.connected + {p}, clients := s.clients[p := game], channels := s.channels[p := []])
  }

  // ----- Safety -----

  /** The peer's value is the host's as it travels, up to the sign of a zero. */
  predicate Agrees(host: Value, peer: Value)
    requires host.Valid()
  {
    peer == OverTheWire(host) || BothZero(host, peer)
  }

  /** What the bit of a peer in a binding promises about the peer's variable, once its channel is drained. A peer
      whose game has no such variable, or one of another type, is promised nothing. */
  ghost predicate Promised(s: System, p: nat, id: nat)
    requires Shape(s) && p < MAX_PEERS && id in s.bindings
  {
    var b, vars := s.bindings[id], s.Drained(p);
    p in b.synced && id in vars && SameType(vars[id], b.client) ==> Agrees(b.client, vars[id])
  }

  ghost predicate Safe(s: System) {
    && Shape(s)
    && (forall p, id :: p in s.connected && id in s.bindings ==> Promised(s, p, id))
    && (forall p, id :: p in s.absent && id in s.bindings ==> p !in s.bindings[id].synced)
  }

  /** No peer is up to date, and none has been connected: one hosting period begins. */
  ghost predicate Initial(s: System) {
    && Shape(s) && s.connected == {} && s.absent == AllPeers()
    && forall id <- s.bindings :: s.bindings[id].synced == {}
  }

  lemma InitialIsSafe(s: System)
    requires Initial(s)
    ensures Safe(s)
  {
  }

  lemma {:induction false} ApplyOutOfDate(vars: Variables, bindings: Bindings, order: seq<nat>, p: nat, id: nat)
    requires AllValid(bindings) && Distinct(order) && forall i <- order :: i in bindings
    requires id in vars && id in bindings && SameType(vars[id], bindings[id].server)
    ensures var after := ApplyAll(vars, ReceivedVars(OutOfDate(bindings, order, p)));
            id in after &&
            after[id] == if id in order && p !in bindings[id].synced then OverTheWire(bindings[id].server) else vars[id]
    decreases |order|
  {
    hide SameType, UpdateOf, ReceivedVar, OverTheWire, ApplyOne;
    if order == [] {
      assert ReceivedVars([]) == [];
    } else {
      var head, rest := order[0], order[1..];
      var others := OutOfDate(bindings, rest, p);
      assert forall i <- rest :: i in order;
      assert Distinct(rest) && head !in rest;
      if p in bindings[head].synced {
        assert OutOfDate(bindings, order, p) == others;
        ApplyOutOfDate(vars, bindings, rest, p, id);
      } else {
        var u := UpdateOf(head, bindings[head]);
        ReceivedCons(u, others);
        var next := ApplyOne(vars, ReceivedVar(u));
        ApplyUpdate(vars, head, bindings[head], id, bindings[id].server);
        ApplyOutOfDate(next, bindings, rest, p, id);
      }
      assert id in order <==> id == head || id in rest;
    }
  }

  lemma ReceivedCons(u: SyncVar, others: seq<SyncVar>)
    requires u.Valid() && forall v <- others :: v.Valid()
    ensures ReceivedVars([u] + others)[0] == ReceivedVar(u) && ReceivedVars([u] + others)[1..] == ReceivedVars(others)
  {
    assert ReceivedVars([u] + others) == [ReceivedVar(u)] + ReceivedVars(others);
  }

  /** Applying one update sets the variable it names, if the types agree, and no other. */
  lemma ApplyUpdate(vars: Variables, head: nat, b: Binding, id: nat, server: Value)
    requires head < 0x1_0000_0000 && b.Valid() && server.Valid() && id in vars && SameType(vars[id], server)
    requires id == head ==> server == b.server
    ensures var next := ApplyOne(vars, ReceivedVar(UpdateOf(head, b)));
            id in next && SameType(next[id], server) && next[id] == if id == head then OverTheWire(server) else vars[id]
  {
    TypeOverTheWire(server);
  }

  lemma TypeOverTheWire(v: Value)
    requires v.Valid()
    ensures SameType(v, OverTheWire(v)) && SameType(OverTheWire(v), v)
  {
    OverTheWireIs(v);
  }

  /** After a tick a ready peer's drained variables are the old ones with the missing updates applied. */
  lemma DrainedAfterTick(s: System, p: nat, id: nat)
    requires Shape(s) && p in s.ready && id in s.bindings && p < MAX_PEERS
    requires id in s.Drained(p) && SameType(s.Drained(p)[id], s.bindings[id].server)
    ensures var after := Tick(s).Drained(p);
            var b := Ticked(s.bindings[id]);
            id in after &&
            after[id] == if p !in b.synced then OverTheWire(b.server) else s.Drained(p)[id]
  {
    hide SameType, Ticked, Receive, ApplyAll, OverTheWire, UpdatePacket, OutOfDate, ReceivedVars;
    TickAllValid(s.bindings);
    var ticked := TickAll(s.bindings);
    var updates := OutOfDate(ticked, s.order, p);
    var sent := Sent(s.wiring, ticked, s.order, p);
    TickedServer(s.bindings[id]);
    ApplyOutOfDate(s.Drained(p), ticked, s.order, p, id);
    DrainAppend(s.wiring, s.clients[p], s.channels[p], sent);
    OutOfDateLength(ticked, s.order, p);
    DrainSent(s.wiring, s.Drained(p), ticked, s.order, p);
  }

  lemma TickedServer(b: Binding)
    ensures Ticked(b).server == b.server
  {
  }

  /** Receiving what a tick sends applies the missing updates. */
  lemma DrainSent(w: Wiring, vars: Variables, bindings: Bindings, order: seq<nat>, p: nat)
    requires w.Valid() && AllValid(bindings) && |order| <= MAX_UPDATES && forall id <- order :: id in bindings
    ensures Drain(w, vars, Sent(w, bindings, order, p)) == ApplyAll(vars, ReceivedVars(OutOfDate(bindings, order, p)))
  {
    hide Receive, UpdatePacket, OutOfDate;
    var updates := OutOfDate(bindings, order, p);
    OutOfDateLength(bindings, order, p);
    if updates == [] {
      assert ReceivedVars(updates) == [];
    } else {
      var sent := [UpdatePacket(w, updates)];
      ReceiveUpdates(w, vars, updates);
      assert sent[1..] == [];
      assert Drain(w, vars, sent) == Drain(w, Receive(w, vars, sent[0]), sent[1..]);
    }
  }

  lemma {:induction false} OutOfDateLength(bindings: Bindings, order: seq<nat>, p: nat)
    requires AllValid(bindings) && forall id <- order :: id in bindings
    ensures |OutOfDate(bindings, order, p)| <= |order|
  {
    if order != [] {
      OutOfDateLength(bindings, order[1..], p);
    }
  }

  lemma TickPromises(s: System, p: nat, id: nat)
    requires Safe(s) && p in s.connected && id in s.bindings && Shape(Tick(s))
    ensures Promised(Tick(s), p, id)
  {
    var t := Tick(s);
    var b, before, vars := s.bindings[id], s.Drained(p), t.Drained(p);
    if p in s.ready && id in vars && SameType(vars[id], t.bindings[id].client) {
      SameVariables(s, p, id);
      assert Promised(s, p, id);
      DrainedAfterTick(s, p, id);
      TickedAgrees(b);
    }
  }

  /** A tick changes no variable's type at either end. */
  lemma SameVariables(s: System, p: nat, id: nat)
    requires Shape(s) && p in s.ready && p < MAX_PEERS && id in s.bindings
    requires id in Tick(s).Drained(p) && SameType(Tick(s).Drained(p)[id], Tick(s).bindings[id].client)
    ensures id in s.Drained(p) && SameType(s.Drained(p)[id], s.bindings[id].server)
    ensures SameType(s.Drained(p)[id], s.bindings[id].client)
  {
    hide Drain, Equal, Sent;
    var t := Tick(s);
    DrainKeepsTypes(s.wiring, s.clients[p], s.channels[p], id);
    DrainKeepsTypes(s.wiring, s.clients[p], t.channels[p], id);
    assert t.bindings[id].server == s.bindings[id].server;
    SameTypes(s.bindings[id].server, s.bindings[id].client, t.bindings[id].client);
    var v := s.clients[p][id];
    SameTypes(v, s.Drained(p)[id], t.Drained(p)[id]);
    hide Shape, Tick, AfterTick, Ticked;
  }

  lemma SameTypes(a: Value, b: Value, c: Value)
    ensures SameType(a, b) && SameType(a, c) ==> SameType(b, c) && SameType(b, a)
  {
  }

  /** The value sent is the server's, and the client variable equals it. */
  lemma TickedAgrees(b: Binding)
    requires b.Valid()
    ensures Ticked(b).client.Valid() && Agrees(Ticked(b).client, OverTheWire(b.server))
  {
    OverTheWireIs(b.server);
    OverTheWireIs(b.client);
    TickedIs(b);
  }

  lemma ShapeKept(s: System, step: Step)
    requires Shape(s) && Enabled(s, step)
    ensures Shape(Next(s, step))
  {
  }

  lemma TickShape(s: System)
    requires Shape(s)
    ensures Shape(Tick(s))
  {
    ShapeKept(s, HostTick);
  }

  lemma TickIsSafe(s: System)
    requires Safe(s)
    ensures Safe(Tick(s))
  {
    var t := Tick(s);
    ShapeKept(s, HostTick);
    hide Drain;
    forall p, id | p in t.connected && id in t.bindings ensures Promised(t, p, id) {
      TickPromises(s, p, id);
    }
  }

  lemma DeliverIsSafe(s: System, p: nat)
    requires Safe(s) && Enabled(s, Deliver(p))
    ensures Safe(Next(s, Deliver(p)))
    ensures forall q :: 0 <= q < MAX_PEERS ==> Next(s, Deliver(p)).Drained(q) == s.Drained(q)
  {
    var t := Next(s, Deliver(p));
    ShapeKept(s, Deliver(p));
    hide Receive;
    forall q | 0 <= q < MAX_PEERS ensures t.Drained(q) == s.Drained(q) {
    }
    forall q, id | q in t.connected && id in t.bindings ensures Promised(t, q, id) {
      assert Promised(s, q, id);
    }
  }

  lemma OtherStepsAreSafe(s: System, step: Step)
    requires Safe(s) && Enabled(s, step) && !step.HostTick? && !step.Deliver?
    ensures Safe(Next(s, step))
  {
    var t := Next(s, step);
    ShapeKept(s, step);
    hide Drain;
    forall p, id | p in t.connected && id in t.bindings ensures Promised(t, p, id) {
      assert step.Join? && step.peer == p ==> p !in s.bindings[id].synced;
      if !(step.Join? && step.peer == p) {
        assert Promised(s, p, id);
      }
    }
  }

  /** Every step keeps the promise of every bit. */
  lemma StepIsSafe(s: System, step: Step)
    requires Safe(s) && Enabled(s, step)
    ensures Safe(Next(s, step))
  {
    match step {
      case HostTick => TickIsSafe(s);
      case Deliver(p) => DeliverIsSafe(s, p);
      case _ => OtherStepsAreSafe(s, step);
    }
  }

  /** The states of a run, one for each step and the last one. */
  ghost predicate Run(states: seq<System>, steps: seq<Step>) {
    && |states| == |steps| + 1
    && forall i :: 0 <= i < |steps| ==>
         Shape(states[i]) && Enabled(states[i], steps[i]) && states[i + 1] == Next(states[i], steps[i])
  }

  /** Safety: in every state of every run, a peer whose bit is set for a binding will, once its channel is drained,
      hold the host's client variable as it travels. */
  lemma {:induction false} RunIsSafe(states: seq<System>, steps: seq<Step>, n: nat)
    requires Run(states, steps) && Initial(states[0]) && n < |states|
    ensures Safe(states[n])
  {
    if n == 0 {
      InitialIsSafe(states[0]);
    } else {
      RunIsSafe(states, steps, n - 1);
      StepIsSafe(states[n - 1], steps[n - 1]);
    }
  }

  // ----- Convergence -----

  /** A peer agrees with the host on every binding that its game has. */
  ghost predicate InAgreement(s: System, vars: Variables)
    requires Shape(s)
  {
    forall id <- s.bindings :: id in vars && SameType(vars[id], s.bindings[id].client) ==>
      Agrees(s.bindings[id].client, vars[id])
  }

  /** One tick and the delivery of what is in the channels make every ready peer agree with the host, and the host's
      client variables are its server variables, up to the sign of a zero. */
  lemma OneTickConverges(s: System)
    requires Safe(s)
    ensures var t := Tick(s);
            && Shape(t)
            && (forall p :: p in t.ready ==> InAgreement(t, t.Drained(p)))
            && (forall id <- t.bindings :: t.bindings[id].client == t.bindings[id].server ||
                                           BothZero(t.bindings[id].server, t.bindings[id].client))
  {
    var t := Tick(s);
    TickIsSafe(s);
    forall id | id in t.bindings
      ensures t.bindings[id].client == t.bindings[id].server || BothZero(t.bindings[id].server, t.bindings[id].client)
    {
      TickedIs(s.bindings[id]);
    }
    hide Drain;
    forall p | p in t.ready ensures InAgreement(t, t.Drained(p)) {
      forall id | id in t.bindings && id in t.Drained(p) && SameType(t.Drained(p)[id], t.bindings[id].client)
        ensures Agrees(t.bindings[id].client, t.Drained(p)[id])
      {
        assert Promised(t, p, id);
      }
    }
  }

  /** So what somebody writes to a server variable is, after the next tick and its delivery, what every ready peer has, if its
      game has such a variable; and the other server variables reach it just as well. */
  lemma WriteArrives(s: System, id: nat, v: Value, p: nat)
    requires Safe(s) && p in s.ready && Enabled(s, ServerWrite(id, v))
    ensures var t := Tick(Next(s, ServerWrite(id, v)));
            && Shape(t) && t.bindings.Keys == s.bindings.Keys
            && forall k <- t.bindings ::
                 && t.bindings[k].server == (if k == id then v else s.bindings[k].server)
                 && (k in t.Drained(p) && SameType(t.Drained(p)[k], t.bindings[k].server) ==>
                       Agrees(t.bindings[k].server, t.Drained(p)[k]))
  {
    hide Drain, Agrees, Promised, Sent, Tick;
    var w := Next(s, ServerWrite(id, v));
    StepIsSafe(s, ServerWrite(id, v));
    ServersReach(w, p);
  }

  lemma ServersReach(s: System, p: nat)
    requires Safe(s) && p in s.ready
    ensures var t := Tick(s);
            && Shape(t) && t.bindings.Keys == s.bindings.Keys
            && forall k <- t.bindings ::
                 && t.bindings[k].server == s.bindings[k].server
                 && (k in t.Drained(p) && SameType(t.Drained(p)[k], t.bindings[k].server) ==>
                       Agrees(t.bindings[k].server, t.Drained(p)[k]))
  {
    var t := Tick(s);
    OneTickConverges(s);
    hide Drain, Safe, OverTheWire;
    forall k | k in t.bindings && k in t.Drained(p) && SameType(t.Drained(p)[k], t.bindings[k].server)
      ensures Agrees(t.bindings[k].server, t.Drained(p)[k])
    {
      var b := t.bindings[k];
      SameTypes(b.server, t.Drained(p)[k], b.client);
      ZeroTravels(b.client);
      assert Agrees(b.client, t.Drained(p)[k]);
    }
  }

  lemma ZeroTravels(v: Value)
    requires v.Valid()
    ensures v.FloatValue? ==> OverTheWire(v) == v
  {
    OverTheWireIs(v);
  }

  /** Whoever joins and becomes ready has every server variable that its game knows after the next tick and its delivery,
      whatever the index was used for before. */
  lemma JoinerCatchesUp(s: System, p: nat, game: Variables, id: nat)
    requires Safe(s) && Enabled(s, Join(p, game)) && Enabled(Next(s, Join(p, game)), BecomeReady(p))
    requires id in s.bindings && id in game && SameType(game[id], s.bindings[id].server)
    ensures var t := Tick(Next(Next(s, Join(p, game)), BecomeReady(p)));
            && Shape(t) && p in t.ready && id in t.Drained(p) && Agrees(s.bindings[id].server, t.Drained(p)[id])
  {
    hide Drain, Agrees, Promised, Sent, Ticked, TickAll;
    var a := Next(s, Join(p, game));
    StepIsSafe(s, Join(p, game));
    var b := Next(a, BecomeReady(p));
    StepIsSafe(a, BecomeReady(p));
    ServersReach(b, p);
    var t := Tick(b);
    assert t.clients[p] == game;
    hide Tick;
    DrainKeepsTypes(t.wiring, game, t.channels[p], id);
  }

  /** A tick forgets what a peer that is not ready had been sent; and when its connection is gone and a tick has seen that,
      another machine may take its index. */
  lemma UnreadyIsForgotten(s: System, p: nat, game: Variables)
    requires Safe(s) && p in s.connected
    ensures var t := Tick(Next(s, BecomeUnready(p)));
            Shape(t) && p in t.connected && forall id <- t.bindings :: p !in t.bindings[id].synced
    ensures var u := Tick(Next(s, Leave(p)));
            Shape(u) && p !in u.connected && u.channels[p] == [] && Enabled(u, Join(p, game)) && !Enabled(s, Join(p, game))
  {
    ShapeKept(s, BecomeUnready(p));
    ShapeKept(s, Leave(p));
    ShapeKept(Next(s, BecomeUnready(p)), HostTick);
    ShapeKept(Next(s, Leave(p)), HostTick);
  }

  /** Delivering everything to one peer is a run that ends with an empty channel and the drained variables. */
  lemma {:induction false} DeliverAll(s: System, p: nat) returns (states: seq<System>, steps: seq<Step>)
    requires Shape(s) && p in s.connected
    ensures Run(states, steps) && states[0] == s && (forall step <- steps :: step == Deliver(p))
    ensures states[|steps|] == s.(clients := s.clients[p := s.Drained(p)], channels := s.channels[p := []])
    decreases |s.channels[p]|
  {
    if s.channels[p] == [] {
      states, steps := [s], [];
      assert s.clients[p := s.clients[p]] == s.clients && s.channels[p := []] == s.channels;
    } else {
      ShapeKept(s, Deliver(p));
      var t := Next(s, Deliver(p));
      var ss, more := DeliverAll(t, p);
      hide Receive;
      assert t.Drained(p) == s.Drained(p);
      states, steps := [s] + ss, [Deliver(p)] + more;
      forall i | 0 <= i < |steps|
        ensures Shape(states[i]) && Enabled(states[i], steps[i]) && states[i + 1] == Next(states[i], steps[i])
      {
        if i > 0 {
          assert states[i] == ss[i - 1] && steps[i] == more[i - 1] && states[i + 1] == ss[i];
        }
      }
      assert t.clients[p := t.Drained(p)] == s.clients[p := s.Drained(p)];
      assert t.channels[p := []] == s.channels[p := []];
    }
  }

  /** Some server variable is a NaN. */
  ghost predicate SomeNaN(bindings: Bindings) {
    exists id :: id in bindings && bindings[id].server.FloatValue? && IsNaN(bindings[id].server.bits)
  }

  // ----- Ticks and deliveries -----

  /** What a tick leaves, and what further ticks and deliveries keep: every binding is marked for exactly the ready peers,
      and comparing its variables again changes nothing but, for a NaN, the marks. */
  ghost predicate Settled(s: System) {
    && Shape(s) && s.absent == AllPeers() - s.ready
    && forall id <- s.bindings :: Ticked(s.bindings[id]).(synced := s.ready) == s.bindings[id]
  }

  lemma TickSettles(s: System)
    requires Shape(s)
    ensures Settled(Tick(s))
  {
    TickShape(s);
    forall id | id in s.bindings
      ensures Ticked(Tick(s).bindings[id]).(synced := s.ready) == Tick(s).bindings[id]
    {
      TickedTwice(s.bindings[id], s.ready);
    }
    hide Sent, Shape;
  }

  lemma TickedTwice(b: Binding, ready: set<nat>)
    ensures var once := Ticked(b).(synced := ready); Ticked(once).(synced := ready) == once
  {
    EqualToItself(b.server);
  }

  lemma DeliverKeepsSettled(s: System, p: nat)
    requires Settled(s) && Enabled(s, Deliver(p))
    ensures Settled(Next(s, Deliver(p)))
  {
    ShapeKept(s, Deliver(p));
  }

  /** The marks of a settled binding survive the next comparison exactly if its variable equals itself. */
  lemma SettledMarks(b: Binding, ready: set<nat>)
    requires Ticked(b).(synced := ready) == b
    ensures Ticked(b).synced == (if b.server.FloatValue? && IsNaN(b.server.bits) then {} else ready)
  {
    EqualToItself(b.server);
  }

  /** A tick changes no settled binding, and it leaves the whole state alone exactly when no server variable is a NaN or
      nobody is there to send to: a NaN differs even from itself, so it is sent again on every tick. */
  lemma SettledTickIff(t: System)
    requires Settled(t)
    ensures Settled(Tick(t)) && Tick(t).bindings == t.bindings
    ensures Tick(t) == t <==> t.ready == {} || !SomeNaN(t.bindings)
  {
    TickSettles(t);
    var u := Tick(t);
    forall id | id in t.bindings
      ensures u.bindings[id] == t.bindings[id]
      ensures Ticked(t.bindings[id]).synced == if IsNaNBinding(t, id) then {} else t.ready
    {
      SettledMarks(t.bindings[id], t.ready);
    }
    hide Sent, TickAll, Equal, Ticked, Shape, AfterTick;
    assert u.bindings == t.bindings;
    if SomeNaN(t.bindings) && t.ready != {} {
      var id :| id in t.bindings && IsNaNBinding(t, id);
      var p :| p in t.ready;
      QuietPeer(t, p);
    } else {
      forall p | p in t.ready ensures u.channels[p] == t.channels[p] {
        QuietPeer(t, p);
      }
      assert u.channels == t.channels;
    }
  }

  /** A run of nothing but ticks and deliveries, in any order, that starts with a tick. */
  ghost predicate TicksAndDeliveries(states: seq<System>, steps: seq<Step>) {
    && Run(states, steps) && steps != [] && steps[0].HostTick?
    && forall step <- steps :: step.HostTick? || step.Deliver?
  }

  lemma {:induction false} StaysSettled(states: seq<System>, steps: seq<Step>, n: nat)
    requires TicksAndDeliveries(states, steps) && Safe(states[0]) && 1 <= n < |states|
    ensures Safe(states[n]) && Settled(states[n])
    ensures states[n].bindings == states[1].bindings && states[n].ready == states[1].ready
    decreases n
  {
    StepIsSafe(states[0], steps[0]);
    if n == 1 {
      TickSettles(states[0]);
    } else {
      StaysSettled(states, steps, n - 1);
      var t := states[n - 1];
      assert steps[n - 1] in steps;
      StepIsSafe(t, steps[n - 1]);
      if steps[n - 1].HostTick? {
        SettledTickIff(t);
      } else {
        DeliverKeepsSettled(t, steps[n - 1].peer);
      }
    }
    hide Safe, Settled;
  }

  /** Convergence: from the first tick on, as long as nothing is written and no peer comes or goes, and however deliveries
      and ticks mix, no binding changes, the host's client variables are its server variables up to the sign of a zero, a ready peer with an empty
      channel agrees with the host, and each later tick leaves the whole state as it is if and only if no server variable
      is a NaN or nobody is ready. */
  lemma LaterTicksAreQuietIff(states: seq<System>, steps: seq<Step>, n: nat)
    requires TicksAndDeliveries(states, steps) && Safe(states[0]) && 1 <= n < |states|
    ensures var t := states[n];
            && Safe(t) && t.bindings == states[1].bindings && t.ready == states[0].ready
            && (forall id <- t.bindings :: t.bindings[id].client == t.bindings[id].server ||
                                           BothZero(t.bindings[id].server, t.bindings[id].client))
            && (forall p <- t.ready :: t.channels[p] == [] ==> InAgreement(t, t.clients[p]))
            && (n < |steps| && steps[n].HostTick? ==> (states[n + 1] == t <==> t.ready == {} || !SomeNaN(t.bindings)))
  {
    StaysSettled(states, steps, n);
    OneTickConverges(states[0]);
    SettledTickIff(states[n]);
    forall p | p in states[n].ready && states[n].channels[p] == [] ensures InAgreement(states[n], states[n].clients[p]) {
      SettledAgrees(states[n], p);
    }
    hide Safe, Settled, InAgreement, BothZero;
  }

  lemma SettledAgrees(t: System, p: nat)
    requires Safe(t) && Settled(t) && p in t.ready && p < MAX_PEERS && t.channels[p] == []
    ensures InAgreement(t, t.clients[p])
  {
    assert t.Drained(p) == t.clients[p];
    forall id | id in t.bindings && id in t.clients[p] && SameType(t.clients[p][id], t.bindings[id].client)
      ensures Agrees(t.bindings[id].client, t.clients[p][id])
    {
      assert Promised(t, p, id);
    }
    hide Drain, Agrees, Ticked;
  }

  // ----- Delivering everything -----

  /** Two runs, one after the other. */
  lemma JoinedRun(first: seq<System>, steps: seq<Step>, second: seq<System>, more: seq<Step>)
    requires Run(first, steps) && Run(second, more) && first[|steps|] == second[0]
    ensures Run(first + second[1..], steps + more) && (first + second[1..])[|steps + more|] == second[|more|]
  {
    var states := first + second[1..];
    assert forall i :: 0 <= i < |second| ==> states[|steps| + i] == second[i];
    hide Shape, Enabled, Next;
    forall i | 0 <= i < |steps + more|
      ensures Shape(states[i]) && Enabled(states[i], (steps + more)[i]) && states[i + 1] == Next(states[i], (steps + more)[i])
    {
      if i >= |steps| {
        assert states[i] == second[i - |steps|] && states[i + 1] == second[i - |steps| + 1];
      }
    }
  }

  /** The first connected peers have received everything. */
  ghost function DeliveredTo(s: System, k: nat): System
    requires Shape(s) && k <= MAX_PEERS
  {
    s.(clients := seq(MAX_PEERS, p requires 0 <= p < MAX_PEERS => if p < k && p in s.connected then s.Drained(p) else s.clients[p]),
       channels := seq(MAX_PEERS, p requires 0 <= p < MAX_PEERS => if p < k && p in s.connected then [] else s.channels[p]))
  }

  /** Delivering what is in the channels of all connected peers is a run. */
  lemma {:induction false} DeliverEverything(s: System, k: nat) returns (states: seq<System>, steps: seq<Step>)
    requires Shape(s) && k <= MAX_PEERS
    ensures Run(states, steps) && states[0] == s && (forall step <- steps :: step.Deliver?)
    ensures states[|steps|] == DeliveredTo(s, k)
  {
    if k == 0 {
      states, steps := [s], [];
      assert DeliveredTo(s, 0).clients == s.clients && DeliveredTo(s, 0).channels == s.channels;
    } else {
      states, steps := DeliverEverything(s, k - 1);
      var t := DeliveredTo(s, k - 1);
      NextDelivered(s, k);
      if k - 1 in s.connected {
        var second, more := DeliverAll(t, k - 1);
        JoinedRun(states, steps, second, more);
        states, steps := states + second[1..], steps + more;
      }
      hide Run, DeliveredTo;
    }
  }

  lemma NextDelivered(s: System, k: nat)
    requires Shape(s) && 0 < k <= MAX_PEERS
    ensures var t, p := DeliveredTo(s, k - 1), k - 1;
            && Shape(t) && t.connected == s.connected
            && DeliveredTo(s, k) == if p in s.connected then t.(clients := t.clients[p := t.Drained(p)], channels := t.channels[p := []]) else t
  {
    var t, p := DeliveredTo(s, k - 1), k - 1;
    hide Drain;
    if p in s.connected {
      assert DeliveredTo(s, k).clients == t.clients[p := t.Drained(p)];
      assert DeliveredTo(s, k).channels == t.channels[p := []];
    } else {
      assert DeliveredTo(s, k).clients == t.clients && DeliveredTo(s, k).channels == t.channels;
    }
  }

  lemma TickThenDeliver(s: System) returns (states: seq<System>, steps: seq<Step>)
    requires Safe(s)
    ensures TicksAndDeliveries(states, steps) && states[0] == s && forall i :: 1 <= i < |steps| ==> steps[i].Deliver?
    ensures Shape(Tick(s)) && states[|steps|] == DeliveredTo(Tick(s), MAX_PEERS)
  {
    TickShape(s);
    hide Safe, Drain, Sent;
    var second, more := DeliverEverything(Tick(s), MAX_PEERS);
    assert Run([s, Tick(s)], [HostTick]);
    JoinedRun([s, Tick(s)], [HostTick], second, more);
    states, steps := [s, Tick(s)] + second[1..], [HostTick] + more;
    hide Run, Tick, DeliveredTo;
    assert forall step <- steps :: step == HostTick || step in more;
  }

  /** So from every safe state a tick and deliveries lead to one in which every ready peer agrees with the host, and which
      a further tick leaves as it is if and only if no server variable is a NaN or nobody is ready. */
  lemma Converges(s: System) returns (states: seq<System>, steps: seq<Step>)
    requires Safe(s)
    ensures TicksAndDeliveries(states, steps) && states[0] == s && forall i :: 1 <= i < |steps| ==> steps[i].Deliver?
    ensures var t := states[|steps|];
            && Safe(t) && t.ready == s.ready
            && (forall p <- t.ready :: t.channels[p] == [] && InAgreement(t, t.clients[p]))
            && (Tick(t) == t <==> t.ready == {} || !SomeNaN(t.bindings))
  {
    states, steps := TickThenDeliver(s);
    hide Run, Tick, DeliveredTo, Drain, Sent, Agrees;
    StaysSettled(states, steps, |steps|);
    SettledTickIff(states[|steps|]);
    LaterTicksAreQuietIff(states, steps, |steps|);
    AllDelivered(Tick(s));
  }

  lemma AllDelivered(s: System)
    requires Shape(s)
    ensures forall p <- s.connected :: p < MAX_PEERS && DeliveredTo(s, MAX_PEERS).channels[p] == []
    ensures DeliveredTo(s, MAX_PEERS).ready <= s.connected
  {
  }

  /** A tick sends a ready peer nothing exactly when it is still marked everywhere. */
  lemma QuietPeer(t: System, p: nat)
    requires Shape(t) && p in t.ready && p < MAX_PEERS
    ensures Tick(t).channels[p] == t.channels[p] <==> forall id <- t.bindings :: p in Ticked(t.bindings[id]).synced
  {
    TickAllValid(t.bindings);
    var ticked := TickAll(t.bindings);
    OutOfDateIff(ticked, t.order, p);
    hide UpdatePacket, Ticked;
    var sent := Sent(t.wiring, ticked, t.order, p);
    assert Tick(t).channels[p] == t.channels[p] + sent;
    assert |t.channels[p] + sent| == |t.channels[p]| + |sent|;
    assert sent == [] <==> OutOfDate(ticked, t.order, p) == [];
  }

  ghost predicate IsNaNBinding(s: System, id: nat)
    requires id in s.bindings
  {
    s.bindings[id].server.FloatValue? && IsNaN(s.bindings[id].server.bits)
  }

  lemma EqualToItself(v: Value)
    ensures Equal(v, v) <==> !(v.FloatValue? && IsNaN(v.bits))
  {
  }

  lemma {:induction false} OutOfDateIff(bindings: Bindings, order: seq<nat>, p: nat)
    requires AllValid(bindings) && forall id <- order :: id in bindings
    ensures OutOfDate(bindings, order, p) == [] <==> forall id <- order :: p in bindings[id].synced
  {
    if order != [] {
      OutOfDateIff(bindings, order[1..], p);
      assert forall id :: id in order <==> id == order[0] || id in order[1..];
    }
  }
}
