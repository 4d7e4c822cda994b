/** The host's side as the source has it: loops over the binding table and the peers that change bits and variables
    in place (ElDorito/Source/Server/VariableSynchronization.cpp:79-119, 205-326).

    The loops are proved to compute the tick that the protocol's safety and convergence are proved for: the same bindings,
    the same bits and the same packets in the same channels. */
module Synchronizer {
  import opened Messages
  import opened Packets
  import opened Replication

  class Host {
    const wiring: Wiring
    var syncBindings: Bindings
    var order: seq<nat>                // the order in which the table is traversed
    var channels: seq<seq<Message>>    // what was handed to each peer's channel

    ghost predicate Valid()
      reads this
    {
      && wiring.Valid() && AllValid(syncBindings)
      && (forall id :: id in order <==> id in syncBindings)
      && |channels| == MAX_PEERS
    }

    constructor (wiring: Wiring)
      requires wiring.Valid()
      ensures Valid() && this.wiring == wiring && syncBindings == map[] && channels == seq(MAX_PEERS, _ => [])
    {
      this.wiring, syncBindings, order := wiring, map[], [];
      channels := seq(MAX_PEERS, _ => []);
    }

    /** A new binding of two variables, up to date nowhere. Both a mismatch of types and an ID that is taken are
        errors. `place` is where the table happens to put it. */
    method Synchronize(id: nat, server: Value, client: Value, place: nat) returns (ok: bool)
      requires Valid() && id < 0x1_0000_0000 && server.Valid() && client.Valid() && place <= |order|
      modifies this`syncBindings, this`order
      ensures Valid() && (ok <==> SameType(server, client) && id !in old(syncBindings))
      ensures syncBindings == if ok then old(syncBindings)[id := Binding(server, client, {})] else old(syncBindings)
      ensures order == if ok then old(order)[..place] + [id] + old(order)[place..] else old(order)
    {
      if !SameType(server, client) || id in syncBindings {
        return false;
      }
      syncBindings := syncBindings[id := Binding(server, client, {})];
      order := order[..place] + [id] + order[place..];
      assert forall i :: i in order <==> i == id || i in old(order) by {
        assert old(order) == old(order)[..place] + old(order)[place..];
      }
      ok := true;
    }

    method TickBinding(id: nat)
      requires Valid() && id in syncBindings
      modifies this`syncBindings
      ensures Valid() && syncBindings == old(syncBindings)[id := Ticked(old(syncBindings)[id])]
    {
      var b := syncBindings[id];
      if Equal(b.server, b.client) {
        assert syncBindings == syncBindings[id := b];
        return;
      }
      syncBindings := syncBindings[id := b.(client := b.server)];
      syncBindings := syncBindings[id := syncBindings[id].(synced := {})];
    }

    method TickBindings()
      requires Valid()
      modifies this`syncBindings
      ensures Valid() && syncBindings == TickAll(old(syncBindings))
    {
      hide Equal;
      for i := 0 to |order|
        invariant Valid() && syncBindings.Keys == old(syncBindings.Keys)
        invariant forall id <- syncBindings ::
          syncBindings[id] == if id in order[..i] then Ticked(old(syncBindings)[id]) else old(syncBindings)[id]
      {
        TickedOnce(syncBindings[order[i]]);
        TickBinding(order[i]);
        assert forall id :: id in order[..i + 1] <==> id in order[..i] || id == order[i];
      }
      assert order[..|order|] == order;
    }

    method FindOutOfDateBindings(peer: nat) returns (result: seq<nat>)
      requires Valid()
      ensures forall id :: id in result <==> id in syncBindings && peer !in syncBindings[id].synced
      ensures (forall id <- result :: id in syncBindings) && UpdatesFor(syncBindings, result) == OutOfDate(syncBindings, order, peer)
    {
      hide OutOfDate, UpdatesFor, UpdateOf;
      result := [];
      FirstOutOfDate(syncBindings, order, peer);
      for i := 0 to |order|
        invariant forall id :: id in result <==> id in order[..i] && peer !in syncBindings[id].synced
        invariant forall id <- result :: id in syncBindings
        invariant UpdatesFor(syncBindings, result) + OutOfDate(syncBindings, order[i..], peer)
               == OutOfDate(syncBindings, order, peer)
      {
        var id := order[i];
        NextOutOfDate(syncBindings, order, i, peer, result);
        assert forall j :: j in order[..i + 1] <==> j in order[..i] || j == id;
        if peer !in syncBindings[id].synced {
          result := result + [id];
        }
      }
      assert order[..|order|] == order;
      LastOutOfDate(syncBindings, order, peer, result);
    }

    method SynchronizePeer(peer: nat)
      requires Valid() && peer < MAX_PEERS
      modifies this`syncBindings, this`channels
      ensures Valid() && syncBindings == Marked(old(syncBindings), {peer})
      ensures channels == old(channels)[peer := old(channels)[peer] + Sent(wiring, old(syncBindings), order, peer)]
    {
      hide UpdatePacket, UpdatesFor, OutOfDate, Sent;
      var outOfDate := FindOutOfDateBindings(peer);
      ghost var sent := Sent(wiring, syncBindings, order, peer);
      SentIs(wiring, syncBindings, order, peer, outOfDate);
      MarkedIs(syncBindings, peer);
      if |outOfDate| == 0 {
        assert sent == [] && channels[peer] + sent == channels[peer];
        assert channels[peer := channels[peer] + sent] == channels;
        assert syncBindings == Marked(syncBindings, {peer});
        return;
      }
      channels := channels[peer := channels[peer] + [UpdatePacket(wiring, UpdatesFor(syncBindings, outOfDate))]];
      assert channels == old(channels)[peer := old(channels)[peer] + sent];
      assert outOfDate[..|outOfDate|] == outOfDate;
      for i := 0 to |outOfDate|
        invariant channels == old(channels)[peer := old(channels)[peer] + sent]
        invariant Valid() && syncBindings.Keys == old(syncBindings.Keys)
        invariant forall id <- syncBindings ::
          syncBindings[id] == if id in outOfDate[..i] then MarkedOne(old(syncBindings)[id], peer) else old(syncBindings)[id]
      {
        var id := outOfDate[i];
        syncBindings := syncBindings[id := MarkedOne(syncBindings[id], peer)];
        assert forall j :: j in outOfDate[..i + 1] <==> j in outOfDate[..i] || j == id;
      }
      assert syncBindings == Marked(old(syncBindings), {peer});
    }

    /** One pass over the connected peers, in the order of their indices; those that are remote and established get
        what they lack, and the bits of all others are cleared. */
    method SynchronizePeers(peers: seq<nat>, isReady: set<nat>, ghost ready: set<nat>)
      requires Valid() && (forall p <- peers :: p < MAX_PEERS) && Strictly(peers)
      requires ready == set p | p in peers && p in isReady
      modifies this`syncBindings, this`channels
      ensures Valid() && syncBindings == map id | id in old(syncBindings) :: old(syncBindings)[id].(synced := ready)
      ensures forall p :: 0 <= p < MAX_PEERS ==>
                channels[p] == if p in ready then old(channels)[p] + Sent(wiring, old(syncBindings), order, p) else old(channels)[p]
    {
      hide Sent, Marked;
      var visited: set<nat> := {};
      MarkedByNobody(syncBindings);
      for i := 0 to |peers|
        invariant Valid() && syncBindings == Marked(old(syncBindings), visited)
        invariant forall p :: p in visited <==> p in peers[..i] && p in isReady
        invariant forall p :: 0 <= p < MAX_PEERS ==>
          channels[p] == if p in visited then old(channels)[p] + Sent(wiring, old(syncBindings), order, p) else old(channels)[p]
      {
        var peer := peers[i];
        assert forall p :: p in peers[..i + 1] <==> p in peers[..i] || p == peer;
        if peer in isReady {
          assert peer in peers && peer !in visited;
          SentToOther(wiring, old(syncBindings), order, visited, peer);
          MarkedTwice(old(syncBindings), visited, peer);
          SynchronizePeer(peer);
          visited := visited + {peer};
        }
      }
      assert peers[..|peers|] == peers;
      assert visited == ready;
      MarkedThenCleared(old(syncBindings), visited);
      syncBindings := map id | id in syncBindings :: syncBindings[id].(synced := syncBindings[id].synced * visited);
    }

    /** One tick of the host. `peers` are the connected peers and `isReady` those that are remote and completely
        established; the result is the one that the protocol is proved for. */
    method HostTick(peers: seq<nat>, isReady: set<nat>)
      requires Valid() && (forall p <- peers :: p < MAX_PEERS) && Strictly(peers)
      modifies this`syncBindings, this`channels
      ensures var ready := set p | p in peers && p in isReady;
              && Valid() && AllValid(old(syncBindings)) && AllValid(TickAll(old(syncBindings)))
              && syncBindings == AfterTick(old(syncBindings), ready)
              && forall p :: 0 <= p < MAX_PEERS ==>
                   channels[p] == if p in ready then old(channels)[p] + Sent(wiring, TickAll(old(syncBindings)), order, p)
                                  else old(channels)[p]
    {
      hide Sent, Ticked;
      TickAllValid(syncBindings);
      ghost var ready := set p | p in peers && p in isReady;
      TickBindings();
      SynchronizePeers(peers, isReady, ready);
    }
  }

  class Client {
    var clientVariables: Variables

    constructor (clientVariables: Variables)
      ensures this.clientVariables == clientVariables
    {
      this.clientVariables := clientVariables;
    }

    /** Sets every variable that an update names; a host ignores updates, and unknown IDs are skipped. */
    method HandlePacket(isHost: bool, updates: seq<SyncVar>)
      modifies this
      ensures clientVariables == if isHost then old(clientVariables) else ApplyAll(old(clientVariables), updates)
    {
      if isHost {
        return;
      }
      for i := 0 to |updates|
        invariant ApplyAll(clientVariables, updates[i..]) == ApplyAll(old(clientVariables), updates)
      {
        var u := updates[i];
        assert updates[i..][0] == u && updates[i..][1..] == updates[i + 1..];
        if u.id in clientVariables {
          clientVariables := clientVariables[u.id := Update(clientVariables[u.id], u.value)];
        }
      }
    }
  }

  predicate Strictly(peers: seq<nat>) {
    forall i, j :: 0 <= i < j < |peers| ==> peers[i] < peers[j]
  }

  /** Ticking a binding again changes nothing but the bits, which are clear then. */
  lemma TickedOnce(b: Binding)
    ensures Ticked(Ticked(b)) == Ticked(b)
  {
  }

  /** Every binding with some peers marked in addition. */
  function Marked(bindings: Bindings, peers: set<nat>): Bindings {
    map id | id in bindings :: bindings[id].(synced := bindings[id].synced + peers)
  }

  function MarkedOne(b: Binding, peer: nat): Binding {
    b.(synced := b.synced + {peer})
  }

  /** Marking changes only the bindings that lack the peer. */
  lemma MarkedIs(bindings: Bindings, peer: nat)
    ensures Marked(bindings, {peer}).Keys == bindings.Keys
    ensures forall id <- bindings :: Marked(bindings, {peer})[id] == MarkedOne(bindings[id], peer)
    ensures forall id <- bindings :: peer in bindings[id].synced ==> MarkedOne(bindings[id], peer) == bindings[id]
  {
  }

  lemma MarkedByNobody(bindings: Bindings)
    ensures Marked(bindings, {}) == bindings
  {
    assert forall id <- bindings :: bindings[id].synced + {} == bindings[id].synced;
  }

  lemma SentIs(w: Wiring, bindings: Bindings, order: seq<nat>, peer: nat, ids: seq<nat>)
    requires w.Valid() && AllValid(bindings) && (forall id <- order :: id in bindings) && forall id <- ids :: id in bindings
    requires UpdatesFor(bindings, ids) == OutOfDate(bindings, order, peer)
    ensures Sent(w, bindings, order, peer) == if ids == [] then [] else [UpdatePacket(w, UpdatesFor(bindings, ids))]
  {
    UpdatesLength(bindings, ids);
    hide OutOfDate, UpdatePacket;
  }

  lemma MarkedTwice(bindings: Bindings, peers: set<nat>, peer: nat)
    ensures Marked(Marked(bindings, peers), {peer}) == Marked(bindings, peers + {peer})
  {
    forall id | id in bindings ensures bindings[id].synced + peers + {peer} == bindings[id].synced + (peers + {peer}) {
    }
  }

  lemma MarkedThenCleared(bindings: Bindings, visited: set<nat>)
    ensures Marked(bindings, visited).Keys == bindings.Keys
    ensures forall id <- bindings :: Marked(bindings, visited)[id].(synced := Marked(bindings, visited)[id].synced * visited)
                                     == bindings[id].(synced := visited)
  {
  }

  /** Marking other peers does not change what one peer lacks. */
  lemma SentToOther(w: Wiring, bindings: Bindings, order: seq<nat>, others: set<nat>, peer: nat)
    requires w.Valid() && AllValid(bindings) && (forall id <- order :: id in bindings) && peer !in others
    ensures AllValid(Marked(bindings, others))
    ensures Sent(w, Marked(bindings, others), order, peer) == Sent(w, bindings, order, peer)
  {
    OutOfDateOfOther(bindings, order, others, peer);
  }

  lemma {:induction false} OutOfDateOfOther(bindings: Bindings, order: seq<nat>, others: set<nat>, peer: nat)
    requires AllValid(bindings) && (forall id <- order :: id in bindings) && peer !in others
    ensures AllValid(Marked(bindings, others))
    ensures OutOfDate(Marked(bindings, others), order, peer) == OutOfDate(bindings, order, peer)
  {
    if order != [] {
      OutOfDateOfOther(bindings, order[1..], others, peer);
    }
  }

  /** The updates of a list of bindings. */
  function UpdatesFor(bindings: Bindings, ids: seq<nat>): (updates: seq<SyncVar>)
    requires AllValid(bindings) && forall id <- ids :: id in bindings
    ensures forall v <- updates :: v.Valid()
  {
    if ids == [] then [] else [UpdateOf(ids[0], bindings[ids[0]])] + UpdatesFor(bindings, ids[1..])
  }

  lemma FirstOutOfDate(bindings: Bindings, order: seq<nat>, peer: nat)
    requires AllValid(bindings) && forall id <- order :: id in bindings
    ensures UpdatesFor(bindings, []) + OutOfDate(bindings, order[0..], peer) == OutOfDate(bindings, order, peer)
  {
    assert order[0..] == order;
  }

  lemma NextOutOfDate(bindings: Bindings, order: seq<nat>, i: nat, peer: nat, found: seq<nat>)
    requires AllValid(bindings) && i < |order| && (forall id <- order :: id in bindings) && forall id <- found :: id in bindings
    ensures var id := order[i];
            UpdatesFor(bindings, found) + OutOfDate(bindings, order[i..], peer)
            == UpdatesFor(bindings, if peer in bindings[id].synced then found else found + [id])
               + OutOfDate(bindings, order[i + 1..], peer)
  {
    assert order[i..][0] == order[i] && order[i..][1..] == order[i + 1..];
    UpdatesAppend(bindings, found, order[i]);
    hide UpdatesFor, UpdateOf;
    var rest := OutOfDate(bindings, order[i + 1..], peer);
    assert [] + rest == rest;
  }

  lemma LastOutOfDate(bindings: Bindings, order: seq<nat>, peer: nat, found: seq<nat>)
    requires AllValid(bindings) && (forall id <- order :: id in bindings) && forall id <- found :: id in bindings
    ensures UpdatesFor(bindings, found) + OutOfDate(bindings, order[|order|..], peer) == UpdatesFor(bindings, found)
  {
  }

  lemma {:induction false} UpdatesAppend(bindings: Bindings, ids: seq<nat>, id: nat)
    requires AllValid(bindings) && (forall i <- ids :: i in bindings) && id in bindings
    ensures forall i <- ids + [id] :: i in bindings
    ensures UpdatesFor(bindings, ids + [id]) == UpdatesFor(bindings, ids) + [UpdateOf(id, bindings[id])]
  {
    if ids != [] {
      UpdatesAppend(bindings, ids[1..], id);
      assert (ids + [id])[1..] == ids[1..] + [id];
    }
  }

  lemma {:induction false} UpdatesLength(bindings: Bindings, ids: seq<nat>)
    requires AllValid(bindings) && forall id <- ids :: id in bindings
    ensures |UpdatesFor(bindings, ids)| == |ids|
  {
    if ids != [] {
      UpdatesLength(bindings, ids[1..]);
    }
  }
}
