/** Variable synchronization (ElDorito/Source/Server/VariableSynchronization.cpp): what one tick of the host, one
    update and one received packet do. */
module Replication {
  import opened Integers
  import opened Bits
  import opened Messages
  import opened Packets

  const MAX_PEERS: nat := 17
  const MAX_STRING_LENGTH: nat := 512

  // ----- Variables -----

  /** The value of a variable, by its type. A float is its IEEE 754 bit pattern. */
  datatype Value =
    | IntValue(int32: nat)
    | Int64Value(int64: nat)
    | FloatValue(bits: nat)
    | StringValue(text: seq<byte>)
  {
    predicate Valid() {
      match this
      case IntValue(n) => n < 0x1_0000_0000
      case Int64Value(n) => n < 0x1_0000_0000_0000_0000
      case FloatValue(b) => b < 0x1_0000_0000
      case StringValue(_) => true
    }
  }

  predicate SameType(a: Value, b: Value) {
    match a
    case IntValue(_) => b.IntValue?
    case Int64Value(_) => b.Int64Value?
    case FloatValue(_) => b.FloatValue?
    case StringValue(_) => b.StringValue?
  }

  /** All exponent bits set and a mantissa. */
  predicate IsNaN(bits: nat) {
    bits % 0x8000_0000 > 0x7F80_0000
  }

  /** Equality of floats: never for a NaN, and the two zeros are equal. */
  predicate FloatEquals(a: nat, b: nat) {
    !IsNaN(a) && !IsNaN(b) && (a == b || (a % 0x8000_0000 == 0 && b % 0x8000_0000 == 0))
  }

  /** CompareVariables, for variables of the same type. */
  predicate Equal(a: Value, b: Value) {
    match (a, b)
    case (FloatValue(x), FloatValue(y)) => FloatEquals(x, y)
    case _ => a == b
  }

  // ----- Updates -----

  /** What `strncpy_s` copies of a string: up to its first NUL, and at most 512 characters. */
  function Cut(s: seq<byte>): (r: seq<byte>)
    ensures |r| <= MAX_STRING_LENGTH && 0 !in r && r <= s
  {
    CutTo(s, MAX_STRING_LENGTH)
  }

  function CutTo(s: seq<byte>, n: nat): (r: seq<byte>)
    ensures |r| <= n && 0 !in r && r <= s
  {
    if s == [] || n == 0 || s[0] == 0 then [] else [s[0]] + CutTo(s[1..], n - 1)
  }

  function BuildValue(v: Value): (w: WireValue)
    requires v.Valid()
    ensures w.Valid()
  {
    match v
    case IntValue(n) => WireInt(n)
    case Int64Value(n) => WireInt64(n)
    case FloatValue(b) => WireFloat(b)
    case StringValue(s) => WireString(Padded(Cut(s), STRING_SIZE))
  }

  function FromWire(w: WireValue): Value {
    match w
    case WireInt(n) => IntValue(n % 0x1_0000_0000)
    case WireInt64(n) => Int64Value(n)
    case WireFloat(b) => FloatValue(b)
    case WireString(t) => StringValue(if t == [] then [] else Content(t))
  }

  /** What a client makes of a value that the host sent. */
  function OverTheWire(v: Value): Value
    requires v.Valid()
  {
    FromWire(ReceivedValue(BuildValue(v)))
  }

  /** The client's setter: an update of another type is ignored. */
  function Update(v: Value, w: WireValue): Value {
    if SameType(v, FromWire(w)) then FromWire(w) else v
  }

  /** Numbers arrive as they are, and strings cut to 512 characters. */
  lemma OverTheWireIs(v: Value)
    requires v.Valid()
    ensures OverTheWire(v) == match v case StringValue(s) => StringValue(Cut(s)) case _ => v
    ensures v.StringValue? ==>
              var s, r := v.text, OverTheWire(v).text;
              r <= s && 0 !in r && |r| <= 512 && (|r| == 512 || |r| == |s| || s[|r|] == 0)
  {
    if v.StringValue? {
      var s := Cut(v.text);
      var p := Padded(s, STRING_SIZE);
      StringLengthIs(p, |s|) by {
        assert p[..|s|] == s;
      }
      assert Content(p) == s;
      PaddedContent(p);
      CutIsLongest(v.text, MAX_STRING_LENGTH);
    }
  }

  // ----- The host -----

  /** One binding: the server variable, the client variable it drives, and the peers that are up to date. */
  datatype Binding = Binding(server: Value, client: Value, synced: set<nat>) {
    predicate Valid() {
      server.Valid() && client.Valid() && SameType(server, client)
    }
  }

  type Bindings = map<nat, Binding>

  ghost predicate AllValid(bindings: Bindings) {
    forall id <- bindings :: id < 0x1_0000_0000 && bindings[id].Valid()
  }

  /** TickBinding: a changed server variable sets the client variable and puts every peer out of date. */
  function Ticked(b: Binding): Binding {
    if Equal(b.server, b.client) then b else Binding(b.server, b.server, {})
  }

  /** Two zeros, of whatever sign. */
  predicate BothZero(a: Value, b: Value) {
    a.FloatValue? && b.FloatValue? && a.bits in {0, 0x8000_0000} && b.bits in {0, 0x8000_0000}
  }

  /** By IEEE 754: the exponent is all ones, and the fraction is not zero. */
  predicate NotANumber(v: Value) {
    v.FloatValue? && v.bits / 0x80_0000 % 0x100 == 0xFF && v.bits % 0x80_0000 != 0
  }

  lemma NaNBits(bits: nat)
    requires bits < 0x1_0000_0000
    ensures IsNaN(bits) <==> bits / 0x80_0000 % 0x100 == 0xFF && bits % 0x80_0000 != 0
  {
    var rest := bits % 0x8000_0000;
    assert bits / 0x80_0000 % 0x100 == rest / 0x80_0000 && bits % 0x80_0000 == rest % 0x80_0000;
  }

  /** A tick leaves a binding as it is exactly if its variables have the same value, which is not a NaN, or are both zero;
      otherwise the client variable becomes the server variable and every peer is out of date. */
  lemma TickedIs(b: Binding)
    requires b.Valid()
    ensures var same := (b.client == b.server && !NotANumber(b.server)) || BothZero(b.server, b.client);
            Ticked(b) == if same then b else Binding(b.server, b.server, {})
    ensures Ticked(b).client == b.server || BothZero(b.server, Ticked(b).client)
  {
    if b.server.FloatValue? {
      NaNBits(b.server.bits);
      NaNBits(b.client.bits);
    }
  }

  /** What is copied of a string is as long as can be: it ends at 512 characters, at a NUL or with the string. */
  lemma {:induction false} CutIsLongest(s: seq<byte>, n: nat)
    ensures var r := CutTo(s, n); |r| == n || |r| == |s| || (|r| < |s| && s[|r|] == 0)
  {
    if s != [] && n > 0 && s[0] != 0 {
      CutIsLongest(s[1..], n - 1);
    }
  }

  function UpdateOf(id: nat, b: Binding): (v: SyncVar)
    requires id < 0x1_0000_0000 && b.Valid()
    ensures v.Valid() && v.id == id
  {
    SyncVar(id, BuildValue(b.server))
  }

  /** The updates that a peer lacks, in the order of the binding table. */
  function OutOfDate(bindings: Bindings, order: seq<nat>, peer: nat): (updates: seq<SyncVar>)
    requires AllValid(bindings) && forall id <- order :: id in bindings
    ensures forall v <- updates :: v.Valid()
  {
    if order == [] then []
    else (if peer in bindings[order[0]].synced then [] else [UpdateOf(order[0], bindings[order[0]])])
         + OutOfDate(bindings, order[1..], peer)
  }

  /** How packets travel: the registered types, the GUID of updates and the header. */
  datatype Wiring = Wiring(types: Registry, guid: nat, header: seq<byte>) {
    predicate Valid() {
      guid < 0x1_0000_0000 && guid in types && types[guid] == SyncHandler && |header| == HEADER_SIZE
    }
  }

  /** A packet in a channel: the size it was sent with, and its bits. */
  datatype Message = Message(size: int, bits: seq<bool>)

  function UpdatePacket(w: Wiring, updates: seq<SyncVar>): Message
    requires w.Valid() && forall v <- updates :: v.Valid()
  {
    var p := Packet(w.header, w.guid, SyncBody(updates));
    Message(SentSize(p.body), SerializeCustomPacket(w.types, SentSize(p.body), p))
  }

  /** What one tick puts into the channel of a ready peer. */
  function Sent(w: Wiring, bindings: Bindings, order: seq<nat>, peer: nat): seq<Message>
    requires w.Valid() && AllValid(bindings) && forall id <- order :: id in bindings
  {
    var updates := OutOfDate(bindings, order, peer);
    if updates == [] then [] else [UpdatePacket(w, updates)]
  }

  function TickAll(bindings: Bindings): Bindings {
    map id | id in bindings :: Ticked(bindings[id])
  }

  /** The bindings after a tick: compared and copied, and marked for exactly the ready peers. */
  function AfterTick(bindings: Bindings, ready: set<nat>): Bindings {
    map id | id in bindings :: Ticked(bindings[id]).(synced := ready)
  }

  lemma TickAllValid(bindings: Bindings)
    requires AllValid(bindings)
    ensures AllValid(TickAll(bindings))
  {
  }

  // ----- The client -----

  /** The client variables of one game, by sync ID. */
  type Variables = map<nat, Value>

  function ApplyOne(vars: Variables, v: SyncVar): Variables {
    if v.id in vars then vars[v.id := Update(vars[v.id], v.value)] else vars
  }

  function ApplyAll(vars: Variables, updates: seq<SyncVar>): Variables
    decreases |updates|
  {
    if updates == [] then vars else ApplyAll(ApplyOne(vars, updates[0]), updates[1..])
  }

  /** An update of a variable that the game does not have, or has with another type, changes nothing; any other one sets
      that variable and no other. */
  lemma ApplyOneIs(vars: Variables, v: SyncVar)
    ensures var sent, after := FromWire(v.value), ApplyOne(vars, v);
            var sets := v.id in vars && sent.IntValue? == vars[v.id].IntValue? && sent.Int64Value? == vars[v.id].Int64Value?
                        && sent.FloatValue? == vars[v.id].FloatValue?;
            after == if sets then vars[v.id := sent] else vars
  {
  }

  /** Receiving a packet: reading it, and setting every variable it names. */
  function Receive(w: Wiring, vars: Variables, m: Message): Variables {
    match DeserializeCustomPacket(w.types, m.size, m.bits)
    case Some((p, _)) => if p.body.SyncBody? then ApplyAll(vars, p.body.vars) else vars
    case None => vars
  }

  /** Receiving everything that is in a channel. */
  function Drain(w: Wiring, vars: Variables, channel: seq<Message>): Variables
    decreases |channel|
  {
    if channel == [] then vars else Drain(w, Receive(w, vars, channel[0]), channel[1..])
  }

  lemma {:induction false} DrainAppend(w: Wiring, vars: Variables, a: seq<Message>, b: seq<Message>)
    ensures Drain(w, vars, a + b) == Drain(w, Drain(w, vars, a), b)
    decreases |a|
  {
    if a == [] {
      assert a + b == b;
    } else {
      DrainAppend(w, Receive(w, vars, a[0]), a[1..], b);
      assert (a + b)[0] == a[0] && (a + b)[1..] == a[1..] + b;
    }
  }

  /** An update packet arrives, bit for bit, as the updates it was built from. */
  lemma ReceiveUpdates(w: Wiring, vars: Variables, updates: seq<SyncVar>)
    requires w.Valid() && 1 <= |updates| <= MAX_UPDATES && forall v <- updates :: v.Valid()
    ensures Receive(w, vars, UpdatePacket(w, updates)) == ApplyAll(vars, ReceivedVars(updates))
  {
    hide SerializeCustomPacket, DeserializeCustomPacket, SentSize, ReceivedVars;
    SentPacketArrivesIff(w.types, Packet(w.header, w.guid, SyncBody(updates)));
  }

  /** Receiving changes values only: not which variables there are, nor their types. */
  lemma {:induction false} ApplyKeepsTypes(vars: Variables, updates: seq<SyncVar>, id: nat)
    ensures id in ApplyAll(vars, updates) <==> id in vars
    ensures id in vars ==> SameType(vars[id], ApplyAll(vars, updates)[id])
    decreases |updates|
  {
    if updates != [] {
      ApplyKeepsTypes(ApplyOne(vars, updates[0]), updates[1..], id);
    }
  }

  lemma {:induction false} DrainKeepsTypes(w: Wiring, vars: Variables, channel: seq<Message>, id: nat)
    ensures id in Drain(w, vars, channel) <==> id in vars
    ensures id in vars ==> SameType(vars[id], Drain(w, vars, channel)[id])
    decreases |channel|
  {
    if channel != [] {
      match DeserializeCustomPacket(w.types, channel[0].size, channel[0].bits) {
        case Some((p, _)) =>
          if p.body.SyncBody? {
            ApplyKeepsTypes(vars, p.body.vars, id);
          }
        case None =>
      }
      hide DeserializeCustomPacket, ApplyAll;
      DrainKeepsTypes(w, Receive(w, vars, channel[0]), channel[1..], id);
    }
  }
}
