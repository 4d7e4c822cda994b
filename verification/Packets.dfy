/** Custom packets (ElDorito/Source/Patches/CustomPackets.cpp and .hpp): a header, a type GUID, and the body of its
    type. */
module Packets {
  import opened Integers
  import opened Text
  import opened Bits
  import opened Messages

  const INT_MAX: int := 0x7FFF_FFFF

  // ----- Size arithmetic of variadic packets -----

  /** The offset of the first extra element, and the size of one. */
  datatype Layout = Layout(offset: nat, element: nat)

  function CalculateSize(l: Layout, count: nat): int {
    ToInt(l.offset + count * l.element)
  }

  function CalculateExtraDataCount(l: Layout, packetSize: int): int
    requires l.element > 0
  {
    var rest := packetSize - CalculateSize(l, 0);
    if rest < 0 || rest % l.element != 0 then -1 else rest / l.element
  }

  /** A size has a count exactly when it is that many elements after the fixed part. */
  lemma CountOfSize(l: Layout, packetSize: int, count: nat)
    requires 0 < l.element && l.offset < TWO_31
    ensures CalculateExtraDataCount(l, packetSize) == count <==> packetSize == l.offset + count * l.element
  {
    var rest := packetSize - l.offset;
    assert 0 * l.element == 0;
    if packetSize == l.offset + count * l.element {
      DivisionIsUnique(l.element, count, 0, rest / l.element, rest % l.element);
      QuotientIsUnique(l.element, count, rest / l.element);
    }
  }

  lemma QuotientIsUnique(d: nat, q: nat, q': int)
    requires d > 0 && q * d == q' * d
    ensures q == q'
  {
    if q < q' {
      TimesMonotonic(q + 1, q', d);
    } else if q' < q {
      TimesMonotonic(q' + 1, q, d);
    }
  }

  // ----- Handlers -----

  const HEADER_SIZE: nat := 16
  const PACKET_BASE_SIZE: int := 20      // header and GUID
  const CHAT_PACKET_SIZE: int := 156     // 20 + type 4, players 2, body 129, padded
  const VOTING_PACKET_SIZE: int := 236   // 20 + type 4, options 5 * 36, four ints of time, vote, winner, tally 5 * 4
  const SYNC_LAYOUT: Layout := Layout(32, 528) // 20, empty data, count, padded; id 4, type 4, value 520

  datatype Handler = ChatHandler | VotingHandler | SyncHandler

  datatype Body = ChatBody(chat: ChatMessage) | VotingBody(voting: VotingMessage) | SyncBody(vars: seq<SyncVar>) {
    predicate Valid() {
      match this
      case ChatBody(m) => m.Valid()
      case VotingBody(m) => m.Valid()
      case SyncBody(vars) => forall v <- vars :: v.Valid()
    }
  }

  predicate Handles(h: Handler, b: Body) {
    match h case ChatHandler => b.ChatBody? case VotingHandler => b.VotingBody? case SyncHandler => b.SyncBody?
  }

  function MinSize(h: Handler): int {
    match h
    case ChatHandler => CHAT_PACKET_SIZE
    case VotingHandler => VOTING_PACKET_SIZE
    case SyncHandler => CalculateSize(SYNC_LAYOUT, 1)
  }

  function MaxSize(h: Handler): int {
    match h case ChatHandler => CHAT_PACKET_SIZE case VotingHandler => VOTING_PACKET_SIZE case SyncHandler => INT_MAX
  }

  /** What the handler writes after the GUID; nothing at all when the size is not acceptable. */
  function SerializeBody(h: Handler, packetSize: int, b: Body): seq<bool>
    requires b.Valid() && Handles(h, b)
  {
    if packetSize < MinSize(h) || packetSize > MaxSize(h) then []
    else match b
      case ChatBody(m) => WriteChat(m)
      case VotingBody(m) => WriteVoting(m)
      case SyncBody(vars) =>
        if CalculateExtraDataCount(SYNC_LAYOUT, packetSize) != |vars| then []
        else ToBits(|vars|, 32) + WriteVars(vars)
  }

  function DeserializeBody(h: Handler, packetSize: int, s: seq<bool>): Option<(Body, seq<bool>)> {
    if packetSize < MinSize(h) || packetSize > MaxSize(h) then None
    else match h
      case ChatHandler => var (m, rest) :- ReadChat(s); Some((ChatBody(m), rest))
      case VotingHandler => var (m, rest) :- ReadVoting(s); Some((VotingBody(m), rest))
      case SyncHandler =>
        var calculated := CalculateExtraDataCount(SYNC_LAYOUT, packetSize);
        if calculated < 0 then None
        else
          var (count, s1) :- ReadUnsigned(s, 32);
          if ToInt(count) != calculated then None
          else
            var (vars, rest) :- ReadVars(s1, calculated);
            Some((SyncBody(vars), rest))
  }

  // ----- Whole packets -----

  datatype Packet = Packet(header: seq<byte>, guid: nat, body: Body) {
    predicate Valid() {
      |header| == HEADER_SIZE && guid < TWO_32 && body.Valid()
    }
  }

  type Registry = map<nat, Handler>

  /** A packet whose GUID is registered has the body of that type. */
  predicate WellTyped(types: Registry, p: Packet) {
    p.guid in types ==> Handles(types[p.guid], p.body)
  }

  function SerializeCustomPacket(types: Registry, packetSize: int, p: Packet): seq<bool>
    requires p.Valid() && WellTyped(types, p)
  {
    BlockBits(p.header) + (ToBits(p.guid, 32) +
    if p.guid in types then SerializeBody(types[p.guid], packetSize, p.body) else [])
  }

  function DeserializeCustomPacket(types: Registry, packetSize: int, s: seq<bool>): Option<(Packet, seq<bool>)> {
    if packetSize < PACKET_BASE_SIZE then None
    else
      var (header, s1) :- ReadBlock(s, HEADER_SIZE);
      var (guid, s2) :- ReadUnsigned(s1, 32);
      if guid !in types then None
      else
        var (body, rest) :- DeserializeBody(types[guid], packetSize, s2);
        Some((Packet(header, guid, body), rest))
  }

  /** What arrives of a body. */
  function ReceivedBody(b: Body): Body
    requires b.Valid()
  {
    match b
    case ChatBody(m) => ChatBody(ReceivedChat(m))
    case VotingBody(m) => VotingBody(ReceivedVoting(m))
    case SyncBody(vars) => SyncBody(ReceivedVars(vars))
  }

  /** The size is one that the handler accepts for this body. */
  predicate Fits(h: Handler, packetSize: int, b: Body) {
    && MinSize(h) <= packetSize <= MaxSize(h)
    && (b.SyncBody? ==> CalculateExtraDataCount(SYNC_LAYOUT, packetSize) == |b.vars|)
  }

  lemma ReadBackBody(h: Handler, packetSize: int, b: Body, rest: seq<bool>)
    requires b.Valid() && Handles(h, b) && Fits(h, packetSize, b)
    ensures DeserializeBody(h, packetSize, SerializeBody(h, packetSize, b) + rest) == Some((ReceivedBody(b), rest))
  {
    hide ReadChat, WriteChat, ReceivedChat, ReadVoting, WriteVoting, ReceivedVoting, ReadVars, WriteVars, ReceivedVars,
         ToBits, ReadUnsigned, CalculateExtraDataCount, Pow2;
    match b {
      case ChatBody(m) => ReadBackChat(m, rest);
      case VotingBody(m) => ReadBackVoting(m, rest);
      case SyncBody(vars) =>
        var n := |vars|;
        CountOfSize(SYNC_LAYOUT, packetSize, n);
        assert ToBits(n, 32) + WriteVars(vars) + rest == ToBits(n, 32) + (WriteVars(vars) + rest);
        ReadBackUnsigned(n, 32, WriteVars(vars) + rest);
        Pow2OfWords();
        SmallMod(n, Pow2(32));
        ReadBackVars(vars, rest);
    }
  }

  /** What a registered handler of acceptable size writes, its reader takes off the stream exactly, and it gets the
      same header, type and count, and the body as received. */
  lemma ReadBackPacket(types: Registry, packetSize: int, p: Packet, rest: seq<bool>)
    requires p.Valid() && WellTyped(types, p)
    requires p.guid in types && Fits(types[p.guid], packetSize, p.body)
    ensures DeserializeCustomPacket(types, packetSize, SerializeCustomPacket(types, packetSize, p) + rest)
            == Some((p.(body := ReceivedBody(p.body)), rest))
  {
    hide BlockBits, ReadBlock, ToBits, ReadUnsigned, DeserializeBody, SerializeBody, ReceivedBody, Fits, Handles;
    var h := types[p.guid];
    var body := SerializeBody(h, packetSize, p.body);
    ReadBackBody(h, packetSize, p.body, rest);
    ReadBackGuid(p.header, p.guid, body + rest);
    SizeIsEnough(h, packetSize, p.body);
    Regroup(BlockBits(p.header), ToBits(p.guid, 32), body, rest);
  }

  lemma SizeIsEnough(h: Handler, packetSize: int, b: Body)
    requires Fits(h, packetSize, b)
    ensures packetSize >= PACKET_BASE_SIZE
  {
  }

  lemma Regroup(header: seq<bool>, guid: seq<bool>, body: seq<bool>, rest: seq<bool>)
    ensures header + (guid + body) + rest == header + (guid + (body + rest))
  {
  }

  lemma ReadBackGuid(header: seq<byte>, guid: nat, rest: seq<bool>)
    requires |header| == HEADER_SIZE && guid < TWO_32
    ensures ReadBlock(BlockBits(header) + (ToBits(guid, 32) + rest), HEADER_SIZE) == Some((header, ToBits(guid, 32) + rest))
    ensures ReadUnsigned(ToBits(guid, 32) + rest, 32) == Some((guid, rest))
  {
    hide ToBits, Pow2, BlockBits, ReadBlock, ReadUnsigned;
    ReadBackBlock(header, ToBits(guid, 32) + rest);
    ReadBackUnsigned(guid, 32, rest);
    Pow2OfWords();
    SmallMod(guid, Pow2(32));
  }

  /** Whatever the bits are and whoever sent them: a packet is accepted only if the 32 bits behind its header are a registered
      GUID, its body is of that type, and its size is that of the type; an update packet says how many updates it has, which
      is at least one and makes up its size. */
  lemma AcceptedOnlyIf(types: Registry, packetSize: int, s: seq<bool>)
    ensures var r := DeserializeCustomPacket(types, packetSize, s);
            r.Some? ==>
              var p := r.value.0;
              && p.guid in types && |s| >= 160 && FromBits(s[128..160]) == p.guid
              && match types[p.guid]
                 case ChatHandler => p.body.ChatBody? && packetSize == 156
                 case VotingHandler => p.body.VotingBody? && packetSize == 236
                 case SyncHandler =>
                   && p.body.SyncBody? && |p.body.vars| >= 1 && |s| >= 192
                   && packetSize == 32 + 528 * |p.body.vars| < 0x8000_0000 && FromBits(s[160..192]) == |p.body.vars|
  {
    BlockConsumes(s, 16);
    hide ReadBlock, FromBits, ReadChat, ReadVoting, ReadVars;
    if DeserializeCustomPacket(types, packetSize, s).Some? {
      var s1 := s[128..];
      assert s1[..32] == s[128..160] && s1[32..] == s[160..];
      BodyAcceptedOnlyIf(types[FromBits(s1[..32])], packetSize, s1[32..]);
      assert |s| >= 192 ==> s[160..][..32] == s[160..192];
      hide DeserializeBody;
    }
  }

  lemma BodyAcceptedOnlyIf(h: Handler, packetSize: int, s: seq<bool>)
    ensures var r := DeserializeBody(h, packetSize, s);
            r.Some? ==>
              match h
              case ChatHandler => r.value.0.ChatBody? && packetSize == 156
              case VotingHandler => r.value.0.VotingBody? && packetSize == 236
              case SyncHandler =>
                && r.value.0.SyncBody? && |r.value.0.vars| >= 1 && |s| >= 32
                && packetSize == 32 + 528 * |r.value.0.vars| < 0x8000_0000 && FromBits(s[..32]) == |r.value.0.vars|
  {
    hide FromBits, ReadChat, ReadVoting, ReadVars;
    if h.SyncHandler? && DeserializeBody(h, packetSize, s).Some? {
      FromBitsFit(s[..32]);
      Pow2OfWords();
      var n := CalculateExtraDataCount(SYNC_LAYOUT, packetSize);
      CountOfSize(SYNC_LAYOUT, packetSize, n);
    }
  }

  lemma {:induction false} FromBitsFit(bits: seq<bool>)
    ensures FromBits(bits) < Pow2(|bits|)
  {
    if bits != [] {
      FromBitsFit(bits[..|bits| - 1]);
    }
  }

  /** The size that the sender of a body gives its packet. */
  function SentSize(b: Body): int {
    match b
    case ChatBody(_) => CHAT_PACKET_SIZE
    case VotingBody(_) => VOTING_PACKET_SIZE
    case SyncBody(vars) => CalculateSize(SYNC_LAYOUT, |vars|)
  }

  /** At most so many updates fit in a packet whose size is an `int`. */
  const MAX_UPDATES: nat := (0x7FFF_FFFF - 32) / 528

  /** There is at least one update, and not so many that the size overflows. */
  predicate Sendable(b: Body) {
    b.SyncBody? ==> 1 <= |b.vars| <= MAX_UPDATES
  }

  /** A packet of the size its sender gives it arrives if and only if its type is registered and its body is
      sendable. Otherwise nothing but the header and the GUID is written, and reading that fails. */
  lemma SentPacketArrivesIff(types: Registry, p: Packet)
    requires p.Valid() && WellTyped(types, p)
    ensures var size := SentSize(p.body);
            DeserializeCustomPacket(types, size, SerializeCustomPacket(types, size, p)) ==
            if p.guid in types && Sendable(p.body) then Some((p.(body := ReceivedBody(p.body)), [])) else None
  {
    var size := SentSize(p.body);
    SentSizeFitsIff(p.body);
    var bits := SerializeCustomPacket(types, size, p);
    assert bits + [] == bits;
    if p.guid in types && Sendable(p.body) {
      ReadBackPacket(types, size, p, []);
    } else {
      ReadBackGuid(p.header, p.guid, []);
      hide BlockBits, ReadBlock, ToBits, CalculateExtraDataCount, CalculateSize;
      assert bits == BlockBits(p.header) + (ToBits(p.guid, 32) + []);
    }
  }

  lemma SentSizeFitsIff(b: Body)
    ensures forall h :: Handles(h, b) ==> (Fits(h, SentSize(b), b) <==> Sendable(b))
  {
    if b.SyncBody? {
      var n := |b.vars|;
      CountOfSize(SYNC_LAYOUT, SentSize(b), n);
      assert 32 + n * 528 < TWO_31 <==> n <= MAX_UPDATES;
    }
  }

  // ----- Registration -----

  class PacketTypes {
    var customPackets: Registry

    constructor ()
      ensures customPackets == map[]
    {
      customPackets := map[];
    }

    /** Registers a handler under the hash of its name; a GUID that is taken is an error and changes nothing. */
    method RegisterPacket(guid: nat, handler: Handler) returns (ok: bool)
      modifies this
      ensures ok <==> guid !in old(customPackets)
      ensures customPackets == if ok then old(customPackets)[guid := handler] else old(customPackets)
    {
      if guid in customPackets {
        return false;
      }
      customPackets := customPackets[guid := handler];
      return true;
    }
  }
}
