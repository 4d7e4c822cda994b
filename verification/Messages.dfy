/** The packet bodies: chat messages (ElDorito/Source/Server/ServerChat.cpp:45-84), voting messages (VotingPackets.cpp:22-90)
    and variable updates (VariableSynchronization.cpp:328-383). */
module Messages {
  import opened Integers
  import opened Text
  import opened Bits

  const MAX_PLAYERS: nat := 16

  // Each body has a `Write`, a `Read` and a `Received`: what the reader makes of what the writer was given.

  // ----- Chat -----

  const CHAT_TYPES: nat := 4 // Global, Team, Whisper, Server
  const WHISPER: nat := 2
  const SERVER: nat := 3
  const CHAT_BODY_SIZE: nat := 129

  datatype ChatMessage = ChatMessage(kind: nat, sender: byte, target: byte, body: seq<byte>) {
    predicate Valid() {
      kind < CHAT_TYPES && |body| == CHAT_BODY_SIZE
    }
  }

  function WriteChat(m: ChatMessage): seq<bool>
    requires m.Valid()
  {
    ToBits(m.kind, CountBits(CHAT_TYPES)) + (WriteString(m.body) +
    ((if m.kind != SERVER then ToBits(m.sender, CountBits(MAX_PLAYERS - 1)) else []) +
     (if m.kind == WHISPER then ToBits(m.target, CountBits(MAX_PLAYERS - 1)) else [])))
  }

  function ReadChat(s: seq<bool>): (r: Option<(ChatMessage, seq<bool>)>)
    ensures r.Some? ==> r.value.0.Valid()
  {
    var (kind, s1) :- ReadUnsigned(s, CountBits(CHAT_TYPES));
    if kind >= CHAT_TYPES then None
    else
      var (body, s2) :- ReadString(s1, CHAT_BODY_SIZE);
      var body :- body;
      var (sender, s3) :- if kind != SERVER then ReadUnsigned(s2, CountBits(MAX_PLAYERS - 1)) else Some((0, s2));
      var (target, s4) :- if kind == WHISPER then ReadUnsigned(s3, CountBits(MAX_PLAYERS - 1)) else Some((0, s3));
      Some((ChatMessage(kind, sender % 256, target % 256, body), s4))
  }

  /** Player indices keep their low four bits; what the type does not carry becomes zero. */
  function ReceivedChat(m: ChatMessage): ChatMessage
    requires m.Valid()
  {
    ChatMessage(m.kind, if m.kind != SERVER then m.sender % 16 else 0, if m.kind == WHISPER then m.target % 16 else 0,
                Padded(Content(m.body), CHAT_BODY_SIZE))
  }

  lemma FieldWidths()
    ensures CountBits(4) == 3 && CountBits(5) == 3 && CountBits(15) == 4 && CountBits(16) == 5 && CountBits(120) == 7
  {
  }

  lemma Widths()
    ensures Pow2(CountBits(4)) == 8 && Pow2(CountBits(15)) == 16 && Pow2(CountBits(16)) == 32
    ensures Pow2(CountBits(5)) == 8 && Pow2(CountBits(120)) == 128
  {
  }

  lemma MapIdWidth()
    ensures CountBits(10000) == 14 && Pow2(CountBits(10000)) == 16384
  {
    assert CountBits(10000) == 14;
    assert Pow2(7) == 128;
  }

  lemma ReadBackChat(m: ChatMessage, rest: seq<bool>)
    requires m.Valid()
    ensures ReadChat(WriteChat(m) + rest) == Some((ReceivedChat(m), rest))
  {
    hide ToBits, CountBits, Pow2, ReadUnsigned, ReadString, WriteString, Padded, Content;
    Widths();
    var k := CountBits(MAX_PLAYERS - 1);
    var target := if m.kind == WHISPER then ToBits(m.target, k) else [];
    var sender := if m.kind != SERVER then ToBits(m.sender, k) else [];
    var s3 := target + rest;
    var s2 := sender + s3;
    var s1 := WriteString(m.body) + s2;
    assert WriteChat(m) + rest == ToBits(m.kind, CountBits(CHAT_TYPES)) + s1;
    ReadBackUnsigned(m.kind, CountBits(CHAT_TYPES), s1);
    ReadBackString(m.body, s2);
    if m.kind != SERVER {
      ReadBackUnsigned(m.sender, k, s3);
    } else {
      assert s2 == s3;
    }
    if m.kind == WHISPER {
      ReadBackUnsigned(m.target, k, rest);
    } else {
      assert s3 == rest;
    }
  }

  // ----- Which messages arrive as they were sent, and what is on the wire -----

  /** A string with nothing but zeros after it, and room for one. */
  predicate Tidy(buffer: seq<byte>) {
    && |buffer| > 0 && buffer[|buffer| - 1] == 0
    && forall i, j :: 0 <= i < j < |buffer| && buffer[i] == 0 ==> buffer[j] == 0
  }

  lemma PaddedIffTidy(buffer: seq<byte>)
    requires |buffer| > 0
    ensures Padded(Content(buffer), |buffer|) == buffer <==> Tidy(buffer)
  {
    var n, p := StringLength(buffer), Padded(Content(buffer), |buffer|);
    assert p[..n] == buffer[..n];
    assert forall k :: n <= k < |p| ==> p[k] == 0;
    assert forall k :: 0 <= k < n ==> buffer[k] == buffer[..n][k] && buffer[k] != 0;
    if Tidy(buffer) {
      assert forall k :: n <= k < |p| ==> buffer[k] == 0;
    }
    hide StringLength;
  }

  /** A chat message arrives as it was sent if and only if its text is tidy, the indices of players have four bits, and it has
      a sender only if it is not the server's and a target only if it is a whisper. */
  lemma ChatKeptIff(m: ChatMessage)
    requires m.Valid()
    ensures ReceivedChat(m) == m <==>
            && Tidy(m.body)
            && (if m.kind == 3 then m.sender == 0 else m.sender < 16)
            && (if m.kind == 2 then m.target < 16 else m.target == 0)
  {
    PaddedIffTidy(m.body);
    hide Content, Padded, Tidy;
  }

  /** One of four types in three bits, the text from an array of 129, four bits of sender unless it is the server, four bits
      of target for a whisper. */
  lemma ChatOnTheWire(m: ChatMessage)
    requires m.Valid()
    ensures m.kind < 4 && |m.body| == 129
    ensures var w, head := WriteChat(m), ToBits(m.kind, 3) + WriteString(m.body);
            match m.kind
            case 2 => w == head + ToBits(m.sender, 4) + ToBits(m.target, 4)
            case 3 => w == head
            case _ => w == head + ToBits(m.sender, 4)
  {
    hide ToBits, WriteString, CountBits;
    FieldWidths();
  }

  // ----- Map voting -----

  const VOTING_TYPES: nat := 4
  const VOTE: nat := 0
  const VOTING_OPTIONS: nat := 1
  const VOTE_TALLY: nat := 2
  const WINNER: nat := 3
  const OPTIONS: nat := 5
  const NAME_SIZE: nat := 16

  datatype VotingOption = VotingOption(mapName: seq<byte>, typeName: seq<byte>, mapId: int) {
    predicate Valid() {
      |mapName| == NAME_SIZE && |typeName| == NAME_SIZE
    }
  }

  datatype VotingMessage = VotingMessage(
    kind: nat, options: seq<VotingOption>, voteTime: int, votes: seq<int>, vote: int, winner: int)
  {
    predicate Valid() {
      kind < VOTING_TYPES && |options| == OPTIONS && |votes| == OPTIONS && forall o <- options :: o.Valid()
    }
  }

  function WriteOption(o: VotingOption): seq<bool>
    requires o.Valid()
  {
    WriteString(o.mapName) + (WriteString(o.typeName) + ToBits(o.mapId, CountBits(10000)))
  }

  function WriteOptions(options: seq<VotingOption>): seq<bool>
    requires forall o <- options :: o.Valid()
  {
    if options == [] then [] else WriteOption(options[0]) + WriteOptions(options[1..])
  }

  function WriteVotes(votes: seq<int>): seq<bool> {
    if votes == [] then [] else ToBits(votes[0], CountBits(MAX_PLAYERS)) + WriteVotes(votes[1..])
  }

  function WriteVoting(m: VotingMessage): seq<bool>
    requires m.Valid()
  {
    ToBits(m.kind, CountBits(VOTING_TYPES)) +
    if m.kind == VOTING_OPTIONS then WriteOptions(m.options) + ToBits(m.voteTime, CountBits(120))
    else if m.kind == VOTE then ToBits(m.vote, CountBits(5))
    else if m.kind == VOTE_TALLY then WriteVotes(m.votes)
    else ToBits(m.winner, CountBits(5))
  }

  /** The results of reading the two names are ignored: a name that is out of range stays empty. */
  function ReadOption(s: seq<bool>): (r: Option<(VotingOption, seq<bool>)>)
    ensures r.Some? ==> r.value.0.Valid()
  {
    var (mapName, s1) :- ReadString(s, NAME_SIZE);
    var (typeName, s2) :- ReadString(s1, NAME_SIZE);
    var (mapId, s3) :- ReadUnsigned(s2, CountBits(10000));
    Some((VotingOption(if mapName.Some? then mapName.value else Zeros(NAME_SIZE),
                       if typeName.Some? then typeName.value else Zeros(NAME_SIZE), mapId), s3))
  }

  function ReadOptions(s: seq<bool>, count: nat): (r: Option<(seq<VotingOption>, seq<bool>)>)
    ensures r.Some? ==> |r.value.0| == count && forall o <- r.value.0 :: o.Valid()
    decreases count
  {
    if count == 0 then Some(([], s))
    else
      var (o, s1) :- ReadOption(s);
      var (options, s2) :- ReadOptions(s1, count - 1);
      Some(([o] + options, s2))
  }

  function ReadVotes(s: seq<bool>, count: nat): (r: Option<(seq<int>, seq<bool>)>)
    ensures r.Some? ==> |r.value.0| == count
    decreases count
  {
    if count == 0 then Some(([], s))
    else
      var (v, s1) :- ReadUnsigned(s, CountBits(MAX_PLAYERS));
      var (votes, s2) :- ReadVotes(s1, count - 1);
      Some(([v] + votes, s2))
  }

  /** A message of a type with every other field zero. */
  function Blank(kind: nat): VotingMessage {
    var none := VotingOption(Zeros(NAME_SIZE), Zeros(NAME_SIZE), 0);
    VotingMessage(kind, [none, none, none, none, none], 0, [0, 0, 0, 0, 0], 0, 0)
  }

  function ReadVoting(s: seq<bool>): (r: Option<(VotingMessage, seq<bool>)>)
    ensures r.Some? ==> r.value.0.Valid()
  {
    var (kind, s1) :- ReadUnsigned(s, CountBits(VOTING_TYPES));
    if kind >= VOTING_TYPES then None
    else if kind == VOTING_OPTIONS then
      var (options, s2) :- ReadOptions(s1, OPTIONS);
      var (voteTime, s3) :- ReadUnsigned(s2, CountBits(120));
      Some((Blank(kind).(options := options, voteTime := voteTime), s3))
    else if kind == VOTE then
      var (vote, s2) :- ReadUnsigned(s1, CountBits(5));
      Some((Blank(kind).(vote := vote), s2))
    else if kind == VOTE_TALLY then
      var (votes, s2) :- ReadVotes(s1, OPTIONS);
      Some((Blank(kind).(votes := votes), s2))
    else
      var (winner, s2) :- ReadUnsigned(s1, CountBits(5));
      Some((Blank(kind).(winner := winner), s2))
  }

  function ReceivedOption(o: VotingOption): VotingOption
    requires o.Valid()
  {
    VotingOption(Padded(Content(o.mapName), NAME_SIZE), Padded(Content(o.typeName), NAME_SIZE), o.mapId % 16384)
  }

  function ReceivedOptions(options: seq<VotingOption>): (r: seq<VotingOption>)
    requires forall o <- options :: o.Valid()
    ensures |r| == |options|
  {
    seq(|options|, i requires 0 <= i < |options| => ReceivedOption(options[i]))
  }

  function ReceivedVotes(votes: seq<int>): (r: seq<int>)
    ensures |r| == |votes|
  {
    seq(|votes|, i requires 0 <= i < |votes| => votes[i] % 32)
  }

  /** Numbers keep their low bits; the fields that the message type does not carry become zero. */
  function ReceivedVoting(m: VotingMessage): VotingMessage
    requires m.Valid()
  {
    if m.kind == VOTING_OPTIONS then
      Blank(m.kind).(options := ReceivedOptions(m.options), voteTime := m.voteTime % 128)
    else if m.kind == VOTE then Blank(m.kind).(vote := m.vote % 8)
    else if m.kind == VOTE_TALLY then Blank(m.kind).(votes := ReceivedVotes(m.votes))
    else Blank(m.kind).(winner := m.winner % 8)
  }

  lemma ReadBackOption(o: VotingOption, rest: seq<bool>)
    requires o.Valid()
    ensures ReadOption(WriteOption(o) + rest) == Some((ReceivedOption(o), rest))
  {
    hide ToBits, CountBits, Pow2, ReadUnsigned, ReadString, WriteString, Padded, Content;
    MapIdWidth();
    var s2 := ToBits(o.mapId, CountBits(10000)) + rest;
    var s1 := WriteString(o.typeName) + s2;
    assert WriteOption(o) + rest == WriteString(o.mapName) + s1;
    ReadBackString(o.mapName, s1);
    ReadBackString(o.typeName, s2);
    ReadBackUnsigned(o.mapId, CountBits(10000), rest);
  }

  lemma {:induction false} ReadBackOptions(options: seq<VotingOption>, rest: seq<bool>)
    requires forall o <- options :: o.Valid()
    ensures ReadOptions(WriteOptions(options) + rest, |options|)
            == Some((ReceivedOptions(options), rest))
  {
    hide WriteOption, ReadOption, ReceivedOption;
    if options == [] {
      assert WriteOptions(options) + rest == rest;
    } else {
      var s1 := WriteOptions(options[1..]) + rest;
      assert WriteOptions(options) + rest == WriteOption(options[0]) + s1;
      ReadBackOption(options[0], s1);
      assert forall o <- options[1..] :: o in options;
      ReadBackOptions(options[1..], rest);
      assert [ReceivedOption(options[0])] + ReceivedOptions(options[1..]) == ReceivedOptions(options);
    }
  }

  lemma {:induction false} ReadBackVotes(votes: seq<int>, rest: seq<bool>)
    ensures ReadVotes(WriteVotes(votes) + rest, |votes|)
            == Some((ReceivedVotes(votes), rest))
  {
    hide ToBits, CountBits, Pow2, ReadUnsigned;
    if votes == [] {
      assert WriteVotes(votes) + rest == rest;
    } else {
      Widths();
      var s1 := WriteVotes(votes[1..]) + rest;
      assert WriteVotes(votes) + rest == ToBits(votes[0], CountBits(MAX_PLAYERS)) + s1;
      ReadBackUnsigned(votes[0], CountBits(MAX_PLAYERS), s1);
      ReadBackVotes(votes[1..], rest);
      assert [votes[0] % 32] + ReceivedVotes(votes[1..]) == ReceivedVotes(votes);
    }
  }

  lemma ReadBackVoting(m: VotingMessage, rest: seq<bool>)
    requires m.Valid()
    ensures ReadVoting(WriteVoting(m) + rest) == Some((ReceivedVoting(m), rest))
  {
    hide ToBits, CountBits, Pow2, ReadUnsigned, ReadOptions, WriteOptions, ReadVotes, WriteVotes;
    Widths();
    var head := ToBits(m.kind, CountBits(VOTING_TYPES));
    var tail := WriteVoting(m)[CountBits(VOTING_TYPES)..] + rest;
    assert WriteVoting(m) + rest == head + tail;
    ReadBackUnsigned(m.kind, CountBits(VOTING_TYPES), tail);
    if m.kind == VOTING_OPTIONS {
      var s2 := ToBits(m.voteTime, CountBits(120)) + rest;
      assert tail == WriteOptions(m.options) + s2;
      ReadBackOptions(m.options, s2);
      ReadBackUnsigned(m.voteTime, CountBits(120), rest);
    } else if m.kind == VOTE_TALLY {
      assert tail == WriteVotes(m.votes) + rest;
      ReadBackVotes(m.votes, rest);
    } else {
      assert tail == ToBits(if m.kind == VOTE then m.vote else m.winner, CountBits(5)) + rest;
      ReadBackUnsigned(if m.kind == VOTE then m.vote else m.winner, CountBits(5), rest);
    }
  }

  /** A name of an option, and its map, arrive as they were sent. */
  predicate OptionKept(o: VotingOption)
    requires o.Valid()
  {
    Tidy(o.mapName) && Tidy(o.typeName) && 0 <= o.mapId < 16384
  }

  lemma OptionKeptIff(o: VotingOption)
    requires o.Valid()
    ensures ReceivedOption(o) == o <==> OptionKept(o)
  {
    PaddedIffTidy(o.mapName);
    PaddedIffTidy(o.typeName);
    hide Tidy, Padded, Content;
  }

  /** A voting message arrives as it was sent if and only if the fields of its type fit in their bits, names are tidy, and all
      other fields are zero. */
  lemma VotingKeptIff(m: VotingMessage)
    requires m.Valid()
    ensures ReceivedVoting(m) == m <==>
            && (if m.kind == 0 then 0 <= m.vote < 8 else m.vote == 0)
            && (if m.kind == 1 then 0 <= m.voteTime < 128 else m.voteTime == 0)
            && (if m.kind == 3 then 0 <= m.winner < 8 else m.winner == 0)
            && (if m.kind == 2 then forall i :: 0 <= i < 5 ==> 0 <= m.votes[i] < 32 else m.votes == [0, 0, 0, 0, 0])
            && (if m.kind == 1 then forall o <- m.options :: OptionKept(o)
                else m.options == seq(5, _ => VotingOption(Zeros(16), Zeros(16), 0)))
  {
    if m.kind == 1 {
      OptionsKeptIff(m.options);
    } else if m.kind == 2 {
      VotesKeptIff(m.votes);
    }
    BlankOptions(m.kind);
    hide ReceivedOptions, ReceivedVotes, OptionKept;
  }

  lemma BlankOptions(kind: nat)
    ensures Blank(kind).options == seq(5, _ => VotingOption(Zeros(16), Zeros(16), 0))
  {
  }

  lemma OptionsKeptIff(options: seq<VotingOption>)
    requires forall o <- options :: o.Valid()
    ensures ReceivedOptions(options) == options <==> forall o <- options :: OptionKept(o)
  {
    forall i | 0 <= i < |options| ensures options[i] in options && (ReceivedOption(options[i]) == options[i] <==> OptionKept(options[i])) {
      assert options[i] in options;
      OptionKeptIff(options[i]);
    }
    hide ReceivedOption, OptionKept;
    if ReceivedOptions(options) == options {
      forall o | o in options ensures OptionKept(o) {
        var i :| 0 <= i < |options| && options[i] == o;
        assert ReceivedOptions(options)[i] == options[i];
      }
    }
  }

  lemma VotesKeptIff(votes: seq<int>)
    ensures ReceivedVotes(votes) == votes <==> forall i :: 0 <= i < |votes| ==> 0 <= votes[i] < 32
  {
    if ReceivedVotes(votes) == votes {
      forall i | 0 <= i < |votes| ensures 0 <= votes[i] < 32 {
        assert ReceivedVotes(votes)[i] == votes[i] % 32;
      }
    }
  }

  /** Three bits of type; a vote or a winner has three bits more, a tally five bits for each option, and the options, each with
      two names and fourteen bits of map, end with seven bits of time. */
  lemma VotingOnTheWire(m: VotingMessage)
    requires m.Valid()
    ensures var w, head := WriteVoting(m), ToBits(m.kind, 3);
            match m.kind
            case 0 => w == head + ToBits(m.vote, 3)
            case 1 => w == head + WriteOptions(m.options) + ToBits(m.voteTime, 7)
            case 2 => w == head + (ToBits(m.votes[0], 5) + (ToBits(m.votes[1], 5) + (ToBits(m.votes[2], 5) +
                                  (ToBits(m.votes[3], 5) + ToBits(m.votes[4], 5)))))
            case _ => w == head + ToBits(m.winner, 3)
  {
    hide ToBits, CountBits, WriteOptions, WriteVotes;
    FieldWidths();
    VotesOnTheWire(m.votes);
  }

  lemma OptionOnTheWire(o: VotingOption)
    requires o.Valid()
    ensures WriteOption(o) == WriteString(o.mapName) + WriteString(o.typeName) + ToBits(o.mapId, 14)
  {
    hide ToBits, CountBits, WriteString, Pow2;
    MapIdWidth();
  }

  lemma VotesOnTheWire(v: seq<int>)
    requires |v| == 5
    ensures WriteVotes(v) == ToBits(v[0], 5) + (ToBits(v[1], 5) + (ToBits(v[2], 5) + (ToBits(v[3], 5) + ToBits(v[4], 5))))
  {
    hide ToBits, CountBits;
    FieldWidths();
    assert v[1..][1..] == v[2..] && v[2..][1..] == v[3..] && v[3..][1..] == v[4..] && v[4..][1..] == [];
    assert WriteVotes(v[4..]) == ToBits(v[4], 5) + WriteVotes([]);
    assert WriteVotes(v[3..]) == ToBits(v[3], 5) + WriteVotes(v[4..]);
    assert WriteVotes(v[2..]) == ToBits(v[2], 5) + WriteVotes(v[3..]);
    assert WriteVotes(v[1..]) == ToBits(v[1], 5) + WriteVotes(v[2..]);
  }

  // ----- Variable updates -----

  const STRING_SIZE: nat := 513 // MaxStringLength + 1
  const COMMAND_TYPES: nat := 5 // eCommandType_Count

  /** A value as it travels. A float is its bit pattern. */
  datatype WireValue = WireInt(number: nat) | WireInt64(number64: nat) | WireFloat(bits: nat) | WireString(text: seq<byte>) {
    predicate Valid() {
      match this
      case WireInt(n) => true
      case WireInt64(n) => n < 0x1_0000_0000_0000_0000
      case WireFloat(b) => b < 0x1_0000_0000
      case WireString(t) => |t| == STRING_SIZE
    }
  }

  datatype SyncVar = SyncVar(id: nat, value: WireValue) {
    predicate Valid() {
      id < 0x1_0000_0000 && value.Valid()
    }
  }

  function TypeNumber(v: WireValue): nat {
    match v case WireInt(_) => 1 case WireInt64(_) => 2 case WireFloat(_) => 3 case WireString(_) => 4
  }

  function WriteValue(v: WireValue): seq<bool>
    requires v.Valid()
  {
    match v
    case WireInt(n) => ToBits(n, 32)
    case WireInt64(n) => ToBits(n, 64)
    case WireFloat(b) => BlockBits(WordBytes(b))
    case WireString(t) => WriteString(t)
  }

  function WriteVar(v: SyncVar): seq<bool>
    requires v.Valid()
  {
    ToBits(v.id, 32) + (ToBits(TypeNumber(v.value), CountBits(COMMAND_TYPES - 1)) + WriteValue(v.value))
  }

  function WriteVars(vars: seq<SyncVar>): seq<bool>
    requires forall v <- vars :: v.Valid()
  {
    if vars == [] then [] else WriteVar(vars[0]) + WriteVars(vars[1..])
  }

  /** The result of reading a string is ignored; one that is out of range is taken to be empty here. */
  function ReadValue(s: seq<bool>, kind: nat): Option<(WireValue, seq<bool>)> {
    if kind == 1 then
      var (n, s1) :- ReadUnsigned(s, 32);
      Some((WireInt(n), s1))
    else if kind == 2 then
      var (n, s1) :- ReadUnsigned(s, 64);
      Some((WireInt64(n), s1))
    else if kind == 3 then
      var (bytes, s1) :- ReadBlock(s, 4);
      Some((WireFloat(WordFromBytes(bytes)), s1))
    else if kind == 4 then
      var (text, s1) :- ReadString(s, STRING_SIZE);
      Some((WireString(if text.Some? then text.value else Zeros(STRING_SIZE)), s1))
    else None
  }

  function ReadVar(s: seq<bool>): Option<(SyncVar, seq<bool>)> {
    var (id, s1) :- ReadUnsigned(s, 32);
    var (kind, s2) :- ReadUnsigned(s1, CountBits(COMMAND_TYPES - 1));
    var (value, s3) :- ReadValue(s2, kind);
    Some((SyncVar(id, value), s3))
  }

  function ReadVars(s: seq<bool>, count: nat): (r: Option<(seq<SyncVar>, seq<bool>)>)
    ensures r.Some? ==> |r.value.0| == count
    decreases count
  {
    if count == 0 then Some(([], s))
    else
      var (v, s1) :- ReadVar(s);
      var (vars, s2) :- ReadVars(s1, count - 1);
      Some(([v] + vars, s2))
  }

  /** What a value is after the trip: an Int loses all but its low 32 bits, a string its bytes after the NUL. */
  function ReceivedValue(v: WireValue): WireValue
    requires v.Valid()
  {
    match v
    case WireInt(n) => WireInt(n % 0x1_0000_0000)
    case WireString(t) => WireString(Padded(Content(t), STRING_SIZE))
    case _ => v
  }

  function ReceivedVar(v: SyncVar): SyncVar
    requires v.Valid()
  {
    v.(value := ReceivedValue(v.value))
  }

  function ReceivedVars(vars: seq<SyncVar>): (r: seq<SyncVar>)
    requires forall v <- vars :: v.Valid()
    ensures |r| == |vars|
  {
    seq(|vars|, i requires 0 <= i < |vars| => ReceivedVar(vars[i]))
  }

  /** An update arrives as it was sent if and only if an Int has 32 bits and a string is tidy. */
  lemma UpdateKeptIff(v: SyncVar)
    requires v.Valid()
    ensures ReceivedVar(v) == v <==>
            match v.value
            case WireInt(n) => n < 0x1_0000_0000
            case WireString(t) => Tidy(t)
            case _ => true
  {
    if v.value.WireString? {
      PaddedIffTidy(v.value.text);
    }
    hide Tidy, Padded, Content;
  }

  /** 32 bits of ID, three bits of type, and the value: as many bits as the number has, or a float's bytes as they lie in
      memory, or the string. */
  lemma UpdateOnTheWire(v: SyncVar)
    requires v.Valid()
    ensures var kind := match v.value case WireInt(_) => 1 case WireInt64(_) => 2 case WireFloat(_) => 3 case WireString(_) => 4;
            var payload := match v.value
              case WireInt(n) => ToBits(n, 32)
              case WireInt64(n) => ToBits(n, 64)
              case WireFloat(b) => BlockBits([b % 256, b / 256 % 256, b / 65536 % 256, b / 16777216 % 256])
              case WireString(t) => WriteString(t);
            WriteVar(v) == ToBits(v.id, 32) + (ToBits(kind, 3) + payload)
  {
    hide ToBits, WriteString, CountBits, BlockBits;
    FieldWidths();
  }

  lemma Pow2OfWords()
    ensures Pow2(32) == 0x1_0000_0000 && Pow2(64) == 0x1_0000_0000_0000_0000
  {
    Pow2Of8();
    hide Pow2;
    Pow2Sum(8, 8);
    assert Pow2(16) == 65536;
    Pow2Sum(16, 16);
    Pow2Sum(32, 32);
  }

  lemma ReadBackValue(v: WireValue, rest: seq<bool>)
    requires v.Valid()
    ensures ReadValue(WriteValue(v) + rest, TypeNumber(v)) == Some((ReceivedValue(v), rest))
  {
    hide ToBits, Pow2, ReadUnsigned, ReadBlock, BlockBits, ReadString, WriteString, WordBytes, WordFromBytes, Padded, Content;
    Pow2OfWords();
    match v {
      case WireInt(n) => ReadBackUnsigned(n, 32, rest);
      case WireInt64(n) => ReadBackUnsigned(n, 64, rest); SmallMod(n, Pow2(64));
      case WireFloat(b) => WordReadsBack(b); ReadBackBlock(WordBytes(b), rest); WordHasFourBytes(b);
      case WireString(t) => ReadBackString(t, rest);
    }
  }

  lemma ReadBackVar(v: SyncVar, rest: seq<bool>)
    requires v.Valid()
    ensures ReadVar(WriteVar(v) + rest) == Some((ReceivedVar(v), rest))
  {
    hide ToBits, CountBits, Pow2, ReadUnsigned, ReadValue, WriteValue, ReceivedValue;
    Widths();
    TypeWidth();
    Pow2OfWords();
    var k := CountBits(COMMAND_TYPES - 1);
    var s2 := WriteValue(v.value) + rest;
    var s1 := ToBits(TypeNumber(v.value), k) + s2;
    assert WriteVar(v) + rest == ToBits(v.id, 32) + s1;
    ReadBackUnsigned(v.id, 32, s1);
    SmallMod(v.id, Pow2(32));
    ReadBackUnsigned(TypeNumber(v.value), k, s2);
    ReadBackValue(v.value, rest);
  }

  lemma TypeWidth()
    ensures Pow2(CountBits(COMMAND_TYPES - 1)) == 8
  {
  }

  /** Any number of updates come back in order, each as received. */
  lemma {:induction false} ReadBackVars(vars: seq<SyncVar>, rest: seq<bool>)
    requires forall v <- vars :: v.Valid()
    ensures ReadVars(WriteVars(vars) + rest, |vars|) == Some((ReceivedVars(vars), rest))
  {
    hide WriteVar, ReadVar, ReceivedVar;
    if vars == [] {
      assert WriteVars(vars) + rest == rest;
    } else {
      var s1 := WriteVars(vars[1..]) + rest;
      assert WriteVars(vars) + rest == WriteVar(vars[0]) + s1;
      ReadBackVar(vars[0], s1);
      assert forall v <- vars[1..] :: v in vars;
      ReadBackVars(vars[1..], rest);
      assert [ReceivedVar(vars[0])] + ReceivedVars(vars[1..]) == ReceivedVars(vars);
    }
  }
}
