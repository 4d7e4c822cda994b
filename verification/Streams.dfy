/** The handlers as the source has them: loops that advance one shared stream
    (ElDorito/Source/Blam/BitStream.hpp:20-82, ElDorito/Source/Server/ServerChat.cpp:45-84,
    ElDorito/Source/Server/VotingPackets.cpp:22-90, ElDorito/Source/Server/VariableSynchronization.cpp:328-383).

    Each method is proved to append what the `Write` function of its body says, or to take off the stream what the `Read`
    function says, so that the round trips proved of those functions are round trips of the loops. */
module Streams {
  import opened Integers
  import opened Text
  import opened Bits
  import opened Messages

  class BitStream {
    var bits: seq<bool>
    var position: nat

    predicate Valid()
      reads this
    {
      position <= |bits|
    }

    function Unread(): seq<bool>
      reads this
      requires Valid()
    {
      bits[position..]
    }

    constructor (bits: seq<bool>)
      ensures Valid() && this.bits == bits && Unread() == bits
    {
      this.bits, position := bits, 0;
    }

    method WriteUnsigned(val: int, n: nat)
      modifies this`bits
      ensures bits == old(bits) + ToBits(val, n)
    {
      bits := bits + ToBits(val, n);
    }

    /** Ranged writing: just enough bits for the largest value. */
    method WriteRanged(val: int, max: nat)
      modifies this`bits
      ensures bits == old(bits) + ToBits(val, CountBits(max))
    {
      var n := ComputeCountBits(max);
      WriteUnsigned(val, n);
    }

    method WriteBlock(bytes: seq<byte>)
      modifies this`bits
      ensures bits == old(bits) + BlockBits(bytes)
    {
      bits := bits + BlockBits(bytes);
    }

    method WriteString(str: seq<byte>)
      requires |str| > 0
      modifies this`bits
      ensures bits == old(bits) + Bits.WriteString(str)
    {
      hide StringLength, CountBits, ToBits, BlockBits;
      var length := 0;
      while length < |str| - 1 && str[length] != 0
        invariant length < |str| && 0 !in str[..length]
      {
        assert str[..length + 1] == str[..length] + [str[length]];
        length := length + 1;
      }
      StringLengthIs(str, length);
      assert Content(str) == str[..length];
      WriteRanged(length, |str| - 1);
      WriteBlock(str[..length]);
    }

    /** Reading past the end, which is engine code, is taken to give nothing. */
    method ReadUnsigned(n: nat) returns (val: Option<nat>)
      requires Valid()
      modifies this`position
      ensures Valid() && ReadAs(Bits.ReadUnsigned(old(Unread()), n), val, Unread())
    {
      if |bits| - position < n {
        return None;
      }
      val := Some(FromBits(bits[position..position + n]));
      assert bits[position..][..n] == bits[position..position + n];
      position := position + n;
    }

    method ReadRanged(max: nat) returns (val: Option<nat>)
      requires Valid()
      modifies this`position
      ensures Valid() && ReadAs(Bits.ReadUnsigned(old(Unread()), CountBits(max)), val, Unread())
    {
      var n := ComputeCountBits(max);
      val := ReadUnsigned(n);
    }

    method ReadBlock(count: nat) returns (bytes: Option<seq<byte>>)
      requires Valid()
      modifies this`position
      ensures Valid() && ReadAs(Bits.ReadBlock(old(Unread()), count), bytes, Unread())
    {
      if count == 0 {
        return Some([]);
      }
      var b := ReadUnsigned(8);
      if b.None? {
        return None;
      }
      var rest := ReadBlock(count - 1);
      if rest.None? {
        return None;
      }
      bytes := Some([b.value % 256] + rest.value);
    }

    /** `None` at the end of the stream; `Some(None)` is the source's `false`. */
    method ReadString(size: nat) returns (str: Option<Option<seq<byte>>>)
      requires Valid() && size > 0
      modifies this`position
      ensures Valid() && ReadAs(Bits.ReadString(old(Unread()), size), str, Unread())
    {
      var length := ReadRanged(size - 1);
      if length.None? {
        return None;
      }
      if length.value >= size {
        return Some(None);
      }
      var content := ReadBlock(length.value);
      if content.None? {
        return None;
      }
      str := Some(Some(Padded(content.value, size)));
    }
  }

  /** A method read what the specification reads, and left the rest of the stream. */
  ghost predicate ReadAs<T>(spec: Option<(T, seq<bool>)>, result: Option<T>, rest: seq<bool>) {
    match spec
    case Some((v, s)) => result == Some(v) && rest == s
    case None => result == None
  }

  // ----- Chat -----

  method SerializeChat(stream: BitStream, data: ChatMessage)
    requires data.Valid()
    modifies stream`bits
    ensures stream.bits == old(stream.bits) + WriteChat(data)
  {
    hide ToBits, CountBits, Bits.WriteString;
    stream.WriteRanged(data.kind, CHAT_TYPES);
    stream.WriteString(data.body);
    if data.kind != SERVER {
      stream.WriteRanged(data.sender, MAX_PLAYERS - 1);
    }
    if data.kind == WHISPER {
      stream.WriteRanged(data.target, MAX_PLAYERS - 1);
    }
  }

  method DeserializeChat(stream: BitStream) returns (data: Option<ChatMessage>)
    requires stream.Valid()
    modifies stream`position
    ensures stream.Valid() && ReadAs(ReadChat(old(stream.Unread())), data, stream.Unread())
  {
    hide CountBits, ReadUnsigned, Bits.ReadString;
    var kind := stream.ReadRanged(CHAT_TYPES);
    if kind.None? || kind.value >= CHAT_TYPES {
      return None;
    }
    var body := stream.ReadString(CHAT_BODY_SIZE);
    if body.None? || body.value.None? {
      return None;
    }
    var sender: byte, target: byte := 0, 0;
    if kind.value != SERVER {
      var read := stream.ReadRanged(MAX_PLAYERS - 1);
      if read.None? {
        return None;
      }
      sender := read.value % 256;
    }
    if kind.value == WHISPER {
      var read := stream.ReadRanged(MAX_PLAYERS - 1);
      if read.None? {
        return None;
      }
      target := read.value % 256;
    }
    data := Some(ChatMessage(kind.value, sender, target, body.value.value));
  }

  // ----- Voting -----

  method SerializeOption(stream: BitStream, option: VotingOption)
    requires option.Valid()
    modifies stream`bits
    ensures stream.bits == old(stream.bits) + WriteOption(option)
  {
    hide ToBits, CountBits, Bits.WriteString;
    stream.WriteString(option.mapName);
    stream.WriteString(option.typeName);
    stream.WriteRanged(option.mapId, 10000);
  }

  method SerializeVoting(stream: BitStream, data: VotingMessage)
    requires data.Valid()
    modifies stream`bits
    ensures stream.bits == old(stream.bits) + WriteVoting(data)
  {
    hide ToBits, CountBits, WriteOption, WriteOptions, WriteVotes;
    stream.WriteRanged(data.kind, VOTING_TYPES);
    ghost var head := stream.bits;
    if data.kind == VOTING_OPTIONS {
      ListEnds(data, head);
      for i := 0 to OPTIONS
        invariant stream.bits + WriteOptions(data.options[i..]) == head + WriteOptions(data.options)
      {
        StepOptions(data, i, stream.bits);
        SerializeOption(stream, data.options[i]);
      }
      ListEnds(data, stream.bits);
      stream.WriteRanged(data.voteTime, 120);
    }
    if data.kind == VOTE {
      stream.WriteRanged(data.vote, 5);
    }
    if data.kind == VOTE_TALLY {
      ListEnds(data, head);
      for i := 0 to OPTIONS
        invariant stream.bits + WriteVotes(data.votes[i..]) == head + WriteVotes(data.votes)
      {
        StepVotes(data, i, stream.bits);
        stream.WriteRanged(data.votes[i], MAX_PLAYERS);
      }
      ListEnds(data, stream.bits);
    }
    if data.kind == WINNER {
      stream.WriteRanged(data.winner, 5);
    }
  }

  lemma StepOptions(data: VotingMessage, i: nat, bits: seq<bool>)
    requires data.Valid() && i < OPTIONS
    ensures bits + WriteOptions(data.options[i..])
            == (bits + WriteOption(data.options[i])) + WriteOptions(data.options[i + 1..])
  {
    hide WriteOption;
    assert data.options[i..][0] == data.options[i] && data.options[i..][1..] == data.options[i + 1..];
  }

  lemma StepVotes(data: VotingMessage, i: nat, bits: seq<bool>)
    requires data.Valid() && i < OPTIONS
    ensures bits + WriteVotes(data.votes[i..])
            == (bits + ToBits(data.votes[i], CountBits(MAX_PLAYERS))) + WriteVotes(data.votes[i + 1..])
  {
    hide ToBits, CountBits;
    assert data.votes[i..][0] == data.votes[i] && data.votes[i..][1..] == data.votes[i + 1..];
  }

  lemma ListEnds(data: VotingMessage, bits: seq<bool>)
    requires data.Valid()
    ensures data.options[0..] == data.options && data.votes[0..] == data.votes
    ensures bits + WriteOptions(data.options[OPTIONS..]) == bits && bits + WriteVotes(data.votes[OPTIONS..]) == bits
  {
  }

  method DeserializeOption(stream: BitStream) returns (option: Option<VotingOption>)
    requires stream.Valid()
    modifies stream`position
    ensures stream.Valid() && ReadAs(ReadOption(old(stream.Unread())), option, stream.Unread())
  {
    hide CountBits, ReadUnsigned, Bits.ReadString;
    var mapName := stream.ReadString(NAME_SIZE);
    if mapName.None? {
      return None;
    }
    var typeName := stream.ReadString(NAME_SIZE);
    if typeName.None? {
      return None;
    }
    var mapId := stream.ReadRanged(10000);
    if mapId.None? {
      return None;
    }
    option := Some(VotingOption(if mapName.value.Some? then mapName.value.value else Zeros(NAME_SIZE),
                                if typeName.value.Some? then typeName.value.value else Zeros(NAME_SIZE), mapId.value));
  }

  /** What is left to read, ahead of which something was read already. */
  ghost function Ahead<T>(done: seq<T>, more: Option<(seq<T>, seq<bool>)>): Option<(seq<T>, seq<bool>)> {
    match more case Some((others, rest)) => Some((done + others, rest)) case None => None
  }

  method DeserializeOptions(stream: BitStream) returns (options: Option<seq<VotingOption>>)
    requires stream.Valid()
    modifies stream`position
    ensures stream.Valid() && ReadAs(ReadOptions(old(stream.Unread()), OPTIONS), options, stream.Unread())
  {
    hide ReadOption, ReadOptions;
    var list: seq<VotingOption> := [];
    assert forall others: seq<VotingOption> :: list + others == others;
    for i := 0 to OPTIONS
      invariant stream.Valid()
      invariant ReadOptions(old(stream.Unread()), OPTIONS) == Ahead(list, ReadOptions(stream.Unread(), OPTIONS - i))
    {
      StepReadOptions(stream.Unread(), OPTIONS - i, list);
      var option := DeserializeOption(stream);
      if option.None? {
        return None;
      }
      list := list + [option.value];
    }
    NoOptions(stream.Unread(), list);
    options := Some(list);
  }

  lemma StepReadOptions(s: seq<bool>, count: nat, done: seq<VotingOption>)
    requires count > 0
    ensures Ahead(done, ReadOptions(s, count)) ==
            match ReadOption(s)
            case Some((o, s1)) => Ahead(done + [o], ReadOptions(s1, count - 1))
            case None => None
  {
    hide ReadOption;
    match ReadOption(s) {
      case Some((o, s1)) =>
        var more := ReadOptions(s1, count - 1);
        if more.Some? {
          assert done + ([o] + more.value.0) == done + [o] + more.value.0;
        }
      case None =>
    }
  }

  lemma NoOptions(s: seq<bool>, done: seq<VotingOption>)
    ensures Ahead(done, ReadOptions(s, 0)) == Some((done, s))
  {
    assert done + [] == done;
  }

  method DeserializeVotes(stream: BitStream) returns (votes: Option<seq<int>>)
    requires stream.Valid()
    modifies stream`position
    ensures stream.Valid() && ReadAs(ReadVotes(old(stream.Unread()), OPTIONS), votes, stream.Unread())
  {
    hide ReadUnsigned, CountBits, ReadVotes;
    var list: seq<int> := [];
    assert forall others: seq<int> :: list + others == others;
    for i := 0 to OPTIONS
      invariant stream.Valid()
      invariant ReadVotes(old(stream.Unread()), OPTIONS) == Ahead(list, ReadVotes(stream.Unread(), OPTIONS - i))
    {
      StepReadVotes(stream.Unread(), OPTIONS - i, list);
      var vote := stream.ReadRanged(MAX_PLAYERS);
      if vote.None? {
        return None;
      }
      list := list + [vote.value];
    }
    NoVotes(stream.Unread(), list);
    votes := Some(list);
  }

  lemma StepReadVotes(s: seq<bool>, count: nat, done: seq<int>)
    requires count > 0
    ensures Ahead(done, ReadVotes(s, count)) ==
            match ReadUnsigned(s, CountBits(MAX_PLAYERS))
            case Some((v, s1)) => Ahead(done + [v], ReadVotes(s1, count - 1))
            case None => None
  {
    hide ReadUnsigned, CountBits;
    match ReadUnsigned(s, CountBits(MAX_PLAYERS)) {
      case Some((v, s1)) =>
        var more := ReadVotes(s1, count - 1);
        if more.Some? {
          assert done + ([v] + more.value.0) == done + [v] + more.value.0;
        }
      case None =>
    }
  }

  lemma NoVotes(s: seq<bool>, done: seq<int>)
    ensures Ahead(done, ReadVotes(s, 0)) == Some((done, s))
  {
    assert done + [] == done;
  }

  method DeserializeVoting(stream: BitStream) returns (data: Option<VotingMessage>)
    requires stream.Valid()
    modifies stream`position
    ensures stream.Valid() && ReadAs(ReadVoting(old(stream.Unread())), data, stream.Unread())
  {
    hide CountBits, ReadUnsigned, ReadOptions, ReadVotes;
    var kind := stream.ReadRanged(VOTING_TYPES);
    if kind.None? || kind.value >= VOTING_TYPES {
      return None;
    }
    var message := Blank(kind.value);
    if kind.value == VOTING_OPTIONS {
      var options := DeserializeOptions(stream);
      if options.None? {
        return None;
      }
      var voteTime := stream.ReadRanged(120);
      if voteTime.None? {
        return None;
      }
      message := message.(options := options.value, voteTime := voteTime.value);
    }
    if kind.value == VOTE {
      var vote := stream.ReadRanged(5);
      if vote.None? {
        return None;
      }
      message := message.(vote := vote.value);
    }
    if kind.value == VOTE_TALLY {
      var votes := DeserializeVotes(stream);
      if votes.None? {
        return None;
      }
      message := message.(votes := votes.value);
    }
    if kind.value == WINNER {
      var winner := stream.ReadRanged(5);
      if winner.None? {
        return None;
      }
      message := message.(winner := winner.value);
    }
    data := Some(message);
  }

  // ----- Variable updates -----

  method SerializeUpdate(stream: BitStream, v: SyncVar)
    requires v.Valid()
    modifies stream`bits
    ensures stream.bits == old(stream.bits) + WriteVar(v)
  {
    hide ToBits, CountBits, Bits.WriteString, BlockBits, WordBytes;
    stream.WriteUnsigned(v.id, 32);
    stream.WriteRanged(TypeNumber(v.value), COMMAND_TYPES - 1);
    match v.value {
      case WireInt(n) => stream.WriteUnsigned(n, 32);
      case WireInt64(n) => stream.WriteUnsigned(n, 64);
      case WireFloat(b) => stream.WriteBlock(WordBytes(b));
      case WireString(t) => stream.WriteString(t);
    }
  }

  method SerializeUpdates(stream: BitStream, extraData: seq<SyncVar>)
    requires forall v <- extraData :: v.Valid()
    modifies stream`bits
    ensures stream.bits == old(stream.bits) + WriteVars(extraData)
  {
    hide WriteVar, WriteVars;
    UpdateEnds(extraData, stream.bits);
    for i := 0 to |extraData|
      invariant stream.bits + WriteVars(extraData[i..]) == old(stream.bits) + WriteVars(extraData)
    {
      StepUpdates(extraData, i, stream.bits);
      SerializeUpdate(stream, extraData[i]);
    }
    UpdateEnds(extraData, stream.bits);
  }

  lemma StepUpdates(vars: seq<SyncVar>, i: nat, bits: seq<bool>)
    requires (forall v <- vars :: v.Valid()) && i < |vars|
    ensures bits + WriteVars(vars[i..]) == (bits + WriteVar(vars[i])) + WriteVars(vars[i + 1..])
  {
    hide WriteVar;
    assert vars[i..][0] == vars[i] && vars[i..][1..] == vars[i + 1..];
  }

  lemma UpdateEnds(vars: seq<SyncVar>, bits: seq<bool>)
    requires forall v <- vars :: v.Valid()
    ensures vars[0..] == vars && bits + WriteVars(vars[|vars|..]) == bits
  {
  }

  method DeserializeUpdates(stream: BitStream, extraDataCount: nat) returns (extraData: Option<seq<SyncVar>>)
    requires stream.Valid()
    modifies stream`position
    ensures stream.Valid() && ReadAs(ReadVars(old(stream.Unread()), extraDataCount), extraData, stream.Unread())
  {
    hide ReadVar, ReadVars;
    var vars: seq<SyncVar> := [];
    assert forall others: seq<SyncVar> :: vars + others == others;
    for i := 0 to extraDataCount
      invariant stream.Valid()
      invariant ReadVars(old(stream.Unread()), extraDataCount) == Ahead(vars, ReadVars(stream.Unread(), extraDataCount - i))
    {
      StepReadVars(stream.Unread(), extraDataCount - i, vars);
      var v := DeserializeUpdate(stream);
      if v.None? {
        return None;
      }
      vars := vars + [v.value];
    }
    NoVars(stream.Unread(), vars);
    extraData := Some(vars);
  }

  lemma StepReadVars(s: seq<bool>, count: nat, done: seq<SyncVar>)
    requires count > 0
    ensures Ahead(done, ReadVars(s, count)) ==
            match ReadVar(s)
            case Some((v, s1)) => Ahead(done + [v], ReadVars(s1, count - 1))
            case None => None
  {
    hide ReadVar;
    match ReadVar(s) {
      case Some((v, s1)) =>
        var more := ReadVars(s1, count - 1);
        if more.Some? {
          assert done + ([v] + more.value.0) == done + [v] + more.value.0;
        }
      case None =>
    }
  }

  lemma NoVars(s: seq<bool>, done: seq<SyncVar>)
    ensures Ahead(done, ReadVars(s, 0)) == Some((done, s))
  {
    assert done + [] == done;
  }

  method DeserializeUpdate(stream: BitStream) returns (v: Option<SyncVar>)
    requires stream.Valid()
    modifies stream`position
    ensures stream.Valid() && ReadAs(ReadVar(old(stream.Unread())), v, stream.Unread())
  {
    hide CountBits, ReadUnsigned, Bits.ReadString, ReadBlock, WordFromBytes;
    var id := stream.ReadUnsigned(32);
    if id.None? {
      return None;
    }
    var kind := stream.ReadRanged(COMMAND_TYPES - 1);
    if kind.None? {
      return None;
    }
    var value;
    match kind.value {
      case 1 =>
        var n := stream.ReadUnsigned(32);
        if n.None? { return None; }
        value := WireInt(n.value);
      case 2 =>
        var n := stream.ReadUnsigned(64);
        if n.None? { return None; }
        value := WireInt64(n.value);
      case 3 =>
        var bytes := stream.ReadBlock(4);
        if bytes.None? { return None; }
        value := WireFloat(WordFromBytes(bytes.value));
      case 4 =>
        var text := stream.ReadString(STRING_SIZE);
        if text.None? { return None; }
        value := WireString(if text.value.Some? then text.value.value else Zeros(STRING_SIZE));
      case _ =>
        return None;
    }
    v := Some(SyncVar(id.value, value));
  }
}
