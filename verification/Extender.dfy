/** Extensions of the player-properties packet, packed one after the other into one buffer
    (ElDorito/Source/Patches/PlayerPropertiesExtension.cpp:7-57). */
module Extender {
  import opened Integers
  import opened Text
  import opened Streams

  /** One registered extension: the size of its data, how it builds, writes and reads them, and what it makes of
      data that another machine wrote. */
  datatype Extension = Extension(
    size: nat,
    build: int -> seq<byte>,
    write: seq<byte> -> seq<bool>,
    read: seq<bool> -> Option<(seq<byte>, seq<bool>)>,
    received: seq<byte> -> seq<byte>)

  ghost predicate Sound(e: Extension) {
    && (forall player :: |e.build(player)| == e.size)
    && (forall s :: e.read(s).Some? ==> |e.read(s).value.0| == e.size)
    && (forall data :: |data| == e.size ==> |e.received(data)| == e.size)
    && (forall data, rest :: |data| == e.size ==> e.read(e.write(data) + rest) == Some((e.received(data), rest)))
  }

  ghost predicate AllSound(extensions: seq<Extension>) {
    forall e <- extensions :: Sound(e)
  }

  function TotalSize(extensions: seq<Extension>): nat {
    if extensions == [] then 0 else extensions[0].size + TotalSize(extensions[1..])
  }

  /** The slice of a buffer that each extension gets. */
  function Slices(extensions: seq<Extension>, data: seq<byte>): (slices: seq<seq<byte>>)
    requires |data| == TotalSize(extensions)
    ensures |slices| == |extensions|
  {
    if extensions == [] then []
    else [data[..extensions[0].size]] + Slices(extensions[1..], data[extensions[0].size..])
  }

  function Build(extensions: seq<Extension>, player: int): (data: seq<byte>) {
    if extensions == [] then [] else extensions[0].build(player) + Build(extensions[1..], player)
  }

  function Write(extensions: seq<Extension>, data: seq<byte>): seq<bool>
    requires |data| == TotalSize(extensions)
  {
    if extensions == [] then []
    else extensions[0].write(data[..extensions[0].size]) + Write(extensions[1..], data[extensions[0].size..])
  }

  function Read(extensions: seq<Extension>, s: seq<bool>): Option<(seq<byte>, seq<bool>)> {
    if extensions == [] then Some(([], s))
    else
      var (first, s1) :- extensions[0].read(s);
      var (others, s2) :- Read(extensions[1..], s1);
      Some((first + others, s2))
  }

  function Received(extensions: seq<Extension>, data: seq<byte>): seq<byte>
    requires |data| == TotalSize(extensions)
  {
    if extensions == [] then []
    else extensions[0].received(data[..extensions[0].size]) + Received(extensions[1..], data[extensions[0].size..])
  }

  /** The whole list comes back at its running offsets, and exactly its bits are consumed. */
  lemma {:induction false} ReadBackExtensions(extensions: seq<Extension>, data: seq<byte>, rest: seq<bool>)
    requires AllSound(extensions) && |data| == TotalSize(extensions)
    ensures Read(extensions, Write(extensions, data) + rest) == Some((Received(extensions, data), rest))
    ensures |Received(extensions, data)| == |data|
  {
    if extensions == [] {
      assert Write(extensions, data) + rest == rest;
    } else {
      var e, others := extensions[0], extensions[1..];
      var first, tail := data[..e.size], data[e.size..];
      assert Sound(e);
      assert Write(extensions, data) + rest == e.write(first) + (Write(others, tail) + rest);
      assert e.read(e.write(first) + (Write(others, tail) + rest)) == Some((e.received(first), Write(others, tail) + rest));
      ReadBackExtensions(others, tail, rest);
    }
  }

  /** Every extension is handed back exactly the data that it built. */
  lemma {:induction false} SlicesOfBuilt(extensions: seq<Extension>, player: int)
    requires AllSound(extensions)
    ensures |Build(extensions, player)| == TotalSize(extensions)
    ensures Slices(extensions, Build(extensions, player)) == seq(|extensions|, i requires 0 <= i < |extensions| => extensions[i].build(player))
  {
    if extensions != [] {
      var e, others := extensions[0], extensions[1..];
      assert Sound(e);
      SlicesOfBuilt(others, player);
      var data := Build(extensions, player);
      assert data[..e.size] == e.build(player) && data[e.size..] == Build(others, player);
    }
  }

  // ----- The loops, with a pointer into one shared buffer -----

  class PlayerPropertiesExtender {
    var extensions: seq<Extension>

    constructor ()
      ensures extensions == []
    {
      extensions := [];
    }

    method Add(e: Extension)
      modifies this
      ensures extensions == old(extensions) + [e]
    {
      extensions := extensions + [e];
    }

    method GetTotalSize() returns (result: nat)
      ensures result == TotalSize(extensions)
    {
      result := 0;
      for i := 0 to |extensions|
        invariant result + TotalSize(extensions[i..]) == TotalSize(extensions)
      {
        assert extensions[i..][1..] == extensions[i + 1..];
        result := result + extensions[i].size;
      }
    }

    method BuildData(playerIndex: int, out: array<byte>)
      requires AllSound(extensions) && out.Length == TotalSize(extensions)
      modifies out
      ensures out[..] == Build(extensions, playerIndex)
    {
      hide Sound, Build, TotalSize;
      var ptr: nat := 0;
      ghost var all := Build(extensions, playerIndex);
      SlicesOfBuilt(extensions, playerIndex);
      assert all[0..] == all && extensions[0..] == extensions;
      for i := 0 to |extensions|
        invariant 0 <= ptr <= out.Length && |extensions[i..]| == |extensions| - i
        invariant ptr + TotalSize(extensions[i..]) == out.Length == |all|
        invariant out[..ptr] == all[..ptr] && all[ptr..] == Build(extensions[i..], playerIndex)
      {
        BuildStep(extensions, i, playerIndex, all, ptr);
        WriteAt(out, ptr, extensions[i].build(playerIndex));
        ptr := ptr + extensions[i].size;
      }
      NothingToBuild(extensions, playerIndex);
    }

    method SerializeData(stream: BitStream, data: array<byte>)
      requires data.Length == TotalSize(extensions)
      modifies stream`bits
      ensures stream.bits == old(stream.bits) + Write(extensions, data[..])
    {
      hide Write;
      var ptr: nat := 0;
      assert extensions[0..] == extensions && data[0..] == data[..];
      for i := 0 to |extensions|
        invariant ptr + TotalSize(extensions[i..]) == data.Length
        invariant stream.bits + Write(extensions[i..], data[ptr..]) == old(stream.bits) + Write(extensions, data[..])
      {
        WriteStep(extensions, i, data[ptr..], stream.bits);
        assert data[ptr..][..extensions[i].size] == data[ptr..ptr + extensions[i].size];
        assert data[ptr..][extensions[i].size..] == data[ptr + extensions[i].size..];
        stream.bits := stream.bits + extensions[i].write(data[ptr..ptr + extensions[i].size]);
        ptr := ptr + extensions[i].size;
      }
      NothingToWrite(extensions, data[ptr..], stream.bits);
    }

    /** Fills the buffer front to back; `ok` is false when the stream ends early. */
    method DeserializeData(stream: BitStream, out: array<byte>) returns (ok: bool)
      requires AllSound(extensions) && out.Length == TotalSize(extensions) && stream.Valid()
      modifies stream`position, stream`bits, out
      ensures stream.Valid()
      ensures match Read(extensions, old(stream.Unread()))
              case Some((data, rest)) => ok && out[..] == data && stream.Unread() == rest
              case None => !ok
    {
      hide Sound;
      var ptr: nat := 0;
      assert extensions[0..] == extensions;
      assert forall data: seq<byte> :: out[..0] + data == data;
      for i := 0 to |extensions|
        invariant stream.Valid() && ptr + TotalSize(extensions[i..]) == out.Length
        invariant Read(extensions, old(stream.Unread())) == Ahead(out[..ptr], Read(extensions[i..], stream.Unread()))
      {
        ReadStep(extensions, i, stream.Unread(), out[..ptr]);
        var read := extensions[i].read(stream.Unread());
        if read.None? {
          return false;
        }
        ghost var before := out[..ptr];
        WriteAt(out, ptr, read.value.0);
        stream.bits, stream.position := read.value.1, 0;
        ptr := ptr + extensions[i].size;
        assert out[..ptr] == before + read.value.0;
      }
      NoExtensions(stream.Unread(), out[..ptr]);
      assert extensions[|extensions|..] == [];
      ok := true;
    }

    /** Hands every extension its own slice. */
    method ApplyData(data: array<byte>) returns (applied: seq<seq<byte>>)
      requires data.Length == TotalSize(extensions)
      ensures applied == Slices(extensions, data[..])
    {
      hide Slices, TotalSize;
      applied := [];
      var ptr: nat := 0;
      assert extensions[0..] == extensions && data[0..] == data[..];
      assert [] + Slices(extensions, data[..]) == Slices(extensions, data[..]);
      for i := 0 to |extensions|
        invariant ptr + TotalSize(extensions[i..]) == data.Length
        invariant applied + Slices(extensions[i..], data[ptr..]) == Slices(extensions, data[..])
      {
        SliceStep(extensions, i, data[ptr..], applied);
        assert data[ptr..][..extensions[i].size] == data[ptr..ptr + extensions[i].size];
        assert data[ptr..][extensions[i].size..] == data[ptr + extensions[i].size..];
        applied := applied + [data[ptr..ptr + extensions[i].size]];
        ptr := ptr + extensions[i].size;
      }
    }
  }

  /** Copies bytes to a place in the buffer. */
  method WriteAt(out: array<byte>, ptr: nat, bytes: seq<byte>)
    requires ptr + |bytes| <= out.Length
    modifies out
    ensures out[..ptr + |bytes|] == old(out[..ptr]) + bytes
    ensures out[ptr + |bytes|..] == old(out[ptr + |bytes|..])
  {
    for k := 0 to |bytes|
      invariant out[..ptr + k] == old(out[..ptr]) + bytes[..k]
      invariant out[ptr + |bytes|..] == old(out[ptr + |bytes|..])
    {
      out[ptr + k] := bytes[k];
    }
  }

  lemma NothingToBuild(extensions: seq<Extension>, player: int)
    ensures Build(extensions[|extensions|..], player) == [] && TotalSize(extensions[|extensions|..]) == 0
  {
  }

  lemma BuildStep(extensions: seq<Extension>, i: nat, player: int, all: seq<byte>, ptr: nat)
    requires i < |extensions| && AllSound(extensions) && ptr <= |all|
    requires all[ptr..] == Build(extensions[i..], player)
    requires ptr + TotalSize(extensions[i..]) == |all|
    ensures var e := extensions[i];
            && |e.build(player)| == e.size && ptr + e.size + TotalSize(extensions[i + 1..]) == |all|
            && all[..ptr + e.size] == all[..ptr] + e.build(player)
            && all[ptr + e.size..] == Build(extensions[i + 1..], player)
  {
    var e := extensions[i];
    assert Sound(e);
    assert extensions[i..][0] == e && extensions[i..][1..] == extensions[i + 1..];
    assert all == all[..ptr] + (e.build(player) + Build(extensions[i + 1..], player));
  }

  lemma SliceStep(extensions: seq<Extension>, i: nat, data: seq<byte>, applied: seq<seq<byte>>)
    requires i < |extensions| && |data| == TotalSize(extensions[i..])
    ensures var e := extensions[i];
            && |data| == e.size + TotalSize(extensions[i + 1..])
            && applied + Slices(extensions[i..], data)
               == (applied + [data[..e.size]]) + Slices(extensions[i + 1..], data[e.size..])
  {
    assert extensions[i..][0] == extensions[i] && extensions[i..][1..] == extensions[i + 1..];
  }

  lemma WriteStep(extensions: seq<Extension>, i: nat, data: seq<byte>, bits: seq<bool>)
    requires i < |extensions| && |data| == TotalSize(extensions[i..])
    ensures var e := extensions[i];
            && |data| == e.size + TotalSize(extensions[i + 1..])
            && bits + Write(extensions[i..], data)
               == (bits + e.write(data[..e.size])) + Write(extensions[i + 1..], data[e.size..])
  {
    assert extensions[i..][0] == extensions[i] && extensions[i..][1..] == extensions[i + 1..];
  }

  lemma NothingToWrite(extensions: seq<Extension>, data: seq<byte>, bits: seq<bool>)
    requires |data| == TotalSize(extensions[|extensions|..])
    ensures bits + Write(extensions[|extensions|..], data) == bits
  {
  }

  lemma ReadStep(extensions: seq<Extension>, i: nat, s: seq<bool>, done: seq<byte>)
    requires i < |extensions| && AllSound(extensions)
    ensures TotalSize(extensions[i..]) == extensions[i].size + TotalSize(extensions[i + 1..])
    ensures match extensions[i].read(s)
            case Some((first, s1)) =>
              && |first| == extensions[i].size
              && Ahead(done, Read(extensions[i..], s)) == Ahead(done + first, Read(extensions[i + 1..], s1))
            case None => Ahead(done, Read(extensions[i..], s)) == None
  {
    assert extensions[i..][0] == extensions[i] && extensions[i..][1..] == extensions[i + 1..];
    assert Sound(extensions[i]);
    match extensions[i].read(s) {
      case Some((first, s1)) =>
        var more := Read(extensions[i + 1..], s1);
        if more.Some? {
          assert done + (first + more.value.0) == done + first + more.value.0;
        }
      case None =>
    }
  }

  lemma NoExtensions(s: seq<bool>, done: seq<byte>)
    ensures Ahead(done, Read([], s)) == Some((done, s))
  {
    assert done + [] == done;
  }
}
