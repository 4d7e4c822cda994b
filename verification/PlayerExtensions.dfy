/** The two extensions that are registered: armour and player UID
    (ElDorito/Source/Patches/Armor.cpp:20-22, 108-134, ElDorito/Source/Patches/PlayerUid.cpp:21-45), each on the bytes it
    has in memory. */
module PlayerExtensions {
  import opened Integers
  import opened Text
  import opened Bits
  import opened Streams
  import opened Extender

  // ----- Numbers of given widths, one after the other -----

  function WriteFields(values: seq<nat>, widths: seq<nat>): seq<bool>
    requires |values| == |widths|
  {
    if values == [] then [] else ToBits(values[0], widths[0]) + WriteFields(values[1..], widths[1..])
  }

  function ReadFields(s: seq<bool>, widths: seq<nat>): (r: Option<(seq<nat>, seq<bool>)>)
    ensures r.Some? ==> |r.value.0| == |widths|
    decreases |widths|
  {
    if widths == [] then Some(([], s))
    else
      var (v, s1) :- ReadUnsigned(s, widths[0]);
      var (values, s2) :- ReadFields(s1, widths[1..]);
      Some(([v] + values, s2))
  }

  function Truncated(values: seq<nat>, widths: seq<nat>): (r: seq<nat>)
    requires |values| == |widths|
    ensures |r| == |values|
  {
    seq(|values|, i requires 0 <= i < |values| => values[i] % Pow2(widths[i]))
  }

  lemma {:induction false} ReadBackFields(values: seq<nat>, widths: seq<nat>, rest: seq<bool>)
    requires |values| == |widths|
    ensures ReadFields(WriteFields(values, widths) + rest, widths) == Some((Truncated(values, widths), rest))
  {
    hide ToBits, ReadUnsigned, Pow2;
    if values == [] {
      assert WriteFields(values, widths) + rest == rest;
    } else {
      var s1 := WriteFields(values[1..], widths[1..]) + rest;
      assert WriteFields(values, widths) + rest == ToBits(values[0], widths[0]) + s1;
      ReadBackUnsigned(values[0], widths[0], s1);
      ReadBackFields(values[1..], widths[1..], rest);
      assert [values[0] % Pow2(widths[0])] + Truncated(values[1..], widths[1..]) == Truncated(values, widths);
    }
  }

  // ----- Armour -----

  const COLORS: nat := 5
  const PIECES: nat := 7
  const MAX_ARMOR_INDICES: seq<nat> := [81, 82, 82, 50, 52, 24, 4]
  const CUSTOMIZATION_SIZE: nat := 32 // five words, seven bytes, one byte of padding, one word

  /** PlayerCustomization as a value: colours, armour pieces, representation. */
  datatype Customization = Customization(colors: seq<nat>, armor: seq<nat>, representation: nat) {
    predicate Valid() {
      && |colors| == COLORS && |armor| == PIECES && representation < 0x1_0000_0000
      && (forall c <- colors :: c < 0x1_0000_0000) && (forall a <- armor :: a < 256)
    }

    function Fields(): seq<nat> {
      colors + armor + [representation]
    }
  }

  function ArmorWidths(): (widths: seq<nat>)
    ensures |widths| == COLORS + PIECES + 1
  {
    [24, 24, 24, 24, 24] + seq(PIECES, i requires 0 <= i < PIECES => CountBits(MAX_ARMOR_INDICES[i])) + [32]
  }

  function WriteArmor(c: Customization): seq<bool>
    requires c.Valid()
  {
    WriteFields(c.Fields(), ArmorWidths())
  }

  function ReadArmor(s: seq<bool>): Option<(Customization, seq<bool>)> {
    var (f, rest) :- ReadFields(s, ArmorWidths());
    Some((Customization(f[..COLORS], f[COLORS..COLORS + PIECES], f[COLORS + PIECES]), rest))
  }

  /** Colours keep 24 bits, and a piece as many as its largest index needs. */
  function ReceivedArmor(c: Customization): Customization
    requires c.Valid()
  {
    Customization(seq(COLORS, i requires 0 <= i < COLORS => c.colors[i] % 0x100_0000),
                  seq(PIECES, i requires 0 <= i < PIECES => c.armor[i] % Pow2(CountBits(MAX_ARMOR_INDICES[i]))),
                  c.representation)
  }

  lemma ReadBackArmor(c: Customization, rest: seq<bool>)
    requires c.Valid()
    ensures ReadArmor(WriteArmor(c) + rest) == Some((ReceivedArmor(c), rest))
  {
    hide ReadFields, WriteFields, Pow2, CountBits, Truncated, ReceivedArmor, ArmorWidths;
    ReadBackFields(c.Fields(), ArmorWidths(), rest);
    TruncatedArmor(c);
  }

  lemma TruncatedArmor(c: Customization)
    requires c.Valid()
    ensures var f := Truncated(c.Fields(), ArmorWidths());
            Customization(f[..COLORS], f[COLORS..COLORS + PIECES], f[COLORS + PIECES]) == ReceivedArmor(c)
  {
    hide Pow2, CountBits;
    ColorWidth();
    SmallMod(c.representation, Pow2(32));
    var v, w := c.Fields(), ArmorWidths();
    var f := Truncated(v, w);
    forall i | 0 <= i < COLORS ensures f[i] == c.colors[i] % 0x100_0000 {
      assert v[i] == c.colors[i] && w[i] == 24;
    }
    forall i | 0 <= i < PIECES ensures f[COLORS + i] == c.armor[i] % Pow2(CountBits(MAX_ARMOR_INDICES[i])) {
      assert v[COLORS + i] == c.armor[i] && w[COLORS + i] == CountBits(MAX_ARMOR_INDICES[i]);
    }
    assert f[..COLORS] == ReceivedArmor(c).colors;
    assert f[COLORS..COLORS + PIECES] == ReceivedArmor(c).armor;
  }

  lemma ColorWidth()
    ensures Pow2(24) == 0x100_0000 && Pow2(32) == 0x1_0000_0000
  {
    Pow2Of8();
    hide Pow2;
    Pow2Sum(8, 8);
    assert Pow2(16) == 65536;
    Pow2Sum(16, 8);
    Pow2Sum(16, 16);
  }

  /** Armour arrives as it was sent if and only if every colour is below 2^24 and every piece fits in the bits of
      its largest index. */
  lemma ArmorKeptIff(c: Customization)
    requires c.Valid()
    ensures ReceivedArmor(c) == c <==>
            (forall i :: 0 <= i < COLORS ==> c.colors[i] < 0x100_0000) &&
            (forall i :: 0 <= i < PIECES ==> c.armor[i] < Pow2(CountBits(MAX_ARMOR_INDICES[i])))
  {
    hide Pow2, CountBits;
    var r := ReceivedArmor(c);
    if r == c {
      forall i | 0 <= i < COLORS ensures c.colors[i] < 0x100_0000 {
        assert r.colors[i] == c.colors[i] % 0x100_0000;
      }
      forall i | 0 <= i < PIECES ensures c.armor[i] < Pow2(CountBits(MAX_ARMOR_INDICES[i])) {
        assert r.armor[i] == c.armor[i] % Pow2(CountBits(MAX_ARMOR_INDICES[i]));
      }
    }
    if (forall i :: 0 <= i < COLORS ==> c.colors[i] < 0x100_0000) &&
       (forall i :: 0 <= i < PIECES ==> c.armor[i] < Pow2(CountBits(MAX_ARMOR_INDICES[i]))) {
      forall i | 0 <= i < PIECES ensures r.armor[i] == c.armor[i] {
        SmallMod(c.armor[i], Pow2(CountBits(MAX_ARMOR_INDICES[i])));
      }
      assert r.colors == c.colors;
      assert r.armor == c.armor;
    }
  }

  method SerializeArmor(stream: BitStream, c: Customization)
    requires c.Valid()
    modifies stream`bits
    ensures stream.bits == old(stream.bits) + WriteArmor(c)
  {
    hide ToBits, CountBits, WriteFields;
    ghost var f, w := c.Fields(), ArmorWidths();
    for i := 0 to COLORS
      invariant stream.bits + WriteFields(f[i..], w[i..]) == old(stream.bits) + WriteFields(f, w)
    {
      StepFields(f, w, i, stream.bits);
      stream.WriteUnsigned(c.colors[i], 24);
    }
    for i := 0 to PIECES
      invariant stream.bits + WriteFields(f[COLORS + i..], w[COLORS + i..]) == old(stream.bits) + WriteFields(f, w)
    {
      StepFields(f, w, COLORS + i, stream.bits);
      stream.WriteRanged(c.armor[i], MAX_ARMOR_INDICES[i]);
    }
    StepFields(f, w, COLORS + PIECES, stream.bits);
    NoFields(f, w, stream.bits + ToBits(c.representation, 32));
    stream.WriteUnsigned(c.representation, 32);
  }

  lemma StepFields(f: seq<nat>, w: seq<nat>, i: nat, bits: seq<bool>)
    requires |f| == |w| && i < |f|
    ensures bits + WriteFields(f[i..], w[i..]) == (bits + ToBits(f[i], w[i])) + WriteFields(f[i + 1..], w[i + 1..])
  {
    hide ToBits;
    assert f[i..][1..] == f[i + 1..] && w[i..][1..] == w[i + 1..];
  }

  lemma NoFields(f: seq<nat>, w: seq<nat>, bits: seq<bool>)
    requires |f| == |w|
    ensures bits + WriteFields(f[|f|..], w[|f|..]) == bits
  {
  }

  // ----- As slices of the shared buffer -----

  function WordAt(data: seq<byte>, i: nat): (n: nat)
    requires i + 4 <= |data|
  {
    WordFromBytes(data[i..i + 4])
  }

  function FromMemory(data: seq<byte>): Customization
    requires |data| == CUSTOMIZATION_SIZE
  {
    Customization(seq(COLORS, i requires 0 <= i < COLORS => WordAt(data, 4 * i)),
                  seq(PIECES, i requires 0 <= i < PIECES => data[20 + i] as int),
                  WordAt(data, 28))
  }

  /** The struct as the reader leaves it: it clears the memory first, so the padding is zero. */
  function ToMemory(c: Customization): (data: seq<byte>)
    requires |c.colors| == COLORS && |c.armor| == PIECES
    ensures |data| == CUSTOMIZATION_SIZE
  {
    Word(c.colors[0]) + Word(c.colors[1]) + Word(c.colors[2]) + Word(c.colors[3]) + Word(c.colors[4]) +
    seq(PIECES, i requires 0 <= i < PIECES => c.armor[i] % 256) + [0] + Word(c.representation)
  }

  function Word(n: nat): (bytes: seq<byte>)
    ensures |bytes| == 4
  {
    WordBytes(n % 0x1_0000_0000)
  }

  lemma FromMemoryIsValid(data: seq<byte>)
    requires |data| == CUSTOMIZATION_SIZE
    ensures FromMemory(data).Valid()
  {
    forall i | 0 <= i <= 28 ensures WordAt(data, i) < 0x1_0000_0000 {
    }
    hide WordAt;
  }

  /** Every field lies where the struct has it, and the byte of padding is zero. */
  lemma MemoryLayout(c: Customization)
    requires c.Valid()
    ensures var data := ToMemory(c);
            && (forall i :: 0 <= i < 5 ==> c.colors[i] < 0x1_0000_0000 && data[4 * i..4 * i + 4] == WordBytes(c.colors[i]))
            && (forall i :: 0 <= i < 7 ==> data[20 + i] == c.armor[i])
            && data[27] == 0 && data[28..32] == WordBytes(c.representation)
  {
    hide WordBytes;
    forall i | 0 <= i < 5 ensures c.colors[i] % 0x1_0000_0000 == c.colors[i] < 0x1_0000_0000 {
      assert c.colors[i] in c.colors;
      SmallMod(c.colors[i], 0x1_0000_0000);
    }
    forall i | 0 <= i < 7 ensures c.armor[i] % 256 == c.armor[i] {
      assert c.armor[i] in c.armor;
    }
    SmallMod(c.representation, 0x1_0000_0000);
  }

  /** So the struct is read from memory as it was written there. */
  lemma MemoryReadsBack(c: Customization)
    requires c.Valid()
    ensures FromMemory(ToMemory(c)) == c
  {
    MemoryLayout(c);
    var data := ToMemory(c);
    hide ToMemory, WordBytes, WordFromBytes;
    forall i | 0 <= i < 5 ensures WordAt(data, 4 * i) == c.colors[i] {
      assert c.colors[i] in c.colors;
      WordReadsBack(c.colors[i]);
    }
    WordReadsBack(c.representation);
    var read := FromMemory(data);
    assert read.colors == c.colors;
    assert read.armor == c.armor;
  }

  function ArmorReceived(data: seq<byte>): seq<byte> {
    if |data| != CUSTOMIZATION_SIZE then data
    else FromMemoryIsValid(data); ToMemory(ReceivedArmor(FromMemory(data)))
  }

  function ArmorWrite(data: seq<byte>): seq<bool> {
    if |data| != CUSTOMIZATION_SIZE then [] else FromMemoryIsValid(data); WriteArmor(FromMemory(data))
  }

  function ArmorRead(s: seq<bool>): Option<(seq<byte>, seq<bool>)> {
    var (c, rest) :- ReadArmor(s);
    Some((ToMemory(c), rest))
  }

  function ArmorExtension(build: int -> Customization): Extension {
    Extension(CUSTOMIZATION_SIZE, player => if |build(player).colors| == COLORS && |build(player).armor| == PIECES
                                            then ToMemory(build(player)) else Zeros(CUSTOMIZATION_SIZE),
              ArmorWrite, ArmorRead, ArmorReceived)
  }

  lemma ArmorIsSound(build: int -> Customization)
    ensures Sound(ArmorExtension(build))
  {
    hide WriteArmor, ReadArmor, ToMemory, FromMemory, ReceivedArmor, Pow2;
    var e := ArmorExtension(build);
    forall player ensures |e.build(player)| == e.size {
      assert e.build(player) == if |build(player).colors| == COLORS && |build(player).armor| == PIECES
                                then ToMemory(build(player)) else Zeros(CUSTOMIZATION_SIZE);
    }
    forall s ensures e.read(s).Some? ==> |e.read(s).value.0| == e.size {
      assert e.read(s) == ArmorRead(s);
    }
    forall data | |data| == e.size ensures |e.received(data)| == e.size {
      assert e.received(data) == ArmorReceived(data);
    }
    forall data, rest | |data| == e.size
      ensures e.read(e.write(data) + rest) == Some((e.received(data), rest))
    {
      FromMemoryIsValid(data);
      ReadBackArmor(FromMemory(data), rest);
      assert e.read(e.write(data) + rest) == ArmorRead(ArmorWrite(data) + rest);
    }
  }

  function UidOf(data: seq<byte>): nat
    requires |data| == 8
  {
    WordAt(data, 0) + 0x1_0000_0000 * WordAt(data, 4)
  }

  function UidMemory(uid: nat): (data: seq<byte>)
    ensures |data| == 8
  {
    Word(uid) + Word(uid / 0x1_0000_0000)
  }

  function UidWrite(data: seq<byte>): seq<bool> {
    if |data| != 8 then [] else ToBits(UidOf(data), 64)
  }

  function UidRead(s: seq<bool>): Option<(seq<byte>, seq<bool>)> {
    var (uid, rest) :- ReadUnsigned(s, 64);
    Some((UidMemory(uid), rest))
  }

  function UidExtension(uid: nat): Extension {
    Extension(8, _ => UidMemory(uid), UidWrite, UidRead, data => data)
  }

  lemma WordBytesOfWord(bytes: seq<byte>)
    requires |bytes| == 4
    ensures WordFromBytes(bytes) < 0x1_0000_0000 && WordBytes(WordFromBytes(bytes)) == bytes
  {
    var b0: nat, b1: nat, b2: nat, b3: nat := bytes[0], bytes[1], bytes[2], bytes[3];
    var n := b0 + 256 * (b1 + 256 * (b2 + 256 * b3));
    assert WordFromBytes(bytes) == n;
    assert n / 256 == b1 + 256 * (b2 + 256 * b3) && n % 256 == b0;
    assert n / 65536 == n / 256 / 256 && n / 16777216 == n / 256 / 256 / 256;
    assert n / 256 / 256 == b2 + 256 * b3 && n / 256 % 256 == b1;
    assert n / 256 / 256 / 256 == b3 && n / 256 / 256 % 256 == b2;
  }

  lemma UidReadsBack(data: seq<byte>)
    requires |data| == 8
    ensures UidOf(data) < 0x1_0000_0000_0000_0000 && UidMemory(UidOf(data)) == data
  {
    WordBytesOfWord(data[0..4]);
    WordBytesOfWord(data[4..8]);
    hide WordBytes, WordFromBytes;
    SplitWord(WordAt(data, 0), WordAt(data, 4));
    assert data == data[0..4] + data[4..8];
  }

  lemma SplitWord(lo: nat, hi: nat)
    requires lo < 0x1_0000_0000 && hi < 0x1_0000_0000
    ensures var n := lo + 0x1_0000_0000 * hi;
            n < 0x1_0000_0000_0000_0000 && n % 0x1_0000_0000 == lo && n / 0x1_0000_0000 % 0x1_0000_0000 == hi
  {
  }

  lemma UidIsSound(uid: nat)
    ensures Sound(UidExtension(uid))
  {
    hide UidOf, UidMemory, ToBits, ReadUnsigned, Pow2;
    var e := UidExtension(uid);
    forall data, rest | |data| == e.size
      ensures e.read(e.write(data) + rest) == Some((e.received(data), rest))
    {
      UidReadsBack(data);
      ReadBackUnsigned(UidOf(data), 64, rest);
      LongWidth();
      SmallMod(UidOf(data), Pow2(64));
    }
  }

  lemma LongWidth()
    ensures Pow2(64) == 0x1_0000_0000_0000_0000
  {
    ColorWidth();
    hide Pow2;
    Pow2Sum(32, 32);
  }

  /** The list as the program registers it: both extensions come back from their running offsets. */
  lemma RegisteredExtensionsReadBack(build: int -> Customization, uid: nat, data: seq<byte>, rest: seq<bool>)
    requires |data| == CUSTOMIZATION_SIZE + 8
    ensures var list := [ArmorExtension(build), UidExtension(uid)];
            && TotalSize(list) == |data|
            && Read(list, Write(list, data) + rest)
               == Some((ArmorReceived(data[..CUSTOMIZATION_SIZE]) + data[CUSTOMIZATION_SIZE..], rest))
  {
    var armor, id := ArmorExtension(build), UidExtension(uid);
    var list := [armor, id];
    ArmorIsSound(build);
    UidIsSound(uid);
    hide Sound, Write, Read, ArmorReceived;
    assert list[1..] == [id] && list[1..][1..] == [];
    assert TotalSize(list) == armor.size + TotalSize([id]) && TotalSize([id]) == id.size + TotalSize([]);
    ReadBackExtensions(list, data, rest);
    var tail := data[CUSTOMIZATION_SIZE..];
    assert tail[..8] == tail;
    assert Received([id], tail) == tail + Received([], tail[8..]);
    assert tail + [] == tail;
  }
}
