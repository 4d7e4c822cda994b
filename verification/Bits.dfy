/** Numbers as bit sequences, most significant bit first, and the primitive reads and writes of the engine's bit
    stream (ElDorito/Source/Utils/Bits.hpp:8-17, ElDorito/Source/Blam/BitStream.hpp:20-82). */
module Bits {
  import opened Integers
  import opened Text

  function Pow2(n: nat): (p: nat)
    ensures p >= 1
  {
    if n == 0 then 1 else 2 * Pow2(n - 1)
  }

  /** The low `n` bits of a number. */
  function ToBits(v: int, n: nat): (bits: seq<bool>)
    ensures |bits| == n
    decreases n
  {
    if n == 0 then [] else ToBits(v / 2, n - 1) + [v % 2 == 1]
  }

  function FromBits(bits: seq<bool>): nat {
    if bits == [] then 0
    else 2 * FromBits(bits[..|bits| - 1]) + if bits[|bits| - 1] then 1 else 0
  }

  /** Writing `n` bits of a number and reading them keeps it modulo 2^n; negative numbers are two's complement. */
  lemma {:induction false} FromToBits(v: int, n: nat)
    ensures FromBits(ToBits(v, n)) == v % Pow2(n)
    decreases n
  {
    if n > 0 {
      FromToBits(v / 2, n - 1);
      var bits := ToBits(v, n);
      assert bits[..n - 1] == ToBits(v / 2, n - 1);
      ModHalves(v, Pow2(n - 1));
    }
  }

  lemma ModHalves(v: int, p: nat)
    requires p > 0
    ensures v % (2 * p) == 2 * ((v / 2) % p) + v % 2
  {
    var h := v / 2;
    var q, r := h / p, h % p;
    assert v == 2 * (q * p + r) + v % 2;
    assert 2 * (q * p) == q * (2 * p);
    DivisionIsUnique(2 * p, q, 2 * r + v % 2, v / (2 * p), v % (2 * p));
  }

  lemma DivisionIsUnique(d: nat, q: int, r: nat, q': int, r': nat)
    requires q * d + r == q' * d + r' && r < d && r' < d
    ensures r == r'
  {
    if q < q' {
      TimesMonotonic(q + 1, q', d);
    } else if q' < q {
      TimesMonotonic(q' + 1, q, d);
    }
  }

  lemma TimesMonotonic(a: int, b: int, d: nat)
    requires a <= b
    ensures a * d <= b * d
  {
  }

  // ----- CountBits -----

  function CountBits(val: nat): nat {
    if val == 0 then 0 else 1 + CountBits(val / 2)
  }

  /** CountBits is the exact bit length: the number fits in that many bits and in no fewer. */
  lemma {:induction false} CountBitsIsExact(val: nat)
    ensures val < Pow2(CountBits(val))
    ensures val > 0 ==> Pow2(CountBits(val) - 1) <= val
  {
    if val > 0 {
      CountBitsIsExact(val / 2);
    }
  }

  /** Which makes it the least number of bits in which all of 0..val fit. */
  lemma CountBitsIsLeast(val: nat, n: nat)
    ensures val < Pow2(n) <==> CountBits(val) <= n
  {
    CountBitsIsExact(val);
    if CountBits(val) <= n {
      Pow2Monotonic(CountBits(val), n);
    } else {
      Pow2Monotonic(n, CountBits(val) - 1);
    }
  }

  lemma {:induction false} Pow2Monotonic(a: nat, b: nat)
    requires a <= b
    ensures Pow2(a) <= Pow2(b)
  {
    if a < b {
      Pow2Monotonic(a, b - 1);
    }
  }

  /** The loop that shifts until nothing is left. */
  method ComputeCountBits(val: nat) returns (result: nat)
    ensures result == CountBits(val)
  {
    var rest := val;
    result := 0;
    while rest != 0
      invariant result + CountBits(rest) == CountBits(val)
    {
      rest := rest / 2;
      result := result + 1;
    }
  }

  // ----- Reading from the front of a stream -----

  function ReadUnsigned(s: seq<bool>, n: nat): Option<(nat, seq<bool>)> {
    if |s| < n then None else Some((FromBits(s[..n]), s[n..]))
  }

  lemma ReadBackUnsigned(v: int, n: nat, rest: seq<bool>)
    ensures ReadUnsigned(ToBits(v, n) + rest, n) == Some((v % Pow2(n), rest))
  {
    FromToBits(v, n);
    assert (ToBits(v, n) + rest)[..n] == ToBits(v, n) && (ToBits(v, n) + rest)[n..] == rest;
  }

  /** Bytes as a block of bits. */
  function BlockBits(bytes: seq<byte>): (bits: seq<bool>)
    ensures |bits| == 8 * |bytes|
  {
    if bytes == [] then [] else ToBits(bytes[0], 8) + BlockBits(bytes[1..])
  }

  function ReadBlock(s: seq<bool>, count: nat): (r: Option<(seq<byte>, seq<bool>)>)
    ensures r.Some? ==> |r.value.0| == count
  {
    if count == 0 then Some(([], s))
    else
      var (b, s1) :- ReadUnsigned(s, 8);
      var (bytes, s2) :- ReadBlock(s1, count - 1);
      Some(([b % 256] + bytes, s2))
  }

  lemma {:induction false} Pow2Sum(a: nat, b: nat)
    ensures Pow2(a + b) == Pow2(a) * Pow2(b)
  {
    if b > 0 {
      Pow2Sum(a, b - 1);
    }
  }

  lemma Pow2Of8()
    ensures Pow2(8) == 256
  {
  }

  lemma {:induction false} ReadBackBlock(bytes: seq<byte>, rest: seq<bool>)
    ensures ReadBlock(BlockBits(bytes) + rest, |bytes|) == Some((bytes, rest))
  {
    hide ToBits, FromBits, Pow2, ReadUnsigned;
    if bytes == [] {
      assert BlockBits(bytes) + rest == rest;
    } else {
      var b, s1 := bytes[0], BlockBits(bytes[1..]) + rest;
      assert BlockBits(bytes) + rest == ToBits(b, 8) + s1;
      ReadBackUnsigned(b, 8, s1);
      Pow2Of8();
      ReadBackBlock(bytes[1..], rest);
      hide BlockBits;
      assert ReadBlock(ToBits(b, 8) + s1, |bytes|) == Some(([b % 256] + bytes[1..], rest));
      assert [b] + bytes[1..] == bytes;
    }
  }

  /** Every byte of a block is on the wire in its place, most significant bit first. */
  lemma {:induction false} ByteInBlock(bytes: seq<byte>, i: nat)
    requires i < |bytes|
    ensures BlockBits(bytes)[8 * i..8 * i + 8] == ToBits(bytes[i], 8)
  {
    hide ToBits;
    var rest := BlockBits(bytes[1..]);
    assert BlockBits(bytes) == ToBits(bytes[0], 8) + rest;
    if i > 0 {
      ByteInBlock(bytes[1..], i - 1);
      hide BlockBits;
      SliceBehind(ToBits(bytes[0], 8), rest, 8 * (i - 1));
    }
  }

  lemma SliceBehind(a: seq<bool>, b: seq<bool>, k: nat)
    requires k + 8 <= |b|
    ensures (a + b)[|a| + k..|a| + k + 8] == b[k..k + 8]
  {
  }

  // ----- Strings in fixed arrays -----

  /** The bytes of a C string in an array: up to the first NUL, and never the last element. */
  function StringLength(buffer: seq<byte>): (n: nat)
    requires |buffer| > 0
    ensures n < |buffer|
    ensures 0 !in buffer[..n] && (n < |buffer| - 1 ==> buffer[n] == 0)
  {
    if |buffer| == 1 || buffer[0] == 0 then 0 else 1 + StringLength(buffer[1..])
  }

  function Content(buffer: seq<byte>): seq<byte>
    requires |buffer| > 0
  {
    buffer[..StringLength(buffer)]
  }

  function Zeros(n: nat): seq<byte> {
    seq(n, _ => 0)
  }

  /** The same string with nothing but zeros after it. */
  function Padded(content: seq<byte>, size: nat): (buffer: seq<byte>)
    requires |content| <= size
    ensures |buffer| == size
  {
    content + Zeros(size - |content|)
  }

  function WriteString(buffer: seq<byte>): seq<bool>
    requires |buffer| > 0
  {
    ToBits(StringLength(buffer), CountBits(|buffer| - 1)) + BlockBits(Content(buffer))
  }

  /** `None` when the stream is too short; otherwise the string, or no string when the length is out of range, in
      which case only the length is consumed. */
  function ReadString(s: seq<bool>, size: nat): (r: Option<(Option<seq<byte>>, seq<bool>)>)
    requires size > 0
    ensures r.Some? && r.value.0.Some? ==> |r.value.0.value| == size
  {
    var (length, s1) :- ReadUnsigned(s, CountBits(size - 1));
    if length >= size then Some((None, s1))
    else
      var (content, s2) :- ReadBlock(s1, length);
      Some((Some(Padded(content, size)), s2))
  }

  lemma ReadBackString(buffer: seq<byte>, rest: seq<bool>)
    requires |buffer| > 0
    ensures ReadString(WriteString(buffer) + rest, |buffer|) == Some((Some(Padded(Content(buffer), |buffer|)), rest))
  {
    hide ToBits, FromBits, Pow2, ReadUnsigned, ReadBlock, BlockBits, CountBits, StringLength, Content, Padded;
    var n, k := StringLength(buffer), CountBits(|buffer| - 1);
    var block := BlockBits(Content(buffer));
    assert WriteString(buffer) + rest == ToBits(n, k) + (block + rest);
    ReadBackUnsigned(n, k, block + rest);
    LengthFits(buffer);
    ReadBackBlock(Content(buffer), rest);
  }

  /** A length that leaves no room for the NUL is refused, and only the length is consumed; any other one gives a string of that
      length or finds the stream too short. */
  lemma LengthIsChecked(s: seq<bool>, size: nat)
    requires size > 0 && |s| >= CountBits(size - 1)
    ensures var k := CountBits(size - 1); var length := FromBits(s[..k]); var r := ReadString(s, size);
            if length >= size then r == Some((None, s[k..]))
            else if |s| < k + 8 * length then r == None
            else r.Some? && r.value.0.Some? && r.value.1 == s[k + 8 * length..]
                 && forall i :: length <= i < size ==> r.value.0.value[i] == 0
  {
    var k := CountBits(size - 1);
    BlockConsumes(s[k..], FromBits(s[..k]));
    hide FromBits, CountBits, ReadBlock;
  }

  /** A block takes eight bits for each byte off the stream, or there are not as many. */
  lemma {:induction false} BlockConsumes(s: seq<bool>, count: nat)
    ensures ReadBlock(s, count).Some? <==> 8 * count <= |s|
    ensures ReadBlock(s, count).Some? ==> ReadBlock(s, count).value.1 == s[8 * count..]
  {
    hide FromBits;
    if count > 0 && |s| >= 8 {
      BlockConsumes(s[8..], count - 1);
    }
  }

  lemma LengthFits(buffer: seq<byte>)
    requires |buffer| > 0
    ensures StringLength(buffer) % Pow2(CountBits(|buffer| - 1)) == StringLength(buffer) == |Content(buffer)|
  {
    CountBitsIsExact(|buffer| - 1);
    var n, p: nat := StringLength(buffer), Pow2(CountBits(|buffer| - 1));
    assert 0 <= n < p;
    SmallMod(n, p);
  }

  /** Padding does not change which string an array holds. */
  lemma PaddedContent(buffer: seq<byte>)
    requires |buffer| > 0
    ensures Content(Padded(Content(buffer), |buffer|)) == Content(buffer)
  {
    var n, p := StringLength(buffer), Padded(Content(buffer), |buffer|);
    assert p[..n] == buffer[..n];
    StringLengthIs(p, n);
  }

  lemma {:induction false} StringLengthIs(buffer: seq<byte>, n: nat)
    requires n < |buffer| && 0 !in buffer[..n] && (n < |buffer| - 1 ==> buffer[n] == 0)
    ensures StringLength(buffer) == n
  {
    if n > 0 {
      assert buffer[0] in buffer[..n];
      assert buffer[1..][..n - 1] == buffer[..n][1..];
      assert forall b <- buffer[..n][1..] :: b in buffer[..n];
      StringLengthIs(buffer[1..], n - 1);
    }
  }

  // ----- 32-bit words in memory -----

  function LowByte(n: nat): byte {
    n % 256
  }

  /** The four bytes of a word in memory order, least significant first. */
  function WordBytes(b: nat): seq<byte>
    requires b < 0x1_0000_0000
  {
    [LowByte(b), LowByte(b / 256), LowByte(b / 65536), LowByte(b / 16777216)]
  }

  function WordFromBytes(bytes: seq<byte>): nat
    requires |bytes| == 4
  {
    var b0: nat, b1: nat, b2: nat, b3: nat := bytes[0], bytes[1], bytes[2], bytes[3];
    b0 + 256 * b1 + 65536 * b2 + 16777216 * b3
  }

  lemma WordReadsBack(b: nat)
    requires b < 0x1_0000_0000
    ensures WordFromBytes(WordBytes(b)) == b
  {
    assert b == b % 256 + 256 * (b / 256);
    assert b / 256 == b / 256 % 256 + 256 * (b / 65536);
    assert b / 65536 == b / 65536 % 256 + 256 * (b / 16777216);
  }

  lemma WordHasFourBytes(b: nat)
    requires b < 0x1_0000_0000
    ensures |WordBytes(b)| == 4
  {
  }
}
