/** The fast path of writing bits: shifting them into the 64-bit window (ElDorito/Source/Blam/BitStream.cpp:27-36,
    ElDorito/Source/Blam/BitStream.hpp:84-106). */
module BitWindow {
  import opened Bits

  /** A `uint64_t`: its 64 bits, most significant first. */
  type Word = w: seq<bool> | |w| == 64 witness seq(64, _ => false)

  function ShiftLeft(w: Word, n: nat): Word
    requires n < 64
  {
    w[n..] + seq(n, _ => false)
  }

  function ShiftRight(w: Word, n: nat): Word
    requires n < 64
  {
    seq(n, _ => false) + w[..64 - n]
  }

  function Or(a: Word, b: Word): Word {
    seq(64, i requires 0 <= i < 64 => a[i] || b[i])
  }

  function And(a: Word, b: Word): Word {
    seq(64, i requires 0 <= i < 64 => a[i] && b[i])
  }

  const ONES: Word := seq(64, _ => true)

  /** The low bits of a number do not depend on how wide the word is. */
  lemma {:induction false} LowBitsOf(v: int, n: nat, width: nat)
    requires n <= width
    ensures ToBits(v, width)[width - n..] == ToBits(v, n)
    decreases n
  {
    if n > 0 {
      LowBitsOf(v / 2, n - 1, width - 1);
      var high, low := ToBits(v / 2, width - 1), [v % 2 == 1];
      assert (high + low)[width - n..] == high[width - n..] + low;
    }
  }

  /** Shifting and masking append: the bits that were there keep their order, and the value's low bits follow. */
  lemma Appends(w: Word, v: Word, used: nat, bits: nat)
    requires 1 <= bits <= 63 && used + bits <= 64
    ensures Or(ShiftLeft(w, bits), And(v, ShiftRight(ONES, 64 - bits)))[64 - used - bits..]
            == w[64 - used..] + v[64 - bits..]
  {
    var r := Or(ShiftLeft(w, bits), And(v, ShiftRight(ONES, 64 - bits)));
    forall i | 0 <= i < 64 ensures r[i] == if i < 64 - bits then w[i + bits] else v[i] {
      assert ShiftRight(ONES, 64 - bits)[i] == (i >= 64 - bits);
    }
  }

  class Window {
    var position: nat
    var windowBitsUsed: nat
    var window: Word

    predicate Valid()
      reads this
    {
      windowBitsUsed <= 64
    }

    /** The bits written since the window was last flushed. */
    function Written(): seq<bool>
      reads this
      requires Valid()
    {
      window[64 - windowBitsUsed..]
    }

    predicate BitsAvailable(bits: nat)
      reads this
      requires Valid()
    {
      bits <= 64 - windowBitsUsed
    }

    /** Appends the low bits of a value to those in the window. The source leaves shifting by 0 or by 64 undefined,
        and what happens when the bits do not fit is engine code. */
    method WriteBits(val: int, bits: nat)
      requires Valid() && BitsAvailable(bits) && 1 <= bits <= 63
      modifies this
      ensures Valid()
      ensures Written() == old(Written()) + ToBits(val, bits)
      ensures windowBitsUsed == old(windowBitsUsed) + bits && position == old(position) + bits
    {
      hide ToBits, ShiftLeft, ShiftRight, Or, And;
      var v: Word := ToBits(val, 64);
      Appends(window, v, windowBitsUsed, bits);
      LowBitsOf(val, bits, 64);
      assert 64 - windowBitsUsed - bits == 64 - (windowBitsUsed + bits);
      position := position + bits;
      windowBitsUsed := windowBitsUsed + bits;
      window := Or(ShiftLeft(window, bits), And(v, ShiftRight(ONES, 64 - bits)));
    }
  }
}
