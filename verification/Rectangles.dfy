/** Rectangles and copying them between buffers (ElDorito/Source/Utils/Rectangle.cpp:6-88). */
module Rectangles {
  import opened Integers

  datatype Rect = Rect(x: int, y: int, width: int, height: int) {

    predicate IsEmpty() {
      width == 0 || height == 0
    }

    predicate Intersects(other: Rect) {
      if IsEmpty() || other.IsEmpty() then false
      else x < other.x + other.width && x + width > other.x && y < other.y + other.height && y + height > other.y
    }

    function Intersect(other: Rect): Rect {
      if IsEmpty() || other.IsEmpty() then EMPTY
      else
        var left, top := Max(x, other.x), Max(y, other.y);
        var right, bottom := Min(x + width, other.x + other.width), Min(y + height, other.y + other.height);
        if right <= left || bottom <= top then EMPTY else Rect(left, top, right - left, bottom - top)
    }

    function Translate(dx: int, dy: int): Rect {
      Rect(x + dx, y + dy, width, height)
    }

    function Add(other: Rect): Rect {
      if IsEmpty() then other
      else if other.IsEmpty() then this
      else
        var left, top := Min(x, other.x), Min(y, other.y);
        var right, bottom := Max(x + width, other.x + other.width), Max(y + height, other.y + other.height);
        Rect(left, top, right - left, bottom - top)
    }

    /** The pixels of a rectangle. */
    predicate Contains(px: int, py: int) {
      x <= px < x + width && y <= py < y + height
    }

    predicate Proper() {
      width >= 0 && height >= 0
    }

    /** Every pixel of another rectangle is in this one. */
    ghost predicate Covers(other: Rect) {
      forall px, py :: other.Contains(px, py) ==> Contains(px, py)
    }
  }

  const EMPTY: Rect := Rect(0, 0, 0, 0)

  function Min(a: int, b: int): int {
    if b < a then b else a
  }

  function Max(a: int, b: int): int {
    if a < b then b else a
  }

  // ----- Rectangles as sets of pixels -----

  /** The intersection holds exactly the common pixels, and two rectangles intersect exactly if there are any. */
  lemma IntersectionIsCommon(a: Rect, b: Rect)
    requires a.Proper() && b.Proper()
    ensures a.Intersect(b).Proper()
    ensures forall px, py :: a.Intersect(b).Contains(px, py) <==> a.Contains(px, py) && b.Contains(px, py)
    ensures a.Intersects(b) <==> exists px, py :: a.Contains(px, py) && b.Contains(px, py)
    ensures a.Intersects(b) <==> !a.Intersect(b).IsEmpty()
  {
    if a.Intersects(b) {
      var px, py := Max(a.x, b.x), Max(a.y, b.y);
      assert a.Contains(px, py) && b.Contains(px, py);
    }
  }

  /** The sum is the least rectangle that covers both. */
  lemma SumIsLeast(a: Rect, b: Rect)
    requires a.Proper() && b.Proper()
    ensures a.Add(b).Proper() && a.Add(b).Covers(a) && a.Add(b).Covers(b)
    ensures forall c: Rect :: c.Covers(a) && c.Covers(b) ==> c.Covers(a.Add(b))
  {
    forall c: Rect | c.Covers(a) && c.Covers(b) ensures c.Covers(a.Add(b)) {
      Corners(c, a);
      Corners(c, b);
    }
  }

  lemma Corners(c: Rect, a: Rect)
    requires a.Proper() && c.Covers(a)
    ensures a.IsEmpty() || (c.x <= a.x && a.x + a.width <= c.x + c.width && c.y <= a.y && a.y + a.height <= c.y + c.height)
  {
    if !a.IsEmpty() {
      assert a.Contains(a.x, a.y) && a.Contains(a.x + a.width - 1, a.y + a.height - 1);
    }
  }

  lemma CoversIsTransitive(a: Rect, b: Rect, c: Rect)
    requires a.Covers(b) && b.Covers(c)
    ensures a.Covers(c)
  {
  }

  // ----- Buffers -----

  /** What `memcpy` does. */
  function Overlay(dest: seq<byte>, at: nat, bytes: seq<byte>): (r: seq<byte>)
    requires at + |bytes| <= |dest|
    ensures |r| == |dest|
  {
    dest[..at] + bytes + dest[at + |bytes|..]
  }

  /** A byte of a buffer with rows of `stride` bytes. */
  function ByteAt(buffer: seq<byte>, stride: nat, row: nat, column: nat): byte
    requires column < stride && (row + 1) * stride <= |buffer|
  {
    RowEnds(stride, row);
    buffer[row * stride + column]
  }

  lemma RowEnds(stride: nat, row: nat)
    ensures (row + 1) * stride == row * stride + stride && row * stride >= 0
  {
  }

  lemma Monotonic(a: int, b: int, stride: nat)
    requires a <= b
    ensures a * stride <= b * stride
  {
  }

  /** The byte range of a part of a row holds exactly the columns of that row. */
  lemma RangeIsRow(stride: nat, row: nat, column: nat, other: nat, low: nat, high: nat)
    requires column < stride && low <= high <= stride
    ensures other * stride + low <= row * stride + column < other * stride + high <==> row == other && low <= column < high
  {
    if row < other {
      Monotonic(row + 1, other, stride);
      RowEnds(stride, row);
    } else if other < row {
      Monotonic(other + 1, row, stride);
      RowEnds(stride, other);
    }
  }

  /** A block of bytes: `width` bytes from column `column` of each of `rows` rows from row `row`. */
  datatype Block = Block(row: int, column: int, width: nat, rows: nat)

  /** Where a row of a block starts in memory. */
  function LineAt(b: Block, i: int, stride: nat): int {
    (b.row + i) * stride + b.column
  }

  /** Every row of the block lies in the memory, although it may reach from one row of the buffer into the next. */
  predicate Fits(b: Block, length: nat, stride: nat) {
    b.rows == 0 || (0 <= LineAt(b, 0, stride) && LineAt(b, b.rows - 1, stride) + b.width <= length)
  }

  /** Every row of the block lies in a row of the buffer. */
  predicate InRows(b: Block, length: nat, stride: nat) {
    b.row >= 0 && b.column >= 0 && b.column + b.width <= stride && (b.row + b.rows) * stride <= length
  }

  lemma RowFits(b: Block, i: nat, length: nat, stride: nat)
    requires InRows(b, length, stride) && i < b.rows
    ensures (b.row + i + 1) * stride == (b.row + i) * stride + stride <= length && 0 <= (b.row + i) * stride
  {
    RowEnds(stride, b.row + i);
    Monotonic(b.row + i + 1, b.row + b.rows, stride);
  }

  lemma InRowsFits(b: Block, length: nat, stride: nat)
    requires InRows(b, length, stride)
    ensures Fits(b, length, stride)
  {
    if b.rows > 0 {
      RowFits(b, 0, length, stride);
      RowFits(b, b.rows - 1, length, stride);
    }
  }

  lemma LineStep(b: Block, i: nat, stride: nat)
    ensures LineAt(b, i, stride) == LineAt(b, 0, stride) + i * stride && i * stride >= 0
  {
    NonNegative(i, stride);
  }

  lemma LineFits(b: Block, i: nat, length: nat, stride: nat)
    requires Fits(b, length, stride) && i < b.rows
    ensures LineAt(b, i + 1, stride) == LineAt(b, i, stride) + stride
    ensures 0 <= LineAt(b, i, stride) && LineAt(b, i, stride) + b.width <= length
  {
    LineStep(b, i, stride);
    LineStep(b, i + 1, stride);
    LineStep(b, b.rows - 1, stride);
    Monotonic(i, b.rows - 1, stride);
  }

  lemma NonNegative(a: nat, b: nat)
    ensures a * b >= 0
  {
  }

  function RowOf(buffer: seq<byte>, stride: nat, b: Block, i: nat): (r: seq<byte>)
    requires Fits(b, |buffer|, stride) && i < b.rows
    ensures |r| == b.width
  {
    LineFits(b, i, |buffer|, stride);
    buffer[LineAt(b, i, stride)..LineAt(b, i, stride) + b.width]
  }

  function WithRow(dest: seq<byte>, destStride: nat, to: Block, bytes: seq<byte>, i: nat): (r: seq<byte>)
    requires Fits(to, |dest|, destStride) && i < to.rows && |bytes| == to.width
    ensures |r| == |dest|
  {
    LineFits(to, i, |dest|, destStride);
    Overlay(dest, LineAt(to, i, destStride), bytes)
  }

  /** The destination after the first rows have been copied. */
  function CopyRows(dest: seq<byte>, destStride: nat, to: Block, source: seq<byte>, sourceStride: nat, from: Block, n: nat): (r: seq<byte>)
    requires Fits(to, |dest|, destStride) && Fits(from, |source|, sourceStride)
    requires to.width == from.width && to.rows == from.rows && n <= to.rows
    ensures |r| == |dest|
  {
    if n == 0 then dest
    else
      WithRow(CopyRows(dest, destStride, to, source, sourceStride, from, n - 1), destStride, to,
              RowOf(source, sourceStride, from, n - 1), n - 1)
  }

  /** Whether a byte lies in a block. */
  predicate Inside(b: Block, row: nat, column: nat) {
    b.row <= row < b.row + b.rows && b.column <= column < b.column + b.width
  }

  /** One row. */
  lemma CopiedRow(dest: seq<byte>, destStride: nat, to: Block, source: seq<byte>, sourceStride: nat, from: Block,
                  i: nat, row: nat, column: nat)
    requires InRows(to, |dest|, destStride) && InRows(from, |source|, sourceStride)
    requires to.width == from.width && to.rows == from.rows && i < to.rows
    requires column < destStride && (row + 1) * destStride <= |dest|
    ensures Fits(to, |dest|, destStride) && Fits(from, |source|, sourceStride)
    ensures var inside := row == to.row + i && to.column <= column < to.column + to.width;
            && (inside ==> column - to.column + from.column < sourceStride && (from.row + i + 1) * sourceStride <= |source|)
            && ByteAt(WithRow(dest, destStride, to, RowOf(source, sourceStride, from, i), i), destStride, row, column) ==
               if inside then ByteAt(source, sourceStride, from.row + i, column - to.column + from.column)
               else ByteAt(dest, destStride, row, column)
  {
    InRowsFits(to, |dest|, destStride);
    InRowsFits(from, |source|, sourceStride);
    RowFits(to, i, |dest|, destStride);
    RowFits(from, i, |source|, sourceStride);
    RowEnds(destStride, row);
    RangeIsRow(destStride, row, column, to.row + i, to.column, to.column + to.width);
  }

  /** A byte after copying: in the target block it is the corresponding byte of the source, elsewhere it is untouched. */
  lemma {:induction false} CopiedByte(dest: seq<byte>, destStride: nat, to: Block, source: seq<byte>, sourceStride: nat,
                                      from: Block, n: nat, row: nat, column: nat)
    requires InRows(to, |dest|, destStride) && InRows(from, |source|, sourceStride)
    requires to.width == from.width && to.rows == from.rows && n <= to.rows
    requires column < destStride && (row + 1) * destStride <= |dest|
    ensures Fits(to, |dest|, destStride) && Fits(from, |source|, sourceStride)
    ensures Inside(to.(rows := n), row, column) ==>
              column - to.column + from.column < sourceStride && (row - to.row + from.row + 1) * sourceStride <= |source|
    ensures ByteAt(CopyRows(dest, destStride, to, source, sourceStride, from, n), destStride, row, column) ==
            if Inside(to.(rows := n), row, column)
            then ByteAt(source, sourceStride, row - to.row + from.row, column - to.column + from.column)
            else ByteAt(dest, destStride, row, column)
  {
    InRowsFits(to, |dest|, destStride);
    InRowsFits(from, |source|, sourceStride);
    if n > 0 {
      CopiedByte(dest, destStride, to, source, sourceStride, from, n - 1, row, column);
      hide CopyRows, ByteAt;
      CopiedRow(CopyRows(dest, destStride, to, source, sourceStride, from, n - 1),
                destStride, to, source, sourceStride, from, n - 1, row, column);
    }
  }

  lemma RowFilled(source: seq<byte>, stride: nat, b: Block, i: nat, fill: byte)
    requires Fits(b, |source|, stride) && i < b.rows && forall x <- source :: x == fill
    ensures forall x <- RowOf(source, stride, b, i) :: x == fill
  {
    forall x | x in RowOf(source, stride, b, i) ensures x == fill {
      LineFits(b, i, |source|, stride);
      assert x in source;
    }
  }

  lemma OverlayFilled(dest: seq<byte>, at: nat, bytes: seq<byte>, p: nat, fill: byte)
    requires at + |bytes| <= |dest| && p < |dest| && (forall x <- bytes :: x == fill)
    requires at <= p < at + |bytes| || dest[p] == fill
    ensures Overlay(dest, at, bytes)[p] == fill
  {
    if at <= p < at + |bytes| {
      assert bytes[p - at] in bytes;
    }
  }

  /** Copying from a buffer of equal bytes fills every row of the block, wherever it lies in memory. */
  lemma {:induction false} FilledByte(dest: seq<byte>, destStride: nat, to: Block, source: seq<byte>, sourceStride: nat,
                                      from: Block, n: nat, i: nat, k: nat, fill: byte)
    requires Fits(to, |dest|, destStride) && Fits(from, |source|, sourceStride) && (forall b <- source :: b == fill)
    requires to.width == from.width && to.rows == from.rows && i < n <= to.rows && k < to.width
    ensures 0 <= LineAt(to, i, destStride) + k < |dest|
    ensures CopyRows(dest, destStride, to, source, sourceStride, from, n)[LineAt(to, i, destStride) + k] == fill
  {
    LineFits(to, i, |dest|, destStride);
    LineFits(to, n - 1, |dest|, destStride);
    if i < n - 1 {
      FilledByte(dest, destStride, to, source, sourceStride, from, n - 1, i, k, fill);
    }
    RowFilled(source, sourceStride, from, n - 1, fill);
    var before, row := CopyRows(dest, destStride, to, source, sourceStride, from, n - 1), RowOf(source, sourceStride, from, n - 1);
    assert CopyRows(dest, destStride, to, source, sourceStride, from, n) == WithRow(before, destStride, to, row, n - 1);
    hide CopyRows, RowOf, Fits, LineAt, Overlay;
    OverlayFilled(before, LineAt(to, n - 1, destStride), row, LineAt(to, i, destStride) + k, fill);
  }

  // ----- Copying -----

  /** The size of whole rows in bytes. */
  function Size(rows: nat, width: nat): (n: nat) {
    NonNegative(rows, width);
    rows * width
  }

  /** Rows without a gap lie in one piece. */
  lemma WholeRows(b: Block, n: nat, length: nat)
    requires Fits(b, length, b.width) && 0 < n <= b.rows
    ensures 0 <= LineAt(b, 0, b.width) && LineAt(b, 0, b.width) + Size(n, b.width) <= length
    ensures LineAt(b, n - 1, b.width) == LineAt(b, 0, b.width) + Size(n - 1, b.width)
    ensures Size(n, b.width) == Size(n - 1, b.width) + b.width
  {
    LineStep(b, n - 1, b.width);
    LineFits(b, n - 1, length, b.width);
    RowEnds(b.width, n - 1);
  }

  function WholeBytes(buffer: seq<byte>, b: Block, n: nat): (r: seq<byte>)
    requires Fits(b, |buffer|, b.width) && n <= b.rows
    ensures |r| == Size(n, b.width)
  {
    if n == 0 then []
    else
      WholeRows(b, n, |buffer|);
      buffer[LineAt(b, 0, b.width)..LineAt(b, 0, b.width) + Size(n, b.width)]
  }

  lemma NextWholeBytes(buffer: seq<byte>, b: Block, n: nat)
    requires Fits(b, |buffer|, b.width) && 0 < n <= b.rows
    ensures WholeBytes(buffer, b, n) == WholeBytes(buffer, b, n - 1) + RowOf(buffer, b.width, b, n - 1)
  {
    WholeRows(b, n, |buffer|);
    if n > 1 {
      WholeRows(b, n - 1, |buffer|);
    }
    LineFits(b, n - 1, |buffer|, b.width);
    hide Fits, Size, LineAt;
  }

  function WithWholeRows(dest: seq<byte>, to: Block, source: seq<byte>, from: Block, n: nat): (r: seq<byte>)
    requires Fits(to, |dest|, to.width) && Fits(from, |source|, to.width)
    requires to.width == from.width && to.rows == from.rows && n <= to.rows
    ensures |r| == |dest|
  {
    if n == 0 then dest
    else
      WholeRows(to, n, |dest|);
      Overlay(dest, LineAt(to, 0, to.width), WholeBytes(source, from, n))
  }

  lemma WholeRowsAt(dest: seq<byte>, to: Block, source: seq<byte>, from: Block, n: nat)
    requires Fits(to, |dest|, to.width) && Fits(from, |source|, to.width)
    requires to.width == from.width && to.rows == from.rows && n <= to.rows
    ensures var at, start, count := LineAt(to, 0, to.width), LineAt(from, 0, to.width), Size(n, to.width);
            && (count > 0 ==> 0 <= at && at + count <= |dest| && 0 <= start && start + count <= |source|)
            && WithWholeRows(dest, to, source, from, n) ==
               if count == 0 then dest else Overlay(dest, at, source[start..start + count])
  {
    if n > 0 {
      WholeRows(to, n, |dest|);
      WholeRows(from, n, |source|);
      OverlayTwice(dest, LineAt(to, 0, to.width), [], []);
      assert Size(n, to.width) == 0 ==> WholeBytes(source, from, n) == [];
    }
    hide Fits, Size, LineAt, Overlay;
  }

  /** One more row of the same piece. */
  lemma NextCall(dest: seq<byte>, to: Block, source: seq<byte>, from: Block, n: nat)
    requires Fits(to, |dest|, to.width) && Fits(from, |source|, to.width)
    requires to.width == from.width && to.rows == from.rows && 0 < n <= to.rows
    ensures WithRow(WithWholeRows(dest, to, source, from, n - 1), to.width, to, RowOf(source, to.width, from, n - 1), n - 1) ==
            WithWholeRows(dest, to, source, from, n)
  {
    WholeRows(to, n, |dest|);
    if n > 1 {
      WholeRows(to, n - 1, |dest|);
    }
    NextWholeBytes(source, from, n);
    LineFits(to, n - 1, |dest|, to.width);
    var at, bytes, row := LineAt(to, 0, to.width), WholeBytes(source, from, n - 1), RowOf(source, to.width, from, n - 1);
    hide WholeBytes, RowOf, Fits, Size, LineAt;
    OverlayTwice(dest, at, bytes, row);
    hide Overlay;
  }

  lemma OverlayTwice(dest: seq<byte>, at: nat, a: seq<byte>, b: seq<byte>)
    requires at + |a| + |b| <= |dest|
    ensures Overlay(Overlay(dest, at, a), at + |a|, b) == Overlay(dest, at, a + b)
    ensures Overlay(dest, at, []) == dest
  {
  }

  /** Where whole rows are copied to whole rows, one call does the same as line by line. */
  lemma {:induction false} OneCall(dest: seq<byte>, to: Block, source: seq<byte>, from: Block, n: nat)
    requires Fits(to, |dest|, to.width) && Fits(from, |source|, to.width)
    requires to.width == from.width && to.rows == from.rows && n <= to.rows
    ensures CopyRows(dest, to.width, to, source, to.width, from, n) == WithWholeRows(dest, to, source, from, n)
  {
    if n == 0 {
    } else {
      OneCall(dest, to, source, from, n - 1);
      hide CopyRows, WithWholeRows, RowOf, Fits, WithRow;
      NextCall(dest, to, source, from, n);
    }
  }

  /** A rectangle of elements, as a block of bytes. */
  function BlockAt(x: int, y: int, r: Rect, elementSize: nat): Block
    requires r.Proper()
  {
    NonNegative(r.width, elementSize);
    Block(y, x * elementSize, r.width * elementSize, r.height)
  }

  /** Every byte that is read or written lies in its buffer. */
  predicate Copyable(destLength: nat, destX: int, destY: int, destStride: nat, sourceLength: nat, r: Rect, sourceStride: nat,
                     elementSize: nat)
  {
    && r.Proper() && Fits(BlockAt(destX, destY, r, elementSize), destLength, destStride)
    && Fits(BlockAt(r.x, r.y, r, elementSize), sourceLength, sourceStride)
  }

  /** The destination after copying a rectangle. */
  function Copied(dest: seq<byte>, destX: int, destY: int, destStride: nat, source: seq<byte>, r: Rect, sourceStride: nat,
                  elementSize: nat): (after: seq<byte>)
    requires Copyable(|dest|, destX, destY, destStride, |source|, r, sourceStride, elementSize)
    ensures |after| == |dest|
  {
    CopyRows(dest, destStride, BlockAt(destX, destY, r, elementSize), source, sourceStride,
             BlockAt(r.x, r.y, r, elementSize), r.height)
  }

  method Memcpy(dest: array<byte>, destOffset: int, source: seq<byte>, sourceOffset: int, count: nat)
    requires count > 0 ==> 0 <= destOffset && destOffset + count <= dest.Length
    requires count > 0 ==> 0 <= sourceOffset && sourceOffset + count <= |source|
    modifies dest
    ensures dest[..] == if count == 0 then old(dest[..])
                        else Overlay(old(dest[..]), destOffset, source[sourceOffset..sourceOffset + count])
  {
    forall i | 0 <= i < count {
      dest[destOffset + i] := source[sourceOffset + i];
    }
  }

  /** Copies a rectangle of data, in one call if the strides allow it and line by line otherwise. */
  method Copy(dest: array<byte>, destX: int, destY: int, destStride: nat, source: seq<byte>, sourceRect: Rect,
              sourceStride: nat, elementSize: nat)
    requires Copyable(dest.Length, destX, destY, destStride, |source|, sourceRect, sourceStride, elementSize)
    modifies dest
    ensures dest[..] == Copied(old(dest[..]), destX, destY, destStride, source, sourceRect, sourceStride, elementSize)
  {
    ghost var to, from := BlockAt(destX, destY, sourceRect, elementSize), BlockAt(sourceRect.x, sourceRect.y, sourceRect, elementSize);
    var sourceX, toX, copyStride := sourceRect.x * elementSize, destX * elementSize, sourceRect.width * elementSize;
    assert from.column == sourceX && to.column == toX && from.width == to.width == copyStride;
    hide CopyRows, BlockAt, Fits;
    if destStride == sourceStride && destStride == copyStride {
      CopyInOneCall(dest, destY, toX, source, sourceRect.y, sourceX, copyStride, sourceRect.height, to, from);
    } else {
      CopyLineByLine(dest, destY, toX, destStride, source, sourceRect.y, sourceX, sourceStride, copyStride,
                     sourceRect.height, to, from);
    }
  }

  method CopyInOneCall(dest: array<byte>, destY: int, destX: int, source: seq<byte>, sourceY: int, sourceX: int,
                       copyStride: nat, height: nat, ghost to: Block, ghost from: Block)
    requires to == Block(destY, destX, copyStride, height) && from == Block(sourceY, sourceX, copyStride, height)
    requires Fits(to, dest.Length, copyStride) && Fits(from, |source|, copyStride)
    modifies dest
    ensures dest[..] == CopyRows(old(dest[..]), copyStride, to, source, copyStride, from, height)
  {
    ghost var start := dest[..];
    var sourceOffset := copyStride * sourceY + sourceX;
    var destOffset := copyStride * destY + destX;
    var count := copyStride * height;
    FirstLine(from, copyStride);
    FirstLine(to, copyStride);
    SizeIs(height, copyStride);
    hide CopyRows, Fits, Overlay, Size, LineAt;
    OneCallAt(start, to, source, from);
    Memcpy(dest, destOffset, source, sourceOffset, count);
  }

  lemma SizeIs(rows: nat, width: nat)
    ensures Size(rows, width) == width * rows
  {
  }

  lemma OneCallAt(dest: seq<byte>, to: Block, source: seq<byte>, from: Block)
    requires Fits(to, |dest|, to.width) && Fits(from, |source|, to.width) && to.width == from.width && to.rows == from.rows
    ensures var at, start, count := LineAt(to, 0, to.width), LineAt(from, 0, to.width), Size(to.rows, to.width);
            && (count > 0 ==> 0 <= at && at + count <= |dest| && 0 <= start && start + count <= |source|)
            && CopyRows(dest, to.width, to, source, to.width, from, to.rows) ==
               if count == 0 then dest else Overlay(dest, at, source[start..start + count])
  {
    hide CopyRows, Fits, Overlay, LineAt, WithWholeRows;
    OneCall(dest, to, source, from, to.rows);
    WholeRowsAt(dest, to, source, from, to.rows);
  }

  method CopyLineByLine(dest: array<byte>, destY: int, destX: int, destStride: nat, source: seq<byte>, sourceY: int,
                        sourceX: int, sourceStride: nat, copyStride: nat, height: nat, ghost to: Block, ghost from: Block)
    requires to == Block(destY, destX, copyStride, height) && from == Block(sourceY, sourceX, copyStride, height)
    requires Fits(to, dest.Length, destStride) && Fits(from, |source|, sourceStride)
    modifies dest
    ensures dest[..] == CopyRows(old(dest[..]), destStride, to, source, sourceStride, from, height)
  {
    ghost var start := dest[..];
    var sourceOffset := sourceStride * sourceY + sourceX;
    var destOffset := destStride * destY + destX;
    FirstLine(from, sourceStride);
    FirstLine(to, destStride);
    hide CopyRows, Overlay, Fits, LineAt;
    var i := 0;
    while i < height
      invariant 0 <= i <= height
      invariant sourceOffset == LineAt(from, i, sourceStride) && destOffset == LineAt(to, i, destStride)
      invariant dest[..] == CopyRows(start, destStride, to, source, sourceStride, from, i)
    {
      CopyLine(dest, destStride, source, sourceStride, to, from, i, destOffset, sourceOffset, copyStride, start);
      LineFits(to, i, dest.Length, destStride);
      LineFits(from, i, |source|, sourceStride);
      sourceOffset := sourceOffset + sourceStride;
      destOffset := destOffset + destStride;
      i := i + 1;
    }
  }

  /** One line. */
  method CopyLine(dest: array<byte>, ghost destStride: nat, source: seq<byte>, ghost sourceStride: nat, ghost to: Block,
                  ghost from: Block, ghost i: nat, destOffset: int, sourceOffset: int, count: nat, ghost start: seq<byte>)
    requires Fits(to, |start|, destStride) && Fits(from, |source|, sourceStride)
    requires to.width == from.width == count && to.rows == from.rows && i < to.rows
    requires destOffset == LineAt(to, i, destStride) && sourceOffset == LineAt(from, i, sourceStride)
    requires dest[..] == CopyRows(start, destStride, to, source, sourceStride, from, i)
    modifies dest
    ensures dest[..] == CopyRows(start, destStride, to, source, sourceStride, from, i + 1)
  {
    LineFits(to, i, |start|, destStride);
    LineFits(from, i, |source|, sourceStride);
    OverlayTwice(dest[..], destOffset, [], []);
    assert count == 0 ==> RowOf(source, sourceStride, from, i) == [];
    hide CopyRows, Overlay, Fits, LineAt;
    Memcpy(dest, destOffset, source, sourceOffset, count);
  }

  lemma FirstLine(b: Block, stride: nat)
    ensures LineAt(b, 0, stride) == stride * b.row + b.column
  {
  }

}
