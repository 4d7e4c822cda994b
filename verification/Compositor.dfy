/** The off-screen compositor: a popup kept on top of a page while either is repainted in parts
    (ElDorito/Source/Web/WebRendererHandler.cpp:110-175). */
module Compositor {
  import opened Integers
  import opened Rectangles

  datatype Pixel = Pixel(b: byte, g: byte, r: byte, a: byte)

  /** Rows of four bytes for each pixel. */
  datatype Picture = Picture(bytes: seq<byte>, width: nat, height: nat) {

    predicate Sized() {
      |bytes| == height * (width * 4)
    }

    predicate Has(px: int, py: int) {
      0 <= px < width && 0 <= py < height
    }

    function At(px: int, py: int): Pixel
      requires Sized() && Has(px, py)
    {
      Monotonic(py + 1, height, width * 4);
      Pixel(ByteAt(bytes, width * 4, py, px * 4), ByteAt(bytes, width * 4, py, px * 4 + 1),
            ByteAt(bytes, width * 4, py, px * 4 + 2), ByteAt(bytes, width * 4, py, px * 4 + 3))
    }
  }

  /** The four bytes of a pixel lie next to each other: blue, green, red and alpha, row by row. */
  lemma BytesOfPixel(p: Picture, px: nat, py: nat)
    requires p.Sized() && p.Has(px, py)
    ensures var k := py * (p.width * 4) + px * 4;
            0 <= k <= |p.bytes| - 4 && p.At(px, py) == Pixel(p.bytes[k], p.bytes[k + 1], p.bytes[k + 2], p.bytes[k + 3])
  {
    Monotonic(py + 1, p.height, p.width * 4);
    RowEnds(p.width * 4, py);
  }

  predicate Within(r: Rect, p: Picture) {
    r.Proper() && 0 <= r.x && r.x + r.width <= p.width && 0 <= r.y && r.y + r.height <= p.height
  }

  /** Every byte that copying a part of one picture to another reads or writes lies in their memory. */
  predicate Blits(dest: Picture, x: int, y: int, source: Picture, r: Rect) {
    && dest.Sized() && source.Sized()
    && Copyable(|dest.bytes|, x, y, dest.width * 4, |source.bytes|, r, source.width * 4, 4)
  }

  /** The parts lie in their pictures. */
  predicate BlitsInside(dest: Picture, x: int, y: int, source: Picture, r: Rect) {
    dest.Sized() && source.Sized() && Within(Rect(x, y, r.width, r.height), dest) && Within(r, source)
  }

  lemma WithinIsInRows(p: Picture, x: int, y: int, r: Rect)
    requires p.Sized() && Within(Rect(x, y, r.width, r.height), p)
    ensures r.Proper() && InRows(BlockAt(x, y, r, 4), |p.bytes|, p.width * 4)
    ensures Fits(BlockAt(x, y, r, 4), |p.bytes|, p.width * 4)
  {
    Monotonic(y + r.height, p.height, p.width * 4);
    InRowsFits(BlockAt(x, y, r, 4), |p.bytes|, p.width * 4);
  }

  lemma BlitsInsideIsBlits(dest: Picture, x: int, y: int, source: Picture, r: Rect)
    requires BlitsInside(dest, x, y, source, r)
    ensures Blits(dest, x, y, source, r)
  {
    WithinIsInRows(dest, x, y, r);
    WithinIsInRows(source, r.x, r.y, r);
  }

  /** A part of one picture copied to another. */
  function Blit(dest: Picture, x: int, y: int, source: Picture, r: Rect): (after: Picture)
    requires Blits(dest, x, y, source, r)
    ensures after.Sized() && after.width == dest.width && after.height == dest.height
  {
    dest.(bytes := Copied(dest.bytes, x, y, dest.width * 4, source.bytes, r, source.width * 4, 4))
  }

  lemma BlitByte(dest: Picture, x: int, y: int, source: Picture, r: Rect, px: int, py: int, k: nat)
    requires BlitsInside(dest, x, y, source, r) && dest.Has(px, py) && k < 4
    requires (py + 1) * (dest.width * 4) <= |dest.bytes|
    ensures Blits(dest, x, y, source, r)
    ensures var inside := Rect(x, y, r.width, r.height).Contains(px, py);
            && (inside ==> source.Has(px - x + r.x, py - y + r.y) && (py - y + r.y + 1) * (source.width * 4) <= |source.bytes|)
            && ByteAt(Blit(dest, x, y, source, r).bytes, dest.width * 4, py, px * 4 + k) ==
               if inside then ByteAt(source.bytes, source.width * 4, py - y + r.y, (px - x + r.x) * 4 + k)
               else ByteAt(dest.bytes, dest.width * 4, py, px * 4 + k)
  {
    WithinIsInRows(dest, x, y, r);
    WithinIsInRows(source, r.x, r.y, r);
    hide CopyRows, ByteAt, Fits, LineAt;
    CopiedByte(dest.bytes, dest.width * 4, BlockAt(x, y, r, 4), source.bytes, source.width * 4, BlockAt(r.x, r.y, r, 4),
               r.height, py, px * 4 + k);
  }

  /** A pixel after copying. */
  lemma BlitPixel(dest: Picture, x: int, y: int, source: Picture, r: Rect, px: int, py: int)
    requires BlitsInside(dest, x, y, source, r) && dest.Has(px, py)
    ensures Blits(dest, x, y, source, r)
    ensures var inside := Rect(x, y, r.width, r.height).Contains(px, py);
            && (inside ==> source.Has(px - x + r.x, py - y + r.y))
            && Blit(dest, x, y, source, r).At(px, py) ==
               if inside then source.At(px - x + r.x, py - y + r.y) else dest.At(px, py)
  {
    Monotonic(py + 1, dest.height, dest.width * 4);
    BlitByte(dest, x, y, source, r, px, py, 0);
    BlitByte(dest, x, y, source, r, px, py, 1);
    BlitByte(dest, x, y, source, r, px, py, 2);
    BlitByte(dest, x, y, source, r, px, py, 3);
    hide ByteAt, Blit, Blits;
  }

  // ----- The screen -----

  /** `std::vector::resize` of a vector of bytes. */
  function Resized(bytes: seq<byte>, size: nat): (r: seq<byte>)
    ensures |r| == size
  {
    if size <= |bytes| then bytes[..size] else bytes + seq(size - |bytes|, _ => 0)
  }

  /** Bytes stay as far as there is room, and what is new is zero. */
  lemma ResizedKeeps(bytes: seq<byte>, size: nat)
    ensures forall i :: 0 <= i < size ==> Resized(bytes, size)[i] == if i < |bytes| then bytes[i] else 0
  {
  }

  /** What is on the screen, which part of it has changed since it was last uploaded, and the popup. */
  datatype Screen = Screen(texture: Picture, dirty: Rect, popup: Picture, popupRect: Rect, visible: bool, valid: bool)

  predicate ScreenOk(s: Screen) {
    && s.texture.Sized() && s.popup.Sized() && s.dirty.Proper() && s.popupRect.Proper()
    && s.popup.width == s.popupRect.width && s.popup.height == s.popupRect.height
  }

  predicate Overlaid(s: Screen) {
    s.visible && s.valid
  }

  /** The image of the whole page. */
  predicate IsView(s: Screen, view: Picture) {
    view.Sized() && view.width == s.texture.width && view.height == s.texture.height
  }

  predicate AllWithin(rects: seq<Rect>, p: Picture) {
    forall r <- rects :: Within(r, p)
  }

  predicate AnyContains(rects: seq<Rect>, px: int, py: int) {
    exists r <- rects :: r.Contains(px, py)
  }

  /** One dirty rectangle of the page. */
  function PaintOne(s: Screen, r: Rect, view: Picture): (t: Screen)
    requires ScreenOk(s) && IsView(s, view) && Within(r, s.texture)
    ensures ScreenOk(t) && IsView(t, view)
    ensures t == s.(texture := t.texture, dirty := t.dirty)
  {
    BlitsInsideIsBlits(s.texture, r.x, r.y, view, r);
    SumIsLeast(s.dirty, r);
    s.(texture := Blit(s.texture, r.x, r.y, view, r), dirty := s.dirty.Add(r))
  }

  /** The dirty rectangles of the page, one after another. */
  function PaintRects(s: Screen, rects: seq<Rect>, view: Picture): (t: Screen)
    requires ScreenOk(s) && IsView(s, view) && AllWithin(rects, s.texture)
    ensures ScreenOk(t) && IsView(t, view)
    ensures t == s.(texture := t.texture, dirty := t.dirty)
  {
    if rects == [] then s
    else
      var n := |rects| - 1;
      assert forall r <- rects[..n] :: r in rects;
      var t := PaintRects(s, rects[..n], view);
      assert Within(rects[n], s.texture);
      PaintOne(t, rects[n], view)
  }

  /** The part of the popup that they have painted over. */
  function PopupDirty(s: Screen, rects: seq<Rect>): Rect {
    if rects == [] then EMPTY
    else
      var n := |rects| - 1;
      var before := PopupDirty(s, rects[..n]);
      if Overlaid(s) && rects[n].Intersects(s.popupRect) then before.Add(rects[n].Intersect(s.popupRect)) else before
  }

  /** That part is painted again. */
  function Redraw(s: Screen, r: Rect): (t: Screen)
    requires ScreenOk(s)
    requires !r.IsEmpty() ==> Within(r, s.texture) && Within(r.Translate(-s.popupRect.x, -s.popupRect.y), s.popup)
    ensures ScreenOk(t) && t == s.(texture := t.texture)
  {
    if r.IsEmpty() then s
    else
      BlitsInsideIsBlits(s.texture, r.x, r.y, s.popup, r.Translate(-s.popupRect.x, -s.popupRect.y));
      s.(texture := Blit(s.texture, r.x, r.y, s.popup, r.Translate(-s.popupRect.x, -s.popupRect.y)))
  }

  function PaintView(s: Screen, rects: seq<Rect>, view: Picture): (t: Screen)
    requires ScreenOk(s) && IsView(s, view) && AllWithin(rects, s.texture)
    ensures ScreenOk(t) && t == s.(texture := t.texture, dirty := t.dirty)
  {
    PopupDirtyIs(s, rects);
    Redraw(PaintRects(s, rects, view), PopupDirty(s, rects))
  }

  // ----- Where painting happens -----

  function WholeOf(p: Picture): Rect {
    Rect(0, 0, p.width, p.height)
  }

  lemma WithinIsCovered(r: Rect, p: Picture)
    requires r.Proper() && !r.IsEmpty()
    ensures Within(r, p) <==> WholeOf(p).Covers(r)
  {
    if WholeOf(p).Covers(r) {
      Corners(WholeOf(p), r);
    }
  }

  /** Adding the common part of two rectangles: nothing outside, and nothing lost. */
  lemma AddCommon(before: Rect, r: Rect, popup: Rect, whole: Rect)
    requires before.Proper() && r.Proper() && popup.Proper()
    requires popup.Covers(before) && whole.Covers(before) && whole.Covers(r)
    ensures var d := before.Add(r.Intersect(popup));
            d.Proper() && popup.Covers(d) && whole.Covers(d) && d.Covers(before) && d.Covers(r.Intersect(popup))
  {
    IntersectionIsCommon(r, popup);
    var common := r.Intersect(popup);
    assert popup.Covers(common) && whole.Covers(common);
    SumIsLeast(before, common);
  }

  /** The popup's dirty part lies in the popup, and wherever the dirty rectangles lie. */
  lemma {:induction false} PopupDirtyIsInside(s: Screen, rects: seq<Rect>, whole: Rect)
    requires s.popupRect.Proper() && (forall r <- rects :: r.Proper() && whole.Covers(r))
    ensures var d := PopupDirty(s, rects);
            d.Proper() && s.popupRect.Covers(d) && whole.Covers(d) && (!d.IsEmpty() ==> Overlaid(s))
  {
    if rects != [] {
      var n := |rects| - 1;
      assert forall r <- rects[..n] :: r in rects;
      PopupDirtyIsInside(s, rects[..n], whole);
      if Overlaid(s) && rects[n].Intersects(s.popupRect) {
        AddCommon(PopupDirty(s, rects[..n]), rects[n], s.popupRect, whole);
      }
    }
  }

  /** It holds every pixel of the popup that has been painted over. */
  lemma {:induction false} PopupDirtyIsEnough(s: Screen, rects: seq<Rect>, px: int, py: int)
    requires s.popupRect.Proper() && (forall r <- rects :: r.Proper())
    requires Overlaid(s) && AnyContains(rects, px, py) && s.popupRect.Contains(px, py)
    ensures PopupDirty(s, rects).Contains(px, py)
  {
    var n := |rects| - 1;
    assert forall r <- rects[..n] :: r in rects;
    var before, r := PopupDirty(s, rects[..n]), rects[n];
    IntersectionIsCommon(r, s.popupRect);
    ProperDirty(s, rects[..n]);
    if r.Contains(px, py) {
      SumIsLeast(before, r.Intersect(s.popupRect));
    } else {
      assert AnyContains(rects[..n], px, py);
      PopupDirtyIsEnough(s, rects[..n], px, py);
      SumIsLeast(before, r.Intersect(s.popupRect));
    }
  }

  lemma {:induction false} ProperDirty(s: Screen, rects: seq<Rect>)
    requires s.popupRect.Proper() && (forall r <- rects :: r.Proper())
    ensures PopupDirty(s, rects).Proper()
  {
    if rects != [] {
      var n := |rects| - 1;
      assert forall r <- rects[..n] :: r in rects;
      ProperDirty(s, rects[..n]);
      IntersectionIsCommon(rects[n], s.popupRect);
      SumIsLeast(PopupDirty(s, rects[..n]), rects[n].Intersect(s.popupRect));
    }
  }

  lemma PopupDirtyIs(s: Screen, rects: seq<Rect>)
    requires ScreenOk(s) && AllWithin(rects, s.texture)
    ensures var d := PopupDirty(s, rects);
            !d.IsEmpty() ==> Within(d, s.texture) && Within(d.Translate(-s.popupRect.x, -s.popupRect.y), s.popup)
  {
    var d := PopupDirty(s, rects);
    PopupDirtyIsInside(s, rects, WholeOf(s.texture));
    if !d.IsEmpty() {
      WithinIsCovered(d, s.texture);
      Corners(s.popupRect, d);
    }
  }

  lemma {:induction false} PaintedPixel(s: Screen, rects: seq<Rect>, view: Picture, px: int, py: int)
    requires ScreenOk(s) && IsView(s, view) && AllWithin(rects, s.texture) && s.texture.Has(px, py)
    ensures PaintRects(s, rects, view).texture.At(px, py) ==
            if AnyContains(rects, px, py) then view.At(px, py) else s.texture.At(px, py)
    ensures var dirty := PaintRects(s, rects, view).dirty;
            dirty.Covers(s.dirty) && forall r <- rects :: dirty.Covers(r)
  {
    if rects != [] {
      var n := |rects| - 1;
      assert forall r <- rects[..n] :: r in rects;
      assert AnyContains(rects, px, py) <==> AnyContains(rects[..n], px, py) || rects[n].Contains(px, py) by {
        assert rects == rects[..n] + [rects[n]];
      }
      PaintedPixel(s, rects[..n], view, px, py);
      var t := PaintRects(s, rects[..n], view);
      assert Within(rects[n], s.texture);
      PaintedStep(t, rects[n], view, px, py);
      assert PaintRects(s, rects, view) == PaintOne(t, rects[n], view);
      hide PaintRects, PaintOne, AnyContains, ScreenOk;
      forall r | r in rects ensures PaintRects(s, rects, view).dirty.Covers(r) {
        if r != rects[n] {
          assert r in rects[..n];
          CoversIsTransitive(PaintRects(s, rects, view).dirty, t.dirty, r);
        }
      }
      CoversIsTransitive(PaintRects(s, rects, view).dirty, t.dirty, s.dirty);
    }
  }

  lemma PaintedStep(t: Screen, r: Rect, view: Picture, px: int, py: int)
    requires ScreenOk(t) && IsView(t, view) && Within(r, t.texture) && t.texture.Has(px, py)
    ensures PaintOne(t, r, view).texture.Sized()
    ensures PaintOne(t, r, view).texture.At(px, py) == if r.Contains(px, py) then view.At(px, py) else t.texture.At(px, py)
    ensures PaintOne(t, r, view).dirty.Covers(t.dirty) && PaintOne(t, r, view).dirty.Covers(r)
  {
    BlitPixel(t.texture, r.x, r.y, view, r, px, py);
    SumIsLeast(t.dirty, r);
    hide Blit;
  }

  // ----- What is shown -----

  /** The pixel that should be on the screen: the popup's where it is shown and has been painted, else the page's. */
  function Expected(s: Screen, view: Picture, px: int, py: int): Pixel
    requires ScreenOk(s) && IsView(s, view) && s.texture.Has(px, py)
  {
    if Overlaid(s) && s.popupRect.Contains(px, py) then s.popup.At(px - s.popupRect.x, py - s.popupRect.y)
    else view.At(px, py)
  }

  predicate Shown(s: Screen, view: Picture, px: int, py: int)
    requires ScreenOk(s) && IsView(s, view) && s.texture.Has(px, py)
  {
    s.texture.At(px, py) == Expected(s, view, px, py)
  }

  lemma RedrawnPixel(s: Screen, r: Rect, px: int, py: int)
    requires ScreenOk(s) && s.texture.Has(px, py)
    requires r.Proper() && s.popupRect.Covers(r)
    requires !r.IsEmpty() ==> Within(r, s.texture) && Within(r.Translate(-s.popupRect.x, -s.popupRect.y), s.popup)
    ensures Redraw(s, r).texture.At(px, py) ==
            if r.Contains(px, py) then s.popup.At(px - s.popupRect.x, py - s.popupRect.y) else s.texture.At(px, py)
  {
    if !r.IsEmpty() {
      BlitPixel(s.texture, r.x, r.y, s.popup, r.Translate(-s.popupRect.x, -s.popupRect.y), px, py);
    }
    hide Blit;
  }

  /** A paint of the page makes right every pixel in a dirty rectangle, and keeps right every other one where the page
      has not changed; and whatever changes on the screen lies in the recorded dirty rectangle, although the redrawing
      of the popup does not add to it. */
  lemma PaintViewPixel(s: Screen, rects: seq<Rect>, before: Picture, view: Picture, px: int, py: int)
    requires ScreenOk(s) && IsView(s, before) && IsView(s, view) && AllWithin(rects, s.texture) && s.texture.Has(px, py)
    ensures AnyContains(rects, px, py) || (Shown(s, before, px, py) && before.At(px, py) == view.At(px, py)) ==>
              Shown(PaintView(s, rects, view), view, px, py)
    ensures PaintView(s, rects, view).texture.At(px, py) != s.texture.At(px, py) ==>
              PaintView(s, rects, view).dirty.Contains(px, py)
    ensures PaintView(s, rects, view).dirty.Covers(s.dirty)
  {
    var t, d := PaintRects(s, rects, view), PopupDirty(s, rects);
    PaintedPixel(s, rects, view, px, py);
    PopupDirtyIs(s, rects);
    PopupDirtyIsInside(s, rects, t.dirty);
    PopupDirtyIsInside(s, rects, WholeOf(s.texture));
    RedrawnPixel(t, d, px, py);
    if Overlaid(s) && AnyContains(rects, px, py) && s.popupRect.Contains(px, py) {
      PopupDirtyIsEnough(s, rects, px, py);
    }
    assert PaintView(s, rects, view) == Redraw(t, d);
    assert d.Contains(px, py) ==> Overlaid(s) && s.popupRect.Contains(px, py);
    hide PaintRects, PopupDirty, Redraw, PaintView, ScreenOk;
  }

  ghost predicate AllShown(s: Screen, view: Picture)
    requires ScreenOk(s) && IsView(s, view)
  {
    forall px, py :: s.texture.Has(px, py) ==> Shown(s, view, px, py)
  }

  /** If the screen shows the popup over the page, it shows it over the new page after every paint in which the new page
      differs from the old one only in the dirty rectangles. */
  lemma PaintKeepsComposite(s: Screen, rects: seq<Rect>, before: Picture, view: Picture)
    requires ScreenOk(s) && IsView(s, before) && IsView(s, view) && AllWithin(rects, s.texture)
    requires AllShown(s, before)
    requires forall px, py :: s.texture.Has(px, py) && !AnyContains(rects, px, py) ==> before.At(px, py) == view.At(px, py)
    ensures AllShown(PaintView(s, rects, view), view)
    ensures forall px, py :: s.texture.Has(px, py) && PaintView(s, rects, view).texture.At(px, py) != s.texture.At(px, py) ==>
              PaintView(s, rects, view).dirty.Contains(px, py)
  {
    forall px, py | s.texture.Has(px, py)
      ensures Shown(PaintView(s, rects, view), view, px, py)
      ensures PaintView(s, rects, view).texture.At(px, py) != s.texture.At(px, py) ==>
                PaintView(s, rects, view).dirty.Contains(px, py)
    {
      PaintViewPixel(s, rects, before, view, px, py);
    }
  }

  /** A paint of the whole page makes the screen right whatever it showed before: after the popup has been hidden, say. */
  lemma FullPaintRestores(s: Screen, rects: seq<Rect>, view: Picture)
    requires ScreenOk(s) && IsView(s, view) && AllWithin(rects, s.texture)
    requires forall px, py :: s.texture.Has(px, py) ==> AnyContains(rects, px, py)
    ensures AllShown(PaintView(s, rects, view), view)
  {
    forall px, py | s.texture.Has(px, py) ensures Shown(PaintView(s, rects, view), view, px, py) {
      PaintViewPixel(s, rects, view, view, px, py);
    }
  }

  // ----- Painting the popup -----

  predicate IsPopupImage(s: Screen, image: Picture) {
    image.Sized() && image.width == s.popupRect.width && image.height == s.popupRect.height
  }

  /** Where the popup is shown, its pixels are written to the texture's memory, even where they do not lie on the page. */
  predicate Writable(s: Screen, r: Rect) {
    r.Proper() && (s.visible ==> Fits(BlockAt(r.x + s.popupRect.x, r.y + s.popupRect.y, r, 4), |s.texture.bytes|, s.texture.width * 4))
  }

  /** One dirty rectangle of the popup, kept for later and put on the screen at once if the popup is shown. */
  function PaintPopupOne(s: Screen, r: Rect, image: Picture): (t: Screen)
    requires ScreenOk(s) && IsPopupImage(s, image) && Within(r, s.popup) && Writable(s, r)
    ensures ScreenOk(t) && t == s.(texture := t.texture, dirty := t.dirty, popup := t.popup, valid := true)
    ensures t.texture.width == s.texture.width && t.texture.height == s.texture.height
    ensures t.popup.width == s.popup.width && t.popup.height == s.popup.height
  {
    PutOnScreen(KeepPopup(s, r, image), r, image)
  }

  function KeepPopup(s: Screen, r: Rect, image: Picture): (t: Screen)
    requires ScreenOk(s) && IsPopupImage(s, image) && Within(r, s.popup)
    ensures ScreenOk(t) && t == s.(popup := t.popup, valid := true)
    ensures t.popup.width == s.popup.width && t.popup.height == s.popup.height
  {
    BlitsInsideIsBlits(s.popup, r.x, r.y, image, r);
    s.(popup := Blit(s.popup, r.x, r.y, image, r), valid := true)
  }

  function PutOnScreen(s: Screen, r: Rect, image: Picture): (t: Screen)
    requires ScreenOk(s) && IsPopupImage(s, image) && Within(r, s.popup) && Writable(s, r)
    ensures ScreenOk(t) && t == s.(texture := t.texture, dirty := t.dirty)
    ensures t.texture.width == s.texture.width && t.texture.height == s.texture.height
  {
    if !s.visible then s
    else
      var onScreen := r.Translate(s.popupRect.x, s.popupRect.y);
      SumIsLeast(s.dirty, onScreen);
      WithinIsInRows(image, r.x, r.y, r);
      s.(texture := Blit(s.texture, onScreen.x, onScreen.y, image, r), dirty := s.dirty.Add(onScreen))
  }

  predicate AllWritable(s: Screen, rects: seq<Rect>) {
    forall r <- rects :: Writable(s, r)
  }

  function PaintPopup(s: Screen, rects: seq<Rect>, image: Picture): (t: Screen)
    requires ScreenOk(s) && IsPopupImage(s, image) && AllWithin(rects, s.popup) && AllWritable(s, rects)
    ensures ScreenOk(t) && t.visible == s.visible && t.popupRect == s.popupRect && t.valid == (s.valid || rects != [])
    ensures t.texture.width == s.texture.width && t.texture.height == s.texture.height
    ensures t.popup.width == s.popup.width && t.popup.height == s.popup.height
  {
    if rects == [] then s
    else
      var n := |rects| - 1;
      assert forall r <- rects[..n] :: r in rects;
      assert Within(rects[n], s.popup) && Writable(s, rects[n]);
      PaintPopupOne(PaintPopup(s, rects[..n], image), rects[n], image)
  }

  /** Where the popup is shown, the part of it lies on the page. */
  predicate OnPage(s: Screen, r: Rect) {
    s.visible ==> Within(r.Translate(s.popupRect.x, s.popupRect.y), s.texture)
  }

  predicate AllOnPage(s: Screen, rects: seq<Rect>) {
    forall r <- rects :: OnPage(s, r)
  }

  lemma OnPageIsWritable(s: Screen, r: Rect)
    requires ScreenOk(s) && Within(r, s.popup) && OnPage(s, r)
    ensures Writable(s, r)
  {
    if s.visible {
      WithinIsInRows(s.texture, r.x + s.popupRect.x, r.y + s.popupRect.y, r);
    }
  }

  lemma KeptPixel(s: Screen, r: Rect, image: Picture, x: int, y: int)
    requires ScreenOk(s) && IsPopupImage(s, image) && Within(r, s.popup) && s.popup.Has(x, y)
    ensures KeepPopup(s, r, image).popup.At(x, y) == if r.Contains(x, y) then image.At(x, y) else s.popup.At(x, y)
  {
    BlitPixel(s.popup, r.x, r.y, image, r, x, y);
    hide Blit, Blits;
  }

  lemma ScreenPixel(s: Screen, r: Rect, image: Picture, px: int, py: int)
    requires ScreenOk(s) && IsPopupImage(s, image) && Within(r, s.popup) && OnPage(s, r) && s.texture.Has(px, py)
    ensures Writable(s, r)
    ensures var t, inside := PutOnScreen(s, r, image), r.Contains(px - s.popupRect.x, py - s.popupRect.y);
            && t.texture.At(px, py) == (if s.visible && inside then image.At(px - s.popupRect.x, py - s.popupRect.y)
                                        else s.texture.At(px, py))
            && (s.visible && inside ==> t.dirty.Contains(px, py)) && t.dirty.Covers(s.dirty)
  {
    if s.visible {
      var onScreen := r.Translate(s.popupRect.x, s.popupRect.y);
      BlitPixel(s.texture, onScreen.x, onScreen.y, image, r, px, py);
      SumIsLeast(s.dirty, onScreen);
      assert onScreen.Contains(px, py) <==> r.Contains(px - s.popupRect.x, py - s.popupRect.y);
    }
    hide Blit, Blits;
  }

  predicate KeepsShown(s: Screen, px: int, py: int) {
    s.valid || !s.visible || !s.popupRect.Contains(px, py)
  }

  /** One dirty rectangle: its pixels come from the image, in the popup and, if that is shown, on the screen. */
  lemma PopupStepShows(s: Screen, r: Rect, image: Picture, view: Picture, px: int, py: int)
    requires ScreenOk(s) && IsPopupImage(s, image) && Within(r, s.popup) && OnPage(s, r)
    requires IsView(s, view) && s.texture.Has(px, py)
    ensures Writable(s, r)
    ensures var t := PaintPopupOne(s, r, image);
            && ((s.visible && r.Contains(px - s.popupRect.x, py - s.popupRect.y)) || (Shown(s, view, px, py) && KeepsShown(s, px, py))
                ==> Shown(t, view, px, py))
            && (t.texture.At(px, py) != s.texture.At(px, py) ==> t.dirty.Contains(px, py)) && t.dirty.Covers(s.dirty)
  {
    var kept := KeepPopup(s, r, image);
    OnPageIsWritable(s, r);
    ScreenPixel(kept, r, image, px, py);
    if s.popupRect.Contains(px, py) {
      KeptPixel(s, r, image, px - s.popupRect.x, py - s.popupRect.y);
    }
    assert PaintPopupOne(s, r, image) == PutOnScreen(kept, r, image);
    assert r.Contains(px - s.popupRect.x, py - s.popupRect.y) ==> s.popupRect.Contains(px, py);
    hide PaintPopupOne, PutOnScreen, KeepPopup, Writable;
  }

  lemma AllOnPageIsWritable(s: Screen, rects: seq<Rect>)
    requires ScreenOk(s) && AllWithin(rects, s.popup) && AllOnPage(s, rects)
    ensures AllWritable(s, rects)
  {
    forall r | r in rects ensures Writable(s, r) {
      assert Within(r, s.popup) && OnPage(s, r);
      OnPageIsWritable(s, r);
    }
  }

  /** A paint of the popup makes right every pixel of a shown popup in a dirty rectangle, and keeps right every other one
      unless the popup has not been painted before; and whatever changes lies in the recorded dirty rectangle. */
  lemma {:induction false} PaintPopupPixel(s: Screen, rects: seq<Rect>, image: Picture, view: Picture, px: int, py: int)
    requires ScreenOk(s) && IsPopupImage(s, image) && AllWithin(rects, s.popup) && AllOnPage(s, rects)
    requires IsView(s, view) && s.texture.Has(px, py)
    ensures AllWritable(s, rects) && IsView(PaintPopup(s, rects, image), view)
    ensures (s.visible && AnyContains(rects, px - s.popupRect.x, py - s.popupRect.y)) ||
            (Shown(s, view, px, py) && KeepsShown(s, px, py)) ==>
              Shown(PaintPopup(s, rects, image), view, px, py)
    ensures PaintPopup(s, rects, image).texture.At(px, py) != s.texture.At(px, py) ==>
              PaintPopup(s, rects, image).dirty.Contains(px, py)
    ensures PaintPopup(s, rects, image).dirty.Covers(s.dirty)
  {
    AllOnPageIsWritable(s, rects);
    if rects != [] {
      var n := |rects| - 1;
      assert forall r <- rects[..n] :: r in rects;
      var x, y := px - s.popupRect.x, py - s.popupRect.y;
      assert AnyContains(rects, x, y) <==> AnyContains(rects[..n], x, y) || rects[n].Contains(x, y) by {
        assert rects == rects[..n] + [rects[n]];
      }
      PaintPopupPixel(s, rects[..n], image, view, px, py);
      var t := PaintPopup(s, rects[..n], image);
      assert Within(rects[n], s.popup) && OnPage(s, rects[n]);
      PopupStepShows(t, rects[n], image, view, px, py);
      assert PaintPopup(s, rects, image) == PaintPopupOne(t, rects[n], image);
      assert (s.visible && AnyContains(rects[..n], x, y)) || KeepsShown(s, px, py) ==> KeepsShown(t, px, py);
      hide PaintPopup, PaintPopupOne, AnyContains, ScreenOk, Shown, Writable, OnPage, KeepsShown;
      CoversIsTransitive(PaintPopupOne(t, rects[n], image).dirty, t.dirty, s.dirty);
    }
  }

  // ----- A popup that reaches beyond the page -----

  /** Whatever the image is, painting a part of the popup changes the screen only where that part should be. */
  ghost predicate StaysInPlace(s: Screen, r: Rect)
    requires ScreenOk(s)
  {
    forall image: Picture, px, py ::
      IsPopupImage(s, image) && Within(r, s.popup) && Writable(s, r) && s.texture.Has(px, py)
      && !r.Contains(px - s.popupRect.x, py - s.popupRect.y) ==>
        PaintPopupOne(s, r, image).texture.At(px, py) == s.texture.At(px, py)
  }

  function Filled(s: Screen, fill: byte): (image: Picture)
    requires ScreenOk(s)
    ensures IsPopupImage(s, image) && forall b <- image.bytes :: b == fill
  {
    Picture(seq(|s.popup.bytes|, _ => fill), s.popupRect.width, s.popupRect.height)
  }

  /** The position in the texture, counted in pixels, of a pixel of a row of the popup. */
  function Position(s: Screen, r: Rect, i: nat, k: nat): int {
    (r.y + s.popupRect.y + i) * s.texture.width + r.x + s.popupRect.x + k
  }

  lemma FourTimes(a: int, width: int)
    ensures a * (width * 4) == a * width * 4
  {
  }

  /** A pixel of the page that shares its memory with a pixel of a row of the popup gets the popup's colour. */
  lemma FilledPixel(s: Screen, r: Rect, i: nat, k: nat, px: int, py: int, image: Picture, fill: byte)
    requires ScreenOk(s) && IsPopupImage(s, image) && Within(r, s.popup) && Writable(s, r) && s.visible
    requires (forall b <- image.bytes :: b == fill) && i < r.height && k < r.width && s.texture.Has(px, py)
    requires py * s.texture.width + px == Position(s, r, i, k)
    ensures PutOnScreen(s, r, image).texture.At(px, py).b == fill
  {
    var to, from := BlockAt(r.x + s.popupRect.x, r.y + s.popupRect.y, r, 4), BlockAt(r.x, r.y, r, 4);
    WithinIsInRows(image, r.x, r.y, r);
    FilledByte(s.texture.bytes, s.texture.width * 4, to, image.bytes, image.width * 4, from, r.height, i, k * 4, fill);
    FourTimes(r.y + s.popupRect.y + i, s.texture.width);
    FourTimes(py, s.texture.width);
    Monotonic(py + 1, s.texture.height, s.texture.width * 4);
    assert py * (s.texture.width * 4) + px * 4 == LineAt(to, i, s.texture.width * 4) + k * 4;
    var after := PutOnScreen(s, r, image).texture;
    assert after.bytes == CopyRows(s.texture.bytes, s.texture.width * 4, to, image.bytes, image.width * 4, from, r.height);
    hide CopyRows, Fits, LineAt, PutOnScreen;
    assert after.At(px, py).b == after.bytes[py * (s.texture.width * 4) + px * 4];
  }

  /** If that pixel of the page is not where the popup should be, the popup does not stay in place. */
  lemma Overwritten(s: Screen, r: Rect, i: nat, k: nat, px: int, py: int)
    requires ScreenOk(s) && Within(r, s.popup) && Writable(s, r) && s.visible
    requires i < r.height && k < r.width && s.texture.Has(px, py)
    requires py * s.texture.width + px == Position(s, r, i, k)
    requires !r.Contains(px - s.popupRect.x, py - s.popupRect.y)
    ensures !StaysInPlace(s, r)
  {
    var fill: byte := if s.texture.At(px, py).b == 0 then 1 else 0;
    var image := Filled(s, fill);
    var kept := KeepPopup(s, r, image);
    FilledPixel(kept, r, i, k, px, py, image, fill);
    assert PaintPopupOne(s, r, image) == PutOnScreen(kept, r, image);
    hide KeepPopup, PutOnScreen, PaintPopupOne, Fits;
  }

  /** Where a position in the texture's memory lies on the page. */
  lemma RowOfPosition(at: int, width: nat, height: nat)
    requires 0 <= at < height * width
    ensures width > 0 && 0 <= at / width < height && at / width * width + at % width == at
  {
    if height <= at / width {
      Monotonic(height, at / width, width);
    }
  }

  lemma PositionFits(s: Screen, r: Rect, i: nat, k: nat)
    requires ScreenOk(s) && s.visible && Writable(s, r) && i < r.height && k < r.width
    ensures 0 <= Position(s, r, i, k) < s.texture.height * s.texture.width
  {
    LineFits(BlockAt(r.x + s.popupRect.x, r.y + s.popupRect.y, r, 4), i, |s.texture.bytes|, s.texture.width * 4);
    FourTimes(r.y + s.popupRect.y + i, s.texture.width);
    FourTimes(s.texture.height, s.texture.width);
  }

  /** Beyond the left edge, the first pixel lies above the popup; beyond the right edge, one of the last row below it. */
  lemma BeyondEdge(s: Screen, r: Rect, i: nat, k: nat)
    requires ScreenOk(s) && Within(r, s.popup) && s.visible && Writable(s, r) && i < r.height && k < r.width
    requires var x := r.x + s.popupRect.x; (x < 0 && i == k == 0) || (x + k >= s.texture.width && i == r.height - 1)
    ensures !StaysInPlace(s, r)
  {
    var at, width := Position(s, r, i, k), s.texture.width;
    PositionFits(s, r, i, k);
    RowOfPosition(at, width, s.texture.height);
    var px, py, y := at % width, at / width, r.y + s.popupRect.y;
    if r.Contains(px - s.popupRect.x, py - s.popupRect.y) {
      if i == k == 0 && r.x + s.popupRect.x < 0 {
        Monotonic(y, py, width);
      } else {
        Monotonic(py, y + i, width);
      }
      assert false;
    }
    Overwritten(s, r, i, k, px, py);
  }

  lemma BetweenEdges(s: Screen, r: Rect)
    requires ScreenOk(s) && s.visible && Writable(s, r) && !r.IsEmpty()
    requires 0 <= r.x + s.popupRect.x && r.x + s.popupRect.x + r.width <= s.texture.width
    ensures OnPage(s, r)
  {
    PositionFits(s, r, 0, 0);
    PositionFits(s, r, r.height - 1, r.width - 1);
    var y, width := r.y + s.popupRect.y, s.texture.width;
    if y < 0 {
      Monotonic(y, -1, width);
    }
    if y + r.height > s.texture.height {
      Monotonic(s.texture.height, y + r.height - 1, width);
    }
  }

  /** A popup whose every byte lands in the texture's memory stays in place exactly if it does not reach beyond the left
      or right edge of the page: there its rows run on into the neighbouring rows of the page. */
  lemma StaysInPlaceIff(s: Screen, r: Rect)
    requires ScreenOk(s) && Within(r, s.popup) && !r.IsEmpty() && s.visible && Writable(s, r)
    ensures StaysInPlace(s, r) <==> 0 <= r.x + s.popupRect.x && r.x + s.popupRect.x + r.width <= s.texture.width
  {
    var x, width := r.x + s.popupRect.x, s.texture.width;
    if x < 0 {
      BeyondEdge(s, r, 0, 0);
    } else if x + r.width > width {
      BeyondEdge(s, r, r.height - 1, if x < width then width - x else 0);
    } else {
      BetweenEdges(s, r);
      forall image: Picture, px, py | IsPopupImage(s, image) && s.texture.Has(px, py) && !r.Contains(px - s.popupRect.x, py - s.popupRect.y)
        ensures PaintPopupOne(s, r, image).texture.At(px, py) == s.texture.At(px, py)
      {
        ScreenPixel(KeepPopup(s, r, image), r, image, px, py);
      }
    }
  }

  /** A black page of two by two pixels, with a shown popup of two by one whose second pixel lies beyond the right edge. */
  predicate Overhanging(s: Screen) {
    && s.texture == Picture(s.texture.bytes, 2, 2) && |s.texture.bytes| == 16 && (forall b <- s.texture.bytes :: b == 0)
    && s.popup == Picture(s.popup.bytes, 2, 1) && |s.popup.bytes| == 8
    && s.dirty == EMPTY && s.popupRect == Rect(1, 0, 2, 1) && s.visible
  }

  lemma OverhangingPage()
    ensures Overhanging(Screen(Picture(seq(16, _ => 0), 2, 2), EMPTY, Picture(seq(8, _ => 0), 2, 1), Rect(1, 0, 2, 1), true, false))
  {
  }

  lemma OverhangIsWritable(s: Screen, r: Rect)
    requires Overhanging(s) && r == Rect(0, 0, 2, 1)
    ensures ScreenOk(s) && Within(r, s.popup) && Writable(s, r)
    ensures s.texture.Has(0, 1) && s.texture.At(0, 1).b == 0
  {
    assert LineAt(BlockAt(1, 0, r, 4), 0, 8) == 4;
    assert s.texture.bytes[8] in s.texture.bytes;
  }

  /** Painting a part of the popup changes a pixel that is neither in the popup's place nor in the recorded rectangle. */
  ghost predicate Spoils(s: Screen, r: Rect, image: Picture, px: int, py: int) {
    && ScreenOk(s) && IsPopupImage(s, image) && Within(r, s.popup) && Writable(s, r) && s.texture.Has(px, py)
    && var t := PaintPopupOne(s, r, image);
       t.texture.At(px, py) != s.texture.At(px, py) && !s.popupRect.Contains(px, py) && !t.dirty.Contains(px, py)
  }

  /** Painting it white recolours the first pixel of the second row. */
  lemma OverhangExample(s: Screen, image: Picture)
    requires Overhanging(s) && image.Sized() && image.width == 2 && image.height == 1 && forall b <- image.bytes :: b == 255
    ensures Spoils(s, Rect(0, 0, 2, 1), image, 0, 1)
  {
    var r := Rect(0, 0, 2, 1);
    OverhangIsWritable(s, r);
    KeptIsOverhung(s, r, image);
    hide KeepPopup, PutOnScreen, PaintPopupOne, ByteAt, Fits, Overhanging, ScreenOk, Writable, Within, Overhung, IsPopupImage;
    KeptIsPainted(s, r, image);
    OverhangPainted(KeepPopup(s, r, image), r, image);
  }

  lemma KeptIsOverhung(s: Screen, r: Rect, image: Picture)
    requires Overhanging(s) && image.Sized() && image.width == 2 && image.height == 1 && forall b <- image.bytes :: b == 255
    requires r == Rect(0, 0, 2, 1) && ScreenOk(s) && Within(r, s.popup)
    ensures s.popupRect == Rect(1, 0, 2, 1) && IsPopupImage(s, image) && Overhung(KeepPopup(s, r, image), image)
    ensures Writable(s, r) ==> Writable(KeepPopup(s, r, image), r)
    ensures KeepPopup(s, r, image).texture == s.texture
  {
    hide ByteAt, Fits, Blit;
  }

  predicate Overhung(kept: Screen, image: Picture) {
    && ScreenOk(kept) && IsPopupImage(kept, image) && kept.texture.width == 2 && kept.texture.height == 2
    && (forall b <- image.bytes :: b == 255)
    && kept.visible && kept.dirty == EMPTY && kept.popupRect == Rect(1, 0, 2, 1)
  }

  lemma KeptIsPainted(s: Screen, r: Rect, image: Picture)
    requires ScreenOk(s) && IsPopupImage(s, image) && Within(r, s.popup) && Writable(s, r)
    ensures PaintPopupOne(s, r, image) == PutOnScreen(KeepPopup(s, r, image), r, image)
  {
    hide KeepPopup, PutOnScreen;
  }

  lemma OverhangPainted(kept: Screen, r: Rect, image: Picture)
    requires Overhung(kept, image) && r == Rect(0, 0, 2, 1) && Within(r, kept.popup) && Writable(kept, r)
    ensures PutOnScreen(kept, r, image).texture.At(0, 1).b == 255 && PutOnScreen(kept, r, image).dirty == Rect(1, 0, 2, 1)
  {
    hide Blit, Fits, Blits;
    assert PutOnScreen(kept, r, image).dirty == Rect(1, 0, 2, 1);
    hide PutOnScreen;
    FilledPixel(kept, r, 0, 1, 0, 1, image, 255);
  }
}
