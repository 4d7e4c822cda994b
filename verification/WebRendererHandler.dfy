/** The compositor's buffers, written in place (ElDorito/Source/Web/WebRendererHandler.cpp:13-22, 110-175, 193-233).

    The object holds two arrays of bytes. `Value` reads them as the screen that the theorems about painting are stated
    for, and each method is proved to change that value as the function of the same paint does: the copies, the flags and
    the recorded dirty rectangle. */
module WebRendererHandler {
  import opened Integers
  import opened Rectangles
  import opened Compositor

  class Handler {
    var textureData: array<byte>
    var textureStride: nat
    ghost var textureHeight: nat
    var dirtyRect: Rect
    var popupData: array<byte>
    var popupRect: Rect
    var popupVisible: bool
    var popupValid: bool

    ghost predicate Valid()
      reads this
    {
      && textureData != popupData && textureStride % 4 == 0 && textureData.Length == textureHeight * textureStride
      && dirtyRect.Proper() && popupRect.Proper() && popupData.Length == popupRect.height * (popupRect.width * 4)
    }

    ghost function Value(): Screen
      reads this, textureData, popupData
      requires Valid()
    {
      Screen(Picture(textureData[..], textureStride / 4, textureHeight), dirtyRect,
             Picture(popupData[..], popupRect.width, popupRect.height), popupRect, popupVisible, popupValid)
    }

    constructor ()
      ensures Valid() && fresh(textureData) && fresh(popupData)
      ensures Value() == Screen(Picture([], 0, 0), EMPTY, Picture([], 0, 0), EMPTY, false, false)
    {
      textureData, popupData := new byte[0], new byte[0];
      textureStride, textureHeight, dirtyRect, popupRect := 0, 0, EMPTY, EMPTY;
      popupVisible, popupValid := false, false;
    }

    /** The size of the screen changes: the texture is cleared. */
    method Resize(width: nat, height: nat) returns (done: bool)
      requires Valid()
      modifies this
      ensures Valid() && done == (width * height * 4 != 0)
      ensures !done ==> Value() == old(Value())
      ensures done ==> fresh(textureData) && |Value().texture.bytes| == height * (width * 4) &&
                       Value() == old(Value()).(texture := Picture(Value().texture.bytes, width, height)) &&
                       forall b <- Value().texture.bytes :: b == 0
    {
      var size := width * height * 4;
      if size == 0 {
        return false;
      }
      textureData := new byte[size](_ => 0);
      textureStride := width * 4;
      textureHeight := height;
      return true;
    }

    method OnPopupShow(show: bool)
      requires Valid()
      modifies this`popupVisible
      ensures Valid() && Value() == old(Value()).(visible := show)
    {
      popupVisible := show;
    }

    method OnPopupSize(r: Rect)
      requires Valid() && r.Proper()
      modifies this
      ensures Valid() && fresh(popupData) && r.width * r.height * 4 >= 0
      ensures Value() == old(Value()).(popupRect := r, valid := false,
                                       popup := Picture(Resized(old(Value()).popup.bytes, r.width * r.height * 4), r.width, r.height))
    {
      popupRect := r;
      var resized := Resized(popupData[..], r.width * r.height * 4);
      popupData := new byte[|resized|](i requires 0 <= i < |resized| => resized[i]);
      popupValid := false;
    }

    /** One dirty rectangle of the page. */
    method CopyToScreen(r: Rect, buffer: seq<byte>, stride: nat, ghost view: Picture)
      requires Valid() && view.bytes == buffer && view.width * 4 == stride && IsView(Value(), view)
      requires Within(r, Value().texture)
      modifies this`dirtyRect, textureData
      ensures Valid() && ScreenOk(old(Value())) && Value() == PaintOne(old(Value()), r, view)
    {
      BlitsInsideIsBlits(Value().texture, r.x, r.y, view, r);
      SumIsLeast(dirtyRect, r);
      hide Copied, Copyable, Fits;
      Copy(textureData, r.x, r.y, textureStride, buffer, r, stride, 4);
      dirtyRect := dirtyRect.Add(r);
    }

    /** One dirty rectangle of the popup. */
    method CopyToPopup(r: Rect, buffer: seq<byte>, stride: nat, ghost image: Picture)
      requires Valid() && image.bytes == buffer && image.width * 4 == stride && IsPopupImage(Value(), image)
      requires Within(r, Value().popup) && Writable(Value(), r)
      modifies this`dirtyRect, this`popupValid, textureData, popupData
      ensures Valid() && ScreenOk(old(Value())) && Value() == PaintPopupOne(old(Value()), r, image)
    {
      ghost var s := Value();
      BlitsInsideIsBlits(s.popup, r.x, r.y, image, r);
      var onScreen := r.Translate(popupRect.x, popupRect.y);
      if popupVisible {
        SumIsLeast(dirtyRect, onScreen);
      }
      hide Copied, Copyable, Fits;
      Copy(popupData, r.x, r.y, stride, buffer, r, stride, 4);
      popupValid := true;
      if popupVisible {
        Copy(textureData, onScreen.x, onScreen.y, textureStride, buffer, r, stride, 4);
        dirtyRect := dirtyRect.Add(onScreen);
      }
    }

    /** The part of the popup that has been painted over. */
    method RedrawPopup(popupDirtyRect: Rect)
      requires Valid()
      requires !popupDirtyRect.IsEmpty() ==>
                 Within(popupDirtyRect, Value().texture) && Within(popupDirtyRect.Translate(-popupRect.x, -popupRect.y), Value().popup)
      modifies textureData
      ensures Valid() && ScreenOk(old(Value())) && Value() == Redraw(old(Value()), popupDirtyRect)
    {
      if !popupDirtyRect.IsEmpty() {
        var popupStride := popupRect.width * 4;
        var source := popupDirtyRect.Translate(-popupRect.x, -popupRect.y);
        BlitsInsideIsBlits(Value().texture, popupDirtyRect.x, popupDirtyRect.y, Value().popup, source);
        hide Copied, Copyable, Fits;
        Copy(textureData, popupDirtyRect.x, popupDirtyRect.y, textureStride, popupData[..], source, popupStride, 4);
      }
    }

    /** The browser has painted some rectangles of the page, or of the popup. */
    method OnPaint(ofPopup: bool, dirtyRects: seq<Rect>, buffer: seq<byte>, width: nat, height: nat)
      requires Valid() && ScreenOk(Value())
      requires var image := Picture(buffer, width, height);
               if ofPopup then IsPopupImage(Value(), image) && AllWithin(dirtyRects, Value().popup) && AllWritable(Value(), dirtyRects)
               else IsView(Value(), image) && AllWithin(dirtyRects, Value().texture)
      modifies this`dirtyRect, this`popupValid, textureData, popupData
      ensures Valid()
      ensures Value() == var s, image := old(Value()), Picture(buffer, width, height);
                         if |s.texture.bytes| == 0 then s
                         else if ofPopup then PaintPopup(s, dirtyRects, image) else PaintView(s, dirtyRects, image)
    {
      if textureData.Length == 0 {
        return;
      }
      if ofPopup {
        PaintPopupRects(dirtyRects, buffer, width * 4, Picture(buffer, width, height));
      } else {
        PaintViewRects(dirtyRects, buffer, width * 4, Picture(buffer, width, height));
      }
    }

    method PaintViewRects(dirtyRects: seq<Rect>, buffer: seq<byte>, stride: nat, ghost view: Picture)
      requires Valid() && ScreenOk(Value()) && IsView(Value(), view) && AllWithin(dirtyRects, Value().texture)
      requires view.bytes == buffer && view.width * 4 == stride
      modifies this`dirtyRect, this`popupValid, textureData, popupData
      ensures Valid() && Value() == PaintView(old(Value()), dirtyRects, view)
    {
      ghost var s := Value();
      hide PaintView, Redraw, PopupDirty, PaintRects, PaintOne;
      var popupDirtyRect := EMPTY;
      var i := 0;
      assert dirtyRects[..0] == [];
      while i < |dirtyRects|
        invariant 0 <= i <= |dirtyRects| && Valid() && AllWithin(dirtyRects[..i], s.texture)
        invariant Value() == PaintRects(s, dirtyRects[..i], view)
        invariant popupDirtyRect == PopupDirty(s, dirtyRects[..i])
      {
        var r := dirtyRects[i];
        NextRect(s, dirtyRects, i, view);
        CopyToScreen(r, buffer, stride, view);
        if popupVisible && popupValid && r.Intersects(popupRect) {
          popupDirtyRect := popupDirtyRect.Add(r.Intersect(popupRect));
        }
        i := i + 1;
      }
      assert dirtyRects[..i] == dirtyRects;
      PopupDirtyIs(s, dirtyRects);
      RedrawPopup(popupDirtyRect);
      PaintViewIs(s, dirtyRects, view);
    }

    static lemma NextRect(s: Screen, rects: seq<Rect>, i: nat, view: Picture)
      requires ScreenOk(s) && IsView(s, view) && i < |rects|
      requires AllWithin(rects[..i], s.texture) && AllWithin(rects[..i + 1], s.texture) && Within(rects[i], s.texture)
      ensures PaintRects(s, rects[..i + 1], view) == PaintOne(PaintRects(s, rects[..i], view), rects[i], view)
      ensures PopupDirty(s, rects[..i + 1]) ==
              var before := PopupDirty(s, rects[..i]);
              if Overlaid(s) && rects[i].Intersects(s.popupRect) then before.Add(rects[i].Intersect(s.popupRect)) else before
    {
      assert rects[..i + 1][..i] == rects[..i];
    }

    static lemma PaintViewIs(s: Screen, rects: seq<Rect>, view: Picture)
      requires ScreenOk(s) && IsView(s, view) && AllWithin(rects, s.texture)
      ensures var t, d := PaintRects(s, rects, view), PopupDirty(s, rects);
              && (!d.IsEmpty() ==> Within(d, t.texture) && Within(d.Translate(-t.popupRect.x, -t.popupRect.y), t.popup))
              && PaintView(s, rects, view) == Redraw(t, d)
    {
      PopupDirtyIs(s, rects);
    }

    method PaintPopupRects(dirtyRects: seq<Rect>, buffer: seq<byte>, stride: nat, ghost image: Picture)
      requires Valid() && ScreenOk(Value()) && IsPopupImage(Value(), image)
      requires AllWithin(dirtyRects, Value().popup) && AllWritable(Value(), dirtyRects)
      requires image.bytes == buffer && image.width * 4 == stride
      modifies this`dirtyRect, this`popupValid, textureData, popupData
      ensures Valid() && Value() == PaintPopup(old(Value()), dirtyRects, image)
    {
      ghost var s := Value();
      hide PaintPopup, PaintPopupOne, ScreenOk, IsPopupImage, Writable;
      var i := 0;
      assert dirtyRects[..0] == [];
      while i < |dirtyRects|
        invariant 0 <= i <= |dirtyRects| && Valid() && AllWithin(dirtyRects[..i], s.popup) && AllWritable(s, dirtyRects[..i])
        invariant Value() == PaintPopup(s, dirtyRects[..i], image)
      {
        PaintNextPopupRect(dirtyRects, i, buffer, stride, image, s);
        i := i + 1;
      }
      assert dirtyRects[..i] == dirtyRects;
    }

    method PaintNextPopupRect(dirtyRects: seq<Rect>, i: nat, buffer: seq<byte>, stride: nat, ghost image: Picture, ghost s: Screen)
      requires Valid() && ScreenOk(s) && IsPopupImage(s, image) && i < |dirtyRects|
      requires AllWithin(dirtyRects[..i], s.popup) && AllWithin(dirtyRects[..i + 1], s.popup) && Within(dirtyRects[i], s.popup)
      requires AllWritable(s, dirtyRects[..i]) && AllWritable(s, dirtyRects[..i + 1]) && Writable(s, dirtyRects[i])
      requires image.bytes == buffer && image.width * 4 == stride && Value() == PaintPopup(s, dirtyRects[..i], image)
      modifies this`dirtyRect, this`popupValid, textureData, popupData
      ensures Valid() && Value() == PaintPopup(s, dirtyRects[..i + 1], image)
    {
      hide PaintPopup, PaintPopupOne, ScreenOk;
      NextPopupRect(s, dirtyRects, i, image);
      CopyToPopup(dirtyRects[i], buffer, stride, image);
    }

    static lemma NextPopupRect(s: Screen, rects: seq<Rect>, i: nat, image: Picture)
      requires ScreenOk(s) && IsPopupImage(s, image) && i < |rects|
      requires AllWithin(rects[..i], s.popup) && AllWithin(rects[..i + 1], s.popup) && Within(rects[i], s.popup)
      requires AllWritable(s, rects[..i]) && AllWritable(s, rects[..i + 1]) && Writable(s, rects[i])
      ensures Writable(PaintPopup(s, rects[..i], image), rects[i])
      ensures PaintPopup(s, rects[..i + 1], image) == PaintPopupOne(PaintPopup(s, rects[..i], image), rects[i], image)
    {
      assert rects[..i + 1][..i] == rects[..i];
    }

  }
}
