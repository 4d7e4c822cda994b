/** Runs of the compositor: whatever the browser paints, shows, hides and resizes
    (ElDorito/Source/Web/WebRendererHandler.cpp:110-233). */
module CompositorRuns {
  import opened Integers
  import opened Rectangles
  import opened Compositor

  /** The screen, and the image of the page that it is meant to show. */
  datatype Page = Page(screen: Screen, view: Picture)

  datatype Event =
    | ViewPaint(rects: seq<Rect>, view: Picture)
    | PopupPaint(rects: seq<Rect>, image: Picture)
    | PopupShow(visible: bool)
    | PopupSize(rect: Rect)
    | Resize(view: Picture) // and what the page looks like at that size
    | Upload                // the changed part goes to the graphics card

  predicate PageOk(x: Page) {
    ScreenOk(x.screen) && IsView(x.screen, x.view)
  }

  /** What the browser promises: rectangles lie in what they are painted in, and a shown popup lies on the page. */
  predicate Possible(x: Page, ev: Event)
    requires PageOk(x)
  {
    match ev
    case ViewPaint(rects, view) => IsView(x.screen, view) && AllWithin(rects, x.screen.texture)
    case PopupPaint(rects, image) => IsPopupImage(x.screen, image) && AllWithin(rects, x.screen.popup) && AllOnPage(x.screen, rects)
    case PopupShow(_) => true
    case PopupSize(rect) => rect.Proper()
    case Resize(view) => view.Sized() && view.bytes != []
    case Upload => true
  }

  function Cleared(view: Picture): (p: Picture)
    requires view.Sized()
    ensures p.Sized() && p.width == view.width && p.height == view.height && forall b <- p.bytes :: b == 0
  {
    Picture(seq(|view.bytes|, _ => 0), view.width, view.height)
  }

  function Sized(s: Screen, rect: Rect): (t: Screen)
    requires ScreenOk(s) && rect.Proper()
    ensures ScreenOk(t) && t == s.(popupRect := rect, valid := false, popup := t.popup)
  {
    NonNegative(rect.height, rect.width * 4);
    s.(popupRect := rect, valid := false,
       popup := Picture(Compositor.Resized(s.popup.bytes, rect.height * (rect.width * 4)), rect.width, rect.height))
  }

  /** Nothing is painted while there is no texture. */
  function Next(x: Page, ev: Event): (y: Page)
    requires PageOk(x) && Possible(x, ev)
    ensures PageOk(y)
  {
    var s := x.screen;
    match ev
    case ViewPaint(rects, view) => if s.texture.bytes == [] then x else Page(PaintView(s, rects, view), view)
    case PopupPaint(rects, image) =>
      if s.texture.bytes == [] then x
      else
        AllOnPageIsWritable(s, rects);
        x.(screen := PaintPopup(s, rects, image))
    case PopupShow(visible) => x.(screen := s.(visible := visible))
    case PopupSize(rect) => x.(screen := Sized(s, rect))
    case Resize(view) => Page(s.(texture := Cleared(view)), view)
    case Upload => x.(screen := s.(dirty := EMPTY))
  }

  /** An upload changes nothing that is seen, and what is painted next is recorded from nothing. */
  lemma UploadForgets(x: Page, px: int, py: int)
    requires PageOk(x)
    ensures var y := Next(x, Upload);
            y == x.(screen := x.screen.(dirty := y.screen.dirty)) && !y.screen.dirty.Contains(px, py)
  {
  }

  ghost predicate Composite(x: Page)
    requires PageOk(x)
  {
    AllShown(x.screen, x.view)
  }

  /** Where the popup is, apart from some parts of it, it looks like the page. */
  ghost predicate Alike(x: Page, rects: seq<Rect>)
    requires PageOk(x)
  {
    var s := x.screen;
    forall px, py :: s.texture.Has(px, py) && s.popupRect.Contains(px, py)
                     && !AnyContains(rects, px - s.popupRect.x, py - s.popupRect.y) ==>
      s.popup.At(px - s.popupRect.x, py - s.popupRect.y) == x.view.At(px, py)
  }

  /** What an event must not do to a composite: change the page outside the painted rectangles, except under the popup;
      paint parts of a shown popup that has not been painted before; show or hide a painted popup, or resize a shown one;
      or resize the page to anything but black. It may where the colours do not differ. */
  ghost predicate Harmless(x: Page, ev: Event)
    requires PageOk(x) && Possible(x, ev)
  {
    var s := x.screen;
    match ev
    case ViewPaint(rects, view) =>
      forall px, py :: s.texture.Has(px, py) && !AnyContains(rects, px, py) && !(Overlaid(s) && s.popupRect.Contains(px, py)) ==>
        x.view.At(px, py) == view.At(px, py)
    case PopupPaint(rects, image) => s.visible && !s.valid && rects != [] ==> Alike(x, rects)
    case PopupShow(visible) => visible != s.visible && s.valid ==> Alike(x, [])
    case PopupSize(_) => Overlaid(s) ==> Alike(x, [])
    case Resize(view) =>
      var t := s.(texture := Cleared(view));
      forall px, py :: view.Has(px, py) ==> Expected(t, view, px, py) == Pixel(0, 0, 0, 0)
    case Upload => true
  }

  // ----- One event -----

  lemma NoPixels(p: Picture, px: int, py: int)
    requires p.Sized() && p.bytes == []
    ensures !p.Has(px, py)
  {
    if p.Has(px, py) {
      Monotonic(1, p.height, p.width * 4);
    }
  }

  /** Outside the dirty rectangles and the overlaid popup, painting the page changes nothing. */
  lemma ViewElsewhere(s: Screen, rects: seq<Rect>, view: Picture, px: int, py: int)
    requires ScreenOk(s) && IsView(s, view) && AllWithin(rects, s.texture) && s.texture.Has(px, py)
    requires !AnyContains(rects, px, py) && !(Overlaid(s) && s.popupRect.Contains(px, py))
    ensures PaintView(s, rects, view).texture.At(px, py) == s.texture.At(px, py)
  {
    var t, d := PaintRects(s, rects, view), PopupDirty(s, rects);
    PaintedPixel(s, rects, view, px, py);
    PopupDirtyIs(s, rects);
    PopupDirtyIsInside(s, rects, WholeOf(s.texture));
    RedrawnPixel(t, d, px, py);
    assert PaintView(s, rects, view) == Redraw(t, d);
    hide PaintRects, PopupDirty, Redraw, PaintView, ScreenOk;
  }

  lemma ViewPixelIff(s: Screen, rects: seq<Rect>, before: Picture, view: Picture, px: int, py: int)
    requires ScreenOk(s) && IsView(s, before) && IsView(s, view) && AllWithin(rects, s.texture) && s.texture.Has(px, py)
    requires Shown(s, before, px, py)
    ensures Shown(PaintView(s, rects, view), view, px, py) <==>
            AnyContains(rects, px, py) || (Overlaid(s) && s.popupRect.Contains(px, py)) || before.At(px, py) == view.At(px, py)
  {
    if AnyContains(rects, px, py) {
      PaintViewPixel(s, rects, before, view, px, py);
    } else if Overlaid(s) && s.popupRect.Contains(px, py) {
      PaintViewPixel(s, rects, view, view, px, py);
    } else {
      ViewElsewhere(s, rects, view, px, py);
    }
    hide PaintView, AnyContains;
  }

  lemma ViewIff(x: Page, ev: Event)
    requires PageOk(x) && Possible(x, ev) && ev.ViewPaint? && Composite(x)
    ensures Composite(Next(x, ev)) <==> Harmless(x, ev)
  {
    var s := x.screen;
    forall px, py | s.texture.Has(px, py)
      ensures Shown(Next(x, ev).screen, Next(x, ev).view, px, py) <==>
              AnyContains(ev.rects, px, py) || (Overlaid(s) && s.popupRect.Contains(px, py)) || x.view.At(px, py) == ev.view.At(px, py)
    {
      if s.texture.bytes == [] {
        NoPixels(s.texture, px, py);
      } else {
        ViewPixelIff(s, ev.rects, x.view, ev.view, px, py);
      }
    }
    hide PaintView, AnyContains, Shown, ScreenOk;
  }

  lemma PartElsewhere(s: Screen, r: Rect, image: Picture, px: int, py: int)
    requires ScreenOk(s) && IsPopupImage(s, image) && Within(r, s.popup) && OnPage(s, r)
    requires s.texture.Has(px, py) && !r.Contains(px - s.popupRect.x, py - s.popupRect.y)
    ensures Writable(s, r) && PaintPopupOne(s, r, image).texture.At(px, py) == s.texture.At(px, py)
    ensures s.popupRect.Contains(px, py) ==>
              var x, y := px - s.popupRect.x, py - s.popupRect.y;
              PaintPopupOne(s, r, image).popup.At(x, y) == s.popup.At(x, y)
  {
    OnPageIsWritable(s, r);
    var kept := KeepPopup(s, r, image);
    assert PaintPopupOne(s, r, image) == PutOnScreen(kept, r, image);
    hide PaintPopupOne, Writable;
    ScreenPixel(kept, r, image, px, py);
    if s.popupRect.Contains(px, py) {
      KeptPixel(s, r, image, px - s.popupRect.x, py - s.popupRect.y);
    }
    hide PutOnScreen, KeepPopup, ScreenOk;
  }

  /** Outside the painted rectangles, painting the popup changes nothing, neither on the screen nor in the popup. */
  lemma {:induction false} PopupElsewhere(s: Screen, rects: seq<Rect>, image: Picture, px: int, py: int)
    requires ScreenOk(s) && IsPopupImage(s, image) && AllWithin(rects, s.popup) && AllOnPage(s, rects)
    requires s.texture.Has(px, py) && !AnyContains(rects, px - s.popupRect.x, py - s.popupRect.y)
    ensures AllWritable(s, rects)
    ensures PaintPopup(s, rects, image).texture.At(px, py) == s.texture.At(px, py)
    ensures s.popupRect.Contains(px, py) ==>
              var x, y := px - s.popupRect.x, py - s.popupRect.y;
              PaintPopup(s, rects, image).popup.At(x, y) == s.popup.At(x, y)
  {
    AllOnPageIsWritable(s, rects);
    if rects != [] {
      var n := |rects| - 1;
      assert forall r <- rects[..n] :: r in rects;
      PopupElsewhere(s, rects[..n], image, px, py);
      var t := PaintPopup(s, rects[..n], image);
      assert Within(rects[n], s.popup) && OnPage(s, rects[n]) && rects[n] in rects;
      OnPageIsWritable(t, rects[n]);
      assert PaintPopup(s, rects, image) == PaintPopupOne(t, rects[n], image);
      assert !rects[n].Contains(px - s.popupRect.x, py - s.popupRect.y);
      hide PaintPopup, AnyContains, Writable, PaintPopupOne, ScreenOk;
      PartElsewhere(t, rects[n], image, px, py);
    }
  }

  lemma PopupPixelIff(s: Screen, rects: seq<Rect>, image: Picture, view: Picture, px: int, py: int)
    requires ScreenOk(s) && IsPopupImage(s, image) && AllWithin(rects, s.popup) && AllOnPage(s, rects)
    requires IsView(s, view) && s.texture.Has(px, py) && Shown(s, view, px, py)
    ensures AllWritable(s, rects) && IsView(PaintPopup(s, rects, image), view)
    ensures var x, y := px - s.popupRect.x, py - s.popupRect.y;
            Shown(PaintPopup(s, rects, image), view, px, py) <==>
            (s.visible && !s.valid && rects != [] && s.popupRect.Contains(px, py) && !AnyContains(rects, x, y) ==>
               s.popup.At(x, y) == view.At(px, py))
  {
    PaintPopupPixel(s, rects, image, view, px, py);
    if s.visible && !s.valid && rects != [] && s.popupRect.Contains(px, py) && !AnyContains(rects, px - s.popupRect.x, py - s.popupRect.y) {
      PopupElsewhere(s, rects, image, px, py);
    } else if rects == [] {
    }
    hide AnyContains;
  }

  lemma PopupIff(x: Page, ev: Event)
    requires PageOk(x) && Possible(x, ev) && ev.PopupPaint? && Composite(x)
    ensures Composite(Next(x, ev)) <==> Harmless(x, ev)
  {
    var s := x.screen;
    AllOnPageIsWritable(s, ev.rects);
    forall px, py | s.texture.Has(px, py)
      ensures Shown(Next(x, ev).screen, x.view, px, py) <==>
              (s.visible && !s.valid && ev.rects != [] && s.popupRect.Contains(px, py) &&
               !AnyContains(ev.rects, px - s.popupRect.x, py - s.popupRect.y) ==>
                 s.popup.At(px - s.popupRect.x, py - s.popupRect.y) == x.view.At(px, py))
    {
      if s.texture.bytes == [] {
        NoPixels(s.texture, px, py);
      } else {
        PopupPixelIff(s, ev.rects, ev.image, x.view, px, py);
      }
    }
    hide PaintPopup, AnyContains, Shown, ScreenOk;
  }

  lemma ByteIsIn(buffer: seq<byte>, stride: nat, row: nat, column: nat)
    requires column < stride && (row + 1) * stride <= |buffer|
    ensures ByteAt(buffer, stride, row, column) in buffer
  {
    RowEnds(stride, row);
  }

  lemma BlackPixel(p: Picture, px: int, py: int)
    requires p.Sized() && p.Has(px, py) && forall b <- p.bytes :: b == 0
    ensures p.At(px, py) == Pixel(0, 0, 0, 0)
  {
    Monotonic(py + 1, p.height, p.width * 4);
    ByteIsIn(p.bytes, p.width * 4, py, px * 4);
    ByteIsIn(p.bytes, p.width * 4, py, px * 4 + 1);
    ByteIsIn(p.bytes, p.width * 4, py, px * 4 + 2);
    ByteIsIn(p.bytes, p.width * 4, py, px * 4 + 3);
    hide ByteAt;
  }

  lemma ResizeIff(x: Page, view: Picture)
    requires PageOk(x) && view.Sized() && view.bytes != []
    ensures Composite(Next(x, Resize(view))) <==> Harmless(x, Resize(view))
  {
    hide Cleared, Expected, ByteAt;
    forall px, py | view.Has(px, py) ensures Cleared(view).At(px, py) == Pixel(0, 0, 0, 0) {
      BlackPixel(Cleared(view), px, py);
    }
    var y := Next(x, Resize(view));
    forall px, py | view.Has(px, py) ensures Shown(y.screen, view, px, py) <==> Expected(y.screen, view, px, py) == Pixel(0, 0, 0, 0) {
    }
    hide Shown, ScreenOk;
  }

  /** Showing, hiding and resizing the popup leave the texture alone, and so does an upload. */
  lemma OtherIff(x: Page, ev: Event)
    requires PageOk(x) && Possible(x, ev) && Composite(x) && (ev.PopupShow? || ev.PopupSize? || ev.Upload?)
    ensures Composite(Next(x, ev)) <==> Harmless(x, ev)
  {
    var s, y := x.screen, Next(x, ev);
    forall px, py | s.texture.Has(px, py)
      ensures Shown(y.screen, y.view, px, py) <==>
              (Overlaid(s) != Overlaid(y.screen) && s.popupRect.Contains(px, py) ==>
                 s.popup.At(px - s.popupRect.x, py - s.popupRect.y) == x.view.At(px, py))
    {
      assert Shown(s, x.view, px, py);
      OtherPixel(x, ev, px, py);
    }
    assert forall px, py :: !AnyContains([], px, py);
    hide Sized, Shown, AnyContains, ScreenOk;
  }

  lemma OtherPixel(x: Page, ev: Event, px: int, py: int)
    requires PageOk(x) && Possible(x, ev) && (ev.PopupShow? || ev.PopupSize? || ev.Upload?)
    requires x.screen.texture.Has(px, py) && Shown(x.screen, x.view, px, py)
    ensures var s, y := x.screen, Next(x, ev);
            Shown(y.screen, y.view, px, py) <==>
            (Overlaid(s) != Overlaid(y.screen) && s.popupRect.Contains(px, py) ==>
               s.popup.At(px - s.popupRect.x, py - s.popupRect.y) == x.view.At(px, py))
  {
    hide Sized;
  }

  /** An event keeps a composite if and only if it is harmless. */
  lemma StepKeepsIff(x: Page, ev: Event)
    requires PageOk(x) && Possible(x, ev) && Composite(x)
    ensures Composite(Next(x, ev)) <==> Harmless(x, ev)
  {
    match ev {
      case ViewPaint(_, _) => ViewIff(x, ev);
      case PopupPaint(_, _) => PopupIff(x, ev);
      case Resize(view) => ResizeIff(x, view);
      case _ => OtherIff(x, ev);
    }
  }

  // ----- Runs -----

  /** The pages of a run, one for each event and the last one. */
  ghost predicate Run(pages: seq<Page>, events: seq<Event>) {
    && |pages| == |events| + 1
    && forall i :: 0 <= i < |events| ==>
         PageOk(pages[i]) && Possible(pages[i], events[i]) && pages[i + 1] == Next(pages[i], events[i])
  }

  lemma {:induction false} RunIsOk(pages: seq<Page>, events: seq<Event>, n: nat)
    requires Run(pages, events) && n <= |events| && PageOk(pages[0])
    ensures PageOk(pages[n])
  {
    if n > 0 {
      RunIsOk(pages, events, n - 1);
    }
    hide Next;
  }

  ghost predicate CompositeAt(pages: seq<Page>, i: nat) {
    i < |pages| && PageOk(pages[i]) && Composite(pages[i])
  }

  ghost predicate HarmlessAt(pages: seq<Page>, events: seq<Event>, i: nat) {
    i < |pages| && i < |events| && PageOk(pages[i]) && Possible(pages[i], events[i]) && Harmless(pages[i], events[i])
  }

  /** The screen shows the popup over the page all through a run if and only if it does so at the start and every event
      is harmless where it happens. */
  lemma {:induction false} CompositeThroughoutIff(pages: seq<Page>, events: seq<Event>, n: nat)
    requires Run(pages, events) && n <= |events| && PageOk(pages[0])
    ensures (forall i :: 0 <= i <= n ==> CompositeAt(pages, i)) <==>
            CompositeAt(pages, 0) && forall i :: 0 <= i < n ==> HarmlessAt(pages, events, i)
  {
    if n > 0 {
      CompositeThroughoutIff(pages, events, n - 1);
      RunIsOk(pages, events, n - 1);
      RunIsOk(pages, events, n);
      if CompositeAt(pages, n - 1) {
        StepKeepsIff(pages[n - 1], events[n - 1]);
        assert CompositeAt(pages, n) <==> HarmlessAt(pages, events, n - 1) by {
          hide Next, Composite, Harmless, Possible;
        }
      }
      hide Run, CompositeAt, HarmlessAt, Next;
    }
  }

  /** The event paints the whole page. */
  ghost predicate PaintsAll(x: Page, ev: Event) {
    ev.ViewPaint? && forall px, py :: x.screen.texture.Has(px, py) ==> AnyContains(ev.rects, px, py)
  }

  /** Whatever went wrong before, a paint of the whole page puts it right, and it stays right as long as what follows is
      harmless. */
  lemma {:induction false} FullPaintRecovers(pages: seq<Page>, events: seq<Event>, k: nat, n: nat)
    requires Run(pages, events) && k < n <= |events| && PaintsAll(pages[k], events[k])
    requires forall i :: k < i < n ==> Harmless(pages[i], events[i])
    ensures PageOk(pages[n]) && Composite(pages[n])
    decreases n
  {
    if n == k + 1 {
      var s, ev := pages[k].screen, events[k];
      if s.texture.bytes == [] {
        forall px, py | s.texture.Has(px, py) ensures false {
          NoPixels(s.texture, px, py);
        }
      } else {
        FullPaintRestores(s, ev.rects, ev.view);
      }
    } else {
      FullPaintRecovers(pages, events, k, n - 1);
      hide Composite, Harmless, Next, Possible, PageOk, PaintsAll;
      StepKeepsIff(pages[n - 1], events[n - 1]);
    }
  }

  /** One event that neither resizes the page nor uploads: what changes on the screen is recorded, and nothing recorded is
      forgotten. */
  lemma StepIsRecorded(x: Page, ev: Event, px: int, py: int)
    requires PageOk(x) && Possible(x, ev) && !ev.Resize? && !ev.Upload? && x.screen.texture.Has(px, py)
    ensures var s, t := x.screen, Next(x, ev).screen;
            && t.texture.width == s.texture.width && t.texture.height == s.texture.height
            && (t.texture.At(px, py) != s.texture.At(px, py) ==> t.dirty.Contains(px, py))
            && (s.dirty.Contains(px, py) ==> t.dirty.Contains(px, py))
  {
    var s := x.screen;
    match ev {
      case ViewPaint(rects, view) =>
        if s.texture.bytes != [] {
          PaintViewPixel(s, rects, x.view, view, px, py);
          hide PaintView;
        }
      case PopupPaint(rects, image) =>
        if s.texture.bytes != [] {
          PaintPopupPixel(s, rects, image, x.view, px, py);
          hide PaintPopup;
        }
      case _ =>
    }
  }

  /** Between two uploads, as long as the page keeps its size, every pixel that looks different lies in the rectangle that
      is uploaded next. */
  lemma {:induction false} ChangesAreRecorded(pages: seq<Page>, events: seq<Event>, k: nat, n: nat, px: int, py: int)
    requires Run(pages, events) && k <= n <= |events| && PageOk(pages[k]) && pages[k].screen.texture.Has(px, py)
    requires forall i :: k <= i < n ==> !events[i].Resize? && !events[i].Upload?
    ensures PageOk(pages[n])
    ensures var s, t := pages[k].screen, pages[n].screen;
            && t.texture.width == s.texture.width && t.texture.height == s.texture.height
            && (t.texture.At(px, py) != s.texture.At(px, py) || s.dirty.Contains(px, py) ==> t.dirty.Contains(px, py))
    decreases n
  {
    if k < n {
      ChangesAreRecorded(pages, events, k, n - 1, px, py);
      hide Next, Possible;
      StepIsRecorded(pages[n - 1], events[n - 1], px, py);
    }
  }
}
