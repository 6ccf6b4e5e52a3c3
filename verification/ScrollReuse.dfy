/** Keeping the window bitmap current: scroll reuse by shifting rows, checked against the full raster over whole runs. */
module ScrollReuse {
  import opened Geometry
  import opened ArgbFill
  import opened ArgbRaster
  import opened ViewportRaster

  // ---- the bitmap as a value ---------------------------------------------------------------------------------------

  /** The bitmap's words by column and row, the frame's current row stride, and the key (scroll, height, stride)
      the bitmap was painted for. */
  datatype FrameState = FrameState(pixel: (nat, nat) -> Word, rasterWidth: nat, bitmapWidth: nat, bitmapHeight: nat,
                                   bitmapScroll: nat)

  function PixelsOf(argb: seq<Word>, width: nat): (nat, nat) -> Word { (x, y) => At(argb, width, x, y) }

  datatype BitmapRefresh = Clean | Reused(damage: Rect) | Full

  function ContentRows(height: nat): nat { Max(height - CHROME_ROWS, 0) }

  function Distance(a: nat, b: nat): nat { if a < b then b - a else a - b }

  predicate ReuseIsProfitable(contentRows: nat, deltaRows: nat) {
    deltaRows > 0 && deltaRows < contentRows && deltaRows <= contentRows / 4
  }

  /** The bitmap already answers this request. */
  predicate IsCurrent(f: FrameState, scrollY: nat, height: nat) {
    f.bitmapScroll == scrollY && f.bitmapHeight == height && f.bitmapWidth == f.rasterWidth
  }

  /** The request is served by shifting rows rather than by a full raster. */
  predicate CanReuse(f: FrameState, scrollY: nat, height: nat) {
    && f.bitmapHeight == height && f.bitmapWidth == f.rasterWidth
    && ReuseIsProfitable(ContentRows(height), Distance(f.bitmapScroll, scrollY))
    && f.rasterWidth > 0
  }

  /** The document strip a scroll of the content by `delta` rows brings into view. */
  function ExposedRect(scrollY: nat, width: nat, height: nat, delta: int): Rect {
    var content := ContentRows(height);
    var rows := Min(if delta < 0 then -delta else delta, content);
    var y := if delta > 0 then CHROME_ROWS + scrollY + (content - rows) else CHROME_ROWS + scrollY;
    Rect(0.0, y as real, width as real, rows as real)
  }

  /** Content row `y` is one the shift preserves: its source row is also a content row. */
  predicate Preserved(height: nat, delta: int, y: nat) {
    CHROME_ROWS <= y < height && CHROME_ROWS <= y + delta < height
  }

  /** The word a scroll by `delta` leaves at (x, y): chrome stays, preserved rows move, exposed rows are repainted. */
  function ReusedPixel(f: FrameState, list: DisplayList, scrollY: nat, x: nat, y: nat): Word {
    var delta := scrollY - f.bitmapScroll;
    var w := f.rasterWidth;
    if y < CHROME_ROWS then f.pixel(x, y)
    else if Preserved(f.bitmapHeight, delta, y) then f.pixel(x, y + delta)
    else DamagePixel(list, ExposedRect(scrollY, w, f.bitmapHeight, delta), x, y + scrollY, f.pixel(x, y))
  }

  /** One refresh, as a relation between the bitmap before and after. */
  ghost predicate Refreshed(f: FrameState, g: FrameState, list: DisplayList, scrollY: nat, height: nat) {
    var w := f.rasterWidth;
    if IsCurrent(f, scrollY, height) then g == f
    else
      && g == FrameState(g.pixel, w, w, height, scrollY)
      && forall x: nat, y: nat :: x < w && y < height ==>
                                    g.pixel(x, y) ==
                                    if CanReuse(f, scrollY, height) then ReusedPixel(f, list, scrollY, x, y)
                                    else FullPixel(list, scrollY, w, height, x, y)
  }

  /** The bitmap shows, below the chrome, what a full raster at its own key would show. */
  ghost predicate ShowsFullRaster(f: FrameState, list: DisplayList) {
    forall x: nat, y: nat :: x < f.bitmapWidth && CHROME_ROWS <= y < f.bitmapHeight ==>
                                  f.pixel(x, y)
                                  == FullPixel(list, f.bitmapScroll, f.bitmapWidth, f.bitmapHeight, x, y)
  }

  // ---- reuse refines the full raster ---------------------------------------------------------------------------------

  lemma ExposedCell(scrollY: nat, width: nat, height: nat, delta: int, x: nat, y: nat)
    requires x < width && CHROME_ROWS <= y < height
    requires !Preserved(height, delta, y)
    ensures RegionHasCell(ExposedRect(scrollY, width, height, delta), x, y + scrollY)
  {}

  /** The bitmap shows the document's own colours below the chrome. */
  ghost predicate ShowsDocument(f: FrameState, list: DisplayList) {
    forall x: nat, y: nat :: x < f.bitmapWidth && CHROME_ROWS <= y < f.bitmapHeight ==>
                                  f.pixel(x, y)
                                  == DocPixel(list.items, x, y + f.bitmapScroll, WHITE)
  }

  /** Showing the full raster and showing the document are the same thing. */
  lemma FullRasterIsDocument(f: FrameState, list: DisplayList)
    requires TilesSound(list)
    ensures ShowsFullRaster(f, list) <==> ShowsDocument(f, list)
  {
    forall x: nat, y: nat | x < f.bitmapWidth && CHROME_ROWS <= y < f.bitmapHeight
      ensures FullPixel(list, f.bitmapScroll, f.bitmapWidth, f.bitmapHeight, x, y)
           == DocPixel(list.items, x, y + f.bitmapScroll, WHITE)
    {
      FullRasterShowsDocument(list, f.bitmapScroll, f.bitmapWidth, f.bitmapHeight, x, y);
    }
  }

  /** A preserved row shows at the new scroll the document row it showed at the old one. */
  lemma PreservedPixelIsDocument(f: FrameState, list: DisplayList, scrollY: nat, x: nat, y: nat)
    requires ShowsDocument(f, list) && f.bitmapWidth == f.rasterWidth
    requires x < f.rasterWidth && Preserved(f.bitmapHeight, scrollY - f.bitmapScroll, y)
    ensures f.pixel(x, y + (scrollY - f.bitmapScroll)) == DocPixel(list.items, x, y + scrollY, WHITE)
  {}

  /** An exposed row is repainted from the document, whatever the shift left there. */
  lemma ExposedPixelIsDocument(list: DisplayList, scrollY: nat, width: nat, height: nat, delta: int, x: nat, y: nat,
                               held: Word)
    requires TilesSound(list)
    requires x < width && CHROME_ROWS <= y < height && !Preserved(height, delta, y)
    ensures DamagePixel(list, ExposedRect(scrollY, width, height, delta), x, y + scrollY, held)
         == DocPixel(list.items, x, y + scrollY, WHITE)
  {
    ExposedCell(scrollY, width, height, delta, x, y);
    DamageRestoresDocument(list, ExposedRect(scrollY, width, height, delta), x, y + scrollY, held);
  }

  /** A reused bitmap that showed the document at the old scroll shows it at the new one, pixel by pixel. */
  lemma ReusedPixelIsDocument(f: FrameState, list: DisplayList, scrollY: nat, x: nat, y: nat)
    requires TilesSound(list) && ShowsDocument(f, list)
    requires f.bitmapWidth == f.rasterWidth
    requires x < f.rasterWidth && CHROME_ROWS <= y < f.bitmapHeight
    ensures ReusedPixel(f, list, scrollY, x, y) == DocPixel(list.items, x, y + scrollY, WHITE)
  {
    var delta := scrollY - f.bitmapScroll;
    if Preserved(f.bitmapHeight, delta, y) {
      PreservedPixelIsDocument(f, list, scrollY, x, y);
    } else {
      ExposedPixelIsDocument(list, scrollY, f.rasterWidth, f.bitmapHeight, delta, x, y, f.pixel(x, y));
    }
  }

  lemma RefreshKeepsDocument(f: FrameState, g: FrameState, list: DisplayList, scrollY: nat, height: nat)
    requires TilesSound(list) && ShowsDocument(f, list)
    requires Refreshed(f, g, list, scrollY, height)
    ensures ShowsDocument(g, list)
  {
    if !IsCurrent(f, scrollY, height) {
      forall x: nat, y: nat | x < g.bitmapWidth && CHROME_ROWS <= y < g.bitmapHeight
        ensures g.pixel(x, y) == DocPixel(list.items, x, y + scrollY, WHITE)
      {
        if CanReuse(f, scrollY, height) {
          ReusedPixelIsDocument(f, list, scrollY, x, y);
        } else {
          FullRasterShowsDocument(list, scrollY, g.bitmapWidth, height, x, y);
        }
      }
    }
  }

  /** Every refresh keeps the bitmap equal to the full raster, whichever way it is served. */
  lemma RefreshKeepsFullRaster(f: FrameState, g: FrameState, list: DisplayList, scrollY: nat, height: nat)
    requires TilesSound(list) && ShowsFullRaster(f, list)
    requires Refreshed(f, g, list, scrollY, height)
    ensures ShowsFullRaster(g, list) && IsCurrent(g, scrollY, height)
  {
    FullRasterIsDocument(f, list);
    RefreshKeepsDocument(f, g, list, scrollY, height);
    FullRasterIsDocument(g, list);
  }

  // ---- the page changes ----------------------------------------------------------------------------------------------

  /** The two pages look the same wherever the damage does not reach. */
  ghost predicate AgreeOutside(before: DisplayList, after: DisplayList, damage: Rect) {
    forall x: int, y: int :: !CoversPixel(damage, x, y) ==>
                               DocPixel(before.items, x, y, WHITE) == DocPixel(after.items, x, y, WHITE)
  }

  /** An item that did not change, or whose old and new rects both lie in the damage. */
  predicate ChangedWithin(before: DisplayItem, after: DisplayItem, damage: Rect) {
    before == after || (RectContainsRect(damage, before.rect) && RectContainsRect(damage, after.rect))
  }

  /** A damage rect that holds the old and new rects of every changed item is enough. */
  lemma {:induction false} ChangedItemsAgree(before: seq<DisplayItem>, after: seq<DisplayItem>, damage: Rect, x: int, y: int)
    requires |before| == |after| && forall i :: 0 <= i < |before| ==> ChangedWithin(before[i], after[i], damage)
    requires !CoversPixel(damage, x, y)
    ensures DocPixel(before, x, y, WHITE) == DocPixel(after, x, y, WHITE)
  {
    if |before| > 0 {
      var n := |before| - 1;
      ChangedItemsAgree(before[..n], after[..n], damage, x, y);
      if before[n] != after[n] {
        NotCovered(before[n].rect, damage, x, y);
        NotCovered(after[n].rect, damage, x, y);
      }
    }
  }

  lemma NotCovered(inner: Rect, damage: Rect, x: int, y: int)
    requires RectContainsRect(damage, inner) && !CoversPixel(damage, x, y)
    ensures !CoversPixel(inner, x, y)
  {
    if CoversPixel(inner, x, y) { ContainedCovers(damage, inner, x, y); }
  }

  function DamageClip(f: FrameState, damage: Rect): Option<PixelRect> {
    PixelRectFromRect(Shifted(damage, f.bitmapScroll), f.bitmapWidth, f.bitmapHeight)
  }

  ghost predicate PixelRepainted(f: FrameState, g: FrameState, list: DisplayList, damage: Rect, x: nat, y: nat) {
    var clip := DamageClip(f, damage);
    g.pixel(x, y) == if clip.Some? && Inside(clip.value, x, y)
                     then DamagePixel(list, damage, x, y + f.bitmapScroll, f.pixel(x, y))
                     else f.pixel(x, y)
  }

  /** The bitmap after a new page's damage is repainted in place at the bitmap's own scroll. */
  ghost predicate DamageShown(f: FrameState, g: FrameState, list: DisplayList, damage: Rect) {
    && f.rasterWidth == f.bitmapWidth && g == f.(pixel := g.pixel)
    && (DamageClip(f, damage).Some? ==> DamageCoversClip(damage, DamageClip(f, damage).value, f.bitmapScroll))
    && forall x: nat, y: nat :: x < f.bitmapWidth && y < f.bitmapHeight ==> PixelRepainted(f, g, list, damage, x, y)
  }

  /** The damage rasterizer's writes to a bitmap's words are such a repaint. */
  lemma RasterizedDamageIsShown(list: DisplayList, scrollY: nat, width: nat, height: nat, damage: Rect,
                                before: seq<Word>, after: seq<Word>)
    requires DamageRepainted(before, after, list, scrollY, width, height, damage)
    requires var clip := PixelRectFromRect(Shifted(damage, scrollY), width, height);
             clip.Some? ==> DamageCoversClip(damage, clip.value, scrollY)
    ensures DamageShown(FrameState(PixelsOf(before, width), width, width, height, scrollY),
                        FrameState(PixelsOf(after, width), width, width, height, scrollY), list, damage)
  {}

  lemma DamagedPixelIsDocument(f: FrameState, g: FrameState, before: DisplayList, after: DisplayList, damage: Rect,
                               x: nat, y: nat)
    requires TilesSound(after) && ShowsDocument(f, before)
    requires AgreeOutside(before, after, damage) && DamageShown(f, g, after, damage)
    requires x < f.bitmapWidth && CHROME_ROWS <= y < f.bitmapHeight
    ensures g.pixel(x, y) == DocPixel(after.items, x, y + f.bitmapScroll, WHITE)
  {
    assert PixelRepainted(f, g, after, damage, x, y);
    ShiftedCovers(damage, f.bitmapScroll, x, y);
    if CoversPixel(damage, x, y + f.bitmapScroll) {
      DamageRestoresDocument(after, damage, x, y + f.bitmapScroll, f.pixel(x, y));
    }
  }

  /** A damage repaint takes a bitmap that showed the old page to one that shows the new page. */
  lemma RepaintKeepsFullRaster(f: FrameState, g: FrameState, before: DisplayList, after: DisplayList, damage: Rect)
    requires TilesSound(before) && TilesSound(after) && ShowsFullRaster(f, before)
    requires AgreeOutside(before, after, damage) && DamageShown(f, g, after, damage)
    ensures ShowsFullRaster(g, after)
  {
    FullRasterIsDocument(f, before);
    RepaintKeepsDocument(f, g, before, after, damage);
    FullRasterIsDocument(g, after);
  }

  lemma RepaintKeepsDocument(f: FrameState, g: FrameState, before: DisplayList, after: DisplayList, damage: Rect)
    requires TilesSound(after) && ShowsDocument(f, before)
    requires AgreeOutside(before, after, damage) && DamageShown(f, g, after, damage)
    ensures ShowsDocument(g, after)
  {
    forall x: nat, y: nat | x < g.bitmapWidth && CHROME_ROWS <= y < g.bitmapHeight
      ensures g.pixel(x, y) == DocPixel(after.items, x, y + g.bitmapScroll, WHITE)
    {
      DamagedPixelIsDocument(f, g, before, after, damage, x, y);
    }
  }

  // ---- whole runs ----------------------------------------------------------------------------------------------------

  /** What can happen to a frame between two presents. `Repaint` brings a new page and the damage it did. */
  datatype FrameStep =
    | Refresh(scrollY: nat, height: nat)
    | ResizeStride(width: nat)
    | Repaint(page: DisplayList, damage: Rect)

  /** The page shown after some steps. */
  ghost function PageAfter(list: DisplayList, steps: seq<FrameStep>, n: nat): DisplayList
    requires n <= |steps|
  {
    if n == 0 then list
    else if steps[n - 1].Repaint? then steps[n - 1].page
    else PageAfter(list, steps, n - 1)
  }

  ghost predicate Stepped(f: FrameState, g: FrameState, list: DisplayList, step: FrameStep) {
    match step
    case Refresh(scrollY, height) => Refreshed(f, g, list, scrollY, height)
    case ResizeStride(width) => g == f.(rasterWidth := width)
    case Repaint(page, damage) =>
      TilesSound(page) && AgreeOutside(list, page, damage) && DamageShown(f, g, page, damage)
  }

  ghost predicate IsRun(states: seq<FrameState>, list: DisplayList, steps: seq<FrameStep>) {
    && |states| == |steps| + 1
    && forall i :: 0 <= i < |steps| ==> Stepped(states[i], states[i + 1], PageAfter(list, steps, i), steps[i])
  }

  /** Over any run of scrolls, height changes, stride changes and page changes with their damage, the bitmap always
      equals a full raster of the present page at its key, and right after a refresh that key is the one asked for. */
  lemma {:induction false} RunShowsFullRaster(states: seq<FrameState>, list: DisplayList, steps: seq<FrameStep>, n: nat)
    requires TilesSound(list) && IsRun(states, list, steps)
    requires ShowsFullRaster(states[0], list)
    requires n <= |steps|
    ensures TilesSound(PageAfter(list, steps, n)) && ShowsFullRaster(states[n], PageAfter(list, steps, n))
    ensures n > 0 && steps[n - 1].Refresh? ==> IsCurrent(states[n], steps[n - 1].scrollY, steps[n - 1].height)
  {
    if n > 0 {
      RunShowsFullRaster(states, list, steps, n - 1);
      var page := PageAfter(list, steps, n - 1);
      assert Stepped(states[n - 1], states[n], page, steps[n - 1]);
      match steps[n - 1]
      case Refresh(scrollY, height) => RefreshKeepsFullRaster(states[n - 1], states[n], page, scrollY, height);
      case ResizeStride(_) =>
      case Repaint(after, damage) => RepaintKeepsFullRaster(states[n - 1], states[n], page, after, damage);
    }
  }

  // ---- the frame as the program keeps it -----------------------------------------------------------------------------

  function Abs(delta: int): nat { if delta < 0 then -delta else delta }

  /** Content row `y` still holds, after a shift by `delta`, the row `y + delta` held before. */
  predicate RowMoves(chromeRows: nat, contentRows: nat, delta: int, y: nat) {
    chromeRows <= y < chromeRows + contentRows && chromeRows <= y + delta < chromeRows + contentRows
  }

  lemma RowsInBounds(chromeRows: nat, contentRows: nat, width: nat, y: nat, rows: nat)
    requires y + rows <= chromeRows + contentRows
    ensures (y + rows) * width <= (chromeRows + contentRows) * width
  {}

  /** `after` is `before` with the content rows that stay content rows moved by `delta`. */
  ghost predicate RowsShifted(before: seq<Word>, after: seq<Word>, width: nat, chromeRows: nat, contentRows: nat, delta: int) {
    && |after| == |before|
    && forall x: nat, y: nat {:trigger Idx(width, x, y)} :: x < width && Idx(width, x, y) < |after| ==>
         after[Idx(width, x, y)] ==
         At(before, width, x, if RowMoves(chromeRows, contentRows, delta, y) then y + delta else y)
  }

  lemma CopyIsShift(before: seq<Word>, after: seq<Word>, width: nat, chromeRows: nat, contentRows: nat, delta: int,
                    from: nat, to: nat)
    requires 0 < Abs(delta) < contentRows && from - to == delta
    requires if delta > 0 then to == chromeRows else from == chromeRows
    requires RowsCopied(before, after, width, from, to, contentRows - Abs(delta))
    ensures RowsShifted(before, after, width, chromeRows, contentRows, delta)
  {}

  /** Shifts the content rows in place; false when there is nothing to preserve. */
  method ShiftContentRows(a: array<Word>, width: nat, chromeRows: nat, contentRows: nat, delta: int) returns (shifted: bool)
    modifies a
    ensures shifted == (width != 0 && 0 < Abs(delta) < contentRows && a.Length >= (chromeRows + contentRows) * width)
    ensures !shifted ==> a[..] == old(a[..])
    ensures shifted ==> RowsShifted(old(a[..]), a[..], width, chromeRows, contentRows, delta)
  {
    var rows := Abs(delta);
    if width == 0 || rows == 0 || rows >= contentRows {
      return false;
    }
    if a.Length < (chromeRows + contentRows) * width {
      return false;
    }
    var preserved := contentRows - rows;
    var from := if delta > 0 then chromeRows + rows else chromeRows;
    var to := if delta > 0 then chromeRows else chromeRows + rows;
    RowsInBounds(chromeRows, contentRows, width, from, preserved);
    RowsInBounds(chromeRows, contentRows, width, to, preserved);
    ghost var before := a[..];
    CopyArgbRows(a, width, from, to, preserved);
    CopyIsShift(before, a[..], width, chromeRows, contentRows, delta, from, to);
    shifted := true;
  }

  /** The exposed strip's clip is exactly the content rows the shift did not preserve. */
  lemma ExposedClip(scrollY: nat, width: nat, height: nat, delta: int, x: nat, y: nat)
    requires x < width && y < height && delta != 0
    requires Abs(delta) < ContentRows(height)
    ensures var clip := PixelRectFromRect(Shifted(ExposedRect(scrollY, width, height, delta), scrollY), width, height);
            clip.Some? && (Inside(clip.value, x, y) <==> CHROME_ROWS <= y && !Preserved(height, delta, y))
  {}

  /** Of an exposed pixel the repaint decides, of any other the shift. */
  lemma ReusedPixelIs(f: FrameState, list: DisplayList, scrollY: nat, x: nat, y: nat, shifted: Word, repainted: Word)
    requires y < f.bitmapHeight
    requires var delta := scrollY - f.bitmapScroll;
             shifted == f.pixel(x, if RowMoves(CHROME_ROWS, ContentRows(f.bitmapHeight), delta, y) then y + delta else y)
    requires var delta := scrollY - f.bitmapScroll;
             repainted == if CHROME_ROWS <= y && !Preserved(f.bitmapHeight, delta, y)
                          then DamagePixel(list, ExposedRect(scrollY, f.rasterWidth, f.bitmapHeight, delta), x, y + scrollY,
                                           shifted)
                          else shifted
    ensures repainted == ReusedPixel(f, list, scrollY, x, y)
  {
    var delta := scrollY - f.bitmapScroll;
    assert RowMoves(CHROME_ROWS, ContentRows(f.bitmapHeight), delta, y) <==> Preserved(f.bitmapHeight, delta, y);
  }

  /** What a repaint of the exposed strip makes of one pixel. */
  lemma StripRepainted(list: DisplayList, scrollY: nat, width: nat, height: nat, delta: int, mid: seq<Word>,
                       after: seq<Word>, x: nat, y: nat)
    requires x < width && y < height && 0 < Abs(delta) < ContentRows(height)
    requires DamageRepainted(mid, after, list, scrollY, width, height, ExposedRect(scrollY, width, height, delta))
    ensures At(after, width, x, y) ==
            if CHROME_ROWS <= y && !Preserved(height, delta, y)
            then DamagePixel(list, ExposedRect(scrollY, width, height, delta), x, y + scrollY, At(mid, width, x, y))
            else At(mid, width, x, y)
  {
    ExposedClip(scrollY, width, height, delta, x, y);
  }

  /** The whole bitmap after a shift and a repaint of the exposed strip is the reused one. */
  lemma ReuseIsComplete(f: FrameState, list: DisplayList, scrollY: nat, before: seq<Word>, mid: seq<Word>, after: seq<Word>)
    requires |before| == f.rasterWidth * f.bitmapHeight && f.bitmapWidth == f.rasterWidth
    requires f.pixel == PixelsOf(before, f.bitmapWidth)
    requires CanReuse(f, scrollY, f.bitmapHeight)
    requires var content, delta := ContentRows(f.bitmapHeight), scrollY - f.bitmapScroll;
             && RowsShifted(before, mid, f.rasterWidth, CHROME_ROWS, content, delta)
             && DamageRepainted(mid, after, list, scrollY, f.rasterWidth, f.bitmapHeight,
                                ExposedRect(scrollY, f.rasterWidth, f.bitmapHeight, delta))
    ensures var g := FrameState(PixelsOf(after, f.rasterWidth), f.rasterWidth, f.rasterWidth, f.bitmapHeight, scrollY);
            Refreshed(f, g, list, scrollY, f.bitmapHeight)
  {
    var width, height, delta := f.rasterWidth, f.bitmapHeight, scrollY - f.bitmapScroll;
    forall x: nat, y: nat | x < width && y < height
      ensures At(after, width, x, y) == ReusedPixel(f, list, scrollY, x, y)
    {
      ShiftedPixel(f, scrollY, before, mid, x, y);
      StripRepainted(list, scrollY, width, height, delta, mid, after, x, y);
      ReusedPixelIs(f, list, scrollY, x, y, At(mid, width, x, y), At(after, width, x, y));
    }
  }

  /** What the shift makes of one pixel. */
  lemma ShiftedPixel(f: FrameState, scrollY: nat, before: seq<Word>, mid: seq<Word>, x: nat, y: nat)
    requires |before| == f.rasterWidth * f.bitmapHeight && f.bitmapWidth == f.rasterWidth
    requires f.pixel == PixelsOf(before, f.bitmapWidth) && x < f.rasterWidth && y < f.bitmapHeight
    requires RowsShifted(before, mid, f.rasterWidth, CHROME_ROWS, ContentRows(f.bitmapHeight), scrollY - f.bitmapScroll)
    ensures var delta := scrollY - f.bitmapScroll;
            At(mid, f.rasterWidth, x, y)
            == f.pixel(x, if RowMoves(CHROME_ROWS, ContentRows(f.bitmapHeight), delta, y) then y + delta else y)
  {
    IdxBound(f.rasterWidth, f.bitmapHeight, x, y);
  }

  lemma BitmapHoldsContent(width: nat, height: nat)
    requires ContentRows(height) > 0
    ensures width * height >= (CHROME_ROWS + ContentRows(height)) * width
  {}

  /** Shifts a bitmap's content rows from one scroll to another and repaints the strip that came into view. */
  method ShiftAndRepaint(a: array<Word>, list: DisplayList, width: nat, height: nat, oldScroll: nat, scrollY: nat)
    returns (shifted: bool)
    requires a.Length == width * height
    requires forall i :: 0 <= i < |list.items| ==> ItemSupported(list.items[i])
    requires ReuseIsProfitable(ContentRows(height), Distance(oldScroll, scrollY))
    modifies a
    ensures shifted == (width > 0)
    ensures !shifted ==> a[..] == old(a[..])
    ensures shifted ==> Refreshed(FrameState(PixelsOf(old(a[..]), width), width, width, height, oldScroll),
                                  FrameState(PixelsOf(a[..], width), width, width, height, scrollY),
                                  list, scrollY, height)
  {
    var content, delta := ContentRows(height), scrollY - oldScroll;
    BitmapHoldsContent(width, height);
    ghost var before := a[..];
    shifted := ShiftContentRows(a, width, CHROME_ROWS, content, delta);
    if shifted {
      ghost var mid := a[..];
      var exposed := ExposedRect(scrollY, width, height, delta);
      var painted := RasterizeDamageDirect(list, scrollY, width, height, exposed, a);
      ReuseIsComplete(FrameState(PixelsOf(before, width), width, width, height, oldScroll), list, scrollY,
                      before, mid, a[..]);
    }
  }

  class BrowserFrame {
    const list: DisplayList
    var argb: array<Word>
    var rasterWidth: nat
    var bitmapWidth: nat
    var bitmapHeight: nat
    var bitmapScroll: nat

    ghost function State(): FrameState
      reads this, argb
    {
      FrameState(PixelsOf(argb[..], bitmapWidth), rasterWidth, bitmapWidth, bitmapHeight, bitmapScroll)
    }

    /** The buffer holds the whole bitmap, and every item of the page is one the direct path paints. */
    ghost predicate Valid()
      reads this
    {
      && argb.Length == bitmapWidth * bitmapHeight
      && TilesSound(list)
      && forall i :: 0 <= i < |list.items| ==> ItemSupported(list.items[i])
    }

    /** A frame with no bitmap yet. */
    constructor (list: DisplayList, width: nat)
      requires TilesSound(list) && forall i :: 0 <= i < |list.items| ==> ItemSupported(list.items[i])
      ensures this.list == list && fresh(argb) && Valid()
      ensures rasterWidth == width && ShowsFullRaster(State(), list)
    {
      this.list := list;
      argb := new Word[0];
      rasterWidth, bitmapWidth, bitmapHeight, bitmapScroll := width, width, 0, 0;
    }

    /** Serves a scroll by shifting rows and repainting the exposed strip; none when a full raster is needed. */
    method ScrollBitmap(scrollY: nat, height: nat) returns (damage: Option<Rect>)
      requires Valid()
      modifies this, argb
      ensures Valid() && argb == old(argb)
      ensures damage.Some? == (CanReuse(old(State()), scrollY, height) && scrollY != old(bitmapScroll))
      ensures damage.None? ==> State() == old(State())
      ensures damage.Some? ==> Refreshed(old(State()), State(), list, scrollY, height)
      ensures damage.Some? ==>
                damage.value == ExposedRect(scrollY, rasterWidth, height, scrollY - old(bitmapScroll))
    {
      if bitmapHeight != height || bitmapWidth != rasterWidth || bitmapScroll == scrollY {
        return None;
      }
      var delta := scrollY - bitmapScroll;
      if !ReuseIsProfitable(ContentRows(height), Distance(bitmapScroll, scrollY)) {
        return None;
      }
      var shifted := ShiftAndRepaint(argb, list, rasterWidth, height, bitmapScroll, scrollY);
      if shifted {
        bitmapScroll := scrollY;
        damage := Some(ExposedRect(scrollY, rasterWidth, height, delta));
      } else {
        damage := None;
      }
    }

    /** Brings the bitmap up to date with a scroll offset and height. */
    method RefreshBitmap(scrollY: nat, height: nat) returns (refresh: BitmapRefresh)
      requires Valid()
      modifies this, argb
      ensures Valid()
      ensures Refreshed(old(State()), State(), list, scrollY, height)
      ensures refresh == if IsCurrent(old(State()), scrollY, height) then Clean
                         else if CanReuse(old(State()), scrollY, height)
                         then Reused(ExposedRect(scrollY, rasterWidth, height, scrollY - old(bitmapScroll)))
                         else Full
    {
      if bitmapScroll == scrollY && bitmapHeight == height && bitmapWidth == rasterWidth {
        return Clean;
      }
      var damage := ScrollBitmap(scrollY, height);
      if damage.Some? {
        return Reused(damage.value);
      }
      var painted, pixels := RasterizeViewportDirect(list, scrollY, rasterWidth, height);
      argb := pixels;
      bitmapHeight, bitmapWidth, bitmapScroll := height, rasterWidth, scrollY;
      refresh := Full;
    }
  }
}
