/** The full viewport raster and the clipped damage raster, as in-place writes to a row-major buffer. */
module ViewportRaster {
  import opened Geometry
  import opened ArgbFill
  import opened ArgbRaster
  import opened ItemPixels

  /** The word at pixel (x, y) of a row-major buffer. */
  function At(p: seq<Word>, width: nat, x: nat, y: nat): Word {
    if Idx(width, x, y) < |p| then p[Idx(width, x, y)] else 0
  }

  // ---- painting one item ---------------------------------------------------------------------------------------

  /** `after` is `before` with `item` painted at every pixel of `clip` it covers, and nothing else changed. */
  ghost predicate ItemPainted(before: seq<Word>, after: seq<Word>, width: nat, height: nat,
                              item: DisplayItem, scrollY: nat, clip: PixelRect)
  {
    && |before| == |after| == width * height
    && forall x: nat, y: nat :: x < width && y < height ==>
                                  At(after, width, x, y) ==
                                  if Inside(clip, x, y) && CoversPixel(item.rect, x, y + scrollY)
                                  then PaintPixel(item, x, y + scrollY, At(before, width, x, y))
                                  else At(before, width, x, y)
  }

  /** Wherever `clip` lets the image show, `after` is `before` with the source pixel that the image's scaling puts there
      composited over it. */
  ghost predicate ImageShown(before: seq<Word>, after: seq<Word>, width: nat, height: nat, rect: Rect,
                             image: ImageSurface, scrollY: nat, clip: PixelRect)
  {
    forall x: nat, docY: nat, col: nat, row: nat ::
      IsSourceOf(rect, image, x, docY, col, row) && ItemSupported(Image(rect, image)) ==>
        x < width && scrollY <= docY < scrollY + height && Inside(clip, x, docY - scrollY) && CoversPixel(rect, x, docY) ==>
          Composites(At(before, width, x, docY - scrollY), image.rgba, SourceIndex(image, col, row),
                     At(after, width, x, docY - scrollY))
  }

  /** Sampling is all that a painted image item shows. */
  lemma PaintedImageIsShown(before: seq<Word>, after: seq<Word>, width: nat, height: nat, rect: Rect,
                            image: ImageSurface, scrollY: nat, clip: PixelRect)
    requires forall x: nat, y: nat :: x < width && y < height && Inside(clip, x, y) && CoversPixel(rect, x, y + scrollY) ==>
               At(after, width, x, y) == ImagePixel(rect, image, x, y + scrollY, At(before, width, x, y))
    ensures ImageShown(before, after, width, height, rect, image, scrollY, clip)
  {
    forall x: nat, docY: nat, col: nat, row: nat | IsSourceOf(rect, image, x, docY, col, row)
      && ItemSupported(Image(rect, image)) && x < width && scrollY <= docY < scrollY + height
      && Inside(clip, x, docY - scrollY) && CoversPixel(rect, x, docY)
      ensures Composites(At(before, width, x, docY - scrollY), image.rgba, SourceIndex(image, col, row),
                         At(after, width, x, docY - scrollY))
    {
      var y := docY - scrollY;
      assert At(after, width, x, y) == ImagePixel(rect, image, x, y + scrollY, At(before, width, x, y));
      ImageCompositesSource(rect, image, x, docY, At(before, width, x, y), col, row, At(after, width, x, y));
    }
  }

  function WholeBitmap(width: nat, height: nat): PixelRect { PixelRect(0, 0, width, height) }

  lemma ShiftedImage(rect: Rect, image: ImageSurface, scrollY: nat, x: int, y: int, before: Word)
    ensures ImagePixel(Shifted(rect, scrollY), image, x, y, before) == ImagePixel(rect, image, x, y + scrollY, before)
  {}

  method FillClipped(a: array<Word>, width: nat, height: nat, rect: Rect, scrollY: nat, color: Word, clip: PixelRect)
    requires a.Length == width * height
    modifies a
    ensures forall x: nat, y: nat :: x < width && y < height ==>
                                       At(a[..], width, x, y) ==
                                       if Inside(clip, x, y) && CoversPixel(rect, x, y + scrollY) then color
                                       else At(old(a[..]), width, x, y)
  {
    ghost var before := a[..];
    forall x: nat, y: nat ensures CoversPixel(Shifted(rect, scrollY), x, y) <==> CoversPixel(rect, x, y + scrollY) {
      ShiftedCovers(rect, scrollY, x, y);
    }
    var pixelRect := PixelRectFromRect(Shifted(rect, scrollY), width, height);
    if pixelRect.None? { return; }
    var cut := PixelRectIntersection(pixelRect.value, clip);
    if cut.None? { return; }
    FillArgbRect(a, width, height, cut.value, color);
    forall x: nat, y: nat | x < width && y < height
      ensures At(a[..], width, x, y) == if Inside(cut.value, x, y) then color else At(before, width, x, y)
    {
      IdxBound(width, height, x, y);
      FilledInBitmap(a.Length, width, height, cut.value, x, y);
    }
  }

  /** Copies or blends the image's nearest source pixels over the destination rect, row by row. */
  method BlitArgbImageRect(a: array<Word>, width: nat, height: nat, shifted: Rect, image: ImageSurface, dst: PixelRect)
    requires a.Length == width * height
    requires dst.x + dst.width <= width && dst.y + dst.height <= height
    modifies a
    ensures forall x: nat, y: nat :: x < width && y < height ==>
                                       At(a[..], width, x, y) ==
                                       if Inside(dst, x, y) then ImagePixel(shifted, image, x, y, At(old(a[..]), width, x, y))
                                       else At(old(a[..]), width, x, y)
    ensures ImageShown(old(a[..]), a[..], width, height, shifted, image, 0, dst)
  {
    ghost var before := a[..];
    var row := dst.y;
    while row < dst.y + dst.height
      invariant dst.y <= row <= dst.y + dst.height
      invariant forall x: nat, y: nat :: x < width && y < height ==>
                                           At(a[..], width, x, y) ==
                                           if Inside(dst, x, y) && y < row
                                           then ImagePixel(shifted, image, x, y, At(before, width, x, y))
                                           else At(before, width, x, y)
    {
      var col := dst.x;
      while col < dst.x + dst.width
        invariant dst.x <= col <= dst.x + dst.width
        invariant forall x: nat, y: nat :: x < width && y < height ==>
                                             At(a[..], width, x, y) ==
                                             if Inside(dst, x, y) && (y < row || (y == row && x < col))
                                             then ImagePixel(shifted, image, x, y, At(before, width, x, y))
                                             else At(before, width, x, y)
      {
        IdxBound(width, height, col, row);
        var i := Idx(width, col, row);
        ghost var previous := a[..];
        assert At(previous, width, col, row) == At(before, width, col, row);
        a[i] := ImagePixel(shifted, image, col, row, a[i]);
        forall x: nat, y: nat | x < width && y < height
          ensures At(a[..], width, x, y) ==
                  if x == col && y == row then ImagePixel(shifted, image, x, y, At(previous, width, x, y))
                  else At(previous, width, x, y)
        {
          IdxInjective(width, x, y, col, row);
        }
        col := col + 1;
      }
      row := row + 1;
    }
    PaintedImageIsShown(before, a[..], width, height, shifted, image, 0, dst);
  }

  method BlitClipped(a: array<Word>, width: nat, height: nat, rect: Rect, scrollY: nat, image: ImageSurface, clip: PixelRect)
    requires a.Length == width * height
    modifies a
    ensures ItemPainted(old(a[..]), a[..], width, height, Image(rect, image), scrollY, clip)
    ensures ImageShown(old(a[..]), a[..], width, height, rect, image, scrollY, clip)
  {
    forall x: nat, y: nat ensures CoversPixel(Shifted(rect, scrollY), x, y) <==> CoversPixel(rect, x, y + scrollY) {
      ShiftedCovers(rect, scrollY, x, y);
    }
    forall x: nat, y: nat, w: Word
      ensures ImagePixel(Shifted(rect, scrollY), image, x, y, w) == ImagePixel(rect, image, x, y + scrollY, w)
    {
      ShiftedImage(rect, image, scrollY, x, y, w);
    }
    ghost var before := a[..];
    var dst := PixelRectFromRect(Shifted(rect, scrollY), width, height);
    var cut := if dst.Some? then PixelRectIntersection(dst.value, clip) else None;
    if cut.Some? {
      BlitArgbImageRect(a, width, height, Shifted(rect, scrollY), image, cut.value);
    }
    PaintedImageIsShown(before, a[..], width, height, rect, image, scrollY, clip);
  }

  /** Paints one item inside `clip`; the unclipped painter is this one over the whole bitmap. */
  method PaintItemClipped(a: array<Word>, width: nat, height: nat, item: DisplayItem, scrollY: nat, clip: PixelRect)
    requires a.Length == width * height
    modifies a
    ensures ItemPainted(old(a[..]), a[..], width, height, item, scrollY, clip)
    ensures item.Image? ==> ImageShown(old(a[..]), a[..], width, height, item.rect, item.image, scrollY, clip)
  {
    match item
    case SolidColor(rect, color) => FillClipped(a, width, height, rect, scrollY, ColorWord(color), clip);
    case RoundedRect(rect, _, color) => FillClipped(a, width, height, rect, scrollY, ColorWord(color), clip);
    case Image(rect, image) => BlitClipped(a, width, height, rect, scrollY, image, clip);
    case Unsupported(_) =>
  }

  // ---- painting the visible items of a region --------------------------------------------------------------------

  /** The first `k` indexed items have been painted, in order, over `before`, inside `clip`. */
  ghost predicate PaintedUpTo(before: seq<Word>, after: seq<Word>, width: nat, height: nat, items: seq<DisplayItem>,
                              indices: seq<nat>, k: nat, region: Rect, scrollY: nat, clip: PixelRect)
    requires k <= |indices|
  {
    && |before| == |after| == width * height
    && forall x: nat, y: nat :: x < width && y < height ==>
                                  At(after, width, x, y) ==
                                  if Inside(clip, x, y)
                                  then PaintVisible(items, indices[..k], region, x, y + scrollY, At(before, width, x, y))
                                  else At(before, width, x, y)
  }

  lemma PaintOneMore(before: seq<Word>, mid: seq<Word>, after: seq<Word>, width: nat, height: nat,
                     items: seq<DisplayItem>, indices: seq<nat>, k: nat, region: Rect, scrollY: nat, clip: PixelRect)
    requires k < |indices|
    requires PaintedUpTo(before, mid, width, height, items, indices, k, region, scrollY, clip)
    requires if Visible(items, indices[k], region)
             then ItemPainted(mid, after, width, height, items[indices[k]], scrollY, clip) else after == mid
    ensures PaintedUpTo(before, after, width, height, items, indices, k + 1, region, scrollY, clip)
  {
    assert indices[..k + 1][..k] == indices[..k];
  }

  method PaintVisibleItems(a: array<Word>, width: nat, height: nat, items: seq<DisplayItem>, indices: seq<nat>,
                           region: Rect, scrollY: nat, clip: PixelRect)
    requires a.Length == width * height
    modifies a
    ensures PaintedUpTo(old(a[..]), a[..], width, height, items, indices, |indices|, region, scrollY, clip)
  {
    ghost var before := a[..];
    var k := 0;
    while k < |indices|
      invariant k <= |indices|
      invariant PaintedUpTo(before, a[..], width, height, items, indices, k, region, scrollY, clip)
    {
      ghost var mid := a[..];
      if indices[k] < |items| && RectsIntersect(items[indices[k]].rect, region) {
        PaintItemClipped(a, width, height, items[indices[k]], scrollY, clip);
      }
      PaintOneMore(before, mid, a[..], width, height, items, indices, k, region, scrollY, clip);
      k := k + 1;
    }
  }

  /** `after` is `before` with every pixel of the damage's clip repainted, and nothing outside it touched. */
  ghost predicate DamageRepainted(before: seq<Word>, after: seq<Word>, list: DisplayList, scrollY: nat, width: nat,
                                  height: nat, damage: Rect)
  {
    var clip := PixelRectFromRect(Shifted(damage, scrollY), width, height);
    forall x: nat, y: nat :: x < width && y < height ==>
      At(after, width, x, y) ==
      if clip.Some? && Inside(clip.value, x, y) then DamagePixel(list, damage, x, y + scrollY, At(before, width, x, y))
      else At(before, width, x, y)
  }

  /** Repaints one document rect. False means an item in it needs another rasterizer, and nothing was written. */
  method RasterizeDamageDirect(list: DisplayList, scrollY: nat, width: nat, height: nat, damage: Rect, a: array<Word>)
    returns (painted: bool)
    requires a.Length == width * height
    modifies a
    ensures var clip := PixelRectFromRect(Shifted(damage, scrollY), width, height);
            && painted == (clip.None? || ItemsSupported(list.items, SourceIndices(list, damage), damage))
            && (clip.None? || !painted ==> a[..] == old(a[..]))
            && (painted ==> DamageRepainted(old(a[..]), a[..], list, scrollY, width, height, damage))
  {
    var clip := PixelRectFromRect(Shifted(damage, scrollY), width, height);
    if clip.None? {
      return true;
    }
    var indices := SourceIndices(list, damage);
    if !ItemsSupported(list.items, indices, damage) {
      return false;
    }
    ghost var before := a[..];
    if NeedsDefaultFill(list.items, indices, damage) {
      FillArgbRect(a, width, height, clip.value, WHITE);
    }
    ghost var filled := a[..];
    forall x: nat, y: nat | x < width && y < height
      ensures At(filled, width, x, y) ==
              if Inside(clip.value, x, y) && NeedsDefaultFill(list.items, indices, damage) then WHITE
              else At(before, width, x, y)
    {
      IdxBound(width, height, x, y);
      FilledInBitmap(a.Length, width, height, clip.value, x, y);
    }
    PaintVisibleItems(a, width, height, list.items, indices, damage, scrollY, clip.value);
    assert indices[..|indices|] == indices;
    painted := true;
  }

  // ---- the full viewport raster ------------------------------------------------------------------------------------

  /** The part of the document a window of this size shows under the chrome. */
  function VisibleDocumentRect(scrollY: nat, width: nat, height: nat): Rect {
    Rect(0.0, (CHROME_ROWS + scrollY) as real, width as real, Max(height - CHROME_ROWS, 0) as real)
  }

  /** The chrome background: one colour, with a separator as the last chrome row. */
  function ToolbarPixel(height: nat, y: nat): Word {
    if y == Min(CHROME_ROWS, height) - 1 then Argb(209, 213, 219, 255) else Argb(243, 244, 246, 255)
  }

  /** The word a full raster leaves at (x, y). It does not depend on what the buffer held before. */
  function FullPixel(list: DisplayList, scrollY: nat, width: nat, height: nat, x: nat, y: nat): Word {
    var viewport := VisibleDocumentRect(scrollY, width, height);
    PaintVisible(list.items, SourceIndices(list, viewport), viewport, x, y + scrollY,
                 if y < CHROME_ROWS then ToolbarPixel(height, y) else WHITE)
  }

  method FillToolbarBackground(a: array<Word>, width: nat, height: nat)
    requires a.Length == width * height
    modifies a
    ensures forall x: nat, y: nat :: x < width && y < height ==>
                                       At(a[..], width, x, y) ==
                                       if y < CHROME_ROWS then ToolbarPixel(height, y) else At(old(a[..]), width, x, y)
  {
    var rows := Min(CHROME_ROWS, height);
    if width == 0 || rows == 0 {
      return;
    }
    ghost var before := a[..];
    var bar, line := PixelRect(0, 0, width, rows), PixelRect(0, rows - 1, width, 1);
    FillArgbRect(a, width, height, bar, Argb(243, 244, 246, 255));
    FillArgbRect(a, width, height, line, Argb(209, 213, 219, 255));
    forall x: nat, y: nat | x < width && y < height
      ensures At(a[..], width, x, y) ==
              if y < CHROME_ROWS then ToolbarPixel(height, y) else At(before, width, x, y)
    {
      IdxBound(width, height, x, y);
      FilledInBitmap(a.Length, width, height, bar, x, y);
      FilledInBitmap(a.Length, width, height, line, x, y);
    }
  }

  lemma VisibleCell(scrollY: nat, width: nat, height: nat, x: nat, y: nat)
    requires x < width && CHROME_ROWS <= y < height
    ensures RegionHasCell(VisibleDocumentRect(scrollY, width, height), x, y + scrollY)
  {}

  /** Words the raster never filled do not show: the toolbar or the covering first item hides them. */
  lemma UnfilledWordsAreHidden(list: DisplayList, scrollY: nat, width: nat, height: nat, x: nat, y: nat, held: Word)
    requires x < width && y < height
    requires y < CHROME_ROWS ==> held == ToolbarPixel(height, y)
    requires var viewport := VisibleDocumentRect(scrollY, width, height);
             y >= CHROME_ROWS && NeedsDefaultFill(list.items, SourceIndices(list, viewport), viewport) ==> held == WHITE
    ensures var viewport := VisibleDocumentRect(scrollY, width, height);
            PaintVisible(list.items, SourceIndices(list, viewport), viewport, x, y + scrollY, held)
            == FullPixel(list, scrollY, width, height, x, y)
  {
    var viewport := VisibleDocumentRect(scrollY, width, height);
    var indices := SourceIndices(list, viewport);
    if y >= CHROME_ROWS && !NeedsDefaultFill(list.items, indices, viewport) {
      VisibleCell(scrollY, width, height, x, y);
      CellIsCovered(viewport, x, y + scrollY);
      SkippedFillHidesBase(list.items, indices, viewport, x, y + scrollY, held, WHITE);
    }
  }

  /** Rasters the whole viewport into a buffer of arbitrary words. */
  method RasterizeViewportDirect(list: DisplayList, scrollY: nat, width: nat, height: nat)
    returns (painted: bool, a: array<Word>)
    ensures fresh(a)
    ensures painted ==
            var viewport := VisibleDocumentRect(scrollY, width, height);
            ItemsSupported(list.items, SourceIndices(list, viewport), viewport)
    ensures painted ==> a.Length == width * height
    ensures painted ==> forall x: nat, y: nat :: x < width && y < height ==>
                                                   At(a[..], width, x, y) == FullPixel(list, scrollY, width, height, x, y)
  {
    var viewport := VisibleDocumentRect(scrollY, width, height);
    var indices := SourceIndices(list, viewport);
    if !ItemsSupported(list.items, indices, viewport) {
      a := new Word[0];
      return false, a;
    }
    a := new Word[width * height];
    var fill := NeedsDefaultFill(list.items, indices, viewport);
    if fill {
      FillArgbWords(a, 0, a.Length, WHITE);
    }
    ghost var filled := a[..];
    FillToolbarBackground(a, width, height);
    ghost var before := a[..];
    PaintVisibleItems(a, width, height, list.items, indices, viewport, scrollY, WholeBitmap(width, height));
    assert indices[..|indices|] == indices;
    forall x: nat, y: nat | x < width && y < height
      ensures At(a[..], width, x, y) == FullPixel(list, scrollY, width, height, x, y)
    {
      IdxBound(width, height, x, y);
      UnfilledWordsAreHidden(list, scrollY, width, height, x, y, At(before, width, x, y));
    }
    painted := true;
  }

  /** Below the chrome, a full raster shows the document's own colours. */
  lemma FullRasterShowsDocument(list: DisplayList, scrollY: nat, width: nat, height: nat, x: nat, y: nat)
    requires TilesSound(list)
    requires x < width && CHROME_ROWS <= y < height
    ensures FullPixel(list, scrollY, width, height, x, y) == DocPixel(list.items, x, y + scrollY, WHITE)
  {
    var viewport := VisibleDocumentRect(scrollY, width, height);
    VisibleCell(scrollY, width, height, x, y);
    SourceIndicesIndexed(list, viewport);
    CullingIsInvisible(list.items, |list.items|, SourceIndices(list, viewport), viewport, x, y + scrollY, WHITE);
    assert list.items[..|list.items|] == list.items;
  }

  /** Where an image is the topmost item below the chrome, a full raster shows the source pixel its scaling puts there,
      composited over what the items below it show. */
  lemma FullRasterShowsImage(list: DisplayList, scrollY: nat, width: nat, height: nat, x: nat, y: nat, k: nat,
                             col: nat, row: nat)
    requires TilesSound(list) && x < width && CHROME_ROWS <= y < height
    requires k < |list.items| && list.items[k].Image? && ItemSupported(list.items[k])
    requires CoversPixel(list.items[k].rect, x, y + scrollY)
    requires forall i :: k < i < |list.items| ==> !CoversPixel(list.items[i].rect, x, y + scrollY)
    requires IsSourceOf(list.items[k].rect, list.items[k].image, x, y + scrollY, col, row)
    ensures var image := list.items[k].image;
            Composites(DocPixel(list.items[..k], x, y + scrollY, WHITE), image.rgba, SourceIndex(image, col, row),
                       FullPixel(list, scrollY, width, height, x, y))
  {
    FullRasterShowsDocument(list, scrollY, width, height, x, y);
    TopmostDecides(list.items, k, x, y + scrollY, WHITE);
    ImageCompositesSource(list.items[k].rect, list.items[k].image, x, y + scrollY,
                          DocPixel(list.items[..k], x, y + scrollY, WHITE), col, row,
                          FullPixel(list, scrollY, width, height, x, y));
  }
}
