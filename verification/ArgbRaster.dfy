/** The direct ARGB rasterizer: painting display items in order over the whole viewport or over one damage rect. */
module ArgbRaster {
  import opened Geometry
  import opened ArgbFill

  datatype Color = Color(r: Byte, g: Byte, b: Byte, a: Byte)

  datatype ImageSurface = ImageSurface(width: nat, height: nat, rgba: seq<Byte>)

  /** The items the direct path can meet. `Unsupported` stands for shadows, gradients, filters and unresolved
      frames, which send the frame down another path; `rect` is the item's display rect. */
  datatype DisplayItem =
    | SolidColor(rect: Rect, color: Color)
    | RoundedRect(rect: Rect, radii: seq<real>, color: Color)
    | Image(rect: Rect, image: ImageSurface)
    | Unsupported(rect: Rect)

  /** The page's items in paint order, with an optional tile index that answers rect queries. */
  datatype DisplayList = DisplayList(items: seq<DisplayItem>, tiles: Option<Rect -> seq<nat>>)

  /** A tile index never misses an item that meets the rect it is asked about. */
  ghost predicate TilesSound(list: DisplayList) {
    list.tiles.Some? ==>
      forall r: Rect, i :: 0 <= i < |list.items| && RectsIntersect(list.items[i].rect, r) ==> i in list.tiles.value(r)
  }

  // ---- one item on one pixel -------------------------------------------------------------------------------

  function ColorWord(c: Color): Word { Argb(c.r, c.g, c.b, c.a) }

  function Blended(src: Byte, dst: Byte, alpha: Byte): int { src * alpha + dst * (255 - alpha) }

  lemma ScaledByte(v: Byte, k: Byte)
    ensures 0 <= v * k <= 255 * k
  {}

  lemma BlendedBound(src: Byte, dst: Byte, alpha: Byte)
    ensures 0 <= Blended(src, dst, alpha) <= 255 * 255
  {
    ScaledByte(src, alpha);
    ScaledByte(dst, 255 - alpha);
  }

  /** Rounded source-over on one channel, in unsigned 16-bit arithmetic that never overflows. */
  function BlendChannel(src: Byte, dst: Byte, alpha: Byte): Byte {
    BlendedBound(src, dst, alpha);
    (Blended(src, dst, alpha) + 127) / 255
  }

  function BlendImagePixel(dst: Word, r: Byte, g: Byte, b: Byte, alpha: Byte): Word {
    Argb(BlendChannel(r, (dst / 0x1_0000) % 0x100, alpha),
         BlendChannel(g, (dst / 0x100) % 0x100, alpha),
         BlendChannel(b, dst % 0x100, alpha),
         255)
  }

  function ScaledOffset(offset: real, extent: real, src: nat): real
    requires extent > 0.0
  {
    offset * src as real / extent
  }

  function ImageSourceCoord(offset: real, extent: real, src: nat): nat
    requires extent > 0.0
  {
    var clamped := if offset < 0.0 then 0.0 else offset;
    Min(Max(ScaledOffset(clamped, extent, src).Floor, 0), if src == 0 then 0 else src - 1)
  }

  function CopyImagePixel(before: Word, rgba: seq<Byte>, src: nat): Word {
    if src + 4 > |rgba| then before
    else if rgba[src + 3] == 255 then Argb(rgba[src], rgba[src + 1], rgba[src + 2], 255)
    else BlendImagePixel(before, rgba[src], rgba[src + 1], rgba[src + 2], rgba[src + 3])
  }

  function AtLeastOne(r: real): real { if r < 1.0 then 1.0 else r }

  /** The image word an image item at `rect` shows at (x, y), given the word below it. */
  function ImagePixel(rect: Rect, image: ImageSurface, x: int, y: int, before: Word): Word {
    var srcY := ImageSourceCoord(y as real - rect.y, AtLeastOne(rect.height), image.height);
    var srcX := ImageSourceCoord(x as real - rect.x, AtLeastOne(rect.width), image.width);
    CopyImagePixel(before, image.rgba, (srcY * image.width + srcX) * 4)
  }

  /** What an item that covers document pixel (x, y) makes of the word below it. */
  function PaintPixel(item: DisplayItem, x: int, y: int, before: Word): Word {
    match item
    case SolidColor(_, color) => ColorWord(color)
    case RoundedRect(_, _, color) => ColorWord(color)
    case Image(rect, image) => ImagePixel(rect, image, x, y, before)
    case Unsupported(_) => before
  }

  /** The document's colour at (x, y): every item that covers the pixel, painted in order over `base`.
      It mentions no viewport, scroll, damage, clip or tile. */
  function DocPixel(items: seq<DisplayItem>, x: int, y: int, base: Word): Word {
    if |items| == 0 then base
    else
      var top := items[|items| - 1];
      var below := DocPixel(items[..|items| - 1], x, y, base);
      if CoversPixel(top.rect, x, y) then PaintPixel(top, x, y, below) else below
  }

  // ---- which items one raster call paints ------------------------------------------------------------------

  predicate Ascending(s: seq<nat>) {
    forall i, j :: 0 <= i < j < |s| ==> s[i] < s[j]
  }

  /** The members of `s` below `n` in ascending order: sorting, removing duplicates, and dropping the indices
      that name no item. */
  function AscendingMembers(s: seq<nat>, n: nat): seq<nat> {
    if n == 0 then []
    else AscendingMembers(s, n - 1) + if n - 1 in s then [n - 1] else []
  }

  function AllIndices(n: nat): seq<nat> {
    if n == 0 then [] else AllIndices(n - 1) + [n - 1]
  }

  function SourceIndices(list: DisplayList, region: Rect): seq<nat> {
    match list.tiles
    case None => AllIndices(|list.items|)
    case Some(index) => AscendingMembers(index(region), |list.items|)
  }

  lemma {:induction false} AscendingMembersAre(s: seq<nat>, n: nat)
    ensures Ascending(AscendingMembers(s, n))
    ensures forall k :: 0 <= k < |AscendingMembers(s, n)| ==> AscendingMembers(s, n)[k] < n
    ensures forall i :: i in s && i < n ==> i in AscendingMembers(s, n)
  {
    if n > 0 { AscendingMembersAre(s, n - 1); }
  }

  lemma {:induction false} AllIndicesAre(n: nat)
    ensures |AllIndices(n)| == n && Ascending(AllIndices(n))
    ensures forall k :: 0 <= k < n ==> AllIndices(n)[k] == k && k in AllIndices(n)
  {
    if n > 0 { AllIndicesAre(n - 1); }
  }

  /** With or without tiles, the indices a raster call walks are every item that meets its region, in paint order. */
  lemma SourceIndicesIndexed(list: DisplayList, region: Rect)
    requires TilesSound(list)
    ensures Indexed(list.items, |list.items|, SourceIndices(list, region), region)
  {
    match list.tiles
    case None => AllIndicesAre(|list.items|);
    case Some(index) => AscendingMembersAre(index(region), |list.items|);
  }

  predicate Visible(items: seq<DisplayItem>, i: nat, region: Rect) {
    i < |items| && RectsIntersect(items[i].rect, region)
  }

  predicate ItemSupported(item: DisplayItem) {
    match item
    case SolidColor(_, color) => color.a == 255
    case RoundedRect(_, radii, color) => color.a == 255 && forall r :: r in radii ==> r <= 0.0
    case Image(_, image) =>
      image.width > 0 && image.height > 0 && |image.rgba| >= image.width * image.height * 4
    case Unsupported(_) => false
  }

  predicate ItemsSupported(items: seq<DisplayItem>, indices: seq<nat>, region: Rect) {
    forall k :: 0 <= k < |indices| && Visible(items, indices[k], region) ==> ItemSupported(items[indices[k]])
  }

  predicate OpaqueFillCovers(item: DisplayItem, region: Rect) {
    match item
    case SolidColor(rect, color) => color.a == 255 && RectContainsRect(rect, region)
    case RoundedRect(rect, radii, color) =>
      color.a == 255 && (forall r :: r in radii ==> r <= 0.0) && RectContainsRect(rect, region)
    case _ => false
  }

  /** No white fill is needed exactly when the first visible item is an opaque fill of the whole region. */
  predicate NeedsDefaultFill(items: seq<DisplayItem>, indices: seq<nat>, region: Rect) {
    if |indices| == 0 then true
    else if Visible(items, indices[0], region) then !OpaqueFillCovers(items[indices[0]], region)
    else NeedsDefaultFill(items, indices[1..], region)
  }

  /** The word a raster call over `region` leaves at document pixel (x, y): the visible items among `indices`. */
  function PaintVisible(items: seq<DisplayItem>, indices: seq<nat>, region: Rect, x: int, y: int, base: Word): Word {
    if |indices| == 0 then base
    else
      var top := indices[|indices| - 1];
      var below := PaintVisible(items, indices[..|indices| - 1], region, x, y, base);
      if Visible(items, top, region) && CoversPixel(items[top].rect, x, y) then PaintPixel(items[top], x, y, below)
      else below
  }

  /** The word a damage repaint of `damage` leaves at a pixel of its clip that held `before`. */
  function DamagePixel(list: DisplayList, damage: Rect, x: int, y: int, before: Word): Word {
    var indices := SourceIndices(list, damage);
    PaintVisible(list.items, indices, damage, x, y,
                 if NeedsDefaultFill(list.items, indices, damage) then WHITE else before)
  }

  // ---- culling is invisible ----------------------------------------------------------------------------------

  /** Every one of the first `n` items that meets the region is indexed, and nothing beyond them is. */
  predicate Indexed(items: seq<DisplayItem>, n: nat, indices: seq<nat>, region: Rect) {
    && n <= |items| && Ascending(indices)
    && (forall k :: 0 <= k < |indices| ==> indices[k] < n)
    && (forall i :: 0 <= i < n && RectsIntersect(items[i].rect, region) ==> i in indices)
  }

  lemma IndexedPrefix(items: seq<DisplayItem>, n: nat, indices: seq<nat>, region: Rect)
    requires n > 0 && Indexed(items, n, indices, region)
    ensures var last := |indices| - 1;
            if last >= 0 && indices[last] == n - 1 then Indexed(items, n - 1, indices[..last], region)
            else Indexed(items, n - 1, indices, region) && !RectsIntersect(items[n - 1].rect, region)
  {}

  /** Painting only the visible items of a sound, sorted index list equals painting every item. */
  lemma {:induction false} CullingIsInvisible(items: seq<DisplayItem>, n: nat, indices: seq<nat>, region: Rect,
                                              x: int, y: int, base: Word)
    requires Indexed(items, n, indices, region)
    requires RegionHasCell(region, x, y)
    ensures PaintVisible(items, indices, region, x, y, base) == DocPixel(items[..n], x, y, base)
  {
    if n > 0 {
      IndexedPrefix(items, n, indices, region);
      assert items[..n][..n - 1] == items[..n - 1];
      if CoversPixel(items[n - 1].rect, x, y) { CoverMeetsRegion(items[n - 1].rect, region, x, y); }
      var last := |indices| - 1;
      if last >= 0 && indices[last] == n - 1 {
        CullingIsInvisible(items, n - 1, indices[..last], region, x, y, base);
      } else {
        CullingIsInvisible(items, n - 1, indices, region, x, y, base);
      }
    }
  }

  /** A skipped default fill leaves nothing of what the buffer held: the covering item hides the base. */
  lemma {:induction false} SkippedFillHidesBase(items: seq<DisplayItem>, indices: seq<nat>, region: Rect,
                                                x: int, y: int, base: Word, base': Word)
    requires !NeedsDefaultFill(items, indices, region)
    requires CoversPixel(region, x, y)
    ensures PaintVisible(items, indices, region, x, y, base) == PaintVisible(items, indices, region, x, y, base')
  {
    var k := FirstVisible(items, indices, region);
    ContainedCovers(items[indices[k]].rect, region, x, y);
    PrefixHidesBase(items, indices, k, |indices|, region, x, y, base, base');
    assert indices[..|indices|] == indices;
  }

  lemma {:induction false} FirstVisible(items: seq<DisplayItem>, indices: seq<nat>, region: Rect) returns (k: nat)
    requires !NeedsDefaultFill(items, indices, region)
    ensures k < |indices| && Visible(items, indices[k], region) && OpaqueFillCovers(items[indices[k]], region)
    ensures forall j :: 0 <= j < k ==> !Visible(items, indices[j], region)
  {
    if Visible(items, indices[0], region) {
      k := 0;
    } else {
      var rest := FirstVisible(items, indices[1..], region);
      k := rest + 1;
      assert forall j :: 0 < j <= k ==> indices[j] == indices[1..][j - 1];
    }
  }

  lemma {:induction false} PrefixHidesBase(items: seq<DisplayItem>, indices: seq<nat>, k: nat, n: nat, region: Rect,
                                           x: int, y: int, base: Word, base': Word)
    requires k < n <= |indices|
    requires Visible(items, indices[k], region) && OpaqueFillCovers(items[indices[k]], region)
    requires CoversPixel(items[indices[k]].rect, x, y)
    ensures PaintVisible(items, indices[..n], region, x, y, base)
         == PaintVisible(items, indices[..n], region, x, y, base')
  {
    assert indices[..n][..n - 1] == indices[..n - 1];
    if n - 1 > k {
      PrefixHidesBase(items, indices, k, n - 1, region, x, y, base, base');
    }
  }

  // ---- damage repaint is exact, and exactly when ---------------------------------------------------------------

  /** Every whole pixel of the clip lies inside the damage rect that was rounded out to it. */
  predicate DamageCoversClip(damage: Rect, clip: PixelRect, scrollY: nat) {
    && damage.x <= clip.x as real && (clip.x + clip.width) as real <= damage.x + damage.width
    && damage.y <= (clip.y + scrollY) as real
    && (clip.y + clip.height + scrollY) as real <= damage.y + damage.height
  }

  /** A damage repaint restores the document's own colour at every pixel whose cell the damage contains,
      whatever the buffer held, through a sound tile index or none, with or without the default fill. */
  lemma DamageRestoresDocument(list: DisplayList, damage: Rect, x: int, y: int, before: Word)
    requires TilesSound(list)
    requires RegionHasCell(damage, x, y)
    ensures DamagePixel(list, damage, x, y, before) == DocPixel(list.items, x, y, WHITE)
  {
    var indices := SourceIndices(list, damage);
    SourceIndicesIndexed(list, damage);
    CullingIsInvisible(list.items, |list.items|, indices, damage, x, y, WHITE);
    assert list.items[..|list.items|] == list.items;
    if !NeedsDefaultFill(list.items, indices, damage) {
      CellIsCovered(damage, x, y);
      SkippedFillHidesBase(list.items, indices, damage, x, y, before, WHITE);
    }
  }

  lemma CellIsCovered(region: Rect, x: int, y: int)
    requires RegionHasCell(region, x, y)
    ensures CoversPixel(region, x, y)
  {}

  /** The repaint of `damage` is right at every pixel of `clip`, for this list and any buffer. */
  ghost predicate RepaintsExactly(list: DisplayList, damage: Rect, clip: PixelRect, scrollY: nat) {
    forall x, y, before: Word :: Inside(clip, x, y - scrollY) ==>
                                   DamagePixel(list, damage, x, y, before) == DocPixel(list.items, x, y, WHITE)
  }

  ghost predicate ExactForEveryList(damage: Rect, clip: PixelRect, scrollY: nat) {
    forall list: DisplayList | TilesSound(list) && (forall i :: 0 <= i < |list.items| ==> ItemSupported(list.items[i])) ::
      RepaintsExactly(list, damage, clip, scrollY)
  }

  const BLACK: Color := Color(0, 0, 0, 255)

  /** A display list whose one item is a black fill. */
  function OneFill(rect: Rect): DisplayList { DisplayList([SolidColor(rect, BLACK)], None) }

  /** A fill that covers a clip pixel but only meets the damage's edge is dropped by the repaint. */
  lemma MissedFill(damage: Rect, clip: PixelRect, scrollY: nat, rect: Rect, x: int, y: int)
    requires Inside(clip, x, y)
    requires CoversPixel(rect, x, y + scrollY)
    requires !RectsIntersect(rect, damage)
    ensures !ExactForEveryList(damage, clip, scrollY)
  {
    var list := OneFill(rect);
    var indices := SourceIndices(list, damage);
    assert indices == [0];
    assert NeedsDefaultFill(list.items, [0], damage);
    assert [0][..0] == [];
    assert PaintVisible(list.items, [0], damage, x, y + scrollY, WHITE) == WHITE;
    assert list.items[..0] == [];
    assert DocPixel(list.items, x, y + scrollY, WHITE) == ColorWord(BLACK);
    assert DamagePixel(list, damage, x, y + scrollY, WHITE) == WHITE;
    assert !RepaintsExactly(list, damage, clip, scrollY);
    assert TilesSound(list) && forall i :: 0 <= i < |list.items| ==> ItemSupported(list.items[i]);
  }

  /** A damage repaint is exact for every supported page if and only if the damage contains the cells of its
      clip. A fractional damage edge inside the bitmap therefore loses items, and nothing else does. */
  lemma DamageExactIff(damage: Rect, scrollY: nat, width: nat, height: nat, clip: PixelRect)
    requires PixelRectFromRect(Shifted(damage, scrollY), width, height) == Some(clip)
    ensures ExactForEveryList(damage, clip, scrollY) <==> DamageCoversClip(damage, clip, scrollY)
  {
    if DamageCoversClip(damage, clip, scrollY) {
      forall list: DisplayList | TilesSound(list)
        ensures RepaintsExactly(list, damage, clip, scrollY)
      {
        forall x, y, before: Word | Inside(clip, x, y - scrollY)
          ensures DamagePixel(list, damage, x, y, before) == DocPixel(list.items, x, y, WHITE)
        {
          DamageRestoresDocument(list, damage, x, y, before);
        }
      }
    } else {
      FractionalEdgeLosesItem(damage, scrollY, width, height, clip);
    }
  }

  lemma FractionalEdgeLosesItem(damage: Rect, scrollY: nat, width: nat, height: nat, clip: PixelRect)
    requires PixelRectFromRect(Shifted(damage, scrollY), width, height) == Some(clip)
    requires !DamageCoversClip(damage, clip, scrollY)
    ensures !ExactForEveryList(damage, clip, scrollY)
  {
    var right, bottom := damage.x + damage.width, damage.y + damage.height;
    var left, top := clip.x as real, (clip.y + scrollY) as real;
    var x1, y1 := clip.x + clip.width, clip.y + clip.height;
    assert Inside(clip, clip.x, clip.y) && Inside(clip, x1 - 1, y1 - 1);
    FloorShift(damage.y, scrollY);
    FloorShift(bottom, scrollY);
    assert Shifted(damage, scrollY).y + damage.height == bottom - scrollY as real;
    if damage.x > left {
      var rect := Rect(left, top, damage.x - left, 1.0);
      CeilAtLeast(damage.x, clip.x);
      MissedFill(damage, clip, scrollY, rect, clip.x, clip.y);
    } else if damage.y > top {
      var rect := Rect(left, top, 1.0, damage.y - top);
      CeilAtLeast(damage.y, clip.y + scrollY);
      MissedFill(damage, clip, scrollY, rect, clip.x, clip.y);
    } else if right < x1 as real {
      var rect := Rect(right, (y1 - 1 + scrollY) as real, x1 as real - right, 1.0);
      MissedFill(damage, clip, scrollY, rect, x1 - 1, y1 - 1);
    } else {
      var rect := Rect((x1 - 1) as real, bottom, 1.0, (y1 + scrollY) as real - bottom);
      MissedFill(damage, clip, scrollY, rect, x1 - 1, y1 - 1);
    }
  }

  lemma CeilAtLeast(r: real, n: int)
    requires n as real < r
    ensures n + 1 <= Ceil(r)
  {}
}
