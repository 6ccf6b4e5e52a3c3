/** What one display item shows at one pixel, in channels and in proportions, without naming how it is computed. */
module ItemPixels {
  import opened Geometry
  import opened ArgbFill
  import opened ArgbRaster

  // ---- packed words -----------------------------------------------------------------------------------------------

  function Alpha(w: Word): Byte { w / 0x100_0000 }

  function Red(w: Word): Byte { (w / 0x1_0000) % 0x100 }

  function Green(w: Word): Byte { (w / 0x100) % 0x100 }

  function Blue(w: Word): Byte { w % 0x100 }

  /** The channels of a packed word read back. */
  lemma ArgbChannels(r: Byte, g: Byte, b: Byte, a: Byte)
    ensures var w := Argb(r, g, b, a); Red(w) == r && Green(w) == g && Blue(w) == b && Alpha(w) == a
  {
    assert Argb(r, g, b, a) == ((a * 0x100 + r) * 0x100 + g) * 0x100 + b;
  }

  /** A word is its four channels. */
  lemma ChannelsDetermine(w: Word)
    ensures w == Argb(Red(w), Green(w), Blue(w), Alpha(w))
  {
    var x := w / 0x100;
    var y := x / 0x100;
    assert w == x * 0x100 + Blue(w) && x == y * 0x100 + Green(w) && y == Alpha(w) * 0x100 + Red(w);
  }

  // ---- mixing -------------------------------------------------------------------------------------------------------

  /** `c` is the integer nearest to (src * alpha + dst * (255 - alpha)) / 255, which is never a half. */
  predicate NearestMix(c: int, src: Byte, dst: Byte, alpha: Byte) {
    -255 < 2 * (255 * c - (src * alpha + dst * (255 - alpha))) < 255
  }

  /** Blending a channel gives the nearest integer to the exact mix: none of the source at alpha 0, all at 255. */
  lemma BlendIsNearestMix(src: Byte, dst: Byte, alpha: Byte, c: int)
    ensures BlendChannel(src, dst, alpha) == c <==> NearestMix(c, src, dst, alpha)
    ensures BlendChannel(src, dst, 0) == dst && BlendChannel(src, dst, 255) == src
  {
    BlendedBound(src, dst, alpha);
    var mix := src * alpha + dst * (255 - alpha);
    assert (mix + 127) / 255 == c <==> 255 * c <= mix + 127 < 255 * c + 255;
  }

  /** `after` is `before` under the source pixel at `src`, opaque, each colour channel the nearest mix. */
  predicate Composites(before: Word, rgba: seq<Byte>, src: nat, after: Word) {
    && src + 4 <= |rgba| && Alpha(after) == 255
    && NearestMix(Red(after), rgba[src], Red(before), rgba[src + 3])
    && NearestMix(Green(after), rgba[src + 1], Green(before), rgba[src + 3])
    && NearestMix(Blue(after), rgba[src + 2], Blue(before), rgba[src + 3])
  }

  /** Copying or blending a source pixel, whichever is taken, composites it. */
  lemma CopyComposites(before: Word, rgba: seq<Byte>, src: nat, after: Word)
    requires src + 4 <= |rgba|
    ensures CopyImagePixel(before, rgba, src) == after <==> Composites(before, rgba, src, after)
  {
    var alpha := rgba[src + 3];
    var r, g, b := BlendChannel(rgba[src], Red(before), alpha), BlendChannel(rgba[src + 1], Green(before), alpha),
        BlendChannel(rgba[src + 2], Blue(before), alpha);
    BlendIsNearestMix(rgba[src], Red(before), alpha, Red(after));
    BlendIsNearestMix(rgba[src + 1], Green(before), alpha, Green(after));
    BlendIsNearestMix(rgba[src + 2], Blue(before), alpha, Blue(after));
    assert CopyImagePixel(before, rgba, src) == Argb(r, g, b, 255);
    ArgbChannels(r, g, b, 255);
    ChannelsDetermine(after);
  }

  /** A fill shows its colour, channel by channel, whatever was below. */
  lemma FillShowsColor(rect: Rect, color: Color, x: int, y: int, before: Word)
    ensures var w := PaintPixel(SolidColor(rect, color), x, y, before);
            && w == PaintPixel(RoundedRect(rect, [], color), x, y, before)
            && Red(w) == color.r && Green(w) == color.g && Blue(w) == color.b && Alpha(w) == color.a
  {
    ArgbChannels(color.r, color.g, color.b, color.a);
  }

  /** The fills the direct path takes are those for which replacing a pixel is compositing it. */
  lemma SupportedFillIff(rect: Rect, color: Color, x: int, y: int)
    ensures ItemSupported(SolidColor(rect, color)) <==>
              forall before: Word :: Composites(before, [color.r, color.g, color.b, color.a], 0,
                                                PaintPixel(SolidColor(rect, color), x, y, before))
  {
    forall before: Word
      ensures Composites(before, [color.r, color.g, color.b, color.a], 0, PaintPixel(SolidColor(rect, color), x, y, before))
              <==> color.a == 255
    {
      FillShowsColor(rect, color, x, y, before);
    }
    assert Composites(0, [color.r, color.g, color.b, color.a], 0, PaintPixel(SolidColor(rect, color), x, y, 0))
           <==> color.a == 255;
  }

  // ---- sampling an image ----------------------------------------------------------------------------------------------

  /** Of `n` columns spread evenly over an extent `e`, column `c` is the one at distance `o` from the near edge. */
  predicate IsColumnAt(o: real, e: real, n: nat, c: nat) {
    c < n && c as real * e <= o * n as real < (c + 1) as real * e
  }

  lemma ScaledOrder(a: real, b: real, e: real)
    requires e > 0.0
    ensures a <= b <==> a * e <= b * e
  {
    if a < b { assert (b - a) * e > 0.0; }
    if b < a { assert (a - b) * e > 0.0; }
  }

  lemma ScaledBetween(lo: real, q: real, hi: real, e: real, p: real)
    requires e > 0.0 && q * e == p
    ensures lo <= q < hi <==> lo * e <= p < hi * e
  {
    ScaledOrder(lo, q, e);
    ScaledOrder(hi, q, e);
  }

  lemma ScaledOffsetTimes(o: real, e: real, n: nat)
    requires e > 0.0
    ensures ScaledOffset(o, e, n) * e == o * n as real
  {}

  /** The scaled offset of a point inside the extent lies among the columns. */
  lemma ScaledOffsetWithin(o: real, e: real, n: nat)
    requires 0.0 <= o < e && n > 0
    ensures 0.0 <= ScaledOffset(o, e, n) < n as real
  {
    var q, m := ScaledOffset(o, e, n), n as real;
    ScaledOffsetTimes(o, e, n);
    ScaledBetween(0.0, o, e, m, o * m);
    ScaledBetween(0.0, q, m, e, o * m);
  }

  /** Inside the extent, the sampled column is the one that covers the offset. */
  lemma SourceCoordIff(o: real, e: real, n: nat, c: nat)
    requires 0.0 <= o < e && n > 0
    ensures ImageSourceCoord(o, e, n) == c <==> IsColumnAt(o, e, n, c)
  {
    var q := ScaledOffset(o, e, n);
    ScaledOffsetWithin(o, e, n);
    ScaledOffsetTimes(o, e, n);
    ScaledBetween(c as real, q, (c + 1) as real, e, o * n as real);
    assert q.Floor == c <==> c as real <= q < (c + 1) as real;
    assert 0 <= q.Floor < n;
    assert ImageSourceCoord(o, e, n) == q.Floor;
  }

  /** The distance of a pixel's left or upper edge from an item's, none when the pixel begins before the item. */
  function FromEdge(p: int, edge: real): real { if p as real < edge then 0.0 else p as real - edge }

  /** Source pixel (col, row) is the one an image scaled to `rect`, at least one pixel wide and high, has at (x, y). */
  predicate IsSourceOf(rect: Rect, image: ImageSurface, x: int, y: int, col: nat, row: nat) {
    && IsColumnAt(FromEdge(x, rect.x), AtLeastOne(rect.width), image.width, col)
    && IsColumnAt(FromEdge(y, rect.y), AtLeastOne(rect.height), image.height, row)
  }

  function SourceIndex(image: ImageSurface, col: nat, row: nat): nat { (row * image.width + col) * 4 }

  lemma CoveredOffset(edge: real, extent: real, p: int)
    requires extent > 0.0 && p < Ceil(edge + extent)
    ensures 0.0 <= FromEdge(p, edge) < AtLeastOne(extent)
  {
    assert -(edge + extent) < ((-(edge + extent)).Floor + 1) as real;
  }

  /** Every pixel an image covers has exactly one source pixel, the one that is sampled. */
  lemma SampledSource(rect: Rect, image: ImageSurface, x: int, y: int, col: nat, row: nat)
    requires CoversPixel(rect, x, y) && image.width > 0 && image.height > 0
    ensures IsSourceOf(rect, image, x, y, col, row)
            <==> && col == ImageSourceCoord(x as real - rect.x, AtLeastOne(rect.width), image.width)
                 && row == ImageSourceCoord(y as real - rect.y, AtLeastOne(rect.height), image.height)
  {
    CoveredOffset(rect.x, rect.width, x);
    CoveredOffset(rect.y, rect.height, y);
    SourceCoordIff(FromEdge(x, rect.x), AtLeastOne(rect.width), image.width, col);
    SourceCoordIff(FromEdge(y, rect.y), AtLeastOne(rect.height), image.height, row);
  }

  lemma SourceInRange(image: ImageSurface, col: nat, row: nat)
    requires col < image.width && row < image.height && |image.rgba| >= image.width * image.height * 4
    ensures SourceIndex(image, col, row) + 4 <= |image.rgba|
  {
    IdxBound(image.width, image.height, col, row);
  }

  /** The images the direct path takes are those with pixels, all of them whole. */
  lemma SupportedImageIff(rect: Rect, image: ImageSurface)
    ensures ItemSupported(Image(rect, image)) <==>
              && image.width > 0 && image.height > 0
              && forall col: nat, row: nat :: col < image.width && row < image.height ==>
                                                SourceIndex(image, col, row) + 4 <= |image.rgba|
  {
    if image.width > 0 && image.height > 0 {
      var col, row := image.width - 1, image.height - 1;
      assert row * image.width + col + 1 == image.height * image.width;
      assert SourceIndex(image, col, row) + 4 == image.width * image.height * 4;
    }
    if ItemSupported(Image(rect, image)) {
      forall col: nat, row: nat | col < image.width && row < image.height
        ensures SourceIndex(image, col, row) + 4 <= |image.rgba|
      {
        SourceInRange(image, col, row);
      }
    }
  }

  /** An image item composites, at each pixel it covers, the source pixel its scaling puts there. */
  lemma ImageCompositesSource(rect: Rect, image: ImageSurface, x: int, y: int, before: Word, col: nat, row: nat, after: Word)
    requires CoversPixel(rect, x, y) && ItemSupported(Image(rect, image))
    requires IsSourceOf(rect, image, x, y, col, row)
    ensures ImagePixel(rect, image, x, y, before) == after
            <==> Composites(before, image.rgba, SourceIndex(image, col, row), after)
  {
    SampledSource(rect, image, x, y, col, row);
    SourceInRange(image, col, row);
    CopyComposites(before, image.rgba, SourceIndex(image, col, row), after);
  }

  // ---- the order of items -----------------------------------------------------------------------------------------------

  /** The topmost item decides: what it makes of the page below it, when no later item covers the pixel. */
  lemma {:induction false} TopmostDecides(items: seq<DisplayItem>, k: nat, x: int, y: int, base: Word)
    requires k < |items| && CoversPixel(items[k].rect, x, y)
    requires forall i :: k < i < |items| ==> !CoversPixel(items[i].rect, x, y)
    ensures DocPixel(items, x, y, base) == PaintPixel(items[k], x, y, DocPixel(items[..k], x, y, base))
  {
    var n := |items| - 1;
    if k < n {
      TopmostDecides(items[..n], k, x, y, base);
      assert items[..n][..k] == items[..k];
    }
  }

  /** Where no item covers the pixel, the base shows. */
  lemma {:induction false} UncoveredShowsBase(items: seq<DisplayItem>, x: int, y: int, base: Word)
    requires forall i :: 0 <= i < |items| ==> !CoversPixel(items[i].rect, x, y)
    ensures DocPixel(items, x, y, base) == base
  {
    if |items| > 0 {
      UncoveredShowsBase(items[..|items| - 1], x, y, base);
    }
  }
}
