/** Bitmap text on a page: the bounds computed before painting, and the painter itself. */
module PageText {
  import opened Geometry
  import opened ArgbFill
  import opened ViewportRaster

  /** Seven rows of five pixels, the leftmost in bit 4. */
  type Glyph = g: seq<bv8> | |g| == 7 witness [0, 0, 0, 0, 0, 0, 0]

  /** The glyph of a character, if the page font has one. */
  type Font = char -> Option<Glyph>

  datatype Metrics = Metrics(scale: nat, advance: nat, lineHeight: nat, space: nat)

  /** Rounding half away from zero. */
  function Round(r: real): int { if r >= 0.0 then (r + 0.5).Floor else -((-r + 0.5).Floor) }

  /** The nearest integer, and of two equally near the one further from zero. */
  lemma RoundIsNearest(r: real, n: int)
    ensures Round(r) == n <==> if r >= 0.0 then -0.5 <= r - n as real < 0.5 else -0.5 < r - n as real <= 0.5
  {}

  function PageBitmapTextMetrics(fontSize: real): Option<Metrics> {
    if fontSize <= 0.0 then None
    else Some(Metrics(Max(Round(fontSize / 12.0), 1), Max(Round(fontSize * 0.55), 6),
                      Max(Round(fontSize * 1.2), 8), Max(Round(fontSize * 0.33), 3)))
  }

  /** A glyph never reaches past its own advance or below its own line, at any font size. */
  lemma GlyphFitsMetrics(fontSize: real)
    requires fontSize > 0.0
    ensures var m := PageBitmapTextMetrics(fontSize).value; 5 * m.scale <= m.advance && 7 * m.scale <= m.lineHeight
  {}

  // ---- layout -----------------------------------------------------------------------------------------------------------

  datatype Pen = Pen(x: int, y: int)

  predicate IsSpacing(c: char) { c == '\n' || c == '\r' || c == '\t' || c == ' ' }

  /** The character can be laid out: spacing, or an ASCII character of the font. */
  predicate DrawableChar(c: char, font: Font) { IsSpacing(c) || ((c as int) < 128 && font(c).Some?) }

  predicate Drawable(text: string, font: Font) { forall i :: 0 <= i < |text| ==> DrawableChar(text[i], font) }

  /** Where one character moves the pen, on lines that begin at `lineX`. */
  function StepPen(pen: Pen, c: char, m: Metrics, lineX: int): Pen {
    if c == '\n' then Pen(lineX, pen.y + m.lineHeight)
    else if c == '\r' then pen
    else if c == '\t' then Pen(pen.x + m.space * 4, pen.y)
    else if c == ' ' then Pen(pen.x + m.space, pen.y)
    else Pen(pen.x + m.advance, pen.y)
  }

  /** Where the pen stands after a text started at `start`. */
  function PenAfter(text: string, m: Metrics, start: Pen): Pen {
    if |text| == 0 then start
    else StepPen(PenAfter(text[..|text| - 1], m, start), text[|text| - 1], m, start.x)
  }

  lemma PenStep(text: string, i: nat, m: Metrics, start: Pen)
    requires i < |text|
    ensures PenAfter(text[..i + 1], m, start) == StepPen(PenAfter(text[..i], m, start), text[i], m, start.x)
  {
    assert text[..i + 1][..i] == text[..i];
  }

  /** A glyph whose top left pixel is (x, y). */
  datatype PlacedGlyph = PlacedGlyph(glyph: Glyph, x: int, y: int)

  /** The glyphs of a drawable text, each where the pen stood when it was reached. */
  function GlyphsOf(text: string, m: Metrics, start: Pen, font: Font): seq<PlacedGlyph>
    requires Drawable(text, font)
  {
    if |text| == 0 then []
    else
      var init, c := text[..|text| - 1], text[|text| - 1];
      var pen := PenAfter(init, m, start);
      GlyphsOf(init, m, start, font) + if IsSpacing(c) then [] else [PlacedGlyph(font(c).value, pen.x, pen.y)]
  }

  /** The part of a text before its first character that cannot be drawn. */
  function DrawablePrefix(text: string, font: Font): (p: string)
    ensures p <= text && Drawable(p, font) && (p == text || !DrawableChar(text[|p|], font))
  {
    if |text| == 0 || !DrawableChar(text[0], font) then ""
    else [text[0]] + DrawablePrefix(text[1..], font)
  }

  lemma {:induction false} PenShifts(text: string, m: Metrics, start: Pen)
    ensures var pen := PenAfter(text, m, Pen(0, 0)); PenAfter(text, m, start) == Pen(start.x + pen.x, start.y + pen.y)
  {
    if |text| > 0 {
      PenShifts(text[..|text| - 1], m, start);
    }
  }

  function Count(text: string, c: char): nat {
    if |text| == 0 then 0 else Count(text[..|text| - 1], c) + if text[|text| - 1] == c then 1 else 0
  }

  /** How far a line without newlines takes the pen, by the characters it counts. */
  function LineWidth(line: string, m: Metrics): int {
    m.space * (Count(line, ' ') + 4 * Count(line, '\t'))
    + m.advance * (|line| - Count(line, ' ') - Count(line, '\t') - Count(line, '\r'))
  }

  lemma LineWidthGrows(line: string, c: char, m: Metrics)
    requires c != '\n'
    ensures LineWidth(line + [c], m) == StepPen(Pen(LineWidth(line, m), 0), c, m, 0).x
  {
    assert (line + [c])[..|line|] == line;
  }

  /** The characters from `from` on are the last line, and tell how far along the pen stands; the newlines, how low. */
  predicate CountedPen(text: string, from: nat, m: Metrics, start: Pen)
    requires from <= |text|
  {
    PenAfter(text, m, start) == Pen(start.x + LineWidth(text[from..], m), start.y + LinesDown(Count(text, '\n'), m))
  }

  function LinesDown(n: nat, m: Metrics): int { n * m.lineHeight }

  lemma LinesDownGrows(n: nat, m: Metrics)
    ensures LinesDown(n + 1, m) == LinesDown(n, m) + m.lineHeight
  {}

  lemma CountedStep(init: string, c: char, from: nat, m: Metrics, start: Pen)
    requires from <= |init| && c != '\n' && CountedPen(init, from, m, start)
    ensures CountedPen(init + [c], from, m, start)
  {
    assert (init + [c])[..|init|] == init && (init + [c])[from..] == init[from..] + [c];
    LineWidthGrows(init[from..], c, m);
  }

  lemma CountedNewline(init: string, from: nat, m: Metrics, start: Pen)
    requires from <= |init| && CountedPen(init, from, m, start)
    ensures CountedPen(init + ['\n'], |init| + 1, m, start)
  {
    var text := init + ['\n'];
    assert text[..|init|] == init && text[|init| + 1..] == [];
    assert Count(text, '\n') == Count(init, '\n') + 1;
    LinesDownGrows(Count(init, '\n'), m);
    assert LineWidth([], m) == 0;
  }

  /** The pen stands one line height lower per newline, and as far along as the characters since the last one take it. */
  lemma {:induction false} PenByCounting(text: string, from: nat, m: Metrics, start: Pen)
    requires from <= |text| && (from > 0 ==> text[from - 1] == '\n') && '\n' !in text[from..]
    ensures CountedPen(text, from, m, start)
  {
    if |text| > 0 {
      var init, c := text[..|text| - 1], text[|text| - 1];
      assert text == init + [c];
      if from < |text| {
        assert text[from..] == init[from..] + [c];
        PenByCounting(init, from, m, start);
        CountedStep(init, c, from, m, start);
      } else {
        var last := LastNewline(init);
        PenByCounting(init, last, m, start);
        CountedNewline(init, last, m, start);
      }
    } else {
      assert text[from..] == [] && LineWidth([], m) == 0 && LinesDown(0, m) == 0;
    }
  }

  lemma {:induction false} LastNewline(text: string) returns (from: nat)
    ensures from <= |text| && (from > 0 ==> text[from - 1] == '\n') && '\n' !in text[from..]
  {
    from := |text|;
    while from > 0 && text[from - 1] != '\n'
      invariant from <= |text| && '\n' !in text[from..]
    {
      from := from - 1;
    }
  }

  // ---- bounds -------------------------------------------------------------------------------------------------------------

  predicate PenWithin(text: string, n: nat, m: Metrics, width: int)
    requires n <= |text|
  {
    forall k :: 0 <= k <= n ==> PenAfter(text[..k], m, Pen(0, 0)).x <= width
  }

  lemma PenWithinGrows(text: string, i: nat, m: Metrics, limit: int, limit': int)
    requires i < |text| && PenWithin(text, i, m, limit) && limit <= limit'
    requires StepPen(PenAfter(text[..i], m, Pen(0, 0)), text[i], m, 0).x <= limit'
    ensures PenWithin(text, i + 1, m, limit')
  {
    PenStep(text, i, m, Pen(0, 0));
  }

  /** The box is as wide as the furthest the pen ever gets, and as tall as the lines. */
  predicate BoundsOf(text: string, m: Metrics, width: nat, height: nat) {
    if |text| == 0 then width == 0 && height == 0
    else
      && PenWithin(text, |text|, m, width)
      && (exists i :: 0 <= i <= |text| && PenAfter(text[..i], m, Pen(0, 0)).x == width)
      && height == PenAfter(text, m, Pen(0, 0)).y + m.lineHeight
  }

  /** The counters after `i` characters: the pen on its line, the furthest it got on earlier lines, and the lines. */
  ghost predicate Measured(text: string, i: nat, m: Metrics, current: int, widest: int, lines: int)
    requires i <= |text|
  {
    && 0 <= current && 0 <= widest && 1 <= lines
    && PenAfter(text[..i], m, Pen(0, 0)) == Pen(current, (lines - 1) * m.lineHeight)
    && PenWithin(text, i, m, Max(widest, current))
    && PenReaches(text, i, m, widest)
  }

  ghost predicate PenReaches(text: string, n: nat, m: Metrics, x: int)
    requires n <= |text|
  {
    exists k :: 0 <= k <= n && PenAfter(text[..k], m, Pen(0, 0)).x == x
  }

  lemma MeasuredStep(text: string, i: nat, m: Metrics, current: int, widest: int, lines: int, current': int)
    requires i < |text| && text[i] != '\n' && Measured(text, i, m, current, widest, lines)
    requires current' == StepPen(Pen(current, 0), text[i], m, 0).x
    ensures Measured(text, i + 1, m, current', widest, lines)
  {
    PenStep(text, i, m, Pen(0, 0));
    PenWithinGrows(text, i, m, Max(widest, current), Max(widest, current'));
  }

  lemma MeasuredNewLine(text: string, i: nat, m: Metrics, current: int, widest: int, lines: int)
    requires i < |text| && text[i] == '\n' && Measured(text, i, m, current, widest, lines)
    ensures Measured(text, i + 1, m, 0, Max(widest, current), lines + 1)
  {
    PenStep(text, i, m, Pen(0, 0));
    LineBelow(lines, m.lineHeight);
    PenWithinGrows(text, i, m, Max(widest, current), Max(widest, current));
  }

  lemma MeasuredAll(text: string, m: Metrics, current: int, widest: int, lines: int)
    requires |text| > 0 && Measured(text, |text|, m, current, widest, lines)
    ensures 0 <= lines * m.lineHeight && BoundsOf(text, m, Max(widest, current), lines * m.lineHeight)
  {
    assert text[..|text|] == text;
    LineBelow(lines, m.lineHeight);
    MulMono(0, lines, m.lineHeight);
    if current > widest { assert PenAfter(text[..|text|], m, Pen(0, 0)).x == current; }
  }

  method PageBitmapTextBounds(text: string, fontSize: real, font: Font) returns (bounds: Option<(nat, nat)>)
    ensures bounds.Some? <==> fontSize > 0.0 && Drawable(text, font)
    ensures bounds.Some? ==> BoundsOf(text, PageBitmapTextMetrics(fontSize).value, bounds.value.0, bounds.value.1)
  {
    var metrics := PageBitmapTextMetrics(fontSize);
    if metrics.None? {
      return None;
    }
    var m := metrics.value;
    if |text| == 0 {
      return Some((0, 0));
    }
    var current, widest, lines := 0, 0, 1;
    var i := 0;
    while i < |text|
      invariant i <= |text| && Drawable(text[..i], font) && Measured(text, i, m, current, widest, lines)
    {
      var c := text[i];
      ghost var was := current;
      if c == '\n' {
        MeasuredNewLine(text, i, m, current, widest, lines);
        current, widest, lines := 0, Max(widest, current), lines + 1;
      } else {
        if c == '\t' {
          current := current + m.space * 4;
        } else if c == ' ' {
          current := current + m.space;
        } else if c != '\r' {
          if !((c as int) < 128) || font(c).None? {
            return None;
          }
          current := current + m.advance;
        }
        MeasuredStep(text, i, m, was, widest, lines, current);
      }
      DrawableGrows(text, i, font);
      i := i + 1;
    }
    assert text[..i] == text;
    MeasuredAll(text, m, current, widest, lines);
    return Some((Max(widest, current), lines * m.lineHeight));
  }

  lemma DrawableGrows(text: string, i: nat, font: Font)
    requires i < |text| && Drawable(text[..i], font) && DrawableChar(text[i], font)
    ensures Drawable(text[..i + 1], font)
  {}

  lemma LineBelow(lines: int, lineHeight: nat)
    ensures (lines - 1) * lineHeight + lineHeight == lines * lineHeight
  {}

  // ---- ink ----------------------------------------------------------------------------------------------------------------

  predicate Bit(bits: bv8, col: nat)
    requires col < 5
  {
    (bits >> (4 - col)) & 1 != 0
  }

  /** The columns from the left are the bits 16, 8, 4, 2 and 1. */
  lemma BitMasks(bits: bv8)
    ensures (Bit(bits, 0) <==> bits & 16 != 0) && (Bit(bits, 1) <==> bits & 8 != 0) && (Bit(bits, 2) <==> bits & 4 != 0)
    ensures (Bit(bits, 3) <==> bits & 2 != 0) && (Bit(bits, 4) <==> bits & 1 != 0)
  {}

  /** (x, y) is inside cell (row, col) of a glyph drawn at (gx, gy). */
  predicate InCell(gx: int, gy: int, scale: nat, row: nat, col: nat, x: int, y: int) {
    gx + col * scale <= x < gx + col * scale + scale && gy + row * scale <= y < gy + row * scale + scale
  }

  /** Pixel (x, y) belongs to a set bit of the glyph in rows and columns before (row, col). */
  predicate InkBefore(g: PlacedGlyph, scale: nat, row: nat, col: nat, x: int, y: int) {
    exists r: nat, c: nat :: r < 7 && c < 5 && (r < row || (r == row && c < col))
                             && Bit(g.glyph[r], c) && InCell(g.x, g.y, scale, r, c, x, y)
  }

  /** Pixel (x, y) belongs to a set bit of the glyph. */
  predicate GlyphInk(g: PlacedGlyph, scale: nat, x: int, y: int) { InkBefore(g, scale, 7, 0, x, y) }

  /** A glyph's ink stays in the five by seven box of its cells. */
  lemma InkInBox(g: PlacedGlyph, scale: nat, x: int, y: int)
    requires GlyphInk(g, scale, x, y)
    ensures g.x <= x < g.x + 5 * scale && g.y <= y < g.y + 7 * scale
  {}

  /** Pixel (x, y) belongs to one of the glyphs. */
  predicate TextInk(glyphs: seq<PlacedGlyph>, scale: nat, x: int, y: int) {
    exists i :: 0 <= i < |glyphs| && GlyphInk(glyphs[i], scale, x, y)
  }

  // ---- painting one glyph -------------------------------------------------------------------------------------------------

  /** `after` is `before` with one cell of a glyph filled where it lies in `clip`. */
  ghost predicate CellStamped(before: seq<Word>, after: seq<Word>, width: nat, height: nat, x0: int, y0: int,
                              scale: nat, clip: PixelRect, color: Word)
  {
    && |before| == |after| == width * height
    && forall x: nat, y: nat :: x < width && y < height ==>
         At(after, width, x, y) ==
         if x0 <= x < x0 + scale && y0 <= y < y0 + scale && Inside(clip, x, y) then color else At(before, width, x, y)
  }

  /** `after` is `before` with the glyph's ink before (row, col) filled where it lies in `clip`. */
  ghost predicate GlyphStamped(before: seq<Word>, after: seq<Word>, width: nat, height: nat, g: PlacedGlyph,
                               scale: nat, row: nat, col: nat, clip: PixelRect, color: Word)
  {
    && |before| == |after| == width * height
    && forall x: nat, y: nat :: x < width && y < height ==>
         At(after, width, x, y) ==
         if InkBefore(g, scale, row, col, x, y) && Inside(clip, x, y) then color else At(before, width, x, y)
  }

  lemma StampCell(before: seq<Word>, mid: seq<Word>, after: seq<Word>, width: nat, height: nat, g: PlacedGlyph,
                  scale: nat, row: nat, col: nat, clip: PixelRect, color: Word)
    requires row < 7 && col < 5
    requires GlyphStamped(before, mid, width, height, g, scale, row, col, clip, color)
    requires if Bit(g.glyph[row], col)
             then CellStamped(mid, after, width, height, g.x + col * scale, g.y + row * scale, scale, clip, color)
             else after == mid
    ensures GlyphStamped(before, after, width, height, g, scale, row, col + 1, clip, color)
  {}

  lemma StampRow(before: seq<Word>, after: seq<Word>, width: nat, height: nat, g: PlacedGlyph,
                 scale: nat, row: nat, clip: PixelRect, color: Word)
    requires row < 7 && GlyphStamped(before, after, width, height, g, scale, row, 5, clip, color)
    ensures GlyphStamped(before, after, width, height, g, scale, row + 1, 0, clip, color)
  {}

  method PutArgbPixel(a: array<Word>, width: nat, height: nat, x: nat, y: nat, color: Word)
    requires a.Length == width * height
    modifies a
    ensures forall px: nat, py: nat :: px < width && py < height ==>
              At(a[..], width, px, py) == if px == x && py == y then color else At(old(a[..]), width, px, py)
  {
    if x >= width || y >= height {
      return;
    }
    ghost var before := a[..];
    var index := Idx(width, x, y);
    if index < a.Length {
      a[index] := color;
    }
    IdxBound(width, height, x, y);
    forall px: nat, py: nat | px < width && py < height
      ensures At(a[..], width, px, py) == if px == x && py == y then color else At(before, width, px, py)
    {
      IdxInjective(width, px, py, x, y);
    }
  }

  /** One cell, pixel by pixel, each tested against the clip. */
  method FillCellClipped(a: array<Word>, width: nat, height: nat, x0: int, y0: int, scale: nat, clip: PixelRect, color: Word)
    requires a.Length == width * height
    modifies a
    ensures CellStamped(old(a[..]), a[..], width, height, x0, y0, scale, clip, color)
  {
    ghost var before := a[..];
    for dy := 0 to scale
      invariant forall x: nat, y: nat :: x < width && y < height ==>
                  At(a[..], width, x, y) ==
                  if x0 <= x < x0 + scale && y0 <= y < y0 + dy && Inside(clip, x, y) then color
                  else At(before, width, x, y)
    {
      for dx := 0 to scale
        invariant forall x: nat, y: nat :: x < width && y < height ==>
                    At(a[..], width, x, y) ==
                    if x0 <= x < x0 + (if y == y0 + dy then dx else scale) && y0 <= y <= y0 + dy && Inside(clip, x, y)
                    then color else At(before, width, x, y)
      {
        var pixelX, pixelY := x0 + dx, y0 + dy;
        if pixelX < clip.x || pixelY < clip.y || pixelX >= clip.x + clip.width || pixelY >= clip.y + clip.height {
          continue;
        }
        PutArgbPixel(a, width, height, pixelX, pixelY, color);
      }
    }
  }

  /** A run of words, one by one. */
  method FillRun(a: array<Word>, start: nat, count: nat, color: Word)
    requires start + count <= a.Length
    modifies a
    ensures SpanFilled(old(a[..]), a[..], start, start + count, color)
  {
    for dx := 0 to count
      invariant SpanFilled(old(a[..]), a[..], start, start + dx, color)
    {
      a[start + dx] := color;
    }
  }

  /** One cell of a glyph known to be inside the bitmap: each row of it is one run of words. */
  method FillCellUnchecked(a: array<Word>, width: nat, ghost height: nat, x0: nat, y0: nat, scale: nat, color: Word)
    requires a.Length == width * height
    requires x0 + scale <= width && y0 + scale <= height
    modifies a
    ensures CellStamped(old(a[..]), a[..], width, height, x0, y0, scale, WholeBitmap(width, height), color)
  {
    ghost var before := a[..];
    for dy := 0 to scale
      invariant CellRows(before, a[..], width, height, x0, y0, scale, dy, color)
    {
      var rowStart := (y0 + dy) * width + x0;
      MulMono(y0 + dy + 1, height, width);
      ghost var previous := a[..];
      FillRun(a, rowStart, scale, color);
      CellRowFilled(before, previous, a[..], width, height, x0, y0, scale, dy, color);
    }
  }

  /** The first `rows` rows of a cell have been filled. */
  ghost predicate CellRows(before: seq<Word>, after: seq<Word>, width: nat, height: nat, x0: nat, y0: nat, scale: nat,
                           rows: nat, color: Word)
  {
    && |before| == |after| == width * height
    && forall x: nat, y: nat :: x < width && y < height ==>
         At(after, width, x, y) ==
         if x0 <= x < x0 + scale && y0 <= y < y0 + rows then color else At(before, width, x, y)
  }

  lemma CellRowFilled(before: seq<Word>, mid: seq<Word>, after: seq<Word>, width: nat, height: nat, x0: nat, y0: nat,
                      scale: nat, dy: nat, color: Word)
    requires x0 + scale <= width
    requires CellRows(before, mid, width, height, x0, y0, scale, dy, color)
    requires SpanFilled(mid, after, (y0 + dy) * width + x0, (y0 + dy) * width + x0 + scale, color)
    ensures CellRows(before, after, width, height, x0, y0, scale, dy + 1, color)
  {
    forall x: nat, y: nat | x < width && y < height
      ensures At(after, width, x, y) ==
              if y == y0 + dy && x0 <= x < x0 + scale then color else At(mid, width, x, y)
    {
      RowSpan(width, x, y, y0 + dy, x0, x0 + scale);
      IdxBound(width, height, x, y);
    }
  }

  /** The glyph's origin and scale when its whole box can be written without tests. */
  function PageBitmapGlyphFastBounds(width: nat, height: nat, x: int, y: int, scale: int, clip: PixelRect)
    : Option<(nat, nat, nat)>
  {
    if scale <= 0 || x < 0 || y < 0 then None
    else
      var right, bottom := x + 5 * scale, y + 7 * scale;
      if x < clip.x || y < clip.y || right > clip.x + clip.width || bottom > clip.y + clip.height then None
      else if right > width || bottom > height then None
      else Some((x, y, scale))
  }

  predicate InBox(gx: int, gy: int, scale: int, x: int, y: int) {
    gx <= x < gx + 5 * scale && gy <= y < gy + 7 * scale
  }

  /** The fast path is taken exactly when every pixel of the glyph's box is in the clip and in the bitmap. */
  lemma FastBoundsIff(width: nat, height: nat, gx: int, gy: int, scale: int, clip: PixelRect)
    requires scale > 0
    ensures PageBitmapGlyphFastBounds(width, height, gx, gy, scale, clip).Some? <==>
            forall x, y :: InBox(gx, gy, scale, x, y) ==> Inside(clip, x, y) && Inside(WholeBitmap(width, height), x, y)
  {
    assert InBox(gx, gy, scale, gx, gy);
    assert InBox(gx, gy, scale, gx + 5 * scale - 1, gy + 7 * scale - 1);
  }

  method DrawPageBitmapGlyphUnchecked(a: array<Word>, width: nat, ghost height: nat, x: nat, y: nat, scale: nat,
                                      glyph: Glyph, color: Word)
    requires a.Length == width * height
    requires x + 5 * scale <= width && y + 7 * scale <= height
    modifies a
    ensures GlyphStamped(old(a[..]), a[..], width, height, PlacedGlyph(glyph, x, y), scale, 7, 0,
                         WholeBitmap(width, height), color)
  {
    ghost var g, whole := PlacedGlyph(glyph, x, y), WholeBitmap(width, height);
    for row := 0 to 7
      invariant GlyphStamped(old(a[..]), a[..], width, height, g, scale, row, 0, whole, color)
    {
      for col := 0 to 5
        invariant GlyphStamped(old(a[..]), a[..], width, height, g, scale, row, col, whole, color)
      {
        ghost var mid := a[..];
        if Bit(glyph[row], col) {
          MulMono(col + 1, 5, scale);
          MulMono(row + 1, 7, scale);
          FillCellUnchecked(a, width, height, x + col * scale, y + row * scale, scale, color);
        }
        StampCell(old(a[..]), mid, a[..], width, height, g, scale, row, col, whole, color);
      }
      StampRow(old(a[..]), a[..], width, height, g, scale, row, whole, color);
    }
  }

  /** Draws one glyph: the part of its ink that lies in the clip and the bitmap, whichever path is taken. */
  method DrawPageBitmapGlyphClipped(a: array<Word>, width: nat, height: nat, g: PlacedGlyph, scale: nat, color: Word,
                                    clip: PixelRect)
    requires a.Length == width * height
    modifies a
    ensures GlyphStamped(old(a[..]), a[..], width, height, g, scale, 7, 0, clip, color)
  {
    var quick := PageBitmapGlyphFastBounds(width, height, g.x, g.y, scale, clip);
    if quick.Some? {
      DrawPageBitmapGlyphUnchecked(a, width, height, quick.value.0, quick.value.1, quick.value.2, g.glyph, color);
      WholeGlyphInClip(old(a[..]), a[..], width, height, g, scale, clip, color);
      return;
    }
    for row := 0 to 7
      invariant GlyphStamped(old(a[..]), a[..], width, height, g, scale, row, 0, clip, color)
    {
      for col := 0 to 5
        invariant GlyphStamped(old(a[..]), a[..], width, height, g, scale, row, col, clip, color)
      {
        ghost var mid := a[..];
        if Bit(g.glyph[row], col) {
          FillCellClipped(a, width, height, g.x + col * scale, g.y + row * scale, scale, clip, color);
        }
        StampCell(old(a[..]), mid, a[..], width, height, g, scale, row, col, clip, color);
      }
      StampRow(old(a[..]), a[..], width, height, g, scale, row, clip, color);
    }
  }

  /** What the unchecked path writes is what the clipped path would have written. */
  lemma WholeGlyphInClip(before: seq<Word>, after: seq<Word>, width: nat, height: nat, g: PlacedGlyph, scale: nat,
                         clip: PixelRect, color: Word)
    requires PageBitmapGlyphFastBounds(width, height, g.x, g.y, scale, clip).Some?
    requires GlyphStamped(before, after, width, height, g, scale, 7, 0, WholeBitmap(width, height), color)
    ensures GlyphStamped(before, after, width, height, g, scale, 7, 0, clip, color)
  {
    forall x: nat, y: nat | x < width && y < height && GlyphInk(g, scale, x, y) ensures Inside(clip, x, y) {
      InkInBox(g, scale, x, y);
    }
  }

  // ---- painting a text ----------------------------------------------------------------------------------------------------

  /** `after` is `before` with the glyphs' ink filled where it lies in `clip`. */
  ghost predicate TextStamped(before: seq<Word>, after: seq<Word>, width: nat, height: nat, glyphs: seq<PlacedGlyph>,
                              scale: nat, clip: PixelRect, color: Word)
  {
    && |before| == |after| == width * height
    && forall x: nat, y: nat :: x < width && y < height ==>
         At(after, width, x, y) ==
         if TextInk(glyphs, scale, x, y) && Inside(clip, x, y) then color else At(before, width, x, y)
  }

  lemma StampGlyph(before: seq<Word>, mid: seq<Word>, after: seq<Word>, width: nat, height: nat,
                   glyphs: seq<PlacedGlyph>, g: PlacedGlyph, scale: nat, clip: PixelRect, color: Word)
    requires TextStamped(before, mid, width, height, glyphs, scale, clip, color)
    requires GlyphStamped(mid, after, width, height, g, scale, 7, 0, clip, color)
    ensures TextStamped(before, after, width, height, glyphs + [g], scale, clip, color)
  {
    forall x: nat, y: nat | x < width && y < height
      ensures TextInk(glyphs + [g], scale, x, y) <==> TextInk(glyphs, scale, x, y) || GlyphInk(g, scale, x, y)
    {
      var all := glyphs + [g];
      if GlyphInk(g, scale, x, y) { assert GlyphInk(all[|glyphs|], scale, x, y); }
      if i :| 0 <= i < |glyphs| && GlyphInk(glyphs[i], scale, x, y) { assert GlyphInk(all[i], scale, x, y); }
    }
  }

  /** The pen a text starts from, at real coordinates. */
  function StartPen(x: real, y: real): Pen { Pen(Round(x), Round(y)) }

  lemma GlyphStep(text: string, i: nat, m: Metrics, start: Pen, font: Font)
    requires i < |text| && Drawable(text[..i + 1], font)
    ensures Drawable(text[..i], font)
    ensures var pen, glyphs := PenAfter(text[..i], m, start), GlyphsOf(text[..i], m, start, font);
            GlyphsOf(text[..i + 1], m, start, font) ==
            if IsSpacing(text[i]) then glyphs else glyphs + [PlacedGlyph(font(text[i]).value, pen.x, pen.y)]
  {
    assert text[..i + 1][..i] == text[..i];
    var glyphs := GlyphsOf(text[..i], m, start, font);
    assert glyphs + [] == glyphs;
    assert forall k :: 0 <= k < i ==> text[..i][k] == text[..i + 1][k];
  }

  lemma PrefixStopsAt(text: string, i: nat, font: Font)
    requires i < |text| && Drawable(text[..i], font) && !DrawableChar(text[i], font)
    ensures DrawablePrefix(text, font) == text[..i]
  {
    var p := DrawablePrefix(text, font);
    assert forall k :: 0 <= k < |p| ==> p[k] == text[k];
    assert forall k :: 0 <= k < i ==> text[..i][k] == text[k];
  }

  /** Draws a text from (x, y), stopping at the first character that cannot be drawn; true when there is none. */
  method DrawPageBitmapTextClipped(a: array<Word>, width: nat, height: nat, x: real, y: real, text: string,
                                   fontSize: real, color: Word, clip: PixelRect, font: Font) returns (drawn: bool)
    requires a.Length == width * height
    modifies a
    ensures drawn <==> fontSize > 0.0 && Drawable(text, font)
    ensures fontSize <= 0.0 ==> a[..] == old(a[..])
    ensures fontSize > 0.0 ==>
              var m := PageBitmapTextMetrics(fontSize).value;
              TextStamped(old(a[..]), a[..], width, height,
                          GlyphsOf(DrawablePrefix(text, font), m, StartPen(x, y), font), m.scale, clip, color)
  {
    var metrics := PageBitmapTextMetrics(fontSize);
    if metrics.None? {
      return false;
    }
    var m, start := metrics.value, StartPen(x, y);
    var cursorX, cursorY, i := start.x, start.y, 0;
    while i < |text|
      invariant i <= |text|
      invariant DrawnTo(text, i, m, start, font, cursorX, cursorY, old(a[..]), a[..], width, height, clip, color)
    {
      var c := text[i];
      ghost var pen, mid := Pen(cursorX, cursorY), a[..];
      if c == '\n' {
        cursorX, cursorY := start.x, cursorY + m.lineHeight;
      } else if c == '\r' {
      } else if c == '\t' {
        cursorX := cursorX + m.space * 4;
      } else if c == ' ' {
        cursorX := cursorX + m.space;
      } else {
        if !((c as int) < 128) || font(c).None? {
          PrefixStopsAt(text, i, font);
          return false;
        }
        DrawPageBitmapGlyphClipped(a, width, height, PlacedGlyph(font(c).value, cursorX, cursorY), m.scale, color, clip);
        cursorX := cursorX + m.advance;
      }
      DrawnOneMore(text, i, m, start, font, pen, old(a[..]), mid, a[..], width, height, clip, color);
      i := i + 1;
    }
    assert text[..i] == text;
    assert DrawablePrefix(text, font) == text;
    return true;
  }

  /** The first `i` characters have been drawn, and the cursor is where the pen stands after them. */
  ghost predicate DrawnTo(text: string, i: nat, m: Metrics, start: Pen, font: Font, cursorX: int, cursorY: int,
                          before: seq<Word>, after: seq<Word>, width: nat, height: nat, clip: PixelRect, color: Word)
    requires i <= |text|
  {
    && Drawable(text[..i], font) && Pen(cursorX, cursorY) == PenAfter(text[..i], m, start)
    && TextStamped(before, after, width, height, GlyphsOf(text[..i], m, start, font), m.scale, clip, color)
  }

  lemma DrawnOneMore(text: string, i: nat, m: Metrics, start: Pen, font: Font, pen: Pen, before: seq<Word>,
                     mid: seq<Word>, after: seq<Word>, width: nat, height: nat, clip: PixelRect, color: Word)
    requires i < |text| && DrawableChar(text[i], font)
    requires DrawnTo(text, i, m, start, font, pen.x, pen.y, before, mid, width, height, clip, color)
    requires if IsSpacing(text[i]) then after == mid
             else GlyphStamped(mid, after, width, height, PlacedGlyph(font(text[i]).value, pen.x, pen.y), m.scale, 7, 0,
                               clip, color)
    ensures var next := StepPen(pen, text[i], m, start.x);
            DrawnTo(text, i + 1, m, start, font, next.x, next.y, before, after, width, height, clip, color)
  {
    DrawableGrows(text, i, font);
    PenStep(text, i, m, start);
    GlyphStep(text, i, m, start, font);
    if !IsSpacing(text[i]) {
      var glyphs, g := GlyphsOf(text[..i], m, start, font), PlacedGlyph(font(text[i]).value, pen.x, pen.y);
      StampGlyph(before, mid, after, width, height, glyphs, g, m.scale, clip, color);
    }
  }

  // ---- the bounds are sound -----------------------------------------------------------------------------------------------

  lemma {:induction false} PenOnlyDescends(text: string, i: nat, m: Metrics, start: Pen)
    requires i <= |text|
    ensures start.y <= PenAfter(text[..i], m, start).y <= PenAfter(text, m, start).y
    ensures start.x <= PenAfter(text[..i], m, start).x
    decreases |text| + i
  {
    if i < |text| {
      PenOnlyDescends(text[..|text| - 1], i, m, start);
      assert text[..|text| - 1][..i] == text[..i];
    } else if i > 0 {
      assert text[..i] == text;
      PenOnlyDescends(text[..i - 1], i - 1, m, start);
      assert text[..i - 1][..i - 1] == text[..i - 1];
    }
  }

  /** Each glyph of a text stands where the pen was just before one of its non-spacing characters. */
  lemma {:induction false} GlyphIsAtPen(text: string, k: nat, m: Metrics, start: Pen, font: Font) returns (i: nat)
    requires Drawable(text, font) && k < |GlyphsOf(text, m, start, font)|
    ensures i < |text| && !IsSpacing(text[i]) && font(text[i]) == Some(GlyphsOf(text, m, start, font)[k].glyph)
    ensures var g := GlyphsOf(text, m, start, font)[k]; Pen(g.x, g.y) == PenAfter(text[..i], m, start)
  {
    var n := |text| - 1;
    var init := text[..n];
    if k < |GlyphsOf(init, m, start, font)| {
      i := GlyphIsAtPen(init, k, m, start, font);
      assert init[..i] == text[..i];
    } else {
      i := n;
    }
  }

  /** Each non-spacing character of a text has its glyph there, where the pen was just before it. */
  lemma {:induction false} PenHasGlyph(text: string, i: nat, m: Metrics, start: Pen, font: Font)
    requires Drawable(text, font) && i < |text| && !IsSpacing(text[i])
    ensures var pen := PenAfter(text[..i], m, start);
            PlacedGlyph(font(text[i]).value, pen.x, pen.y) in GlyphsOf(text, m, start, font)
  {
    var n := |text| - 1;
    if i < n {
      PenHasGlyph(text[..n], i, m, start, font);
      assert text[..n][..i] == text[..i];
    }
  }

  /** Every pixel of a drawn text is inside the box its bounds announced, placed at the rounded start. */
  lemma InkInBounds(text: string, fontSize: real, font: Font, x: real, y: real, width: nat, height: nat, px: int, py: int)
    requires fontSize > 0.0 && Drawable(text, font)
    requires BoundsOf(text, PageBitmapTextMetrics(fontSize).value, width, height)
    requires var m := PageBitmapTextMetrics(fontSize).value;
             TextInk(GlyphsOf(text, m, StartPen(x, y), font), m.scale, px, py)
    ensures Round(x) <= px < Round(x) + width && Round(y) <= py < Round(y) + height
  {
    var m, start := PageBitmapTextMetrics(fontSize).value, StartPen(x, y);
    var glyphs := GlyphsOf(text, m, start, font);
    var k :| 0 <= k < |glyphs| && GlyphInk(glyphs[k], m.scale, px, py);
    var i := GlyphIsAtPen(text, k, m, start, font);
    InkInBox(glyphs[k], m.scale, px, py);
    GlyphFitsMetrics(fontSize);
    PenOnlyDescends(text, i, m, start);
    PenStep(text, i, m, start);
    PenShifts(text[..i + 1], m, start);
    PenShifts(text, m, start);
    assert PenAfter(text[..i + 1], m, Pen(0, 0)).x <= width;
  }

  /** Drawing a text changes only pixels that are both in the clip and in the text's announced box. */
  lemma DrawnTextStaysInBounds(before: seq<Word>, after: seq<Word>, width: nat, height: nat, x: real, y: real,
                               text: string, fontSize: real, color: Word, clip: PixelRect, font: Font,
                               boxWidth: nat, boxHeight: nat, px: nat, py: nat)
    requires fontSize > 0.0 && Drawable(text, font)
    requires var m := PageBitmapTextMetrics(fontSize).value;
             && BoundsOf(text, m, boxWidth, boxHeight)
             && TextStamped(before, after, width, height, GlyphsOf(text, m, StartPen(x, y), font), m.scale, clip, color)
    requires px < width && py < height && At(after, width, px, py) != At(before, width, px, py)
    ensures Inside(clip, px, py)
    ensures Round(x) <= px < Round(x) + boxWidth && Round(y) <= py < Round(y) + boxHeight
    ensures At(after, width, px, py) == color
  {
    InkInBounds(text, fontSize, font, x, y, boxWidth, boxHeight, px, py);
  }
}
