/** The packed-word pixel buffer and the in-place fills and row copies made on it. */
module ArgbFill {
  import opened Geometry

  type Byte = b: int | 0 <= b < 0x100
  type Word = w: int | 0 <= w < 0x1_0000_0000

  function Argb(r: Byte, g: Byte, b: Byte, a: Byte): Word {
    a * 0x100_0000 + r * 0x1_0000 + g * 0x100 + b
  }

  const WHITE: Word := Argb(255, 255, 255, 255)

  /** Buffer position of pixel (x, y) in a bitmap of the given width. */
  function Idx(width: nat, x: nat, y: nat): nat { y * width + x }

  lemma MulMono(a: nat, b: nat, w: nat)
    requires a <= b
    ensures a * w <= b * w
  {}

  /** Rows below `height` stay inside a buffer of `width * height` words. */
  lemma IdxBound(width: nat, height: nat, x: nat, y: nat)
    requires x < width && y < height
    ensures Idx(width, x, y) < width * height
  {
    MulMono(y + 1, height, width);
  }

  /** The words [row*width + x0, row*width + x1) are exactly the pixels of that row and column span. */
  lemma RowSpan(width: nat, x: nat, y: nat, row: nat, x0: nat, x1: nat)
    requires x < width && x0 <= x1 <= width
    ensures row * width + x0 <= Idx(width, x, y) < row * width + x1 <==> y == row && x0 <= x < x1
  {
    if y < row { MulMono(y + 1, row, width); }
    if row < y { MulMono(row + 1, y, width); }
  }

  /** The words [y0*width, y1*width) are exactly the pixels of those rows. */
  lemma BlockSpan(width: nat, x: nat, y: nat, y0: nat, y1: nat)
    requires x < width
    ensures y0 * width <= Idx(width, x, y) < y1 * width <==> y0 <= y < y1
  {
    if y < y0 { MulMono(y + 1, y0, width); } else { MulMono(y0, y, width); }
    if y < y1 { MulMono(y + 1, y1, width); } else { MulMono(y1, y, width); }
  }

  /** Distinct pixels have distinct words. */
  lemma {:induction false} IdxInjective(width: nat, x: nat, y: nat, x': nat, y': nat)
    requires x < width && x' < width
    ensures Idx(width, x, y) == Idx(width, x', y') <==> x == x' && y == y'
  {
    RowSpan(width, x, y, y', x', x' + 1);
  }

  /** `after` is `before` with the words of one span overwritten. */
  ghost predicate SpanFilled(before: seq<Word>, after: seq<Word>, lo: nat, hi: nat, color: Word) {
    |after| == |before| && forall i :: 0 <= i < |after| ==> after[i] == if lo <= i < hi then color else before[i]
  }

  /** Fills a span by doubling the part already filled. */
  method FillArgbWordsByCopy(a: array<Word>, lo: nat, hi: nat, color: Word)
    requires lo <= hi <= a.Length
    modifies a
    ensures SpanFilled(old(a[..]), a[..], lo, hi, color)
  {
    if lo == hi {
      return;
    }
    a[lo] := color;
    var initialized := 1;
    while initialized < hi - lo
      invariant 1 <= initialized <= hi - lo
      invariant forall i :: 0 <= i < a.Length ==> a[i] == if lo <= i < lo + initialized then color else old(a[i])
    {
      var copyLen := Min(initialized, hi - lo - initialized);
      forall k | 0 <= k < copyLen {
        a[lo + initialized + k] := a[lo + k];
      }
      initialized := initialized + copyLen;
    }
  }

  /** Fills a span of words; the two byte-pattern cases and the short case write each word once. */
  method FillArgbWords(a: array<Word>, lo: nat, hi: nat, color: Word)
    requires lo <= hi <= a.Length
    modifies a
    ensures SpanFilled(old(a[..]), a[..], lo, hi, color)
  {
    if color == 0 || color == 0xffff_ffff {
      forall k | lo <= k < hi { a[k] := color; }
    } else if hi - lo >= 64 {
      FillArgbWordsByCopy(a, lo, hi, color);
    } else {
      forall k | lo <= k < hi { a[k] := color; }
    }
  }

  /** Pixel (x, y) is one of those a rect fill writes into a buffer of `len` words. A full-width fill is one
      block and is dropped as a whole when the block does not fit; a narrower one is dropped row by row. */
  predicate Filled(len: nat, width: nat, height: nat, rect: PixelRect, x: nat, y: nat) {
    var xEnd := Min(rect.x + rect.width, width);
    var yEnd := Min(rect.y + rect.height, height);
    && Inside(rect, x, y) && x < width && y < height
    && (if rect.x == 0 && xEnd == width then yEnd * width <= len else y * width + xEnd <= len)
  }

  /** A buffer that holds the whole bitmap drops nothing: the fill is the rect cut to the bitmap. */
  lemma FilledInBitmap(len: nat, width: nat, height: nat, rect: PixelRect, x: nat, y: nat)
    requires width * height <= len
    requires x < width && y < height
    ensures Filled(len, width, height, rect, x, y) <==> Inside(rect, x, y)
  {
    var xEnd := Min(rect.x + rect.width, width);
    var yEnd := Min(rect.y + rect.height, height);
    MulMono(yEnd, height, width);
    MulMono(y + 1, height, width);
  }

  /** `after` is `before` with the rect's pixels above `row` overwritten. */
  ghost predicate FilledAbove(before: seq<Word>, after: seq<Word>, width: nat, height: nat, rect: PixelRect,
                              color: Word, row: nat)
  {
    && |after| == |before|
    && forall x: nat, y: nat {:trigger Idx(width, x, y)} :: x < width && Idx(width, x, y) < |after| ==>
         after[Idx(width, x, y)] ==
         if Filled(|after|, width, height, rect, x, y) && y < row then color else before[Idx(width, x, y)]
  }

  /** A full-width rect is one block of words. */
  lemma BlockFilled(before: seq<Word>, after: seq<Word>, width: nat, height: nat, rect: PixelRect, color: Word)
    requires rect.x == 0 && rect.x + rect.width >= width && rect.y <= height
    requires var yEnd := Min(rect.y + rect.height, height);
             if yEnd * width <= |before| then SpanFilled(before, after, rect.y * width, yEnd * width, color)
             else after == before
    ensures FilledAbove(before, after, width, height, rect, color, height)
  {
    var yEnd := Min(rect.y + rect.height, height);
    forall x: nat, y: nat | x < width && Idx(width, x, y) < |after|
      ensures after[Idx(width, x, y)] ==
              if Filled(|after|, width, height, rect, x, y) && y < height then color else before[Idx(width, x, y)]
    {
      BlockSpan(width, x, y, rect.y, yEnd);
    }
  }

  /** A narrower rect is one span of words a row. */
  lemma RowFilled(before: seq<Word>, mid: seq<Word>, after: seq<Word>, width: nat, height: nat, rect: PixelRect,
                  color: Word, row: nat)
    requires rect.x <= width && rect.y <= row < Min(rect.y + rect.height, height)
    requires !(rect.x == 0 && rect.x + rect.width >= width)
    requires FilledAbove(before, mid, width, height, rect, color, row)
    requires var xEnd := Min(rect.x + rect.width, width);
             if row * width + xEnd <= |mid| then SpanFilled(mid, after, row * width + rect.x, row * width + xEnd, color)
             else after == mid
    ensures FilledAbove(before, after, width, height, rect, color, row + 1)
  {
    forall x: nat, y: nat | x < width && Idx(width, x, y) < |after|
      ensures after[Idx(width, x, y)] ==
              if Filled(|after|, width, height, rect, x, y) && y < row + 1 then color else before[Idx(width, x, y)]
    {
      RowSpan(width, x, y, row, rect.x, Min(rect.x + rect.width, width));
    }
  }

  lemma RestNotFilled(before: seq<Word>, after: seq<Word>, width: nat, height: nat, rect: PixelRect, color: Word, row: nat)
    requires FilledAbove(before, after, width, height, rect, color, row)
    requires row >= Min(rect.y + rect.height, height) || rect.width == 0
    ensures FilledAbove(before, after, width, height, rect, color, height)
  {}

  lemma NothingFilled(words: seq<Word>, width: nat, height: nat, rect: PixelRect, color: Word, row: nat)
    requires row <= rect.y || row == 0 || rect.width == 0 || rect.height == 0 || width == 0
    ensures FilledAbove(words, words, width, height, rect, color, row)
  {}

  /** The rows of a full-width rect in one run, when the buffer holds them. */
  method FillBlock(a: array<Word>, width: nat, height: nat, rect: PixelRect, color: Word)
    requires rect.x == 0 && rect.x + rect.width >= width && rect.y <= height
    modifies a
    ensures FilledAbove(old(a[..]), a[..], width, height, rect, color, height)
  {
    var yEnd := Min(rect.y + rect.height, height);
    ghost var before := a[..];
    MulMono(rect.y, yEnd, width);
    if yEnd * width <= a.Length {
      FillArgbWords(a, rect.y * width, yEnd * width, color);
    }
    BlockFilled(before, a[..], width, height, rect, color);
  }

  /** One row of a narrower rect, when the buffer holds it. */
  method FillRow(a: array<Word>, width: nat, height: nat, rect: PixelRect, color: Word, row: nat, ghost before: seq<Word>)
    requires rect.x <= width && rect.y <= row < Min(rect.y + rect.height, height)
    requires !(rect.x == 0 && rect.x + rect.width >= width)
    requires FilledAbove(before, a[..], width, height, rect, color, row)
    modifies a
    ensures FilledAbove(before, a[..], width, height, rect, color, row + 1)
  {
    var xEnd := Min(rect.x + rect.width, width);
    ghost var mid := a[..];
    var rowStart := row * width;
    if rowStart + xEnd <= a.Length {
      FillArgbWords(a, rowStart + rect.x, rowStart + xEnd, color);
    }
    RowFilled(before, mid, a[..], width, height, rect, color, row);
  }

  /** Fills a rect, cut to the bitmap on the right and below. */
  method FillArgbRect(a: array<Word>, width: nat, height: nat, rect: PixelRect, color: Word)
    requires rect.x <= width && rect.y <= height
    modifies a
    ensures width == 0 ==> a[..] == old(a[..])
    ensures FilledAbove(old(a[..]), a[..], width, height, rect, color, height)
  {
    ghost var before := a[..];
    NothingFilled(before, width, height, rect, color, rect.y);
    if width == 0 || height == 0 || rect.width == 0 || rect.height == 0 {
      NothingFilled(before, width, height, rect, color, height);
      return;
    }
    var xEnd := Min(rect.x + rect.width, width);
    var yEnd := Min(rect.y + rect.height, height);
    if rect.x == 0 && xEnd == width {
      FillBlock(a, width, height, rect, color);
      return;
    }
    var row := rect.y;
    while row < yEnd
      invariant rect.y <= row <= yEnd
      invariant FilledAbove(before, a[..], width, height, rect, color, row)
    {
      FillRow(a, width, height, rect, color, row, before);
      row := row + 1;
    }
    RestNotFilled(before, a[..], width, height, rect, color, row);
  }

  /** `after` is `before` with rows [destY, destY + rows) holding what rows [sourceY, sourceY + rows) held. */
  ghost predicate RowsCopied(before: seq<Word>, after: seq<Word>, width: nat, sourceY: nat, destY: nat, rows: nat) {
    && |after| == |before|
    && forall x: nat, y: nat {:trigger Idx(width, x, y)} :: x < width && Idx(width, x, y) < |after| ==>
         if destY <= y < destY + rows then
           Idx(width, x, y - destY + sourceY) < |after| &&
           after[Idx(width, x, y)] == before[Idx(width, x, y - destY + sourceY)]
         else after[Idx(width, x, y)] == before[Idx(width, x, y)]
  }

  /** Copies `rows` whole rows; source and destination may overlap, in either direction. */
  method CopyArgbRows(a: array<Word>, width: nat, sourceY: nat, destY: nat, rows: nat)
    requires (sourceY + rows) * width <= a.Length && (destY + rows) * width <= a.Length
    modifies a
    ensures RowsCopied(old(a[..]), a[..], width, sourceY, destY, rows)
  {
    var sourceStart, destStart, words := sourceY * width, destY * width, rows * width;
    assert sourceStart + words == (sourceY + rows) * width && destStart + words == (destY + rows) * width;
    ghost var before := a[..];
    forall k | 0 <= k < words {
      a[destStart + k] := a[sourceStart + k];
    }
    assert forall i :: 0 <= i < a.Length ==>
      a[i] == if destStart <= i < destStart + words then before[sourceStart + (i - destStart)] else before[i];
    forall x: nat, y: nat | x < width && Idx(width, x, y) < a.Length
      ensures if destY <= y < destY + rows then
                Idx(width, x, y - destY + sourceY) < a.Length &&
                a[Idx(width, x, y)] == before[Idx(width, x, y - destY + sourceY)]
              else a[Idx(width, x, y)] == before[Idx(width, x, y)]
    {
      BlockSpan(width, x, y, destY, destY + rows);
      if destY <= y < destY + rows {
        BlockSpan(width, x, y - destY + sourceY, sourceY, sourceY + rows);
        assert Idx(width, x, y - destY + sourceY) == Idx(width, x, y) - destStart + sourceStart;
      }
    }
  }
}
