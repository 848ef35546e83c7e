/**
 * The RGBA image a rasterised glyph is copied into before it is uploaded
 * to a page texture: the bitmap plus a 2-pixel transparent border, every
 * colour channel white, the alpha channel taken from the bitmap (one bit
 * per pixel for monochrome bitmaps, one byte per pixel otherwise).
 */
module GlyphPixels {

  /** A rendered FreeType bitmap: `pitch` bytes per row, top row first. */
  datatype Bitmap = Bitmap(width: nat, rows: nat, pitch: nat, mono: bool, buffer: seq<bv8>)

  const Padding: nat := 2

  /** Each row holds all of its pixels, and the buffer holds every row. */
  predicate WellFormed(bm: Bitmap)
  {
    (if bm.mono then (bm.width + 7) / 8 else bm.width) <= bm.pitch &&
    bm.rows * bm.pitch <= |bm.buffer|
  }

  /** Width and height of the padded image. */
  function PaddedWidth(bm: Bitmap): nat { bm.width + 2 * Padding }
  function PaddedHeight(bm: Bitmap): nat { bm.rows + 2 * Padding }

  /** Position of channel `c` of pixel (x, y) in a row-major RGBA buffer. */
  function Offset(width: nat, x: nat, y: nat, c: nat): nat
  {
    (x + y * width) * 4 + c
  }

  /** The coverage of bitmap pixel (col, row), as an alpha value. */
  function SourceAlpha(bm: Bitmap, col: nat, row: nat): bv8
    requires WellFormed(bm) && col < bm.width && row < bm.rows
  {
    RowInBuffer(bm, col, row);
    if bm.mono then
      if bm.buffer[row * bm.pitch + col / 8] & (1 << (7 - col % 8)) != 0 then 255 else 0
    else
      bm.buffer[row * bm.pitch + col]
  }

  predicate Inside(bm: Bitmap, x: nat, y: nat)
  {
    Padding <= x < bm.width + Padding && Padding <= y < bm.rows + Padding
  }

  /** The byte at channel `c` of pixel (x, y) of the padded image. */
  function ExpectedByte(bm: Bitmap, x: nat, y: nat, c: nat): bv8
    requires WellFormed(bm)
  {
    if c < 3 then 255
    else if Inside(bm, x, y) then SourceAlpha(bm, x - Padding, y - Padding)
    else 0
  }

  /** The transparent white fill every byte starts from. */
  function BlankByte(c: nat): bv8
  {
    if c < 3 then 255 else 0
  }

  /**
   * `buffer` is the padded image of `bm`: it has exactly width * height
   * pixels of four bytes and each of them is as `ExpectedByte` says.
   */
  ghost predicate IsGlyphImage(bm: Bitmap, buffer: seq<bv8>)
    requires WellFormed(bm)
  {
    var w, h := PaddedWidth(bm), PaddedHeight(bm);
    |buffer| == w * h * 4 &&
    forall x: nat, y: nat, c: nat | x < w && y < h && c < 4 ::
      OffsetInRange(w, h, x, y, c);
      buffer[Offset(w, x, y, c)] == ExpectedByte(bm, x, y, c)
  }

  // ----- index arithmetic -----

  /** row * pitch + col stays inside a buffer of rows * pitch bytes. */
  lemma RowInBuffer(bm: Bitmap, col: nat, row: nat)
    requires WellFormed(bm) && col < bm.width && row < bm.rows
    ensures bm.mono ==> row * bm.pitch + col / 8 < |bm.buffer|
    ensures !bm.mono ==> row * bm.pitch + col < |bm.buffer|
  {
    var k := if bm.mono then col / 8 else col;
    assert k < bm.pitch;
    Below(row, k, bm.rows, bm.pitch);
  }

  /** r * n + k < rows * n when r < rows and k < n. */
  lemma Below(r: nat, k: nat, rows: nat, n: nat)
    requires r < rows && k < n
    ensures r * n + k < rows * n
  {
    var d: nat := rows - (r + 1);
    assert rows * n == (r + 1) * n + d * n;
    assert (r + 1) * n == r * n + n;
  }

  /** Where bitmap row `row` starts in the buffer. */
  function RowStart(bm: Bitmap, row: nat): nat
  {
    row * bm.pitch
  }

  lemma OffsetInRange(w: nat, h: nat, x: nat, y: nat, c: nat)
    requires x < w && y < h && c < 4
    ensures Offset(w, x, y, c) < w * h * 4
  {
    Below(y, x, h, w);
    assert x + y * w == y * w + x;
  }

  /** Distinct channels of distinct pixels never share a byte. */
  lemma OffsetInjective(w: nat, x1: nat, y1: nat, c1: nat, x2: nat, y2: nat, c2: nat)
    requires x1 < w && x2 < w && c1 < 4 && c2 < 4
    requires Offset(w, x1, y1, c1) == Offset(w, x2, y2, c2)
    ensures x1 == x2 && y1 == y2 && c1 == c2
  {
    var p1, p2 := x1 + y1 * w, x2 + y2 * w;
    assert p1 == p2 && c1 == c2;
    if y1 < y2 {
      Below(y1, x1, y2, w);
      assert false;
    } else if y2 < y1 {
      Below(y2, x2, y1, w);
      assert false;
    }
  }

  // ----- the image part by part, as the copy loops build it -----

  /** Pixel (px, py) comes before pixel (x, y) in row-major order. */
  predicate Before(px: nat, py: nat, x: nat, y: nat)
  {
    py < y || (py == y && px < x)
  }

  /**
   * The copy has reached pixel (x, y): every pixel before it holds its
   * final bytes, every other pixel is still transparent white.
   */
  ghost predicate PartialImage(bm: Bitmap, buffer: seq<bv8>, x: nat, y: nat)
    requires WellFormed(bm)
  {
    var w, h := PaddedWidth(bm), PaddedHeight(bm);
    |buffer| == w * h * 4 &&
    forall px: nat, py: nat, c: nat | px < w && py < h && c < 4 ::
      OffsetInRange(w, h, px, py, c);
      buffer[Offset(w, px, py, c)] == (if Before(px, py, x, y) then ExpectedByte(bm, px, py, c) else BlankByte(c))
  }

  /** A buffer of transparent white pixels is the image before its first bitmap row. */
  lemma BlankIsStart(bm: Bitmap, buffer: seq<bv8>)
    requires WellFormed(bm)
    requires |buffer| == PaddedWidth(bm) * PaddedHeight(bm) * 4
    requires forall k | 0 <= k < |buffer| :: buffer[k] == BlankByte(k % 4)
    ensures PartialImage(bm, buffer, 0, Padding)
  {
    var w, h := PaddedWidth(bm), PaddedHeight(bm);
    forall px: nat, py: nat, c: nat | px < w && py < h && c < 4
      ensures Offset(w, px, py, c) < |buffer| && buffer[Offset(w, px, py, c)] == BlankByte(c)
    {
      OffsetInRange(w, h, px, py, c);
      assert Offset(w, px, py, c) % 4 == c;
    }
  }

  /** The left border of a row is transparent: the copy may start at x = 2. */
  lemma SkipLeftBorder(bm: Bitmap, buffer: seq<bv8>, y: nat)
    requires WellFormed(bm) && PartialImage(bm, buffer, 0, y)
    ensures PartialImage(bm, buffer, Padding, y)
  {
  }

  /** The right border of a row is transparent: the copy may go on to the next row. */
  lemma SkipRightBorder(bm: Bitmap, buffer: seq<bv8>, y: nat)
    requires WellFormed(bm) && PartialImage(bm, buffer, bm.width + Padding, y)
    ensures PartialImage(bm, buffer, 0, y + 1)
  {
  }

  /** The bottom border is transparent: once every bitmap row is copied the image is complete. */
  lemma SkipBottomBorder(bm: Bitmap, buffer: seq<bv8>)
    requires WellFormed(bm) && PartialImage(bm, buffer, 0, bm.rows + Padding)
    ensures IsGlyphImage(bm, buffer)
  {
  }

  /** Writing the alpha of the inside pixel (x, y) moves the copy on by one pixel. */
  lemma WriteAlpha(bm: Bitmap, buffer: seq<bv8>, x: nat, y: nat)
    requires WellFormed(bm) && Inside(bm, x, y) && PartialImage(bm, buffer, x, y)
    ensures Offset(PaddedWidth(bm), x, y, 3) < |buffer|
    ensures PartialImage(bm, buffer[Offset(PaddedWidth(bm), x, y, 3) := SourceAlpha(bm, x - Padding, y - Padding)], x + 1, y)
  {
    var w, h := PaddedWidth(bm), PaddedHeight(bm);
    OffsetInRange(w, h, x, y, 3);
    var i := Offset(w, x, y, 3);
    var after := buffer[i := SourceAlpha(bm, x - Padding, y - Padding)];
    forall px: nat, py: nat, c: nat | px < w && py < h && c < 4
      ensures Offset(w, px, py, c) < |after| && after[Offset(w, px, py, c)] ==
              (if Before(px, py, x + 1, y) then ExpectedByte(bm, px, py, c) else BlankByte(c))
    {
      OffsetInRange(w, h, px, py, c);
      var j := Offset(w, px, py, c);
      if j == i {
        OffsetInjective(w, px, py, c, x, y, 3);
        assert after[j] == ExpectedByte(bm, x, y, 3);
      } else {
        assert after[j] == buffer[j];
        if px == x && py == y {
          assert c != 3;
        }
      }
    }
  }
}
