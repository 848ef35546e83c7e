/**
 * A font page: the glyph cache and texture atlas kept for one character
 * size. Glyphs are packed into horizontal rows stacked from the top of the
 * texture; the texture doubles in both dimensions when a new row does not
 * fit, up to the largest texture size the graphics driver allows.
 */
module FontPage {
  import opened Graphics
  import opened SfErrors
  import opened GlyphKey

  /** A row of packed glyphs: how much of it is used, where it starts, how tall it is. */
  datatype Row = Row(width: nat, top: nat, height: nat)

  /**
   * What the model keeps of a page texture: its size and its smoothing
   * flag. Pixel contents are not tracked.
   */
  datatype Texture = Texture(width: nat, height: nat, smooth: bool)

  datatype Page = Page(glyphs: map<Key, Glyph>, texture: Texture, nextRow: nat, rows: seq<Row>)

  /** Side of the texture a new page starts with. */
  const InitialSize: nat := 128

  /** Top of the first row: rows 0 and 1 hold the reserved white square. */
  const FirstRowTop: nat := 3

  /** `0.7f`, the f32 nearest to 0.7, written out exactly. */
  const MinRatio: real := 0.699999988079071044921875

  /**
   * The bookkeeping every page keeps: a non-empty texture, rows that are
   * non-empty, no wider than the texture, stacked top to bottom without
   * overlap below the reserved square, and all above `nextRow`, which is
   * itself inside the texture.
   */
  predicate ValidPage(p: Page)
  {
    0 < p.texture.width && 0 < p.texture.height &&
    FirstRowTop <= p.nextRow <= p.texture.height &&
    (forall i | 0 <= i < |p.rows| ::
      0 < p.rows[i].height && p.rows[i].width <= p.texture.width &&
      FirstRowTop <= p.rows[i].top && p.rows[i].top + p.rows[i].height <= p.nextRow) &&
    (forall i, j | 0 <= i < j < |p.rows| :: p.rows[i].top + p.rows[i].height <= p.rows[j].top)
  }

  /** `Page::Page` without its image: empty, 128 x 128, first row at 3. */
  function EmptyPage(smooth: bool): (p: Page)
    ensures ValidPage(p) && p.glyphs == map[] && p.rows == []
  {
    Page(map[], Texture(InitialSize, InitialSize, smooth), FirstRowTop, [])
  }

  /** The page with its texture's smoothing flag set. */
  function Smoothed(p: Page, smooth: bool): (r: Page)
    ensures ValidPage(r) == ValidPage(p) && r.texture.smooth == smooth
    ensures r.glyphs == p.glyphs && r.rows == p.rows && r.nextRow == p.nextRow
    ensures p.texture.smooth == smooth ==> r == p
  {
    p.(texture := p.texture.(smooth := smooth))
  }

  /** The page with one more cached glyph. */
  function Insert(p: Page, key: Key, glyph: Glyph): (r: Page)
    ensures ValidPage(r) == ValidPage(p) && r.texture == p.texture
    ensures r.glyphs == p.glyphs[key := glyph] && key in r.glyphs
  {
    p.(glyphs := p.glyphs[key := glyph])
  }

  // ----- choosing a row -----

  /**
   * A glyph of the given size may go on the row: the glyph is between
   * 70% and 100% of the row's height and the unused width of the row
   * holds it.
   */
  predicate Fits(r: Row, width: nat, height: nat, textureWidth: nat)
    requires 0 < r.height
  {
    var ratio := height as real / r.height as real;
    MinRatio <= ratio <= 1.0 && width <= textureWidth - r.width
  }

  /** The first row a glyph fits on, if any. */
  function FirstFit(rows: seq<Row>, width: nat, height: nat, textureWidth: nat): (r: Option<nat>)
    requires forall i | 0 <= i < |rows| :: 0 < rows[i].height
    ensures r.Some? ==> r.value < |rows| && Fits(rows[r.value], width, height, textureWidth)
    ensures r.Some? ==> forall j | 0 <= j < r.value :: !Fits(rows[j], width, height, textureWidth)
    ensures r.None? ==> forall j | 0 <= j < |rows| :: !Fits(rows[j], width, height, textureWidth)
  {
    if rows == [] then None
    else if Fits(rows[0], width, height, textureWidth) then Some(0)
    else
      match FirstFit(rows[1..], width, height, textureWidth)
      case None => None
      case Some(k) => Some(k + 1)
  }

  /** A row a glyph fits on is at least as tall as the glyph. */
  lemma FitIsTallEnough(r: Row, width: nat, height: nat, textureWidth: nat)
    requires 0 < r.height && Fits(r, width, height, textureWidth)
    ensures height <= r.height
  {
    var ratio := height as real / r.height as real;
    assert height as real == ratio * r.height as real;
  }

  // ----- growing the texture -----

  datatype Growth = Growth(texture: Texture, ok: bool)

  /** The new row [rowBottom - rowHeight, rowBottom) and the glyph width fit into `t`. */
  predicate RoomFor(t: Texture, rowBottom: nat, width: nat)
  {
    rowBottom < t.height && width < t.width
  }

  /**
   * Double the texture until a new row ending at `rowBottom` and a glyph
   * of `width` fit, or until doubling once more would exceed
   * `maximumSize`. A grown texture takes the font's smoothing flag.
   */
  function Grow(t: Texture, rowBottom: nat, width: nat, maximumSize: nat, smooth: bool): (g: Growth)
    requires 0 < t.width && 0 < t.height
    ensures g.ok <==> RoomFor(g.texture, rowBottom, width)
    ensures !g.ok ==> maximumSize < g.texture.width * 2 || maximumSize < g.texture.height * 2
    ensures t.width <= g.texture.width && t.height <= g.texture.height
    ensures g.texture == t || (g.texture.width <= maximumSize && g.texture.height <= maximumSize &&
                               g.texture.smooth == smooth)
    decreases if t.width <= maximumSize then maximumSize - t.width else 0
  {
    if RoomFor(t, rowBottom, width) then Growth(t, true)
    else if t.width * 2 <= maximumSize && t.height * 2 <= maximumSize then
      Grow(Texture(t.width * 2, t.height * 2, smooth), rowBottom, width, maximumSize, smooth)
    else Growth(t, false)
  }

  /** A texture that already has room is left as it is. */
  lemma GrowKeepsRoomyTexture(t: Texture, rowBottom: nat, width: nat, maximumSize: nat, smooth: bool)
    requires 0 < t.width && 0 < t.height && RoomFor(t, rowBottom, width)
    ensures Grow(t, rowBottom, width, maximumSize, smooth) == Growth(t, true)
  {
  }

  /** From a texture within the maximum, glyphs at least as wide as the maximum never get a row. */
  lemma {:induction false} TooWideFails(t: Texture, rowBottom: nat, width: nat, maximumSize: nat, smooth: bool)
    requires 0 < t.width && 0 < t.height && t.width <= maximumSize && maximumSize <= width
    ensures !Grow(t, rowBottom, width, maximumSize, smooth).ok
    decreases maximumSize - t.width
  {
    if t.width * 2 <= maximumSize && t.height * 2 <= maximumSize {
      TooWideFails(Texture(t.width * 2, t.height * 2, smooth), rowBottom, width, maximumSize, smooth);
    }
  }

  // ----- placing a glyph -----

  /** What a placement returns when the texture cannot grow any more. */
  const FailedRect := IntRect(0, 0, 2, 2)

  /** The rectangle lies inside the texture, below the reserved square. */
  predicate InsideTexture(r: IntRect, t: Texture)
  {
    0 <= r.left && r.left + r.width <= t.width &&
    FirstRowTop as int <= r.top && r.top + r.height <= t.height
  }

  /** Widening row `i` by `width` keeps the page valid while the row stays inside the texture. */
  lemma WidenRowKeepsValid(page: Page, i: nat, width: nat)
    requires ValidPage(page) && i < |page.rows| && page.rows[i].width + width <= page.texture.width
    ensures ValidPage(page.(rows := page.rows[i := page.rows[i].(width := page.rows[i].width + width)]))
  {
  }

  /** Opening a row at `nextRow` inside a texture at least as large keeps the page valid. */
  lemma OpenRowKeepsValid(page: Page, t: Texture, width: nat, rowHeight: nat)
    requires ValidPage(page) && page.texture.width <= t.width && page.texture.height <= t.height
    requires 0 < rowHeight && page.nextRow + rowHeight < t.height && width < t.width
    ensures ValidPage(page.(texture := t, rows := page.rows + [Row(width, page.nextRow, rowHeight)],
                            nextRow := page.nextRow + rowHeight))
  {
    var after := page.(texture := t, rows := page.rows + [Row(width, page.nextRow, rowHeight)],
                       nextRow := page.nextRow + rowHeight);
    forall i | 0 <= i < |page.rows|
      ensures after.rows[i] == page.rows[i]
    {
    }
    assert after.rows[|page.rows|] == Row(width, page.nextRow, rowHeight);
  }

  /** A larger texture keeps a page valid. */
  lemma LargerTextureKeepsValid(page: Page, t: Texture)
    requires ValidPage(page) && page.texture.width <= t.width && page.texture.height <= t.height
    ensures ValidPage(page.(texture := t))
  {
  }

  /**
   * `findGlyphRect` as a function: the rectangle given to a glyph of the
   * padded size (width, height) and the page after the placement. The
   * glyph goes at the end of the first row it fits on; without one, a row
   * 10% taller than the glyph is opened at `nextRow`, doubling the texture
   * as needed.
   */
  function Place(page: Page, width: nat, height: nat, maximumSize: nat, smooth: bool): (r: (IntRect, Page))
    requires ValidPage(page) && 0 < height
    ensures ValidPage(r.1) && r.1.glyphs == page.glyphs
    ensures r.0 == FailedRect || InsideTexture(r.0, r.1.texture)
    ensures r.0 != FailedRect ==> r.0.width == width && r.0.height == height
    ensures r.1.texture == page.texture || r.1.texture.smooth == smooth
    ensures var fit := FirstFit(page.rows, width, height, page.texture.width);
      fit.Some? ==>
        r.0 == IntRect(page.rows[fit.value].width, page.rows[fit.value].top, width, height) &&
        r.1.texture == page.texture && r.1.nextRow == page.nextRow
    ensures FirstFit(page.rows, width, height, page.texture.width).None? && r.0 != FailedRect ==>
      r.0 == IntRect(0, page.nextRow, width, height) &&
      r.1.rows == page.rows + [Row(width, page.nextRow, height + height / 10)] &&
      r.1.nextRow == page.nextRow + height + height / 10
    ensures r.0 == FailedRect <==>
      FirstFit(page.rows, width, height, page.texture.width).None? &&
      !Grow(page.texture, page.nextRow + (height + height / 10), width, maximumSize, smooth).ok
    ensures r.0 == FailedRect ==> r.1.rows == page.rows && r.1.nextRow == page.nextRow
  {
    match FirstFit(page.rows, width, height, page.texture.width)
    case Some(i) => OnRow(page, i, width, height)
    case None =>
      var g := Grow(page.texture, page.nextRow + (height + height / 10), width, maximumSize, smooth);
      if g.ok then OnNewRow(page, g.texture, width, height)
      else
        LargerTextureKeepsValid(page, g.texture);
        (FailedRect, page.(texture := g.texture))
  }

  /** The glyph at the end of row `i`, which grows by the glyph's width. */
  function OnRow(page: Page, i: nat, width: nat, height: nat): (r: (IntRect, Page))
    requires ValidPage(page) && i < |page.rows| && Fits(page.rows[i], width, height, page.texture.width)
    ensures ValidPage(r.1) && r.1.glyphs == page.glyphs && InsideTexture(r.0, r.1.texture)
    ensures r.0 == IntRect(page.rows[i].width, page.rows[i].top, width, height)
    ensures r.1.texture == page.texture && r.1.nextRow == page.nextRow
  {
    var row := page.rows[i];
    FitIsTallEnough(row, width, height, page.texture.width);
    WidenRowKeepsValid(page, i, width);
    (IntRect(row.width, row.top, width, height),
     page.(rows := page.rows[i := row.(width := row.width + width)]))
  }

  /** The glyph at the start of a new row, 10% taller than the glyph, opened at `nextRow` in `texture`. */
  function OnNewRow(page: Page, texture: Texture, width: nat, height: nat): (r: (IntRect, Page))
    requires ValidPage(page) && page.texture.width <= texture.width && page.texture.height <= texture.height
    requires RoomFor(texture, page.nextRow + (height + height / 10), width) && 0 < height
    ensures ValidPage(r.1) && r.1.glyphs == page.glyphs && InsideTexture(r.0, r.1.texture)
    ensures r.0 == IntRect(0, page.nextRow, width, height) && r.1.texture == texture
    ensures r.1.rows == page.rows + [Row(width, page.nextRow, height + height / 10)]
    ensures r.1.nextRow == page.nextRow + height + height / 10
  {
    var rowHeight := height + height / 10;
    OpenRowKeepsValid(page, texture, width, rowHeight);
    (IntRect(0, page.nextRow, width, height),
     page.(texture := texture, rows := page.rows + [Row(width, page.nextRow, rowHeight)],
           nextRow := page.nextRow + rowHeight))
  }

  /** Widening a row just appended is appending the widened row. */
  lemma WidenLastRow(rows: seq<Row>, r: Row, width: nat)
    ensures (rows + [r])[|rows| := r.(width := r.width + width)] == rows + [r.(width := r.width + width)]
  {
  }

  /** `Place` when the glyph goes on the existing row `i`. */
  lemma PlaceOnRow(page: Page, width: nat, height: nat, maximumSize: nat, smooth: bool, i: nat)
    requires ValidPage(page) && 0 < height && FirstFit(page.rows, width, height, page.texture.width) == Some(i)
    ensures i < |page.rows|
    ensures var row := page.rows[i];
      Place(page, width, height, maximumSize, smooth)
        == (IntRect(row.width, row.top, width, height), page.(rows := page.rows[i := row.(width := row.width + width)]))
  {
  }

  /** `Place` when no row suits the glyph and the texture can grow to hold a new row below the others. */
  lemma PlaceOnNewRow(page: Page, width: nat, height: nat, maximumSize: nat, smooth: bool, texture: Texture)
    requires ValidPage(page) && 0 < height && FirstFit(page.rows, width, height, page.texture.width).None?
    requires Grow(page.texture, page.nextRow + (height + height / 10), width, maximumSize, smooth) == Growth(texture, true)
    ensures page.texture.width <= texture.width && page.texture.height <= texture.height
    ensures RoomFor(texture, page.nextRow + (height + height / 10), width)
    ensures Place(page, width, height, maximumSize, smooth) == OnNewRow(page, texture, width, height)
  {
  }

  /** `Place` when no row suits the glyph and the texture cannot grow enough: the failure rectangle. */
  lemma PlaceFails(page: Page, width: nat, height: nat, maximumSize: nat, smooth: bool, texture: Texture)
    requires ValidPage(page) && 0 < height && FirstFit(page.rows, width, height, page.texture.width).None?
    requires Grow(page.texture, page.nextRow + (height + height / 10), width, maximumSize, smooth) == Growth(texture, false)
    ensures Place(page, width, height, maximumSize, smooth) == (FailedRect, page.(texture := texture))
  {
  }

  /**
   * A placement never moves a row or touches another row: the glyph is
   * appended to the used part of one row, which grows by exactly the
   * glyph's width.
   */
  lemma {:induction false} PlaceAppendsToOneRow(page: Page, width: nat, height: nat, maximumSize: nat, smooth: bool)
    requires ValidPage(page) && 0 < height
    ensures var (rect, after) := Place(page, width, height, maximumSize, smooth);
      rect != FailedRect ==>
        (exists k | 0 <= k < |after.rows| ::
          after.rows[k].top == rect.top && after.rows[k].width == rect.left + width &&
          (k < |page.rows| ==> page.rows[k].width == rect.left) &&
          (k == |page.rows| ==> rect.left == 0) &&
          forall j | 0 <= j < |page.rows| && j != k :: after.rows[j] == page.rows[j])
    ensures |Place(page, width, height, maximumSize, smooth).1.rows| - |page.rows| in {0, 1}
  {
    var (rect, after) := Place(page, width, height, maximumSize, smooth);
    match FirstFit(page.rows, width, height, page.texture.width)
    case Some(i) =>
      assert after.rows[i].width == page.rows[i].width + width;
    case None =>
      if rect != FailedRect {
        var k := |page.rows|;
        assert after.rows[k].top == rect.top;
      }
  }

  /** Index of pixel (x, y) in the row-major initial image. */
  function ImageIndex(x: nat, y: nat): nat
  {
    x + y * InitialSize
  }

  /**
   * `Page::Page`: an empty page whose 128 x 128 texture is loaded from a
   * transparent white image with an opaque white 2 x 2 square at the top
   * left corner (used to draw underlines and strike-throughs).
   */
  method NewPage(smooth: bool) returns (page: Page, image: seq<Color>)
    ensures page == EmptyPage(smooth)
    ensures |image| == InitialSize * InitialSize
    ensures forall x: nat, y: nat | x < InitialSize && y < InitialSize ::
      image[ImageIndex(x, y)] == (if x < 2 && y < 2 then Color(255, 255, 255, 255) else Color(255, 255, 255, 0))
  {
    image := seq(InitialSize * InitialSize, _ => Color(255, 255, 255, 0));
    for x := 0 to 2
      invariant |image| == InitialSize * InitialSize
      invariant forall px: nat, py: nat | px < InitialSize && py < InitialSize ::
        image[ImageIndex(px, py)] == (if px < x && py < 2 then Color(255, 255, 255, 255) else Color(255, 255, 255, 0))
    {
      for y := 0 to 2
        invariant |image| == InitialSize * InitialSize
        invariant forall px: nat, py: nat | px < InitialSize && py < InitialSize ::
          image[ImageIndex(px, py)] == (if (px < x && py < 2) || (px == x && py < y)
                                        then Color(255, 255, 255, 255) else Color(255, 255, 255, 0))
      {
        image := image[ImageIndex(x, y) := Color(255, 255, 255, 255)];
      }
    }
    page := Page(map[], Texture(InitialSize, InitialSize, smooth), FirstRowTop, []);
  }
}
