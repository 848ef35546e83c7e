/**
 * `sf::Font`: a FreeType face shared between copies through a reference
 * counter, and one glyph page per character size, filled on demand.
 *
 * FreeType itself is not modelled. What the font learns from it comes in
 * as a `FreeType` value (glyph indices, rasterised bitmaps, kerning) or as
 * an `Opening` (the outcome of opening a font file); FreeType objects are
 * opaque `Handle`s, and the handles a call gives back to FreeType are
 * returned as a list.
 */
module FontAtlas {
  import opened Graphics
  import opened SfErrors
  import opened GlyphKey
  import opened GlyphPixels
  import opened FontPage

  /** An untyped pointer to a FreeType object. */
  datatype Handle = Null | Live(id: nat)

  /** A rasterised glyph: the advance in whole pixels, the bitmap offsets and the bitmap. */
  datatype Rendered = Rendered(advance: int, left: int, top: int, bitmap: Bitmap)

  /** What FreeType answers about the open face. */
  datatype FreeType = FreeType(
    charIndex: nat -> bv32,                        // FT_Get_Char_Index
    floatBits: real -> bv32,                       // the bit pattern of an f32
    render: (nat, nat, bool, real) -> Option<Rendered>,  // None when a FreeType call fails
    kerning: (nat, nat, nat, bool) -> real,        // the kerning of a pair of non-null code points
    maximumTextureSize: nat)                       // Texture::getMaximumSize

  /** FreeType bitmaps always hold their rows. */
  ghost predicate RendersWellFormed(ft: FreeType)
  {
    forall cp, size, bold, thickness :: ft.render(cp, size, bold, thickness).Some? ==>
      WellFormed(ft.render(cp, size, bold, thickness).value.bitmap)
  }

  /** How far opening a font file got, and the FreeType objects it created. */
  datatype Opening =
    | NoLibrary
    | NoFace(library: Handle)
    | NoStroker(library: Handle, face: Handle)
    | NoCharmap(library: Handle, face: Handle, stroker: Handle)
    | Opened(library: Handle, face: Handle, stroker: Handle, family: string)

  /** The handles of a list that point to something, in order. */
  function Present(hs: seq<Handle>): (r: seq<Handle>)
    ensures forall h | h in r :: h in hs && h != Null
    ensures forall h | h in hs && h != Null :: h in r
    ensures |r| <= |hs|
    ensures |hs| == 1 ==> r == (if hs[0] == Null then [] else hs)
  {
    if hs == [] then [] else (if hs[0] == Null then [] else [hs[0]]) + Present(hs[1..])
  }

  /**
   * Releasing the handles of a + b releases those of a, then those of b:
   * the order of the list is the order of release.
   */
  lemma {:induction false} PresentAppend(a: seq<Handle>, b: seq<Handle>)
    ensures Present(a + b) == Present(a) + Present(b)
  {
    if a == [] {
      assert a + b == b;
    } else {
      assert (a + b)[1..] == a[1..] + b;
      PresentAppend(a[1..], b);
    }
  }

  /**
   * In the release list of (stroker, face, stream, library), a live face
   * comes right before a live stream, after the stroker when there is one.
   */
  lemma FaceBeforeStream(stroker: Handle, face: Handle, stream: Handle, library: Handle)
    requires face != Null && stream != Null
    ensures var r := Present([stroker, face, stream, library]);
      var i := if stroker == Null then 0 else 1;
      i + 1 < |r| && r[i] == face && r[i + 1] == stream
  {
    assert [stream, library][1..] == [library];
    assert Present([stream, library]) == [stream] + Present([library]);
    assert [face, stream, library][1..] == [stream, library];
    assert Present([face, stream, library]) == [face] + Present([stream, library]);
    assert [stroker, face, stream, library][1..] == [face, stream, library];
  }

  /** What rasterising a code point gives: nothing without a face, otherwise FreeType's answer. */
  function Rendering(ft: FreeType, face: Handle, codePoint: nat, characterSize: nat, bold: bool,
                     outlineThickness: real): (r: Option<Rendered>)
    ensures face == Null ==> r.None?
    ensures face != Null ==> r == ft.render(codePoint, characterSize, bold, outlineThickness)
  {
    if face == Null then None else ft.render(codePoint, characterSize, bold, outlineThickness)
  }

  /** The glyph a font hands out when it has nothing better. */
  const EmptyGlyph := Glyph(0.0, DefaultRect, IntRect(0, 0, 0, 0))

  /** The advance of a rendered glyph: one pixel more when emboldened. */
  function Advance(r: Rendered, bold: bool): real
  {
    r.advance as real + (if bold then 1.0 else 0.0)
  }

  /** The texture rectangle of a glyph: its allocated rectangle without the padding. */
  function Unpadded(rect: IntRect): (r: IntRect)
    ensures r.left == rect.left + Padding && r.left + r.width == rect.left + rect.width - Padding
    ensures r.top == rect.top + Padding && r.top + r.height == rect.top + rect.height - Padding
  {
    IntRect(rect.left + Padding, rect.top + Padding, rect.width - 2 * Padding, rect.height - 2 * Padding)
  }

  /** The page kept for a size, or the page `loadPage` would create for it. */
  function PageFor(pages: map<nat, Page>, size: nat, smooth: bool): Page
  {
    if size in pages then pages[size] else EmptyPage(smooth)
  }

  /** `getKerning`: pairs involving the null character never kern. */
  function Kerning(ft: FreeType, first: nat, second: nat, characterSize: nat, bold: bool): (k: real)
    ensures first == 0 || second == 0 ==> k == 0.0
  {
    if first == 0 || second == 0 then 0.0 else ft.kerning(first, second, characterSize, bold)
  }

  /** Every page is well kept, and every page texture has the given smoothing flag. */
  predicate PagesValid(pages: map<nat, Page>, smooth: bool)
  {
    forall size | size in pages :: ValidPage(pages[size]) && pages[size].texture.smooth == smooth
  }

  /** The glyph's bounding box: the bitmap, placed by its offsets (y grows downwards). */
  function Bounds(r: Rendered): FloatRect
  {
    FloatRect(r.left as real, -r.top as real, r.bitmap.width as real, r.bitmap.rows as real)
  }

  /** The rendering produced a bitmap with at least one pixel. */
  predicate HasImage(rendered: Option<Rendered>)
  {
    rendered.Some? && rendered.value.bitmap.width > 0 && rendered.value.bitmap.rows > 0
  }

  /**
   * The glyph `loadGlyph` makes of a rendering outcome (None when there is
   * no face or a FreeType call failed), given the page of its size: a
   * non-empty bitmap gets the rectangle placed on that page, inset by the
   * padding.
   */
  function LoadedGlyph(page: Page, smooth: bool, rendered: Option<Rendered>, bold: bool, maximumSize: nat): (glyph: Glyph)
    requires ValidPage(page)
    ensures rendered.None? ==> glyph == EmptyGlyph
    ensures rendered.Some? ==> glyph.advance == Advance(rendered.value, bold)
    ensures rendered.Some? && !HasImage(rendered) ==> glyph.bounds == DefaultRect && glyph.textureRect == IntRect(0, 0, 0, 0)
    ensures HasImage(rendered) ==> glyph.bounds == Bounds(rendered.value)
    ensures HasImage(rendered) ==>
      var bm := rendered.value.bitmap;
      glyph.textureRect == Unpadded(Place(page, PaddedWidth(bm), PaddedHeight(bm), maximumSize, smooth).0)
  {
    match rendered
    case None => EmptyGlyph
    case Some(g) =>
      if !HasImage(rendered) then Glyph(Advance(g, bold), DefaultRect, IntRect(0, 0, 0, 0))
      else
        var placed := Place(page, PaddedWidth(g.bitmap), PaddedHeight(g.bitmap), maximumSize, smooth);
        Glyph(Advance(g, bold), Bounds(g), Unpadded(placed.0))
  }

  /**
   * What `loadGlyph` makes of a rendering outcome: the glyph, and the page
   * table after a non-empty bitmap got its rectangle on the page of
   * `size`. Only that page changes, and its cached glyphs stay as they
   * were.
   */
  function Loaded(pages: map<nat, Page>, size: nat, smooth: bool, rendered: Option<Rendered>, bold: bool,
                  maximumSize: nat): (r: (Glyph, map<nat, Page>))
    requires PagesValid(pages, smooth)
    ensures r.0 == LoadedGlyph(PageFor(pages, size, smooth), smooth, rendered, bold, maximumSize)
    ensures PagesValid(r.1, smooth)
    ensures !HasImage(rendered) ==> r.1 == pages
    ensures HasImage(rendered) ==> size in r.1 && r.1.Keys == pages.Keys + {size}
    ensures size in pages ==> r.1.Keys == pages.Keys && r.1[size].glyphs == pages[size].glyphs
    ensures forall s | s in r.1 && s != size :: s in pages && r.1[s] == pages[s]
  {
    var page := PageFor(pages, size, smooth);
    var glyph := LoadedGlyph(page, smooth, rendered, bold, maximumSize);
    if !HasImage(rendered) then (glyph, pages)
    else
      var bm := rendered.value.bitmap;
      var placed := Place(page, PaddedWidth(bm), PaddedHeight(bm), maximumSize, smooth).1;
      StorePlaced(pages, size, smooth, placed);
      (glyph, pages[size := placed])
  }

  /** Storing the page of `size` back after a placement keeps the table valid and every other page. */
  lemma StorePlaced(pages: map<nat, Page>, size: nat, smooth: bool, placed: Page)
    requires PagesValid(pages, smooth) && ValidPage(placed) && placed.texture.smooth == smooth
    requires placed.glyphs == PageFor(pages, size, smooth).glyphs
    ensures PagesValid(pages[size := placed], smooth)
    ensures pages[size := placed].Keys == pages.Keys + {size}
    ensures size in pages ==> pages[size := placed].Keys == pages.Keys && placed.glyphs == pages[size].glyphs
    ensures forall s | s in pages[size := placed] && s != size :: s in pages && pages[size := placed][s] == pages[s]
  {
    StoreKeepsValid(pages, size, smooth, placed);
  }

  /**
   * The cache-miss branch of `getGlyph`: what `loadGlyph` makes of the
   * rendering, inserted under `key` on the page of `size`.
   */
  function LoadedAndCached(pages: map<nat, Page>, size: nat, smooth: bool, rendered: Option<Rendered>, bold: bool,
                           maximumSize: nat, key: Key): (r: (Glyph, map<nat, Page>))
    requires PagesValid(pages, smooth) && size in pages
    ensures r.0 == LoadedGlyph(pages[size], smooth, rendered, bold, maximumSize)
    ensures PagesValid(r.1, smooth) && r.1.Keys == pages.Keys
    ensures r.1[size].glyphs == pages[size].glyphs[key := r.0]
    ensures forall s | s in pages && s != size :: r.1[s] == pages[s]
  {
    var loaded := Loaded(pages, size, smooth, rendered, bold, maximumSize);
    var page := Insert(loaded.1[size], key, loaded.0);
    StoreKeepsValid(loaded.1, size, smooth, page);
    (loaded.0, loaded.1[size := page])
  }

  /**
   * `getGlyph` on values: the glyph cached under `key` on the page of
   * `size` when there is one; otherwise the page is created if missing and
   * the loaded glyph is cached under `key`. Either way the key then names
   * the returned glyph; a hit changes nothing, a miss touches only the
   * page of `size`.
   */
  function Fetched(pages: map<nat, Page>, size: nat, smooth: bool, rendered: Option<Rendered>, bold: bool,
                   maximumSize: nat, key: Key): (r: (Glyph, map<nat, Page>))
    requires PagesValid(pages, smooth)
    ensures PagesValid(r.1, smooth) && size in r.1
    ensures key in r.1[size].glyphs && r.1[size].glyphs[key] == r.0
    ensures var before := PageFor(pages, size, smooth);
      if key in before.glyphs then r == (before.glyphs[key], pages)
      else
        r.0 == LoadedGlyph(before, smooth, rendered, bold, maximumSize) &&
        r.1.Keys == pages.Keys + {size} &&
        r.1[size].glyphs == before.glyphs[key := r.0] &&
        forall s | s in pages && s != size :: r.1[s] == pages[s]
  {
    var before := PageFor(pages, size, smooth);
    if key in before.glyphs then (before.glyphs[key], pages)
    else
      MissCaches(pages, size, smooth, rendered, bold, maximumSize, key);
      LoadedAndCached(pages[size := before], size, smooth, rendered, bold, maximumSize, key)
  }

  /** On a miss, the page of `size` is created if missing and then gets the loaded glyph. */
  lemma MissCaches(pages: map<nat, Page>, size: nat, smooth: bool, rendered: Option<Rendered>, bold: bool,
                   maximumSize: nat, key: Key)
    requires PagesValid(pages, smooth)
    ensures var before := PageFor(pages, size, smooth);
      PagesValid(pages[size := before], smooth) &&
      var r := LoadedAndCached(pages[size := before], size, smooth, rendered, bold, maximumSize, key);
      PagesValid(r.1, smooth) && r.1.Keys == pages.Keys + {size} &&
      r.0 == LoadedGlyph(before, smooth, rendered, bold, maximumSize) &&
      r.1[size].glyphs == before.glyphs[key := r.0] &&
      forall s | s in pages && s != size :: r.1[s] == pages[s]
  {
    var before := PageFor(pages, size, smooth);
    var table := pages[size := before];
    StoreKeepsValid(pages, size, smooth, before);
    var r := LoadedAndCached(table, size, smooth, rendered, bold, maximumSize, key);
    ReplacedPage(pages, size, before, table, r.1);
  }

  /** A table that agrees with `pages[size := before]` off `size` agrees with `pages` there. */
  lemma ReplacedPage(pages: map<nat, Page>, size: nat, before: Page, table: map<nat, Page>, after: map<nat, Page>)
    requires table == pages[size := before]
    requires after.Keys == table.Keys
    requires forall s | s in table && s != size :: after[s] == table[s]
    ensures after.Keys == pages.Keys + {size}
    ensures forall s | s in pages && s != size :: after[s] == pages[s]
  {
  }

  /** `LoadedAndCached` inserts the glyph `Loaded` gives into the page `Loaded` leaves. */
  lemma CachedAfterLoad(pages: map<nat, Page>, size: nat, smooth: bool, rendered: Option<Rendered>, bold: bool,
                        maximumSize: nat, key: Key)
    requires PagesValid(pages, smooth) && size in pages
    ensures var loaded := Loaded(pages, size, smooth, rendered, bold, maximumSize);
      size in loaded.1 &&
      LoadedAndCached(pages, size, smooth, rendered, bold, maximumSize, key)
        == (loaded.0, loaded.1[size := Insert(loaded.1[size], key, loaded.0)])
  {
  }

  /** Writing a page twice under one size keeps the second. */
  lemma StoreTwice(pages: map<nat, Page>, size: nat, first: Page, second: Page)
    ensures pages[size := first][size := second] == pages[size := second]
  {
  }

  /** Storing a valid page of the table's smoothness keeps the table valid. */
  lemma StoreKeepsValid(pages: map<nat, Page>, size: nat, smooth: bool, page: Page)
    requires PagesValid(pages, smooth) && ValidPage(page) && page.texture.smooth == smooth
    ensures PagesValid(pages[size := page], smooth)
  {
  }

  /** The counter shared by every copy of a loaded font. */
  class RefCount {
    var count: int

    constructor (n: int)
      ensures count == n
    {
      count := n;
    }
  }

  class Font {
    var library: Handle
    var face: Handle
    var streamRec: Handle
    var stroker: Handle
    var refCount: RefCount?
    var isSmooth: bool
    var family: string
    var pages: map<nat, Page>
    var pixelBuffer: seq<bv8>

    /** Every page is well kept, and every page texture is smoothed exactly when the font is. */
    ghost predicate Valid()
      reads this
    {
      PagesValid(pages, isSmooth)
    }

    /** `Font()`: nothing loaded, smoothing on. */
    constructor ()
      ensures library == Null && face == Null && streamRec == Null && stroker == Null
      ensures refCount == null && isSmooth && family == []
      ensures pages == map[] && pixelBuffer == []
      ensures Valid()
    {
      library, face, streamRec, stroker := Null, Null, Null, Null;
      refCount := null;
      isSmooth := true;
      family := [];
      pages := map[];
      pixelBuffer := [];
    }

    /** The copy constructor: shares the FreeType objects and counts one more owner. */
    constructor Copy(copy: Font)
      modifies copy.refCount
      ensures library == copy.library && face == copy.face
      ensures streamRec == copy.streamRec && stroker == copy.stroker
      ensures refCount == copy.refCount && isSmooth == copy.isSmooth && family == copy.family
      ensures pages == copy.pages && pixelBuffer == copy.pixelBuffer
      ensures copy.refCount != null ==> copy.refCount.count == old(copy.refCount.count) + 1
      ensures Valid() == copy.Valid()
    {
      library, face, streamRec, stroker := copy.library, copy.face, copy.streamRec, copy.stroker;
      refCount := copy.refCount;
      isSmooth := copy.isSmooth;
      family := copy.family;
      pages := copy.pages;
      pixelBuffer := copy.pixelBuffer;
      new;
      if refCount != null {
        refCount.count := refCount.count + 1;
      }
    }

    /**
     * `cleanup`: gives up this font's share of the FreeType objects, which
     * are released (stroker, face, stream record, library) when it was the
     * last share, and forgets every page.
     */
    method Cleanup() returns (released: seq<Handle>)
      modifies this, refCount
      ensures library == Null && face == Null && streamRec == Null && stroker == Null
      ensures refCount == null && pages == map[] && pixelBuffer == []
      ensures isSmooth == old(isSmooth) && family == old(family)
      ensures old(refCount) != null ==> old(refCount).count == old(refCount.count) - 1
      ensures released ==
        if old(refCount) != null && old(refCount.count) == 1
        then Present([old(stroker), old(face), old(streamRec), old(library)])
        else []
      ensures Valid()
    {
      released := [];
      if refCount != null {
        refCount.count := refCount.count - 1;
        if refCount.count == 0 {
          released := Present([stroker, face, streamRec, library]);
        }
      }
      library, face, stroker, streamRec := Null, Null, Null, Null;
      refCount := null;
      pages := map[];
      pixelBuffer := [];
    }

    /**
     * `loadFromFile`: cleans up, starts a fresh counter of one owner (even
     * when opening fails), and keeps the FreeType objects that were made;
     * a face or stroker made before a later failure is released at once.
     */
    method LoadFromFile(opening: Opening) returns (ok: bool, released: seq<Handle>)
      modifies this, refCount
      ensures ok <==> opening.Opened?
      ensures refCount != null && fresh(refCount) && refCount.count == 1
      ensures old(refCount) != null ==> old(refCount).count == old(refCount.count) - 1
      ensures library == (if opening.NoLibrary? then Null else opening.library)
      ensures face == (if opening.Opened? then opening.face else Null)
      ensures stroker == (if opening.Opened? then opening.stroker else Null)
      ensures streamRec == Null && pages == map[] && pixelBuffer == []
      ensures isSmooth == old(isSmooth)
      ensures family == (if opening.Opened? then opening.family else old(family))
      ensures var dropped := if old(refCount) != null && old(refCount.count) == 1
                             then Present([old(stroker), old(face), old(streamRec), old(library)])
                             else [];
        released == dropped + match opening
          case NoStroker(_, f) => [f]
          case NoCharmap(_, f, s) => [s, f]
          case _ => []
      ensures Valid()
    {
      released := Cleanup();
      refCount := new RefCount(1);
      match opening
      case NoLibrary =>
        ok := false;
      case NoFace(l) =>
        library := l;
        ok := false;
      case NoStroker(l, f) =>
        library := l;
        released := released + [f];
        ok := false;
      case NoCharmap(l, f, s) =>
        library := l;
        released := released + [s, f];
        ok := false;
      case Opened(l, f, s, name) =>
        library, stroker, face := l, s, f;
        family := name;
        ok := true;
    }

    /**
     * `operator=`: copy-and-swap. This font takes over every field of
     * `right` (one more owner of its objects) and the temporary copy then
     * gives up this font's former share.
     */
    method Assign(right: Font) returns (released: seq<Handle>)
      modifies this, refCount, right.refCount
      ensures library == old(right.library) && face == old(right.face)
      ensures streamRec == old(right.streamRec) && stroker == old(right.stroker)
      ensures refCount == old(right.refCount) && isSmooth == old(right.isSmooth)
      ensures family == old(right.family) && pages == old(right.pages)
      ensures pixelBuffer == old(right.pixelBuffer)
      ensures old(refCount) == old(right.refCount) && old(refCount) != null ==>
        old(refCount).count == old(refCount.count)
      ensures old(refCount) != old(right.refCount) && old(right.refCount) != null ==>
        old(right.refCount).count == old(right.refCount.count) + 1
      ensures old(refCount) != old(right.refCount) && old(refCount) != null ==>
        old(refCount).count == old(refCount.count) - 1
      ensures released ==
        if old(refCount) != null &&
           old(refCount.count) + (if old(refCount) == old(right.refCount) then 1 else 0) == 1
        then Present([old(stroker), old(face), old(streamRec), old(library)])
        else []
      ensures old(right.Valid()) ==> Valid()
    {
      var temp := new Font.Copy(right);
      Swap(temp);
      released := temp.Cleanup();
    }

    /** The `std::swap` of every field with another font. */
    method Swap(other: Font)
      requires other != this
      modifies this, other
      ensures library == old(other.library) && other.library == old(library)
      ensures face == old(other.face) && other.face == old(face)
      ensures streamRec == old(other.streamRec) && other.streamRec == old(streamRec)
      ensures stroker == old(other.stroker) && other.stroker == old(stroker)
      ensures refCount == old(other.refCount) && other.refCount == old(refCount)
      ensures isSmooth == old(other.isSmooth) && other.isSmooth == old(isSmooth)
      ensures family == old(other.family) && other.family == old(family)
      ensures pages == old(other.pages) && other.pages == old(pages)
      ensures pixelBuffer == old(other.pixelBuffer) && other.pixelBuffer == old(pixelBuffer)
    {
      library, other.library := other.library, library;
      face, other.face := other.face, face;
      streamRec, other.streamRec := other.streamRec, streamRec;
      stroker, other.stroker := other.stroker, stroker;
      refCount, other.refCount := other.refCount, refCount;
      isSmooth, other.isSmooth := other.isSmooth, isSmooth;
      family, other.family := other.family, family;
      pages, other.pages := other.pages, pages;
      pixelBuffer, other.pixelBuffer := other.pixelBuffer, pixelBuffer;
    }

    /** `loadPage`: the page of a size, created empty on first use. */
    method LoadPage(characterSize: nat) returns (page: Page)
      requires Valid()
      modifies this`pages
      ensures Valid() && characterSize in pages && page == pages[characterSize]
      ensures pages == old(pages)[characterSize := PageFor(old(pages), characterSize, isSmooth)]
    {
      if characterSize !in pages {
        var image;
        page, image := NewPage(isSmooth);
        pages := pages[characterSize := page];
      }
      page := pages[characterSize];
    }

    /** `getTexture`: the texture of a size's page, creating the page if needed. */
    method GetTexture(characterSize: nat) returns (texture: Texture)
      requires Valid()
      modifies this`pages
      ensures Valid() && characterSize in pages && texture == pages[characterSize].texture
      ensures pages == old(pages)[characterSize := PageFor(old(pages), characterSize, isSmooth)]
      ensures texture.smooth == isSmooth && 0 < texture.width && 0 < texture.height
    {
      var page := LoadPage(characterSize);
      texture := page.texture;
    }

    /**
     * `setSmooth`: a change of setting is passed on to every page
     * texture; setting the current value touches nothing.
     */
    method SetSmooth(smooth: bool)
      requires Valid()
      modifies this`isSmooth, this`pages
      ensures Valid() && isSmooth == smooth && pages.Keys == old(pages).Keys
      ensures forall size | size in pages :: pages[size] == Smoothed(old(pages)[size], smooth)
      ensures smooth == old(isSmooth) ==> pages == old(pages)
    {
      if smooth != isSmooth {
        isSmooth := smooth;
        var remaining := pages.Keys;
        while remaining != {}
          invariant isSmooth == smooth
          invariant remaining <= pages.Keys && pages.Keys == old(pages).Keys
          invariant forall size | size in pages ::
            pages[size] == if size in remaining then old(pages)[size] else Smoothed(old(pages)[size], smooth)
          decreases remaining
        {
          var size :| size in remaining;
          pages := pages[size := Smoothed(pages[size], smooth)];
          remaining := remaining - {size};
        }
      }
    }

    /**
     * `findGlyphRect`: allocates a rectangle for a padded glyph on `page`,
     * returning it and the updated page.
     */
    method FindGlyphRect(page: Page, width: nat, height: nat, maximumSize: nat) returns (rect: IntRect, result: Page)
      requires ValidPage(page) && 0 < height
      ensures (rect, result) == Place(page, width, height, maximumSize, isSmooth)
    {
      var chosen := ChooseRow(page, width, height);
      if chosen.Some? {
        PlaceOnRow(page, width, height, maximumSize, isSmooth, chosen.value);
        rect, result := TakeFromRow(page, chosen.value, width, height);
      } else {
        rect, result := OpenRow(page, width, height, maximumSize);
      }
    }

    /**
     * The branch of `findGlyphRect` where no row suits the glyph: grow the
     * texture until a new row of 110% of the glyph's height fits below the
     * others, then take the glyph's rectangle from that row.
     */
    method OpenRow(page: Page, width: nat, height: nat, maximumSize: nat) returns (rect: IntRect, result: Page)
      requires ValidPage(page) && 0 < height && FirstFit(page.rows, width, height, page.texture.width).None?
      ensures (rect, result) == Place(page, width, height, maximumSize, isSmooth)
    {
      var rowHeight := height + height / 10;
      var texture, ok := GrowTexture(page.texture, page.nextRow + rowHeight, width, maximumSize);
      if !ok {
        PlaceFails(page, width, height, maximumSize, isSmooth, texture);
        rect, result := FailedRect, page.(texture := texture);
        return;
      }
      PlaceOnNewRow(page, width, height, maximumSize, isSmooth, texture);
      rect, result := TakeFromNewRow(page, texture, width, height);
    }

    /** Open an empty row of 110% of the glyph's height at `nextRow`, then take the glyph's rectangle from it. */
    static method TakeFromNewRow(page: Page, texture: Texture, width: nat, height: nat) returns (rect: IntRect, result: Page)
      requires ValidPage(page) && page.texture.width <= texture.width && page.texture.height <= texture.height
      requires RoomFor(texture, page.nextRow + (height + height / 10), width) && 0 < height
      ensures (rect, result) == OnNewRow(page, texture, width, height)
    {
      var rowHeight := height + height / 10;
      var withRow := page.(texture := texture, rows := page.rows + [Row(0, page.nextRow, rowHeight)],
                           nextRow := page.nextRow + rowHeight);
      rect, result := TakeFromRow(withRow, |page.rows|, width, height);
      WidenLastRow(page.rows, Row(0, page.nextRow, rowHeight), width);
      assert result.rows == page.rows + [Row(width, page.nextRow, rowHeight)];
    }

    /** The end of `findGlyphRect`: the rectangle at the used end of row `index`, which grows by `width`. */
    static method TakeFromRow(page: Page, index: nat, width: nat, height: nat) returns (rect: IntRect, result: Page)
      requires index < |page.rows|
      ensures var row := page.rows[index];
        rect == IntRect(row.width, row.top, width, height) &&
        result == page.(rows := page.rows[index := row.(width := row.width + width)])
    {
      var row := page.rows[index];
      rect := IntRect(row.width, row.top, width, height);
      result := page.(rows := page.rows[index := row.(width := row.width + width)]);
    }

    /**
     * The row search of `findGlyphRect`: the first row whose height suits
     * the glyph and which has room for its width.
     */
    static method ChooseRow(page: Page, width: nat, height: nat) returns (chosen: Option<nat>)
      requires ValidPage(page)
      ensures chosen == FirstFit(page.rows, width, height, page.texture.width)
    {
      chosen := None;
      var bestRatio: real := 0.0;
      var i := 0;
      while i < |page.rows| && chosen.None?
        invariant 0 <= i <= |page.rows|
        invariant chosen.None? ==> bestRatio == 0.0
        invariant chosen.None? ==> forall j | 0 <= j < i :: !Fits(page.rows[j], width, height, page.texture.width)
        invariant chosen.Some? ==> chosen == FirstFit(page.rows, width, height, page.texture.width)
      {
        var ratio := height as real / page.rows[i].height as real;
        if ratio < MinRatio || ratio > 1.0 {
        } else if width > page.texture.width - page.rows[i].width {
        } else if ratio < bestRatio {
        } else {
          chosen := Some(i);
          bestRatio := ratio;
        }
        i := i + 1;
      }
    }

    /**
     * The texture growth of `findGlyphRect`: doubles the texture until the
     * new row and the glyph fit, or reports that the maximum size stops it.
     */
    method GrowTexture(t: Texture, rowBottom: nat, width: nat, maximumSize: nat) returns (texture: Texture, ok: bool)
      requires 0 < t.width && 0 < t.height
      ensures Growth(texture, ok) == Grow(t, rowBottom, width, maximumSize, isSmooth)
    {
      texture := t;
      while rowBottom >= texture.height || width >= texture.width
        invariant 0 < texture.width && 0 < texture.height
        invariant Grow(texture, rowBottom, width, maximumSize, isSmooth) ==
                  Grow(t, rowBottom, width, maximumSize, isSmooth)
        decreases if texture.width <= maximumSize then maximumSize - texture.width else 0
      {
        if texture.width * 2 <= maximumSize && texture.height * 2 <= maximumSize {
          texture := Texture(texture.width * 2, texture.height * 2, isSmooth);
        } else {
          return texture, false;
        }
      }
      ok := true;
    }

    /**
     * Fills `pixelBuffer` with the padded RGBA image of a bitmap: the
     * transparent white fill, then the alpha of each bitmap pixel, row by
     * row (one bit per pixel, most significant first, for monochrome
     * bitmaps; one byte per pixel otherwise).
     */
    method FillPixelBuffer(bm: Bitmap)
      requires WellFormed(bm)
      modifies this`pixelBuffer
      ensures IsGlyphImage(bm, pixelBuffer)
    {
      var width, height := PaddedWidth(bm), PaddedHeight(bm);
      pixelBuffer := Resize(pixelBuffer, width * height * 4);
      FillTransparentWhite();
      BlankIsStart(bm, pixelBuffer);
      CopyRows(bm);
      SkipBottomBorder(bm, pixelBuffer);
    }

    /** The copy loop over the bitmap rows, each read from (y - 2) pitches into the bitmap. */
    method CopyRows(bm: Bitmap)
      requires WellFormed(bm) && PartialImage(bm, pixelBuffer, 0, Padding)
      modifies this`pixelBuffer
      ensures PartialImage(bm, pixelBuffer, 0, bm.rows + Padding)
    {
      var height := PaddedHeight(bm);
      var y := Padding;
      while y < height - Padding
        invariant Padding <= y <= height - Padding
        invariant PartialImage(bm, pixelBuffer, 0, y)
      {
        CopyRow(bm, y, RowStart(bm, y - Padding));
        y := y + 1;
      }
    }

    /** The fill loop: every pixel becomes transparent white, four bytes at a time. */
    method FillTransparentWhite()
      requires |pixelBuffer| % 4 == 0
      modifies this`pixelBuffer
      ensures |pixelBuffer| == old(|pixelBuffer|)
      ensures forall k | 0 <= k < |pixelBuffer| :: pixelBuffer[k] == BlankByte(k % 4)
    {
      var current := 0;
      while current != |pixelBuffer|
        invariant current % 4 == 0 && current <= |pixelBuffer| == old(|pixelBuffer|)
        invariant forall k | 0 <= k < current :: pixelBuffer[k] == BlankByte(k % 4)
        decreases |pixelBuffer| - current
      {
        pixelBuffer := pixelBuffer[current := 255][current + 1 := 255][current + 2 := 255][current + 3 := 0];
        current := current + 4;
      }
    }

    /**
     * One pass of the copy loop: the alpha of every pixel of bitmap row
     * y - 2, read from the row starting at `rowStart`.
     */
    method CopyRow(bm: Bitmap, y: nat, rowStart: nat)
      requires WellFormed(bm) && Padding <= y < bm.rows + Padding
      requires rowStart == RowStart(bm, y - Padding)
      requires PartialImage(bm, pixelBuffer, 0, y)
      modifies this`pixelBuffer
      ensures PartialImage(bm, pixelBuffer, 0, y + 1)
    {
      var width := PaddedWidth(bm);
      SkipLeftBorder(bm, pixelBuffer, y);
      var x := Padding;
      while x < width - Padding
        invariant Padding <= x <= width - Padding
        invariant PartialImage(bm, pixelBuffer, x, y)
      {
        var alpha: bv8;
        RowInBuffer(bm, x - Padding, y - Padding);
        if bm.mono {
          alpha := if bm.buffer[rowStart + (x - Padding) / 8] & (1 << (7 - (x - Padding) % 8)) != 0 then 255 else 0;
        } else {
          alpha := bm.buffer[rowStart + (x - Padding)];
        }
        assert alpha == SourceAlpha(bm, x - Padding, y - Padding);
        WriteAlpha(bm, pixelBuffer, x, y);
        pixelBuffer := pixelBuffer[Offset(width, x, y, 3) := alpha];
        x := x + 1;
      }
      SkipRightBorder(bm, pixelBuffer, y);
    }

    /**
     * `loadGlyph`: renders a glyph and, when its bitmap is not empty,
     * allocates a padded rectangle for it on the size's page and fills the
     * pixel buffer with its image (the upload to the texture is not
     * modelled).
     */
    method LoadGlyph(codePoint: nat, characterSize: nat, bold: bool, outlineThickness: real, ft: FreeType)
      returns (glyph: Glyph)
      requires Valid() && RendersWellFormed(ft)
      modifies this`pages, this`pixelBuffer
      ensures Valid()
      ensures var rendered := Rendering(ft, face, codePoint, characterSize, bold, outlineThickness);
        (glyph, pages) == Loaded(old(pages), characterSize, isSmooth, rendered, bold, ft.maximumTextureSize)
      ensures var rendered := Rendering(ft, face, codePoint, characterSize, bold, outlineThickness);
        if HasImage(rendered) then IsGlyphImage(rendered.value.bitmap, pixelBuffer) else pixelBuffer == old(pixelBuffer)
    {
      glyph := EmptyGlyph;
      if face == Null {
        return;
      }
      var rendered := ft.render(codePoint, characterSize, bold, outlineThickness);
      if rendered.None? {
        return;
      }
      var r := rendered.value;
      glyph := glyph.(advance := r.advance as real);
      if bold {
        glyph := glyph.(advance := glyph.advance + 1.0);
      }
      var width, height := r.bitmap.width, r.bitmap.rows;
      if width > 0 && height > 0 {
        width, height := PaddedWidth(r.bitmap), PaddedHeight(r.bitmap);
        var rect := PlaceGlyph(characterSize, width, height, ft.maximumTextureSize);
        glyph := glyph.(textureRect := Unpadded(rect));
        glyph := glyph.(bounds := Bounds(r));
        assert glyph == LoadedGlyph(PageFor(old(pages), characterSize, isSmooth), isSmooth, rendered, bold,
                                    ft.maximumTextureSize);
        FillPixelBuffer(r.bitmap);
      }
    }

    /**
     * The page part of the non-empty branch of `loadGlyph`: a rectangle
     * for the padded bitmap on the page of the size.
     */
    method PlaceGlyph(characterSize: nat, width: nat, height: nat, maximumSize: nat) returns (rect: IntRect)
      requires Valid() && 0 < height
      modifies this`pages
      ensures var placed := Place(PageFor(old(pages), characterSize, isSmooth), width, height, maximumSize, isSmooth);
        rect == placed.0 && pages == old(pages)[characterSize := placed.1]
      ensures Valid()
    {
      var page := LoadPage(characterSize);
      var updated;
      rect, updated := FindGlyphRect(page, width, height, maximumSize);
      StoreTwice(old(pages), characterSize, page, updated);
      StoreKeepsValid(old(pages), characterSize, isSmooth, updated);
      pages := pages[characterSize := updated];
    }

    /**
     * `getGlyph`: the glyph cached under the key of (thickness, bold,
     * glyph index) on the size's page, loaded and inserted on a miss.
     */
    method GetGlyph(codePoint: nat, characterSize: nat, bold: bool, outlineThickness: real, ft: FreeType)
      returns (glyph: Glyph)
      requires Valid() && RendersWellFormed(ft)
      modifies this`pages, this`pixelBuffer
      ensures Valid()
      ensures var key := Key(Combine(ft.floatBits(outlineThickness), bold, ft.charIndex(codePoint)));
        var rendered := Rendering(ft, face, codePoint, characterSize, bold, outlineThickness);
        (glyph, pages) == Fetched(old(pages), characterSize, isSmooth, rendered, bold, ft.maximumTextureSize, key)
      ensures var key := Key(Combine(ft.floatBits(outlineThickness), bold, ft.charIndex(codePoint)));
        key in PageFor(old(pages), characterSize, isSmooth).glyphs ==> pixelBuffer == old(pixelBuffer)
    {
      var page := LoadPage(characterSize);
      var key := Key(Combine(ft.floatBits(outlineThickness), bold, ft.charIndex(codePoint)));
      if key in page.glyphs {
        glyph := page.glyphs[key];
        assert characterSize in old(pages);
        assert pages == old(pages);
      } else {
        ghost var afterPage := pages;
        glyph := LoadAndCache(codePoint, characterSize, bold, outlineThickness, ft, key);
        CachedAfterLoad(afterPage, characterSize, isSmooth,
                        Rendering(ft, face, codePoint, characterSize, bold, outlineThickness),
                        bold, ft.maximumTextureSize, key);
      }
    }

    /** The cache-miss branch of `getGlyph`: load the glyph and cache it under `key`. */
    method LoadAndCache(codePoint: nat, characterSize: nat, bold: bool, outlineThickness: real, ft: FreeType,
                        key: Key) returns (glyph: Glyph)
      requires Valid() && RendersWellFormed(ft) && characterSize in pages
      modifies this`pages, this`pixelBuffer
      ensures Valid()
      ensures var rendered := Rendering(ft, face, codePoint, characterSize, bold, outlineThickness);
        var loaded := Loaded(old(pages), characterSize, isSmooth, rendered, bold, ft.maximumTextureSize);
        characterSize in loaded.1 && glyph == loaded.0 &&
        pages == loaded.1[characterSize := Insert(loaded.1[characterSize], key, loaded.0)]
    {
      glyph := LoadGlyph(codePoint, characterSize, bold, outlineThickness, ft);
      var page := Insert(pages[characterSize], key, glyph);
      StoreKeepsValid(pages, characterSize, isSmooth, page);
      pages := pages[characterSize := page];
    }
  }

  /** `std::vector::resize`: keeps the common prefix and pads with zeros. */
  function Resize(s: seq<bv8>, n: nat): (r: seq<bv8>)
    ensures |r| == n
    ensures forall i | 0 <= i < n && i < |s| :: r[i] == s[i]
    ensures forall i | |s| <= i < n :: r[i] == 0
  {
    if n <= |s| then s[..n] else s + seq(n - |s|, _ => 0)
  }
}
