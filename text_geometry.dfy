/**
 * The geometry of a `Text`, as pure functions: the two quad builders
 * (`add_line`, `add_glyph_quad`), the pen walk of `ensure_geometry_update`
 * one character at a time (`Step`, `Run`), its end (`Finish`), the whole
 * regeneration (`Layout`), and the pen walk of `find_character_pos`
 * (`CaretStep`, `CaretAfter`). The imperative `Text` methods are proved
 * equal to these; the properties of the layout are the lemmas below.
 *
 * The font is an oracle: `FontMetrics` holds one function per query the
 * text makes, so every fact here holds for every font.
 */
module TextGeometry {
  import opened Graphics

  /** The font queries made by a text: glyph, kerning, line metrics. */
  datatype FontMetrics = FontMetrics(
    glyph: (nat, nat, bool, real) -> Glyph,  // code point, character size, bold, outline thickness
    kerning: (nat, nat, nat) -> real,        // previous code point, code point, character size
    boldKerning: (nat, nat, nat) -> real,
    lineSpacing: nat -> real,
    underlinePosition: nat -> real,
    underlineThickness: nat -> real)

  /** `TextStyle` bit flags. */
  datatype TextStyle = TextStyle(bits: bv32)
  {
    predicate Contains(flag: TextStyle)
    {
      bits & flag.bits == flag.bits
    }
  }

  const Regular := TextStyle(0)
  const Bold := TextStyle(1)
  const Italic := TextStyle(2)
  const Underlined := TextStyle(4)
  const StrikeThrough := TextStyle(8)

  /** The shear applied to italic glyphs: `0.209` as an f32, written out exactly. */
  const ItalicShear: real := 0.20900000631809234619140625

  /** The padding added around each glyph, in local units and in texels. */
  const GlyphPadding: real := 1.0

  /** `ch as u32`. */
  function Code(c: char): nat
  {
    c as int
  }

  function Min(a: real, b: real): real { if a <= b then a else b }

  function Max(a: real, b: real): real { if a >= b then a else b }

  function Floor(r: real): real { r.Floor as real }

  /** The least integer not below r. */
  function Ceil(r: real): int { -((-r).Floor) }

  function Abs(r: real): real { if r < 0.0 then -r else r }

  // ---------------------------------------------------------------------
  // Quads

  /** Two triangles covering a rectangle, given by its four corners. */
  function Quad(topLeft: Vertex, topRight: Vertex, bottomLeft: Vertex, bottomRight: Vertex): seq<Vertex>
  {
    [topLeft, topRight, bottomLeft, bottomLeft, topRight, bottomRight]
  }

  /** The pixel-aligned top edge of an underline or strike-through line. */
  function LineTop(lineTop: real, offset: real, thickness: real): real
  {
    Floor(lineTop + offset - thickness / 2.0 + 0.5)
  }

  /** The pixel-aligned bottom edge of an underline or strike-through line. */
  function LineBottom(lineTop: real, offset: real, thickness: real): real
  {
    LineTop(lineTop, offset, thickness) + Floor(thickness + 0.5)
  }

  /**
   * The corners of the i-th vertex of a quad, whose 6 vertices are the
   * corners top-left, top-right, bottom-left, bottom-left, top-right,
   * bottom-right (two triangles).
   */
  predicate OnRight(i: int) { i == 1 || i == 4 || i == 5 }

  predicate OnBottom(i: int) { i == 2 || i == 3 || i == 5 }

  /** A corner of a decoration bar: x in {-t, lineLength + t}, y in {top - t, bottom + t}. */
  function LineCorner(lineLength: real, lineTop: real, color: Color, offset: real, thickness: real,
                      outlineThickness: real, right: bool, bottom: bool): Vertex
  {
    var x := if right then lineLength + outlineThickness else -outlineThickness;
    var y := if bottom then LineBottom(lineTop, offset, thickness) + outlineThickness
             else LineTop(lineTop, offset, thickness) - outlineThickness;
    Vertex(Vector2f(x, y), color, Vector2f(1.0, 1.0))
  }

  /**
   * `add_line`: appends the 6 vertices of a horizontal bar from x = 0 to
   * x = lineLength, between the pixel-aligned top and bottom edges, grown
   * by outlineThickness on every side and textured by the texel (1, 1);
   * the earlier vertices are kept.
   */
  function AddLine(vertices: seq<Vertex>, lineLength: real, lineTop: real, color: Color,
                   offset: real, thickness: real, outlineThickness: real): (r: seq<Vertex>)
    ensures |r| == |vertices| + 6 && r[..|vertices|] == vertices
    ensures forall k :: |vertices| <= k < |r| ==>
      r[k] == LineCorner(lineLength, lineTop, color, offset, thickness, outlineThickness,
                         OnRight(k - |vertices|), OnBottom(k - |vertices|))
  {
    var top := LineTop(lineTop, offset, thickness);
    var bottom := LineBottom(lineTop, offset, thickness);
    var tex := Vector2f(1.0, 1.0);
    var q := Quad(
      Vertex(Vector2f(-outlineThickness, top - outlineThickness), color, tex),
      Vertex(Vector2f(lineLength + outlineThickness, top - outlineThickness), color, tex),
      Vertex(Vector2f(-outlineThickness, bottom + outlineThickness), color, tex),
      Vertex(Vector2f(lineLength + outlineThickness, bottom + outlineThickness), color, tex));
    assert forall i | 0 <= i < 6 ::
      q[i] == LineCorner(lineLength, lineTop, color, offset, thickness, outlineThickness, OnRight(i), OnBottom(i));
    vertices + q
  }

  /**
   * The appended bar covers exactly [-t, lineLength + t] horizontally and
   * [top - t, bottom + t] vertically (t the outline thickness): these are
   * the minimal bounds of its 6 vertices.
   */
  lemma LineQuadBounds(vertices: seq<Vertex>, lineLength: real, lineTop: real, color: Color,
                       offset: real, thickness: real, outlineThickness: real)
    requires lineLength + 2.0 * outlineThickness >= 0.0
    requires Floor(thickness + 0.5) + 2.0 * outlineThickness >= 0.0
    ensures var top := LineTop(lineTop, offset, thickness);
      IsMinimalBounds(
        AddLine(vertices, lineLength, lineTop, color, offset, thickness, outlineThickness)[|vertices|..],
        FloatRect(-outlineThickness, top - outlineThickness,
                  lineLength + 2.0 * outlineThickness, Floor(thickness + 0.5) + 2.0 * outlineThickness))
  {
    var q := AddLine(vertices, lineLength, lineTop, color, offset, thickness, outlineThickness)[|vertices|..];
    assert q[0].position.x == -outlineThickness && q[0].position.y == LineTop(lineTop, offset, thickness) - outlineThickness;
    assert q[5].position.x == lineLength + outlineThickness && q[5].position.y == LineBottom(lineTop, offset, thickness) + outlineThickness;
  }

  /** A glyph corner: bounds grown by the padding, x sheared by -shear * y. */
  function GlyphCorner(position: Vector2f, color: Color, glyph: Glyph, italicShear: real,
                       right: bool, bottom: bool): Vertex
  {
    var b := glyph.bounds;
    var t := glyph.textureRect;
    var x := if right then b.left + b.width + GlyphPadding else b.left - GlyphPadding;
    var y := if bottom then b.top + b.height + GlyphPadding else b.top - GlyphPadding;
    var u := if right then (t.left + t.width) as real + GlyphPadding else t.left as real - GlyphPadding;
    var v := if bottom then (t.top + t.height) as real + GlyphPadding else t.top as real - GlyphPadding;
    Vertex(Vector2f(position.x + x - italicShear * y, position.y + y), color, Vector2f(u, v))
  }

  /**
   * `add_glyph_quad`: appends the 6 vertices of the glyph's padded quad,
   * each a corner of the padded bounds (top row sheared by -shear * top,
   * bottom row by -shear * bottom) carrying the matching corner of the
   * padded texture rectangle; the earlier vertices are kept.
   */
  function AddGlyphQuad(vertices: seq<Vertex>, position: Vector2f, color: Color, glyph: Glyph,
                        italicShear: real): (r: seq<Vertex>)
    ensures |r| == |vertices| + 6 && r[..|vertices|] == vertices
    ensures forall k :: |vertices| <= k < |r| ==>
      r[k] == GlyphCorner(position, color, glyph, italicShear, OnRight(k - |vertices|), OnBottom(k - |vertices|))
  {
    var padding := GlyphPadding;
    var left := glyph.bounds.left - padding;
    var top := glyph.bounds.top - padding;
    var right := glyph.bounds.left + glyph.bounds.width + padding;
    var bottom := glyph.bounds.top + glyph.bounds.height + padding;
    var u1 := glyph.textureRect.left as real - padding;
    var v1 := glyph.textureRect.top as real - padding;
    var u2 := (glyph.textureRect.left + glyph.textureRect.width) as real + padding;
    var v2 := (glyph.textureRect.top + glyph.textureRect.height) as real + padding;
    var topLeft := Vertex(Vector2f(position.x + left - italicShear * top, position.y + top), color, Vector2f(u1, v1));
    var topRight := Vertex(Vector2f(position.x + right - italicShear * top, position.y + top), color, Vector2f(u2, v1));
    var bottomLeft := Vertex(Vector2f(position.x + left - italicShear * bottom, position.y + bottom), color, Vector2f(u1, v2));
    var bottomRight := Vertex(Vector2f(position.x + right - italicShear * bottom, position.y + bottom), color, Vector2f(u2, v2));
    assert topLeft == GlyphCorner(position, color, glyph, italicShear, false, false);
    assert topRight == GlyphCorner(position, color, glyph, italicShear, true, false);
    assert bottomLeft == GlyphCorner(position, color, glyph, italicShear, false, true);
    assert bottomRight == GlyphCorner(position, color, glyph, italicShear, true, true);
    var q := Quad(topLeft, topRight, bottomLeft, bottomRight);
    assert forall i | 0 <= i < 6 :: q[i] == GlyphCorner(position, color, glyph, italicShear, OnRight(i), OnBottom(i));
    vertices + q
  }

  /**
   * Without shear, the quad of a glyph with non-negative size covers its
   * bounds grown by the padding on every side, moved to the pen position.
   */
  lemma GlyphQuadBounds(vertices: seq<Vertex>, position: Vector2f, color: Color, glyph: Glyph)
    requires glyph.bounds.width >= 0.0 && glyph.bounds.height >= 0.0
    ensures var b := glyph.bounds;
      IsMinimalBounds(AddGlyphQuad(vertices, position, color, glyph, 0.0)[|vertices|..],
        FloatRect(position.x + b.left - 1.0, position.y + b.top - 1.0, b.width + 2.0, b.height + 2.0))
  {
    var q := AddGlyphQuad(vertices, position, color, glyph, 0.0)[|vertices|..];
    assert q[0] == GlyphCorner(position, color, glyph, 0.0, false, false);
    assert q[5] == GlyphCorner(position, color, glyph, 0.0, true, true);
  }

  // ---------------------------------------------------------------------
  // The layout walk of `ensure_geometry_update`

  /** The values fixed before the walk starts. */
  datatype Env = Env(
    font: FontMetrics,
    characterSize: nat,
    isBold: bool,
    isUnderlined: bool,
    isStrikeThrough: bool,
    italicShear: real,
    underlineOffset: real,
    underlineThickness: real,
    strikeThroughOffset: real,
    whitespaceWidth: real,
    letterSpacing: real,
    lineSpacing: real,
    fillColor: Color,
    outlineColor: Color,
    outlineThickness: real)

  /**
   * The values computed from the font and the text's settings before the
   * walk: style flags, line metrics, the strike-through offset (centre of
   * the 'x' glyph) and the whitespace width adjusted by the letter spacing.
   */
  function MakeEnv(font: FontMetrics, characterSize: nat, style: TextStyle,
                   letterSpacingFactor: real, lineSpacingFactor: real,
                   fillColor: Color, outlineColor: Color, outlineThickness: real): (r: Env)
    ensures r.characterSize == characterSize && r.isBold == style.Contains(Bold)
    ensures r.italicShear != 0.0 <==> style.Contains(Italic)
    ensures r.whitespaceWidth == font.glyph(Code(' '), characterSize, r.isBold, 0.0).advance + r.letterSpacing
    ensures letterSpacingFactor == 1.0 ==> r.letterSpacing == 0.0
  {
    var isBold := style.Contains(Bold);
    var xBounds := font.glyph(Code('x'), characterSize, isBold, 0.0).bounds;
    var spaceAdvance := font.glyph(Code(' '), characterSize, isBold, 0.0).advance;
    var letterSpacing := (spaceAdvance / 3.0) * (letterSpacingFactor - 1.0);
    Env(font, characterSize, isBold, style.Contains(Underlined), style.Contains(StrikeThrough),
        if style.Contains(Italic) then ItalicShear else 0.0,
        font.underlinePosition(characterSize), font.underlineThickness(characterSize),
        xBounds.top + xBounds.height / 2.0,
        spaceAdvance + letterSpacing, letterSpacing,
        font.lineSpacing(characterSize) * lineSpacingFactor,
        fillColor, outlineColor, outlineThickness)
  }

  /** The pen and the running extremes, the previous character and both vertex lists. */
  datatype Pen = Pen(x: real, y: real, minX: real, minY: real, maxX: real, maxY: real,
                     prev: nat, fill: seq<Vertex>, outline: seq<Vertex>)

  /** The two vertex lists. */
  datatype Lists = Lists(fill: seq<Vertex>, outline: seq<Vertex>)

  datatype Geometry = Geometry(vertices: seq<Vertex>, outlineVertices: seq<Vertex>, bounds: FloatRect)

  /** The pen at the start: (0, size), extremes (size, size, 0, 0). */
  function Start(env: Env): Pen
  {
    var size := env.characterSize as real;
    Pen(0.0, size, size, size, 0.0, 0.0, 0, [], [])
  }

  function Kerning(env: Env, prev: nat, c: char): real
  {
    if env.isBold then env.font.boldKerning(prev, Code(c), env.characterSize)
    else env.font.kerning(prev, Code(c), env.characterSize)
  }

  /** One decoration line: on the fill list, and on the outline list when outlined. */
  function Decorate(env: Env, l: Lists, lineLength: real, lineTop: real, offset: real): Lists
  {
    Lists(
      AddLine(l.fill, lineLength, lineTop, env.fillColor, offset, env.underlineThickness, 0.0),
      if env.outlineThickness != 0.0 then
        AddLine(l.outline, lineLength, lineTop, env.outlineColor, offset, env.underlineThickness, env.outlineThickness)
      else l.outline)
  }

  /** The decorations of one position: underline first, then strike-through. */
  function DecorateBoth(env: Env, l: Lists, on: bool, lineLength: real, lineTop: real): Lists
  {
    var u := if env.isUnderlined && on then Decorate(env, l, lineLength, lineTop, env.underlineOffset) else l;
    if env.isStrikeThrough && on then Decorate(env, u, lineLength, lineTop, env.strikeThroughOffset) else u
  }

  predicate IsLayoutWhitespace(c: char)
  {
    c == ' ' || c == '\n' || c == '\t'
  }

  /** A character drawn as a glyph quad. */
  predicate IsVisible(c: char)
  {
    !IsLayoutWhitespace(c) && c != '\r'
  }

  /** Space, tab and newline: move the pen, update the extremes before and after. */
  function WhitespaceStep(env: Env, p: Pen, c: char, x: real, l: Lists): Pen
    requires IsLayoutWhitespace(c)
  {
    var minX := Min(p.minX, x);
    var minY := Min(p.minY, p.y);
    var nx := if c == ' ' then x + env.whitespaceWidth
              else if c == '\t' then x + env.whitespaceWidth * 4.0
              else 0.0;
    var ny := if c == '\n' then p.y + env.lineSpacing else p.y;
    Pen(nx, ny, minX, minY, Max(p.maxX, nx), Max(p.maxY, ny), Code(c), l.fill, l.outline)
  }

  /**
   * Any other character: the outline quad (when outlined), the fill quad,
   * the extremes from the glyph's sheared bounds, then the advance.
   * (The right extreme omits the pen x, as the source does.)
   */
  function GlyphStep(env: Env, p: Pen, c: char, x: real, l: Lists): Pen
  {
    var outline :=
      if env.outlineThickness != 0.0 then
        AddGlyphQuad(l.outline, Vector2f(x, p.y), env.outlineColor,
                     env.font.glyph(Code(c), env.characterSize, env.isBold, env.outlineThickness), env.italicShear)
      else l.outline;
    var glyph := env.font.glyph(Code(c), env.characterSize, env.isBold, 0.0);
    var fill := AddGlyphQuad(l.fill, Vector2f(x, p.y), env.fillColor, glyph, env.italicShear);
    var left := glyph.bounds.left;
    var top := glyph.bounds.top;
    var right := glyph.bounds.left + glyph.bounds.width;
    var bottom := glyph.bounds.top + glyph.bounds.height;
    Pen(x + glyph.advance + env.letterSpacing, p.y,
        Min(p.minX, x + left - env.italicShear * bottom), Min(p.minY, p.y + top),
        Max(p.maxX, right - env.italicShear * top), Max(p.maxY, p.y + bottom),
        Code(c), fill, outline)
  }

  /** One iteration of the walk. A carriage return changes nothing. */
  function Step(env: Env, p: Pen, c: char): (r: Pen)
    ensures c == '\r' ==> r == p
    ensures c != '\r' ==> r.prev == Code(c)
    ensures r.y == (if c == '\n' then p.y + env.lineSpacing else p.y)
    ensures r.minX <= p.minX && r.minY <= p.minY && p.maxX <= r.maxX && p.maxY <= r.maxY
  {
    if c == '\r' then p
    else
      var x := p.x + Kerning(env, p.prev, c);
      var l := DecorateBoth(env, Lists(p.fill, p.outline), c == '\n' && p.prev != Code('\n'), x, p.y);
      if IsLayoutWhitespace(c) then WhitespaceStep(env, p, c, x, l)
      else GlyphStep(env, p, c, x, l)
  }

  /** Step on a character other than a carriage return, one branch at a time. */
  lemma StepBranch(env: Env, p: Pen, c: char, x: real, l: Lists)
    requires c != '\r' && x == p.x + Kerning(env, p.prev, c)
    requires l == DecorateBoth(env, Lists(p.fill, p.outline), c == '\n' && p.prev != Code('\n'), x, p.y)
    ensures IsLayoutWhitespace(c) ==> Step(env, p, c) == WhitespaceStep(env, p, c, x, l)
    ensures !IsLayoutWhitespace(c) ==> Step(env, p, c) == GlyphStep(env, p, c, x, l)
  {
  }

  /** The pen after walking the whole of s. */
  function Run(env: Env, s: seq<char>): (r: Pen)
    ensures r.minX <= env.characterSize as real && r.minY <= env.characterSize as real
    ensures 0.0 <= r.maxX && 0.0 <= r.maxY
    ensures (forall k | 0 <= k < |s| :: s[k] != '\n') ==> r.y == env.characterSize as real
    decreases |s|
  {
    if s == [] then Start(env)
    else Step(env, Run(env, s[..|s| - 1]), s[|s| - 1])
  }

  /**
   * After the walk: grow the extremes by |ceil(outline thickness)|, add the
   * trailing decorations when the last line has positive width, and build
   * the bounds from the extremes.
   */
  function Finish(env: Env, p: Pen): (r: Geometry)
    ensures r.bounds.left <= p.minX && p.maxX <= r.bounds.left + r.bounds.width
    ensures r.bounds.top <= p.minY && p.maxY <= r.bounds.top + r.bounds.height
  {
    var o := Abs(Ceil(env.outlineThickness) as real);
    var grow := if env.outlineThickness != 0.0 then o else 0.0;
    var minX, maxX := p.minX - grow, p.maxX + grow;
    var minY, maxY := p.minY - grow, p.maxY + grow;
    var l := DecorateBoth(env, Lists(p.fill, p.outline), p.x > 0.0, p.x, p.y);
    Geometry(l.fill, l.outline, FloatRect(minX, minY, maxX - minX, maxY - minY))
  }

  /** The geometry `ensure_geometry_update` builds for a text with a font. */
  function Layout(env: Env, s: seq<char>): (r: Geometry)
    ensures s == [] ==> r == Geometry([], [], DefaultRect)
    ensures s != [] ==>
      r.bounds.left <= env.characterSize as real && 0.0 <= r.bounds.left + r.bounds.width &&
      r.bounds.top <= env.characterSize as real && 0.0 <= r.bounds.top + r.bounds.height
  {
    if s == [] then Geometry([], [], DefaultRect)
    else Finish(env, Run(env, s))
  }

  // ---------------------------------------------------------------------
  // Vertex counts

  function VisibleCount(s: seq<char>): nat
    decreases |s|
  {
    if s == [] then 0
    else VisibleCount(s[..|s| - 1]) + (if IsVisible(s[|s| - 1]) then 1 else 0)
  }

  /** The code of the last character that is not a carriage return, or 0. */
  function PrevCode(s: seq<char>): nat
    decreases |s|
  {
    if s == [] then 0
    else if s[|s| - 1] == '\r' then PrevCode(s[..|s| - 1])
    else Code(s[|s| - 1])
  }

  /** The newlines whose previous non-CR character is not a newline. */
  function LineBreaks(s: seq<char>): nat
    decreases |s|
  {
    if s == [] then 0
    else
      var init := s[..|s| - 1];
      LineBreaks(init) + (if s[|s| - 1] == '\n' && PrevCode(init) != Code('\n') then 1 else 0)
  }

  /**
   * The fill vertices the decorations add at the given number of decorated
   * positions: 6 per position for each active decoration.
   */
  function DecorationVertices(env: Env, positions: nat): nat
  {
    (if env.isUnderlined then 6 * positions else 0) + (if env.isStrikeThrough then 6 * positions else 0)
  }

  /** Without an outline the outline list is empty; with one it is as long as the fill list. */
  predicate OutlineMatches(env: Env, fill: seq<Vertex>, outline: seq<Vertex>)
  {
    if env.outlineThickness == 0.0 then outline == [] else |outline| == |fill|
  }

  lemma DecorateBothCounts(env: Env, l: Lists, on: bool, lineLength: real, lineTop: real)
    requires OutlineMatches(env, l.fill, l.outline)
    ensures var r := DecorateBoth(env, l, on, lineLength, lineTop);
      && |r.fill| == |l.fill| + DecorationVertices(env, if on then 1 else 0)
      && OutlineMatches(env, r.fill, r.outline)
  {
  }

  /**
   * One step adds 6 fill vertices for a visible character and 6 per
   * decoration at a line break, and records the character unless it is a
   * carriage return.
   */
  lemma StepCounts(env: Env, p: Pen, c: char)
    requires OutlineMatches(env, p.fill, p.outline)
    ensures var q := Step(env, p, c);
      && q.prev == (if c == '\r' then p.prev else Code(c))
      && |q.fill| == |p.fill| + (if IsVisible(c) then 6 else 0)
                     + DecorationVertices(env, if c == '\n' && p.prev != Code('\n') then 1 else 0)
      && OutlineMatches(env, q.fill, q.outline)
  {
    if c != '\r' {
      var x := p.x + Kerning(env, p.prev, c);
      var on := c == '\n' && p.prev != Code('\n');
      var l := DecorateBoth(env, Lists(p.fill, p.outline), on, x, p.y);
      DecorateBothCounts(env, Lists(p.fill, p.outline), on, x, p.y);
      StepBranch(env, p, c, x, l);
    }
  }

  /**
   * The walk adds 6 fill vertices per visible character and 6 per
   * decoration line at a line break; the outline list stays empty without
   * an outline and matches the fill list with one.
   */
  lemma {:induction false} RunCounts(env: Env, s: seq<char>)
    ensures Run(env, s).prev == PrevCode(s)
    ensures |Run(env, s).fill| == 6 * VisibleCount(s) + DecorationVertices(env, LineBreaks(s))
    ensures OutlineMatches(env, Run(env, s).fill, Run(env, s).outline)
  {
    if s != [] {
      var init, c := s[..|s| - 1], s[|s| - 1];
      RunCounts(env, init);
      var p := Run(env, init);
      StepCounts(env, p, c);
      assert s[..|s| - 1] == init;
    }
  }

  /** The trailing decorations add 6 fill vertices per decoration when the last line is not empty. */
  lemma FinishCounts(env: Env, p: Pen)
    requires OutlineMatches(env, p.fill, p.outline)
    ensures |Finish(env, p).vertices| == |p.fill| + DecorationVertices(env, if p.x > 0.0 then 1 else 0)
    ensures OutlineMatches(env, Finish(env, p).vertices, Finish(env, p).outlineVertices)
  {
    DecorateBothCounts(env, Lists(p.fill, p.outline), p.x > 0.0, p.x, p.y);
  }

  /**
   * The vertex counts of a regenerated text: 6 fill vertices per visible
   * character plus 6 per decoration line (one per line break and one
   * trailing when the last line has positive width, for each active
   * decoration). The outline list is empty without an outline and as long
   * as the fill list with one.
   */
  lemma {:induction false} LayoutCounts(env: Env, s: seq<char>)
    requires s != []
    ensures var trailing := if Run(env, s).x > 0.0 then 1 else 0;
      |Layout(env, s).vertices| == 6 * VisibleCount(s) + DecorationVertices(env, LineBreaks(s) + trailing)
    ensures OutlineMatches(env, Layout(env, s).vertices, Layout(env, s).outlineVertices)
  {
    var p := Run(env, s);
    RunCounts(env, s);
    FinishCounts(env, p);
    assert Layout(env, s) == Finish(env, p);
  }

  /**
   * A newline decorates only when the previous non-CR character is not a
   * newline; the decorations (underline, then strike-through) span the pen
   * x after kerning, on the current line.
   */
  lemma NewlineDecorations(env: Env, p: Pen)
    ensures var x := p.x + Kerning(env, p.prev, '\n');
      var u := if env.isUnderlined then
        AddLine([], x, p.y, env.fillColor, env.underlineOffset, env.underlineThickness, 0.0) else [];
      var st := if env.isStrikeThrough then
        AddLine([], x, p.y, env.fillColor, env.strikeThroughOffset, env.underlineThickness, 0.0) else [];
      Step(env, p, '\n').fill == p.fill + (if p.prev != Code('\n') then u + st else [])
  {
    var x := p.x + Kerning(env, p.prev, '\n');
    var on := p.prev != Code('\n');
    var l := DecorateBoth(env, Lists(p.fill, p.outline), on, x, p.y);
    StepBranch(env, p, '\n', x, l);
    DecorateBothFill(env, Lists(p.fill, p.outline), on, x, p.y);
  }

  /** The fill vertices of the decorations: the underline bar, then the strike-through bar. */
  lemma DecorateBothFill(env: Env, l: Lists, on: bool, x: real, y: real)
    ensures var u := if env.isUnderlined then
        AddLine([], x, y, env.fillColor, env.underlineOffset, env.underlineThickness, 0.0) else [];
      var st := if env.isStrikeThrough then
        AddLine([], x, y, env.fillColor, env.strikeThroughOffset, env.underlineThickness, 0.0) else [];
      DecorateBoth(env, l, on, x, y).fill == l.fill + (if on then u + st else [])
  {
    var u := if env.isUnderlined then
      AddLine([], x, y, env.fillColor, env.underlineOffset, env.underlineThickness, 0.0) else [];
    var st := if env.isStrikeThrough then
      AddLine([], x, y, env.fillColor, env.strikeThroughOffset, env.underlineThickness, 0.0) else [];
    if on {
      var ul := if env.isUnderlined then Decorate(env, l, x, y, env.underlineOffset) else l;
      DecorateIfFill(env, l, x, y, env.underlineOffset, env.isUnderlined);
      DecorateIfFill(env, ul, x, y, env.strikeThroughOffset, env.isStrikeThrough);
      AppendTwice(l.fill, u, ul.fill, st, DecorateBoth(env, l, on, x, y).fill);
    } else {
      assert l.fill == l.fill + [];
    }
  }

  /** One optional decoration adds its bar to the fill list, or nothing. */
  lemma DecorateIfFill(env: Env, l: Lists, x: real, y: real, offset: real, enabled: bool)
    ensures (if enabled then Decorate(env, l, x, y, offset) else l).fill
         == l.fill + (if enabled then AddLine([], x, y, env.fillColor, offset, env.underlineThickness, 0.0) else [])
  {
    if enabled {
      DecorateFill(env, l, x, y, offset);
    } else {
      assert l.fill + [] == l.fill;
    }
  }

  /** Appending u and then st appends u + st. */
  lemma AppendTwice(a: seq<Vertex>, u: seq<Vertex>, b: seq<Vertex>, st: seq<Vertex>, c: seq<Vertex>)
    requires b == a + u && c == b + st
    ensures c == a + (u + st)
  {
  }

  /** One decoration appends its bar to the fill vertices. */
  lemma DecorateFill(env: Env, l: Lists, x: real, y: real, offset: real)
    ensures Decorate(env, l, x, y, offset).fill
         == l.fill + AddLine([], x, y, env.fillColor, offset, env.underlineThickness, 0.0)
  {
    AddLineAppends(l.fill, x, y, env.fillColor, offset, env.underlineThickness, 0.0);
  }

  /** The bar `add_line` appends does not depend on what is already there. */
  lemma AddLineAppends(vertices: seq<Vertex>, lineLength: real, lineTop: real, color: Color,
                       offset: real, thickness: real, outlineThickness: real)
    ensures AddLine(vertices, lineLength, lineTop, color, offset, thickness, outlineThickness)
         == vertices + AddLine([], lineLength, lineTop, color, offset, thickness, outlineThickness)
  {
  }

  /** An empty string has no geometry and the default bounds. */
  lemma EmptyLayout(env: Env)
    ensures Layout(env, []) == Geometry([], [], DefaultRect)
  {
  }

  // ---------------------------------------------------------------------
  // Carriage returns

  function RemoveCR(s: seq<char>): (r: seq<char>)
    ensures forall k :: 0 <= k < |r| ==> r[k] != '\r'
    decreases |s|
  {
    if s == [] then []
    else if s[|s| - 1] == '\r' then RemoveCR(s[..|s| - 1])
    else RemoveCR(s[..|s| - 1]) + [s[|s| - 1]]
  }

  /** The walk is blind to carriage returns. */
  lemma {:induction false} RunIgnoresCR(env: Env, s: seq<char>)
    ensures Run(env, s) == Run(env, RemoveCR(s))
  {
    if s != [] {
      var init, c := s[..|s| - 1], s[|s| - 1];
      RunIgnoresCR(env, init);
      if c != '\r' {
        var r := RemoveCR(init) + [c];
        assert r[..|r| - 1] == RemoveCR(init);
      }
    }
  }

  /**
   * Removing every carriage return changes neither the vertices nor the
   * bounds, as long as something is left (a string of carriage returns
   * alone is walked and gives other bounds than the empty string: see
   * LoneCarriageReturn).
   */
  lemma LayoutIgnoresCR(env: Env, s: seq<char>)
    requires RemoveCR(s) != []
    ensures Layout(env, s) == Layout(env, RemoveCR(s))
  {
    RunIgnoresCR(env, s);
  }

  /**
   * "\r" is not laid out like "": it is walked, so its bounds come from the
   * starting extremes, (size, size, -size, -size) when there is no outline.
   */
  lemma LoneCarriageReturn(env: Env)
    requires env.characterSize > 0
    ensures RemoveCR("\r") == []
    ensures Layout(env, "\r").bounds != Layout(env, []).bounds
  {
    assert "\r"[..0] == [];
  }

  // ---------------------------------------------------------------------
  // The pen walk of `find_character_pos`

  /** The pen and the previous character of `find_character_pos`. */
  datatype Caret = Caret(position: Vector2f, prev: nat)

  /**
   * One character: kerning, then the whitespace move, then (for every
   * character, whitespace included, as the source does) the glyph advance
   * and the letter spacing.
   */
  function CaretStep(env: Env, q: Caret, c: char): (r: Caret)
    ensures r.prev == Code(c)
    ensures r.position.y == (if c == '\n' then q.position.y + env.lineSpacing else q.position.y)
    ensures c == '\n' ==>
      r.position.x == env.font.glyph(Code(c), env.characterSize, env.isBold, 0.0).advance + env.letterSpacing
  {
    var x := q.position.x + Kerning(env, q.prev, c);
    var x' :=
      if c == ' ' then x + env.whitespaceWidth
      else if c == '\t' then x + env.whitespaceWidth * 4.0
      else if c == '\n' then 0.0
      else x;
    var y' := if c == '\n' then q.position.y + env.lineSpacing else q.position.y;
    var advance := env.font.glyph(Code(c), env.characterSize, env.isBold, 0.0).advance;
    Caret(Vector2f(x' + advance + env.letterSpacing, y'), Code(c))
  }

  /** The caret after s, from (0, 0). */
  function CaretAfter(env: Env, s: seq<char>): (r: Caret)
    ensures s == [] ==> r == Caret(DefaultVector, 0)
    ensures s != [] ==> r.prev == Code(s[|s| - 1])
    ensures (forall k | 0 <= k < |s| :: s[k] != '\n') ==> r.position.y == 0.0
    decreases |s|
  {
    if s == [] then Caret(DefaultVector, 0)
    else CaretStep(env, CaretAfter(env, s[..|s| - 1]), s[|s| - 1])
  }

  /**
   * On a string of visible characters only, the caret follows the layout
   * pen: same x, and y lower by exactly the character size (the caret
   * starts at y = 0, the layout pen at y = size).
   */
  lemma {:induction false} CaretFollowsLayout(env: Env, s: seq<char>)
    requires forall k :: 0 <= k < |s| ==> IsVisible(s[k])
    ensures CaretAfter(env, s).position.x == Run(env, s).x
    ensures CaretAfter(env, s).position.y + env.characterSize as real == Run(env, s).y
    ensures CaretAfter(env, s).prev == Run(env, s).prev
  {
    if s != [] {
      CaretFollowsLayout(env, s[..|s| - 1]);
    }
  }

  /**
   * How far the caret is ahead of the layout pen: the caret also adds the
   * advance and the letter spacing after a space or a tab, and after a
   * newline it starts from that amount instead of from 0.
   */
  function CaretGap(env: Env, s: seq<char>): real
    decreases |s|
  {
    if s == [] then 0.0
    else
      var c := s[|s| - 1];
      var extra := env.font.glyph(Code(c), env.characterSize, env.isBold, 0.0).advance + env.letterSpacing;
      if c == '\n' then extra
      else if c == ' ' || c == '\t' then CaretGap(env, s[..|s| - 1]) + extra
      else CaretGap(env, s[..|s| - 1])
  }

  /**
   * On a string without carriage returns the caret and the layout pen
   * stay on the same line and see the same previous character, and the
   * caret is ahead by exactly `CaretGap`.
   */
  lemma {:induction false} CaretAheadOfLayout(env: Env, s: seq<char>)
    requires forall k | 0 <= k < |s| :: s[k] != '\r'
    ensures CaretAfter(env, s).position.x == Run(env, s).x + CaretGap(env, s)
    ensures CaretAfter(env, s).position.y + env.characterSize as real == Run(env, s).y
    ensures CaretAfter(env, s).prev == Run(env, s).prev
  {
    if s != [] {
      CaretAheadOfLayout(env, s[..|s| - 1]);
    }
  }

  // ---------------------------------------------------------------------
  // The right extreme of a glyph

  /** A font whose glyphs are all 10 x 10 boxes on the baseline, 10 apart, without kerning. */
  function BoxFont(): FontMetrics
  {
    FontMetrics(
      (c: nat, size: nat, bold: bool, thickness: real) =>
        Glyph(10.0, FloatRect(0.0, -10.0, 10.0, 10.0), IntRect(0, 0, 10, 10)),
      (prev: nat, c: nat, size: nat) => 0.0,
      (prev: nat, c: nat, size: nat) => 0.0,
      (size: nat) => 12.0,
      (size: nat) => 2.0,
      (size: nat) => 1.0)
  }

  /** Size 20, regular style, default spacing, no outline. */
  function BoxEnv(): Env
  {
    MakeEnv(BoxFont(), 20, Regular, 1.0, 1.0, Rgb(255, 255, 255), Rgb(0, 0, 0), 0.0)
  }

  /**
   * As written, the right extreme of a glyph leaves out the pen x: the
   * bounds of "aa" in the box font end at x = 10, while the quad of the
   * second box reaches x = 21.
   */
  lemma {:induction false} SecondBoxOutsideBounds()
    ensures Layout(BoxEnv(), "aa").bounds == FloatRect(0.0, 10.0, 10.0, 10.0)
    ensures Layout(BoxEnv(), "aa").vertices[11].position.x == 21.0
  {
    var env := BoxEnv();
    assert "aa"[..1] == "a" && "a"[..0] == [];
    var p1 := Run(env, "a");
    assert p1.x == 10.0 && p1.maxX == 10.0 && p1.minX == 0.0;
    var p2 := Run(env, "aa");
    assert p2.x == 20.0 && p2.maxX == 10.0 && p2.minX == 0.0 && p2.minY == 10.0 && p2.maxY == 20.0;
  }

  /**
   * The glyph step as evidently intended: the right extreme is taken at
   * the pen x, as the left one is.
   */
  function CorrectedGlyphStep(env: Env, p: Pen, c: char, x: real, l: Lists): Pen
  {
    var b := env.font.glyph(Code(c), env.characterSize, env.isBold, 0.0).bounds;
    GlyphStep(env, p, c, x, l).(maxX := Max(p.maxX, x + b.left + b.width - env.italicShear * b.top))
  }

  /** The corrected extremes hold the glyph's sheared box placed at the pen. */
  lemma CorrectedStepCoversGlyph(env: Env, p: Pen, c: char, x: real, l: Lists)
    ensures var q := CorrectedGlyphStep(env, p, c, x, l);
      var b := env.font.glyph(Code(c), env.characterSize, env.isBold, 0.0).bounds;
      && q.minX <= p.minX && q.minX <= x + b.left - env.italicShear * (b.top + b.height)
      && p.maxX <= q.maxX && x + b.left + b.width - env.italicShear * b.top <= q.maxX
      && q.minY <= p.minY && q.minY <= p.y + b.top
      && p.maxY <= q.maxY && p.y + b.top + b.height <= q.maxY
  {
  }

  /** With the correction, the second box of "aa" moves the right extreme to 20. */
  lemma {:induction false} SecondBoxInsideCorrected()
    ensures var p := Run(BoxEnv(), "a");
      CorrectedGlyphStep(BoxEnv(), p, 'a', p.x, Lists(p.fill, p.outline)).maxX == 20.0
  {
    BoxPenAfterA();
  }

  /** In the box font, "a" leaves the pen at x = 10 with the right extreme at 10. */
  lemma BoxPenAfterA()
    ensures Run(BoxEnv(), "a").x == 10.0 && Run(BoxEnv(), "a").maxX == 10.0
  {
    assert "a"[..0] == [];
  }
}
