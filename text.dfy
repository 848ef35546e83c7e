/**
 * `Text`: a string, a font and their drawing settings, the vertex lists and
 * bounds regenerated from them, and the transformable part (origin,
 * position, rotation, scale, cached transform).
 *
 * The regeneration and the character-position query are loops over the
 * string; each is proved to compute the corresponding pure walk of
 * `TextGeometry` (`Layout`, `CaretAfter`), whose properties are proved
 * there.
 */
module Text {
  import opened Graphics
  import opened TextGeometry
  import opened SfErrors
  import Transformable

  function MinNat(a: nat, b: nat): nat { if a <= b then a else b }

  class Text {
    var str: seq<char>
    var font: Option<FontMetrics>
    var characterSize: nat
    var letterSpacingFactor: real
    var lineSpacingFactor: real
    var style: TextStyle
    var fillColor: Color
    var outlineColor: Color
    var outlineThickness: real
    var vertices: seq<Vertex>
    var outlineVertices: seq<Vertex>
    var bounds: FloatRect
    var geometryNeedUpdate: bool
    var origin: Vector2f
    var position: Vector2f
    var rotation: real
    var scale: Vector2f
    var transform: Transform
    var transformNeedUpdate: bool
    var inverseTransform: Transform

    /**
     * The settings `Default` gives every field other than the string, the
     * font, the character size and the geometry flag.
     */
    ghost predicate HasDefaultSettings()
      reads this
    {
      && letterSpacingFactor == 1.0 && lineSpacingFactor == 1.0
      && style == Regular
      && fillColor == Rgb(255, 255, 255) && outlineColor == Rgb(0, 0, 0)
      && outlineThickness == 0.0
      && vertices == [] && outlineVertices == [] && bounds == DefaultRect
      && origin == DefaultVector && position == DefaultVector && rotation == 0.0
      && scale == DefaultVector
      && transform == Identity && !transformNeedUpdate && inverseTransform == Identity
    }

    /**
     * `Text::default`: empty string, no font, size 30, white fill, black
     * outline of thickness 0, no geometry. The scale is (0, 0) and the
     * transform flag is clear, as written.
     */
    constructor Default()
      ensures str == [] && font == None && characterSize == 30 && !geometryNeedUpdate
      ensures HasDefaultSettings()
    {
      str := [];
      font := None;
      characterSize := 30;
      letterSpacingFactor := 1.0;
      lineSpacingFactor := 1.0;
      style := Regular;
      fillColor := Rgb(255, 255, 255);
      outlineColor := Rgb(0, 0, 0);
      outlineThickness := 0.0;
      vertices := [];
      outlineVertices := [];
      bounds := DefaultRect;
      geometryNeedUpdate := false;
      origin := DefaultVector;
      position := DefaultVector;
      rotation := 0.0;
      scale := DefaultVector;
      transform := Identity;
      transformNeedUpdate := false;
      inverseTransform := Identity;
    }

    /**
     * `Text::new`: the default text, then `set_string`, `set_font` and
     * `set_character_size`; the geometry is marked stale exactly when the
     * string is not empty.
     */
    constructor New(s: seq<char>, f: FontMetrics, size: nat)
      ensures str == s && font == Some(f) && characterSize == size
      ensures geometryNeedUpdate == (s != [])
      ensures HasDefaultSettings()
    {
      str := [];
      font := None;
      characterSize := 30;
      letterSpacingFactor := 1.0;
      lineSpacingFactor := 1.0;
      style := Regular;
      fillColor := Rgb(255, 255, 255);
      outlineColor := Rgb(0, 0, 0);
      outlineThickness := 0.0;
      vertices := [];
      outlineVertices := [];
      bounds := DefaultRect;
      geometryNeedUpdate := false;
      origin := DefaultVector;
      position := DefaultVector;
      rotation := 0.0;
      scale := DefaultVector;
      transform := Identity;
      transformNeedUpdate := false;
      inverseTransform := Identity;
      new;
      SetString(s);
      SetFont(f);
      SetCharacterSize(size);
    }

    /** Marks the geometry stale only when the string actually changes. */
    method SetString(s: seq<char>)
      modifies this`str, this`geometryNeedUpdate
      ensures str == s
      ensures geometryNeedUpdate == (old(geometryNeedUpdate) || old(str) != s)
    {
      if str != s {
        str := s;
        geometryNeedUpdate := true;
      }
    }

    /** Does not mark the geometry stale, as written. */
    method SetFont(f: FontMetrics)
      modifies this`font
      ensures font == Some(f)
    {
      font := Some(f);
    }

    /** Does not mark the geometry stale, as written. */
    method SetStyle(s: TextStyle)
      modifies this`style
      ensures style == s
    {
      style := s;
    }

    /** Does not mark the geometry stale, as written. */
    method SetCharacterSize(size: nat)
      modifies this`characterSize
      ensures characterSize == size
    {
      characterSize := size;
    }

    method SetFillColor(color: Color)
      modifies this`fillColor
      ensures fillColor == color
    {
      fillColor := color;
    }

    method SetOutlineColor(color: Color)
      modifies this`outlineColor
      ensures outlineColor == color
    {
      outlineColor := color;
    }

    method SetOutlineThickness(thickness: real)
      modifies this`outlineThickness
      ensures outlineThickness == thickness
    {
      outlineThickness := thickness;
    }

    method SetLineSpacing(factor: real)
      modifies this`lineSpacingFactor
      ensures lineSpacingFactor == factor
    {
      lineSpacingFactor := factor;
    }

    method SetLetterSpacing(factor: real)
      modifies this`letterSpacingFactor
      ensures letterSpacingFactor == factor
    {
      letterSpacingFactor := factor;
    }

    /** The layout values derived from the current settings. */
    ghost function CurrentEnv(): Env
      requires font.Some?
      reads this
    {
      MakeEnv(font.value, characterSize, style, letterSpacingFactor, lineSpacingFactor,
              fillColor, outlineColor, outlineThickness)
    }

    ghost function CurrentGeometry(): Geometry
      reads this
    {
      Geometry(vertices, outlineVertices, bounds)
    }

    /**
     * `ensure_geometry_update`: without a font nothing changes; with one,
     * the vertex lists and bounds become `Layout` of the current settings
     * and string, whatever they were before (the stale flag is not
     * consulted). Since `Layout` reads only fields this method does not
     * modify, a second call reproduces the same geometry.
     */
    method EnsureGeometryUpdate()
      modifies this`vertices, this`outlineVertices, this`bounds, this`geometryNeedUpdate
      ensures font.None? ==> unchanged(this)
      ensures font.Some? ==> !geometryNeedUpdate && CurrentGeometry() == Layout(CurrentEnv(), str)
      ensures font.Some? && str == [] ==> vertices == [] && outlineVertices == [] && bounds == DefaultRect
    {
      if font.None? {
        return;
      }
      geometryNeedUpdate := false;
      vertices := [];
      outlineVertices := [];
      bounds := DefaultRect;
      if |str| == 0 {
        assert Layout(CurrentEnv(), str) == Geometry([], [], DefaultRect);
        return;
      }
      var env := MakeEnv(font.value, characterSize, style, letterSpacingFactor, lineSpacingFactor,
                         fillColor, outlineColor, outlineThickness);
      var x, y := 0.0, characterSize as real;
      var minX, minY := characterSize as real, characterSize as real;
      var maxX, maxY := 0.0, 0.0;
      var prevChar: nat := 0;
      for i := 0 to |str|
        invariant Pen(x, y, minX, minY, maxX, maxY, prevChar, vertices, outlineVertices) == Run(env, str[..i])
        invariant !geometryNeedUpdate
      {
        assert str[..i + 1][..i] == str[..i];
        x, y, minX, minY, maxX, maxY, prevChar := LayoutCharacter(env, str[i], x, y, minX, minY, maxX, maxY, prevChar);
      }
      assert str[..|str|] == str;
      ghost var p := Pen(x, y, minX, minY, maxX, maxY, prevChar, vertices, outlineVertices);
      if env.outlineThickness != 0.0 {
        var outline := Abs(Ceil(env.outlineThickness) as real);
        minX := minX - outline;
        maxX := maxX + outline;
        minY := minY - outline;
        maxY := maxY + outline;
      }
      if env.isUnderlined && x > 0.0 {
        AddDecorationLine(env, x, y, env.underlineOffset);
      }
      if env.isStrikeThrough && x > 0.0 {
        AddDecorationLine(env, x, y, env.strikeThroughOffset);
      }
      assert Lists(vertices, outlineVertices) == DecorateBoth(env, Lists(p.fill, p.outline), p.x > 0.0, p.x, p.y);
      bounds := FloatRect(minX, minY, maxX - minX, maxY - minY);
      assert CurrentGeometry() == Finish(env, p);
    }

    /**
     * The body of the layout loop for one character: the pen, the extremes
     * and the vertex lists after it are one `Step` of the layout walk.
     */
    method LayoutCharacter(env: Env, ch: char, x: real, y: real, minX: real, minY: real,
                           maxX: real, maxY: real, prevChar: nat)
      returns (x': real, y': real, minX': real, minY': real, maxX': real, maxY': real, prevChar': nat)
      modifies this`vertices, this`outlineVertices
      ensures Pen(x', y', minX', minY', maxX', maxY', prevChar', vertices, outlineVertices)
           == Step(env, Pen(x, y, minX, minY, maxX, maxY, prevChar, old(vertices), old(outlineVertices)), ch)
    {
      ghost var p := Pen(x, y, minX, minY, maxX, maxY, prevChar, vertices, outlineVertices);
      x', y', minX', minY', maxX', maxY', prevChar' := x, y, minX, minY, maxX, maxY, prevChar;
      if ch == '\r' {
        return;
      }
      var f := env.font;
      var kerning := if env.isBold then f.boldKerning(prevChar, Code(ch), env.characterSize)
                     else f.kerning(prevChar, Code(ch), env.characterSize);
      x' := x' + kerning;
      if env.isUnderlined && (ch == '\n' && prevChar != Code('\n')) {
        AddDecorationLine(env, x', y', env.underlineOffset);
      }
      if env.isStrikeThrough && (ch == '\n' && prevChar != Code('\n')) {
        AddDecorationLine(env, x', y', env.strikeThroughOffset);
      }
      ghost var l := Lists(vertices, outlineVertices);
      assert l == DecorateBoth(env, Lists(p.fill, p.outline), ch == '\n' && p.prev != Code('\n'), x', p.y);
      prevChar' := Code(ch);
      if ch == ' ' || ch == '\n' || ch == '\t' {
        minX' := Min(minX', x');
        minY' := Min(minY', y');
        if ch == ' ' {
          x' := x' + env.whitespaceWidth;
        } else if ch == '\t' {
          x' := x' + env.whitespaceWidth * 4.0;
        } else {
          y' := y' + env.lineSpacing;
          x' := 0.0;
        }
        maxX' := Max(maxX', x');
        maxY' := Max(maxY', y');
        assert Pen(x', y', minX', minY', maxX', maxY', prevChar', vertices, outlineVertices)
            == WhitespaceStep(env, p, ch, p.x + kerning, l);
        StepBranch(env, p, ch, p.x + kerning, l);
        return;
      }
      x', minX', minY', maxX', maxY' := LayoutGlyph(env, p, ch, x', y, minX, minY, maxX, maxY);
      assert Pen(x', y', minX', minY', maxX', maxY', prevChar', vertices, outlineVertices)
          == GlyphStep(env, p, ch, p.x + kerning, l);
      StepBranch(env, p, ch, p.x + kerning, l);
    }

    /**
     * The glyph branch of one iteration: the outline and fill quads of `ch`
     * at (x, p.y), the extremes grown by its sheared bounds, the pen moved
     * on by its advance and the letter spacing.
     */
    method LayoutGlyph(env: Env, ghost p: Pen, ch: char, x: real, y: real, minX: real, minY: real, maxX: real, maxY: real)
      returns (x': real, minX': real, minY': real, maxX': real, maxY': real)
      requires p.y == y && p.minX == minX && p.minY == minY && p.maxX == maxX && p.maxY == maxY
      modifies this`vertices, this`outlineVertices
      ensures Pen(x', p.y, minX', minY', maxX', maxY', Code(ch), vertices, outlineVertices)
           == GlyphStep(env, p, ch, x, Lists(old(vertices), old(outlineVertices)))
    {
      var f := env.font;
      if env.outlineThickness != 0.0 {
        var glyph := f.glyph(Code(ch), env.characterSize, env.isBold, env.outlineThickness);
        outlineVertices := AddGlyphQuad(outlineVertices, Vector2f(x, y), env.outlineColor, glyph, env.italicShear);
      }
      var glyph := f.glyph(Code(ch), env.characterSize, env.isBold, 0.0);
      vertices := AddGlyphQuad(vertices, Vector2f(x, y), env.fillColor, glyph, env.italicShear);
      var left := glyph.bounds.left;
      var top := glyph.bounds.top;
      var right := glyph.bounds.left + glyph.bounds.width;
      var bottom := glyph.bounds.top + glyph.bounds.height;
      minX' := Min(minX, x + left - env.italicShear * bottom);
      maxX' := Max(maxX, right - env.italicShear * top);
      minY' := Min(minY, y + top);
      maxY' := Max(maxY, y + bottom);
      x' := x + glyph.advance + env.letterSpacing;
    }

    /**
     * One underline or strike-through line: on the fill list, and on the
     * outline list (grown by the outline thickness) when outlined.
     */
    method AddDecorationLine(env: Env, lineLength: real, lineTop: real, offset: real)
      modifies this`vertices, this`outlineVertices
      ensures Lists(vertices, outlineVertices)
           == Decorate(env, Lists(old(vertices), old(outlineVertices)), lineLength, lineTop, offset)
    {
      vertices := AddLine(vertices, lineLength, lineTop, env.fillColor, offset, env.underlineThickness, 0.0);
      if env.outlineThickness != 0.0 {
        outlineVertices := AddLine(outlineVertices, lineLength, lineTop, env.outlineColor, offset,
                                   env.underlineThickness, env.outlineThickness);
      }
    }

    /** The transformable part as a `TransformableData` value. */
    function Placement(): Transformable.TransformableData
      reads this
    {
      Transformable.TransformableData(origin, position, rotation, scale)
    }

    /**
     * `get_transform`: recomputes the cached transform from the placement
     * when it is marked stale, clears the mark, and returns the cache.
     */
    method GetTransform(trig: Transformable.Trig) returns (t: Transform)
      modifies this`transform, this`transformNeedUpdate
      ensures !transformNeedUpdate && t == transform
      ensures transform == if old(transformNeedUpdate) then Transformable.Get(Placement(), trig) else old(transform)
    {
      if transformNeedUpdate {
        transform := Transformable.Get(Placement(), trig);
        transformNeedUpdate := false;
      }
      t := transform;
    }

    /**
     * `find_character_pos`: without a font, (0, 0) and nothing changes;
     * with one, the caret after the first min(index, length) characters,
     * mapped through the transform `get_transform` returns.
     */
    method FindCharacterPos(index: nat, trig: Transformable.Trig) returns (p: Vector2f)
      modifies this`transform, this`transformNeedUpdate
      ensures font.None? ==> p == DefaultVector && unchanged(this)
      ensures font.Some? ==>
        p == TransformPoint(transform, CaretAfter(CurrentEnv(), str[..MinNat(index, |str|)]).position)
      ensures font.Some? ==> !transformNeedUpdate
      ensures font.Some? ==>
        transform == if old(transformNeedUpdate) then Transformable.Get(Placement(), trig) else old(transform)
    {
      if font.None? {
        return DefaultVector;
      }
      var env := MakeEnv(font.value, characterSize, style, letterSpacingFactor, lineSpacingFactor,
                         fillColor, outlineColor, outlineThickness);
      var f := env.font;
      var pos := DefaultVector;
      var prevCh: nat := 0;
      for i := 0 to MinNat(index, |str|)
        invariant Caret(pos, prevCh) == CaretAfter(env, str[..i])
      {
        var ch := str[i];
        assert str[..i + 1][..i] == str[..i];
        var kerning := if env.isBold then f.boldKerning(prevCh, Code(ch), env.characterSize)
                       else f.kerning(prevCh, Code(ch), env.characterSize);
        pos := pos.(x := pos.x + kerning);
        prevCh := Code(ch);
        if ch == ' ' {
          pos := pos.(x := pos.x + env.whitespaceWidth);
        } else if ch == '\t' {
          pos := pos.(x := pos.x + env.whitespaceWidth * 4.0);
        } else if ch == '\n' {
          pos := Vector2f(0.0, pos.y + env.lineSpacing);
        }
        pos := pos.(x := pos.x + f.glyph(Code(ch), env.characterSize, env.isBold, 0.0).advance + env.letterSpacing);
      }
      var t := GetTransform(trig);
      p := TransformPoint(t, pos);
    }

    method SetPosition(p: Vector2f)
      modifies this`position
      ensures position == p
    {
      position := p;
    }

    method SetRotation(angle: real)
      modifies this`rotation
      ensures rotation == angle
    {
      rotation := angle;
    }

    method SetScale(s: Vector2f)
      modifies this`scale
      ensures scale == s
    {
      scale := s;
    }

    method SetOrigin(o: Vector2f)
      modifies this`origin
      ensures origin == o
    {
      origin := o;
    }

    /**
     * `move_`: translates the cached transform (the position is left
     * alone): every point maps as the old transform mapped it moved by the
     * offset.
     */
    method Move(offset: Vector2f)
      modifies this`transform
      ensures transform == Translate(old(transform), offset.x, offset.y)
    {
      transform := Translate(transform, offset.x, offset.y);
    }

    /** `rotate`: sets the rotation to the angle (it does not add to it). */
    method Rotate(angle: real)
      modifies this`rotation
      ensures rotation == angle
    {
      rotation := angle;
    }

    /** `scale`: sets the scale to the factors (it does not multiply it). */
    method Scale(factors: Vector2f)
      modifies this`scale
      ensures scale == factors
    {
      scale := factors;
    }

    /** `move_` as the trait documents it: the offset is added to the position. */
    method MoveBy(offset: Vector2f)
      modifies this`position
      ensures position == Vector2f(old(position).x + offset.x, old(position).y + offset.y)
    {
      position := Vector2f(position.x + offset.x, position.y + offset.y);
    }

    /** `rotate` as the trait documents it: the angle is added to the rotation. */
    method RotateBy(angle: real)
      modifies this`rotation
      ensures rotation == old(rotation) + angle
    {
      rotation := rotation + angle;
    }

    /** `scale` as the trait documents it: the factors multiply the scale. */
    method ScaleBy(factors: Vector2f)
      modifies this`scale
      ensures scale == Vector2f(old(scale).x * factors.x, old(scale).y * factors.y)
    {
      scale := Vector2f(scale.x * factors.x, scale.y * factors.y);
    }
  }

  // ----- the relative Transformable operations, as written and as documented -----

  /** As written, moving a new text by (5, 0) leaves its position at (0, 0). */
  method MoveKeepsPosition() returns (p: Vector2f)
    ensures p == Vector2f(0.0, 0.0)
  {
    var t := new Text.Default();
    t.Move(Vector2f(5.0, 0.0));
    p := t.position;
  }

  /** As documented, moving a new text by (5, 0) puts it at (5, 0). */
  method MoveByShiftsPosition() returns (p: Vector2f)
    ensures p == Vector2f(5.0, 0.0)
  {
    var t := new Text.Default();
    t.MoveBy(Vector2f(5.0, 0.0));
    p := t.position;
  }

  /** As written, rotating by 30 and then by 45 degrees leaves the rotation at 45. */
  method RotateTwiceOverwrites() returns (r: real)
    ensures r == 45.0
  {
    var t := new Text.Default();
    t.Rotate(30.0);
    t.Rotate(45.0);
    r := t.rotation;
  }

  /** As documented, rotating by 30 and then by 45 degrees gives 75. */
  method RotateByTwiceAdds() returns (r: real)
    ensures r == 75.0
  {
    var t := new Text.Default();
    t.RotateBy(30.0);
    t.RotateBy(45.0);
    r := t.rotation;
  }

  /** As written, scaling a unit-scale text by 2 and then by 3 leaves the scale at 3. */
  method ScaleTwiceOverwrites() returns (s: Vector2f)
    ensures s == Vector2f(3.0, 3.0)
  {
    var t := new Text.Default();
    t.SetScale(Vector2f(1.0, 1.0));
    t.Scale(Vector2f(2.0, 2.0));
    t.Scale(Vector2f(3.0, 3.0));
    s := t.scale;
  }

  /** As documented, scaling a unit-scale text by 2 and then by 3 gives 6. */
  method ScaleByTwiceMultiplies() returns (s: Vector2f)
    ensures s == Vector2f(6.0, 6.0)
  {
    var t := new Text.Default();
    t.SetScale(Vector2f(1.0, 1.0));
    t.ScaleBy(Vector2f(2.0, 2.0));
    t.ScaleBy(Vector2f(3.0, 3.0));
    s := t.scale;
  }
}
