/**
 * The value types shared by the graphics module (vectors, colors, vertices,
 * rectangles, glyphs, 3x3 affine transforms) and `vertex_array_bounds`.
 *
 * Coordinates are modelled as `real`: f32 rounding is not modelled.
 */
module Graphics {

  /** An unsigned byte (the channels of a Color). */
  newtype u8 = x: int | 0 <= x < 0x100

  datatype Vector2f = Vector2f(x: real, y: real)

  datatype Color = Color(r: u8, g: u8, b: u8, a: u8)

  /** A point of a triangle list: position, color and texture coordinates. */
  datatype Vertex = Vertex(position: Vector2f, color: Color, texCoords: Vector2f)

  datatype FloatRect = FloatRect(left: real, top: real, width: real, height: real)

  datatype IntRect = IntRect(left: int, top: int, width: int, height: int)

  /** Metrics of one rendered character, as handed out by a font. */
  datatype Glyph = Glyph(advance: real, bounds: FloatRect, textureRect: IntRect)

  /** A row-major 3x3 matrix; the last row of an affine transform is (0, 0, 1). */
  datatype Transform = Transform(a00: real, a01: real, a02: real,
                                 a10: real, a11: real, a12: real,
                                 a20: real, a21: real, a22: real)

  const DefaultVector := Vector2f(0.0, 0.0)

  /** `FloatRect::default()`: every field zero. */
  const DefaultRect := FloatRect(0.0, 0.0, 0.0, 0.0)

  /** `Transform::default()`, the identity. */
  const Identity := Transform(1.0, 0.0, 0.0, 0.0, 1.0, 0.0, 0.0, 0.0, 1.0)

  /** `Color::rgb`: an opaque color. */
  function Rgb(r: u8, g: u8, b: u8): Color
  {
    Color(r, g, b, 255)
  }

  /** Applies the transform to a point (homogeneous coordinate 1). */
  function TransformPoint(t: Transform, p: Vector2f): Vector2f
  {
    Vector2f(t.a00 * p.x + t.a01 * p.y + t.a02, t.a10 * p.x + t.a11 * p.y + t.a12)
  }

  /** The matrix product a * b. */
  function Multiply(a: Transform, b: Transform): Transform
  {
    Transform(
      a.a00 * b.a00 + a.a01 * b.a10 + a.a02 * b.a20,
      a.a00 * b.a01 + a.a01 * b.a11 + a.a02 * b.a21,
      a.a00 * b.a02 + a.a01 * b.a12 + a.a02 * b.a22,
      a.a10 * b.a00 + a.a11 * b.a10 + a.a12 * b.a20,
      a.a10 * b.a01 + a.a11 * b.a11 + a.a12 * b.a21,
      a.a10 * b.a02 + a.a11 * b.a12 + a.a12 * b.a22,
      a.a20 * b.a00 + a.a21 * b.a10 + a.a22 * b.a20,
      a.a20 * b.a01 + a.a21 * b.a11 + a.a22 * b.a21,
      a.a20 * b.a02 + a.a21 * b.a12 + a.a22 * b.a22)
  }

  function Translation(dx: real, dy: real): Transform
  {
    Transform(1.0, 0.0, dx, 0.0, 1.0, dy, 0.0, 0.0, 1.0)
  }

  /** `Transform::translate`: combines the transform with a translation on the right. */
  function Translate(t: Transform, dx: real, dy: real): Transform
  {
    Multiply(t, Translation(dx, dy))
  }

  /** The translated transform maps each point as the old one maps the point moved by (dx, dy). */
  lemma TranslateMovesPoints(t: Transform, dx: real, dy: real, p: Vector2f)
    ensures TransformPoint(Translate(t, dx, dy), p) == TransformPoint(t, Vector2f(p.x + dx, p.y + dy))
  {
    var r := Translate(t, dx, dy);
    assert r.a00 == t.a00 && r.a01 == t.a01 && r.a10 == t.a10 && r.a11 == t.a11;
    assert r.a02 == t.a00 * dx + t.a01 * dy + t.a02;
    assert r.a12 == t.a10 * dx + t.a11 * dy + t.a12;
  }

  ghost predicate Contains(r: FloatRect, p: Vector2f)
  {
    r.left <= p.x <= r.left + r.width && r.top <= p.y <= r.top + r.height
  }

  /**
   * r is the minimal axis-aligned rectangle holding every vertex position:
   * it holds them all and each of its four sides is attained by some vertex.
   */
  ghost predicate IsMinimalBounds(vs: seq<Vertex>, r: FloatRect)
  {
    && r.width >= 0.0 && r.height >= 0.0
    && (forall k :: 0 <= k < |vs| ==> Contains(r, vs[k].position))
    && (exists k :: 0 <= k < |vs| && vs[k].position.x == r.left)
    && (exists k :: 0 <= k < |vs| && vs[k].position.x == r.left + r.width)
    && (exists k :: 0 <= k < |vs| && vs[k].position.y == r.top)
    && (exists k :: 0 <= k < |vs| && vs[k].position.y == r.top + r.height)
  }

  /**
   * `vertex_array_bounds`: the bounding rectangle of a vertex array, or the
   * default rectangle for an empty one.
   */
  method VertexArrayBounds(vertices: seq<Vertex>) returns (r: FloatRect)
    ensures vertices == [] ==> r == DefaultRect
    ensures vertices != [] ==> IsMinimalBounds(vertices, r)
    ensures |vertices| == 1 ==> r == FloatRect(vertices[0].position.x, vertices[0].position.y, 0.0, 0.0)
  {
    if |vertices| == 0 {
      return DefaultRect;
    }
    var fst := vertices[0];
    var left, top, right, bottom := fst.position.x, fst.position.y, fst.position.x, fst.position.y;
    ghost var li, ti, ri, bi := 0, 0, 0, 0;
    for i := 1 to |vertices|
      invariant 0 <= li < i && 0 <= ti < i && 0 <= ri < i && 0 <= bi < i
      invariant vertices[li].position.x == left && vertices[ri].position.x == right
      invariant vertices[ti].position.y == top && vertices[bi].position.y == bottom
      invariant forall k :: 0 <= k < i ==> left <= vertices[k].position.x <= right
      invariant forall k :: 0 <= k < i ==> top <= vertices[k].position.y <= bottom
    {
      var pos := vertices[i].position;
      if pos.x < left {
        left, li := pos.x, i;
      } else if pos.x > right {
        right, ri := pos.x, i;
      }
      if pos.y < top {
        top, ti := pos.y, i;
      } else if pos.y > bottom {
        bottom, bi := pos.y, i;
      }
    }
    r := FloatRect(left, top, right - left, bottom - top);
    assert vertices[ri].position.x == r.left + r.width;
    assert vertices[bi].position.y == r.top + r.height;
  }

  /** Any rectangle holding every vertex holds the minimal bounds as well. */
  lemma BoundsAreMinimal(vs: seq<Vertex>, r: FloatRect, other: FloatRect)
    requires IsMinimalBounds(vs, r)
    requires forall k :: 0 <= k < |vs| ==> Contains(other, vs[k].position)
    ensures other.left <= r.left && r.left + r.width <= other.left + other.width
    ensures other.top <= r.top && r.top + r.height <= other.top + other.height
  {
    var kl :| 0 <= kl < |vs| && vs[kl].position.x == r.left;
    var kr :| 0 <= kr < |vs| && vs[kr].position.x == r.left + r.width;
    var kt :| 0 <= kt < |vs| && vs[kt].position.y == r.top;
    var kb :| 0 <= kb < |vs| && vs[kb].position.y == r.top + r.height;
    assert Contains(other, vs[kl].position) && Contains(other, vs[kr].position);
    assert Contains(other, vs[kt].position) && Contains(other, vs[kb].position);
  }

  /**
   * The minimal bounds do not depend on the order of the vertices: two
   * arrays holding the same vertices have the same minimal bounds.
   */
  lemma BoundsIgnoreOrder(s: seq<Vertex>, t: seq<Vertex>, rs: FloatRect, rt: FloatRect)
    requires multiset(s) == multiset(t)
    requires IsMinimalBounds(s, rs) && IsMinimalBounds(t, rt)
    ensures rs == rt
  {
    forall k | 0 <= k < |s| ensures Contains(rt, s[k].position) {
      assert s[k] in multiset(t);
      var j :| 0 <= j < |t| && t[j] == s[k];
    }
    forall k | 0 <= k < |t| ensures Contains(rs, t[k].position) {
      assert t[k] in multiset(s);
      var j :| 0 <= j < |s| && s[j] == t[k];
    }
    BoundsAreMinimal(s, rs, rt);
    BoundsAreMinimal(t, rt, rs);
  }
}
