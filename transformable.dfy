/**
 * `TransformableData`: origin, position, rotation (degrees) and scale, and
 * the closed-form 3x3 affine matrix they define.
 *
 * cos and sin are not modelled: they are supplied as a `Trig` value, so
 * every fact proved here holds for any pair of functions (except where a
 * lemma names the two values it needs).
 */
module Transformable {
  import opened Graphics

  /** The trigonometric functions used by `get`. */
  datatype Trig = Trig(cos: real -> real, sin: real -> real)

  /** `std::f32::consts::PI`, the f32 nearest to pi, written out exactly. */
  const PiF32: real := 3.1415927410125732421875

  datatype TransformableData = TransformableData(
    origin: Vector2f,
    position: Vector2f,
    rotation: real,
    scale: Vector2f)

  /** `TransformableData::default`: no offset, no rotation, unit scale. */
  function Default(): (d: TransformableData)
    ensures d.origin == DefaultVector && d.position == DefaultVector
    ensures d.rotation == 0.0 && d.scale.x == 1.0 && d.scale.y == 1.0
  {
    TransformableData(DefaultVector, DefaultVector, 0.0, Vector2f(1.0, 1.0))
  }

  /** The angle, in radians, handed to cos and sin: the rotation negated. */
  function Angle(rotation: real): real
  {
    -rotation * PiF32 / 180.0
  }

  /** The rotation part: (c, s) = (cos, sin) of the negated angle. */
  function Rotation(c: real, s: real): Transform
  {
    Transform(c, s, 0.0, -s, c, 0.0, 0.0, 0.0, 1.0)
  }

  function Scaling(sx: real, sy: real): Transform
  {
    Transform(sx, 0.0, 0.0, 0.0, sy, 0.0, 0.0, 0.0, 1.0)
  }

  /**
   * `TransformableData::get`: an affine matrix whose linear part is the
   * rotation times the scale and whose third row is (0, 0, 1).
   */
  function Get(d: TransformableData, trig: Trig): (t: Transform)
    ensures t.a20 == 0.0 && t.a21 == 0.0 && t.a22 == 1.0
    ensures var c, s := trig.cos(Angle(d.rotation)), trig.sin(Angle(d.rotation));
      t.a00 == d.scale.x * c && t.a01 == d.scale.y * s &&
      t.a10 == -(d.scale.x * s) && t.a11 == d.scale.y * c
  {
    var angle := Angle(d.rotation);
    var cosine := trig.cos(angle);
    var sine := trig.sin(angle);
    var sxc := d.scale.x * cosine;
    var syc := d.scale.y * cosine;
    var sxs := d.scale.x * sine;
    var sys := d.scale.y * sine;
    var tx := -d.origin.x * sxc - d.origin.y * sys + d.position.x;
    var ty := d.origin.x * sxs - d.origin.y * syc + d.position.y;
    Transform(sxc, sys, tx, -sxs, syc, ty, 0.0, 0.0, 1.0)
  }

  /** An affine matrix with no shear: diagonal (sx, sy), translation (tx, ty). */
  function ScaleShift(sx: real, sy: real, tx: real, ty: real): Transform
  {
    Transform(sx, 0.0, tx, 0.0, sy, ty, 0.0, 0.0, 1.0)
  }

  lemma ScaleAfterShift(sx: real, sy: real, ox: real, oy: real)
    ensures Multiply(Scaling(sx, sy), Translation(-ox, -oy)) == ScaleShift(sx, sy, -ox * sx, -oy * sy)
  {
  }

  lemma RotateAfterScaleShift(c: real, s: real, sx: real, sy: real, tx: real, ty: real)
    ensures Multiply(Rotation(c, s), ScaleShift(sx, sy, tx, ty))
         == Transform(c * sx, s * sy, c * tx + s * ty, -s * sx, c * sy, -s * tx + c * ty, 0.0, 0.0, 1.0)
  {
  }

  lemma TranslateAfterAffine(px: real, py: real, a00: real, a01: real, a02: real, a10: real, a11: real, a12: real)
    ensures Multiply(Translation(px, py), Transform(a00, a01, a02, a10, a11, a12, 0.0, 0.0, 1.0))
         == Transform(a00, a01, a02 + px, a10, a11, a12 + py, 0.0, 0.0, 1.0)
  {
  }

  /** The translation column after rotating the scaled, shifted origin. */
  lemma RotatedOffset(c: real, s: real, sx: real, sy: real, ox: real, oy: real)
    ensures c * (-ox * sx) + s * (-oy * sy) == -ox * (sx * c) - oy * (sy * s)
    ensures -s * (-ox * sx) + c * (-oy * sy) == ox * (sx * s) - oy * (sy * c)
  {
  }

  /** The four factors multiplied out, entry by entry, in the terms `Get` uses. */
  lemma ComposedForm(px: real, py: real, c: real, s: real, sx: real, sy: real, ox: real, oy: real)
    ensures Multiply(Translation(px, py), Multiply(Rotation(c, s), Multiply(Scaling(sx, sy), Translation(-ox, -oy))))
         == Transform(sx * c, sy * s, -ox * (sx * c) - oy * (sy * s) + px,
                      -(sx * s), sy * c, ox * (sx * s) - oy * (sy * c) + py, 0.0, 0.0, 1.0)
  {
    ScaleAfterShift(sx, sy, ox, oy);
    var tx, ty := -ox * sx, -oy * sy;
    RotateAfterScaleShift(c, s, sx, sy, tx, ty);
    var rx, ry := c * tx + s * ty, -s * tx + c * ty;
    TranslateAfterAffine(px, py, c * sx, s * sy, rx, -s * sx, c * sy, ry);
    RotatedOffset(c, s, sx, sy, ox, oy);
  }

  /** `Get` entry by entry, in the terms `ComposedForm` uses. */
  lemma GetEntries(d: TransformableData, trig: Trig)
    ensures var c, s := trig.cos(Angle(d.rotation)), trig.sin(Angle(d.rotation));
      var sx, sy, ox, oy := d.scale.x, d.scale.y, d.origin.x, d.origin.y;
      Get(d, trig) == Transform(sx * c, sy * s, -ox * (sx * c) - oy * (sy * s) + d.position.x,
                                -(sx * s), sy * c, ox * (sx * s) - oy * (sy * c) + d.position.y, 0.0, 0.0, 1.0)
  {
    var c, s := trig.cos(Angle(d.rotation)), trig.sin(Angle(d.rotation));
    var t := Get(d, trig);
    assert t.a02 == -d.origin.x * (d.scale.x * c) - d.origin.y * (d.scale.y * s) + d.position.x;
    assert t.a12 == d.origin.x * (d.scale.x * s) - d.origin.y * (d.scale.y * c) + d.position.y;
  }

  /**
   * The closed form is the composition "move the origin to (0, 0), scale,
   * rotate, move to the position".
   */
  lemma {:induction false} GetIsComposition(d: TransformableData, trig: Trig)
    ensures var c, s := trig.cos(Angle(d.rotation)), trig.sin(Angle(d.rotation));
      Get(d, trig) == Multiply(Translation(d.position.x, d.position.y),
                        Multiply(Rotation(c, s),
                          Multiply(Scaling(d.scale.x, d.scale.y),
                            Translation(-d.origin.x, -d.origin.y))))
  {
    var c, s := trig.cos(Angle(d.rotation)), trig.sin(Angle(d.rotation));
    GetEntries(d, trig);
    ComposedForm(d.position.x, d.position.y, c, s, d.scale.x, d.scale.y, d.origin.x, d.origin.y);
  }

  /** The transform maps the origin exactly onto the position. */
  lemma {:induction false} OriginMapsToPosition(d: TransformableData, trig: Trig)
    ensures TransformPoint(Get(d, trig), d.origin) == d.position
  {
    var c, s := trig.cos(Angle(d.rotation)), trig.sin(Angle(d.rotation));
    var t := Get(d, trig);
    calc {
      t.a00 * d.origin.x + t.a01 * d.origin.y + t.a02;
      d.scale.x * c * d.origin.x + d.scale.y * s * d.origin.y
        + (-d.origin.x * (d.scale.x * c) - d.origin.y * (d.scale.y * s) + d.position.x);
      d.position.x;
    }
    calc {
      t.a10 * d.origin.x + t.a11 * d.origin.y + t.a12;
      -(d.scale.x * s) * d.origin.x + d.scale.y * c * d.origin.y
        + (d.origin.x * (d.scale.x * s) - d.origin.y * (d.scale.y * c) + d.position.y);
      d.position.y;
    }
  }

  /** With the origin at (0, 0) the translation column is the position. */
  lemma ZeroOriginTranslation(d: TransformableData, trig: Trig)
    requires d.origin == DefaultVector
    ensures Get(d, trig).a02 == d.position.x && Get(d, trig).a12 == d.position.y
  {
  }

  /**
   * The default data yields the identity matrix, given that cos 0 = 1 and
   * sin 0 = 0.
   */
  lemma DefaultIsIdentity(trig: Trig)
    requires trig.cos(0.0) == 1.0 && trig.sin(0.0) == 0.0
    ensures Get(Default(), trig) == Identity
  {
    assert Angle(0.0) == 0.0;
  }
}
