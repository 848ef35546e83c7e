/**
 * The 64-bit key under which a font page caches a glyph: the bit pattern
 * of the outline thickness (an f32 reinterpreted as 32 bits) in bits
 * 32..63, the bold flag in bit 31, and the glyph index OR-ed into the low
 * 32 bits.
 */
module GlyphKey {

  /** A cache key, as a map key (maps are keyed by the wrapped bits). */
  datatype Key = Key(bits: bv64)

  /** `combine`. */
  function Combine(thicknessBits: bv32, bold: bool, index: bv32): (key: bv64)
    ensures ThicknessOf(key) == thicknessBits
    ensures index < 0x8000_0000 ==> BoldOf(key) == bold && IndexOf(key) == index
  {
    ((thicknessBits as bv64) << 32) | ((if bold then 1 as bv64 else 0) << 31) | (index as bv64)
  }

  /** The outline-thickness bits of a key (bits 32..63). */
  function ThicknessOf(key: bv64): bv32
  {
    (key >> 32) as bv32
  }

  /** The bold flag of a key (bit 31). */
  predicate BoldOf(key: bv64)
  {
    key & 0x8000_0000 != 0
  }

  /** The glyph index of a key (bits 0..30). */
  function IndexOf(key: bv64): bv32
  {
    (key & 0x7FFF_FFFF) as bv32
  }

  /**
   * Keys are distinct for distinct (thickness, bold, index) triples as
   * long as both indices fit in 31 bits.
   */
  lemma {:induction false} CombineInjective(t1: bv32, b1: bool, i1: bv32, t2: bv32, b2: bool, i2: bv32)
    requires i1 < 0x8000_0000 && i2 < 0x8000_0000
    requires Combine(t1, b1, i1) == Combine(t2, b2, i2)
    ensures t1 == t2 && b1 == b2 && i1 == i2
  {
    var k := Combine(t1, b1, i1);
    assert ThicknessOf(k) == t1 && ThicknessOf(k) == t2;
    assert BoldOf(k) == b1 && BoldOf(k) == b2;
    assert IndexOf(k) == i1 && IndexOf(k) == i2;
  }

  /**
   * With bit 31 of the index set, the bold flag is lost: the regular and
   * the bold glyph of such an index share a key.
   */
  lemma HighIndexCollides(t: bv32, index: bv32)
    requires index >= 0x8000_0000
    ensures Combine(t, false, index) == Combine(t, true, index)
  {
  }
}
