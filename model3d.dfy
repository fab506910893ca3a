/** Surface material and its interpolation (objects/model3d.rs). */
module Materials {
  import opened Lerping

  /** A `u8` colour channel. */
  type U8 = x: int | 0 <= x < 256

  /** `Rgb<u8>`. */
  datatype Rgb = Rgb(r: U8, g: U8, b: U8)

  datatype Material = Material(
    diffuseReflectanceFactor: real,
    specularReflectanceFactor: real,
    gloss: real,
    color: Rgb,
    opacity: real)

  /** `Material::default()`. */
  function DefaultMaterial(): Material {
    Material(0.45, 0.02, 1.0, Rgb(208, 43, 43), 0.1)
  }

  lemma DefaultMaterialFields()
    ensures DefaultMaterial().diffuseReflectanceFactor == 0.45
    ensures DefaultMaterial().specularReflectanceFactor == 0.02
    ensures DefaultMaterial().gloss == 1.0
    ensures DefaultMaterial().color == Rgb(208, 43, 43)
    ensures DefaultMaterial().opacity == 0.1
  {
  }

  /** `f64::round`: to the nearest integer, halfway cases away from zero. */
  function Round(x: real): (r: int)
    ensures -0.5 <= x - r as real <= 0.5
  {
    if x >= 0.0 then (x + 0.5).Floor else -((-x + 0.5).Floor)
  }

  /** The saturating cast `as u8`. */
  function SaturateU8(i: int): (r: U8)
    ensures 0 <= i < 256 ==> r == i
  {
    if i < 0 then 0 else if i > 255 then 255 else i
  }

  /** One colour channel: interpolate as f64, round, cast to u8. */
  function LerpChannel(a: U8, b: U8, t: real): U8 {
    SaturateU8(Round(Lerp(a as real, b as real, t)))
  }

  /** `Material::lerp(a, b, t)`. */
  function MaterialLerp(a: Material, b: Material, t: real): Material {
    Material(
      Lerp(a.diffuseReflectanceFactor, b.diffuseReflectanceFactor, t),
      Lerp(a.specularReflectanceFactor, b.specularReflectanceFactor, t),
      Lerp(a.gloss, b.gloss, t),
      Rgb(LerpChannel(a.color.r, b.color.r, t),
          LerpChannel(a.color.g, b.color.g, t),
          LerpChannel(a.color.b, b.color.b, t)),
      Lerp(a.opacity, b.opacity, t))
  }

  lemma RoundOfInteger(n: int)
    ensures Round(n as real) == n
  {
  }

  lemma RoundMonotone(x: real, y: real)
    requires x <= y
    ensures Round(x) <= Round(y)
  {
    if x >= 0.0 {
      assert (x + 0.5).Floor <= (y + 0.5).Floor;
    } else if y < 0.0 {
      assert (-y + 0.5).Floor <= (-x + 0.5).Floor;
    }
  }

  /** Rounding never leaves an interval whose ends are integers. */
  lemma RoundWithin(lo: int, hi: int, x: real)
    requires lo as real <= x <= hi as real
    ensures lo <= Round(x) <= hi
  {
    RoundMonotone(lo as real, x);
    RoundMonotone(x, hi as real);
    RoundOfInteger(lo);
    RoundOfInteger(hi);
  }

  lemma LerpChannelEnds(a: U8, b: U8)
    ensures LerpChannel(a, b, 0.0) == a && LerpChannel(a, b, 1.0) == b
  {
    RoundOfInteger(a);
    RoundOfInteger(b);
  }

  /** For t in [0, 1] a channel lies between the two input channels. */
  lemma LerpChannelBetween(a: U8, b: U8, t: real)
    requires 0.0 <= t <= 1.0
    ensures (if a <= b then a else b) <= LerpChannel(a, b, t) <= (if a <= b then b else a)
  {
    LerpBetween(a as real, b as real, t);
    var lo, hi := if a <= b then a else b, if a <= b then b else a;
    RoundWithin(lo, hi, Lerp(a as real, b as real, t));
  }

  /** At t = 0 the interpolated material is `a`, at t = 1 it is `b`. */
  lemma MaterialLerpEnds(a: Material, b: Material)
    ensures MaterialLerp(a, b, 0.0) == a
    ensures MaterialLerp(a, b, 1.0) == b
  {
    LerpChannelEnds(a.color.r, b.color.r);
    LerpChannelEnds(a.color.g, b.color.g);
    LerpChannelEnds(a.color.b, b.color.b);
  }

  /** Interpolating a material with itself changes nothing, for every t. */
  lemma MaterialLerpSelf(m: Material, t: real)
    ensures MaterialLerp(m, m, t) == m
  {
    RoundOfInteger(m.color.r);
    RoundOfInteger(m.color.g);
    RoundOfInteger(m.color.b);
  }

  /** For t in [0, 1] every colour channel lies between the inputs' channels. */
  lemma MaterialLerpColorBetween(a: Material, b: Material, t: real)
    requires 0.0 <= t <= 1.0
    ensures var c := MaterialLerp(a, b, t).color;
      (if a.color.r <= b.color.r then a.color.r else b.color.r) <= c.r
        <= (if a.color.r <= b.color.r then b.color.r else a.color.r)
      && (if a.color.g <= b.color.g then a.color.g else b.color.g) <= c.g
        <= (if a.color.g <= b.color.g then b.color.g else a.color.g)
      && (if a.color.b <= b.color.b then a.color.b else b.color.b) <= c.b
        <= (if a.color.b <= b.color.b then b.color.b else a.color.b)
  {
    LerpChannelBetween(a.color.r, b.color.r, t);
    LerpChannelBetween(a.color.g, b.color.g, t);
    LerpChannelBetween(a.color.b, b.color.b, t);
  }
}
