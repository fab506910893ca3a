/** Linear interpolation `a * (1 - t) + b * t` (utils/math.rs), for scalars and,
    component by component, for the point and normal vectors it is applied to. */
module Lerping {
  import opened Common

  function Min(a: real, b: real): real { if a <= b then a else b }

  function Max(a: real, b: real): real { if a <= b then b else a }

  /** The generic `lerp` instantiated at real scalars. */
  function Lerp(a: real, b: real, t: real): (r: real)
    ensures t == 0.0 ==> r == a
    ensures t == 1.0 ==> r == b
    ensures a == b ==> r == a
    ensures r == a + t * (b - a)
  {
    LerpForms(a, b, t);
    a * (1.0 - t) + b * t
  }

  lemma LerpForms(a: real, b: real, t: real)
    ensures a * (1.0 - t) + b * t == a + t * (b - a)
    ensures t == 0.0 ==> a * (1.0 - t) + b * t == a
    ensures t == 1.0 ==> a * (1.0 - t) + b * t == b
    ensures a == b ==> a * (1.0 - t) + b * t == a
  {
    assert a * (1.0 - t) == a * 1.0 - a * t;
    assert a * 1.0 == a;
    assert t * (b - a) == t * b - t * a;
    assert b * t == t * b && a * t == t * a;
    if t == 0.0 {
      assert a * t == 0.0 && b * t == 0.0;
    }
    if t == 1.0 {
      assert a * t == a && b * t == b;
    }
    if a == b {
      assert t * (b - a) == 0.0;
    }
  }

  /** For t in [0, 1] the interpolated value lies between the two end values. */
  lemma LerpBetween(a: real, b: real, t: real)
    requires 0.0 <= t <= 1.0
    ensures Min(a, b) <= Lerp(a, b, t) <= Max(a, b)
  {
    var d := b - a;
    assert Lerp(a, b, t) == a + t * d;
    if d >= 0.0 {
      ScaledBetween(t, d);
      assert Min(a, b) == a && Max(a, b) == b;
    } else {
      ScaledBetween(t, -d);
      assert t * -d == -(t * d);
      assert Min(a, b) == b && Max(a, b) == a;
    }
  }

  lemma ScaledBetween(t: real, d: real)
    requires 0.0 <= t <= 1.0 && 0.0 <= d
    ensures 0.0 <= t * d <= d
  {
    assert d - t * d == (1.0 - t) * d;
  }

  /** `lerp` on `Point3<f64>` (the morph's vertex closures use `(1 - t) * src + t * dst`,
      which is the same value). */
  function Lerp3(a: Vec3, b: Vec3, t: real): (r: Vec3)
    ensures t == 0.0 ==> r == a
    ensures t == 1.0 ==> r == b
    ensures a == b ==> r == a
  {
    Vec3(Lerp(a.x, b.x, t), Lerp(a.y, b.y, t), Lerp(a.z, b.z, t))
  }

  /** `lerp` on `Vector4<f64>`, used for normals. */
  function Lerp4(a: Vec4, b: Vec4, t: real): (r: Vec4)
    ensures t == 0.0 ==> r == a
    ensures t == 1.0 ==> r == b
    ensures a == b ==> r == a
  {
    Vec4(Lerp(a.x, b.x, t), Lerp(a.y, b.y, t), Lerp(a.z, b.z, t), Lerp(a.w, b.w, t))
  }
}
