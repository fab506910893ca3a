/** Barycentric coordinates of a point with respect to a triangle, computed from the
    x and y coordinates only (utils/triangles.rs). */
module Barycentric {
  import opened Common

  /** The shared denominator of `u` and `v`; zero exactly when a, b, c are collinear in xy. */
  function Denominator(a: Vec3, b: Vec3, c: Vec3): real {
    (b.y - c.y) * (a.x - c.x) + (c.x - b.x) * (a.y - c.y)
  }

  /** `barycentric(p, a, b, c)` as `(u, v, w)`. The source divides by the denominator
      unconditionally; a zero denominator has no defined real result and is reported
      as `None` here. */
  function Barycentric(p: Vec3, a: Vec3, b: Vec3, c: Vec3): (r: Option<Vec3>)
    ensures r.None? <==> Denominator(a, b, c) == 0.0
    ensures r.Some? ==> r.value.x + r.value.y + r.value.z == 1.0
  {
    var d := Denominator(a, b, c);
    if d == 0.0 then None
    else
      var u := ((b.y - c.y) * (p.x - c.x) + (c.x - b.x) * (p.y - c.y)) / d;
      var v := ((c.y - a.y) * (p.x - c.x) + (a.x - c.x) * (p.y - c.y)) / d;
      Some(Vec3(u, v, 1.0 - u - v))
  }

  /** Weighted sum of the three corners with the given coordinates. */
  function Combine(w: Vec3, a: Vec3, b: Vec3, c: Vec3): Vec3 {
    Add3(Add3(Scale3(w.x, a), Scale3(w.y, b)), Scale3(w.z, c))
  }

  /** With a nonzero denominator the coordinates reproduce p in x and y. */
  lemma BarycentricReconstructs(p: Vec3, a: Vec3, b: Vec3, c: Vec3)
    requires Denominator(a, b, c) != 0.0
    ensures Combine(Barycentric(p, a, b, c).value, a, b, c).x == p.x
    ensures Combine(Barycentric(p, a, b, c).value, a, b, c).y == p.y
  {
    var d := Denominator(a, b, c);
    var X, Y := p.x - c.x, p.y - c.y;
    var A1, A2, B1, B2 := a.x - c.x, a.y - c.y, b.x - c.x, b.y - c.y;
    var nu := B2 * X - B1 * Y;
    var nv := A1 * Y - A2 * X;
    var w := Barycentric(p, a, b, c).value;
    assert d == B2 * A1 - B1 * A2 by {
      assert (c.x - b.x) * A2 == -(B1 * A2);
    }
    assert w.x == nu / d && w.y == nv / d by {
      assert (c.x - b.x) * Y == -(B1 * Y);
      assert (c.y - a.y) * X == -(A2 * X);
    }
    // Both coordinates after moving c to the origin: u * A + v * B == (X, Y).
    CrossIdentities(A1, A2, B1, B2, X, Y);
    DivideThrough(nu, nv, A1, B1, X, d);
    DivideThrough(nu, nv, A2, B2, Y, d);
    CombineShifted(w.x, w.y, a.x, b.x, c.x);
    CombineShifted(w.x, w.y, a.y, b.y, c.y);
  }

  lemma CrossIdentities(A1: real, A2: real, B1: real, B2: real, X: real, Y: real)
    ensures (B2 * X - B1 * Y) * A1 + (A1 * Y - A2 * X) * B1 == X * (B2 * A1 - B1 * A2)
    ensures (B2 * X - B1 * Y) * A2 + (A1 * Y - A2 * X) * B2 == Y * (B2 * A1 - B1 * A2)
  {
  }

  /** u * a + v * b + (1 - u - v) * c == u * (a - c) + v * (b - c) + c. */
  lemma CombineShifted(u: real, v: real, a: real, b: real, c: real)
    ensures u * a + v * b + (1.0 - u - v) * c == u * (a - c) + v * (b - c) + c
  {
    assert (1.0 - u - v) * c == c - u * c - v * c;
    assert u * (a - c) == u * a - u * c;
    assert v * (b - c) == v * b - v * c;
  }

  lemma DivideThrough(nu: real, nv: real, A: real, B: real, X: real, d: real)
    requires d != 0.0 && nu * A + nv * B == X * d
    ensures (nu / d) * A + (nv / d) * B == X
  {
    assert (nu / d) * A + (nv / d) * B == (nu * A + nv * B) / d;
  }

  /** Each corner of a non-degenerate triangle gets the matching unit coordinate. */
  lemma BarycentricAtCorners(a: Vec3, b: Vec3, c: Vec3)
    requires Denominator(a, b, c) != 0.0
    ensures Barycentric(a, a, b, c) == Some(Vec3(1.0, 0.0, 0.0))
    ensures Barycentric(b, a, b, c) == Some(Vec3(0.0, 1.0, 0.0))
    ensures Barycentric(c, a, b, c) == Some(Vec3(0.0, 0.0, 1.0))
  {
    BarycentricAtA(a, b, c);
    BarycentricAtB(a, b, c);
    BarycentricAtC(a, b, c);
  }

  lemma BarycentricAtA(a: Vec3, b: Vec3, c: Vec3)
    requires Denominator(a, b, c) != 0.0
    ensures Barycentric(a, a, b, c) == Some(Vec3(1.0, 0.0, 0.0))
  {
    var d := Denominator(a, b, c);
    var nu := (b.y - c.y) * (a.x - c.x) + (c.x - b.x) * (a.y - c.y);
    var nv := (c.y - a.y) * (a.x - c.x) + (a.x - c.x) * (a.y - c.y);
    assert nu == d;
    assert nv == 0.0 by {
      assert (a.x - c.x) * (a.y - c.y) == -((c.y - a.y) * (a.x - c.x));
    }
    var w := Barycentric(a, a, b, c);
    assert w.Some? && w.value.x == nu / d && w.value.y == nv / d;
    assert nu / d == 1.0;
    assert nv / d == 0.0;
    assert w.value.z == 0.0;
  }

  lemma BarycentricAtB(a: Vec3, b: Vec3, c: Vec3)
    requires Denominator(a, b, c) != 0.0
    ensures Barycentric(b, a, b, c) == Some(Vec3(0.0, 1.0, 0.0))
  {
    var d := Denominator(a, b, c);
    var nu := (b.y - c.y) * (b.x - c.x) + (c.x - b.x) * (b.y - c.y);
    var nv := (c.y - a.y) * (b.x - c.x) + (a.x - c.x) * (b.y - c.y);
    assert nu == 0.0 by {
      assert (c.x - b.x) * (b.y - c.y) == -((b.y - c.y) * (b.x - c.x));
    }
    assert nv == d by {
      assert (c.y - a.y) * (b.x - c.x) == (b.y - c.y) * (a.x - c.x) + (c.x - b.x) * (a.y - c.y) - (a.x - c.x) * (b.y - c.y);
    }
    var w := Barycentric(b, a, b, c);
    assert w.Some? && w.value.x == nu / d && w.value.y == nv / d;
    assert nu / d == 0.0;
    assert nv / d == 1.0;
    assert w.value.z == 0.0;
  }

  lemma BarycentricAtC(a: Vec3, b: Vec3, c: Vec3)
    requires Denominator(a, b, c) != 0.0
    ensures Barycentric(c, a, b, c) == Some(Vec3(0.0, 0.0, 1.0))
  {
    var d := Denominator(a, b, c);
    var nu := (b.y - c.y) * (c.x - c.x) + (c.x - b.x) * (c.y - c.y);
    var nv := (c.y - a.y) * (c.x - c.x) + (a.x - c.x) * (c.y - c.y);
    assert nu == 0.0 && nv == 0.0;
    var w := Barycentric(c, a, b, c);
    assert w.Some? && w.value.x == nu / d && w.value.y == nv / d;
    assert nu / d == 0.0;
    assert nv / d == 0.0;
    assert w.value.z == 1.0;
  }

  /** The z coordinates of p, a, b and c play no part in the result: any points that
      agree with them in x and y give the same coordinates. */
  lemma BarycentricIgnoresZ(p: Vec3, a: Vec3, b: Vec3, c: Vec3, p': Vec3, a': Vec3, b': Vec3, c': Vec3)
    requires p'.x == p.x && p'.y == p.y && a'.x == a.x && a'.y == a.y
    requires b'.x == b.x && b'.y == b.y && c'.x == c.x && c'.y == c.y
    ensures Barycentric(p, a, b, c) == Barycentric(p', a', b', c')
  {
    var d := Denominator(a, b, c);
    assert d == Denominator(a', b', c');
    if d != 0.0 {
      var r, r' := Barycentric(p, a, b, c).value, Barycentric(p', a', b', c').value;
      assert r.x == r'.x;
      assert r.y == r'.y;
    }
  }
}
