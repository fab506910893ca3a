/** Shared value types of the morphing system: optional and fallible results,
    points and vectors over exact reals, index triangles and index segments. */
module Common {

  datatype Option<+T> = None | Some(value: T)

  datatype Result<+T, +E> = Success(value: T) | Failure(error: E)

  /** A 3D point or vector (nalgebra `Point3<f64>` / `Vector3<f64>`), over exact reals. */
  datatype Vec3 = Vec3(x: real, y: real, z: real)

  /** A homogeneous vector (nalgebra `Vector4<f64>`), used for normals. */
  datatype Vec4 = Vec4(x: real, y: real, z: real, w: real)

  /** `Triangle = (usize, usize, usize)`: three vertex indices. */
  datatype Triangle = Triangle(0: nat, 1: nat, 2: nat)

  /** `Segment = [usize; 2]`: a pair of vertex indices. */
  datatype Segment = Segment(0: nat, 1: nat)

  function Add3(a: Vec3, b: Vec3): Vec3 { Vec3(a.x + b.x, a.y + b.y, a.z + b.z) }

  function Sub3(a: Vec3, b: Vec3): Vec3 { Vec3(a.x - b.x, a.y - b.y, a.z - b.z) }

  function Scale3(k: real, a: Vec3): Vec3 { Vec3(k * a.x, k * a.y, k * a.z) }

  function Dot3(a: Vec3, b: Vec3): real { a.x * b.x + a.y * b.y + a.z * b.z }

  function Cross3(a: Vec3, b: Vec3): Vec3 {
    Vec3(a.y * b.z - a.z * b.y, a.z * b.x - a.x * b.z, a.x * b.y - a.y * b.x)
  }

  /** Squared Euclidean norm: `norm_squared()`; compared against squared thresholds
      so that no square root is needed. */
  function NormSq3(a: Vec3): real { Dot3(a, a) }

  const Zero3: Vec3 := Vec3(0.0, 0.0, 0.0)

  /** True when a triangle's three indices are all below `n`. */
  predicate TriangleIn(t: Triangle, n: nat) { t.0 < n && t.1 < n && t.2 < n }

  predicate AllTrianglesIn(ts: seq<Triangle>, n: nat) {
    forall i | 0 <= i < |ts| :: TriangleIn(ts[i], n)
  }

  /** The `k`-th corner of a triangle, k in 0..3. */
  function Corner(t: Triangle, k: nat): nat
    requires k < 3
  {
    if k == 0 then t.0 else if k == 1 then t.1 else t.2
  }

  predicate Distinct<T(==)>(s: seq<T>) {
    forall i, j | 0 <= i < j < |s| :: s[i] != s[j]
  }
}
