/** Mapping a closed mesh onto the unit sphere (utils/morphing.rs, lines 15-147):
    the area-weighted centre of mass, the 1-ring neighbour table, triangle
    orientation signs, and the relaxation loop with its round cap.

    The float geometry is kept abstract: the triangle area (`area`), vector
    normalisation (`normalize`), and the relaxed position of a vertex, which is
    the normalised sum of its neighbours' previous positions (`relaxed`). */
module Parametrization {
  import opened Common
  import opened Meshes

  /** `RELAXATION_ROUNDS_LIMIT` (config.rs). */
  const RelaxationRoundsLimit: nat := 100000

  /** `epsilon_threshold` of `relax_mesh`. */
  const EpsilonThreshold: real := 0.001

  /** `v / k` on a vector. */
  function Div3(v: Vec3, k: real): Vec3
    requires k != 0.0
  {
    Vec3(v.x / k, v.y / k, v.z / k)
  }

  // ---------------------------------------------------------------------------
  // center_of_mass

  /** `(v1 + v2 + v3) / 3`. */
  function Centroid(a: Vec3, b: Vec3, c: Vec3): Vec3 {
    Div3(Add3(Add3(a, b), c), 3.0)
  }

  /** The sum of the areas of the first n triangles. */
  function TotalArea(vs: seq<Vec3>, ts: seq<Triangle>, area: (Vec3, Vec3, Vec3) -> real, n: nat): real
    requires n <= |ts| && AllTrianglesIn(ts, |vs|)
  {
    if n == 0 then 0.0
    else
      var t := ts[n - 1];
      TotalArea(vs, ts, area, n - 1) + area(vs[t.0], vs[t.1], vs[t.2])
  }

  /** The sum of the first n centroids, each weighted by its triangle's area. */
  function WeightedCenter(vs: seq<Vec3>, ts: seq<Triangle>, area: (Vec3, Vec3, Vec3) -> real, n: nat): Vec3
    requires n <= |ts| && AllTrianglesIn(ts, |vs|)
  {
    if n == 0 then Zero3
    else
      var t := ts[n - 1];
      Add3(WeightedCenter(vs, ts, area, n - 1),
           Scale3(area(vs[t.0], vs[t.1], vs[t.2]), Centroid(vs[t.0], vs[t.1], vs[t.2])))
  }

  /** The area-weighted centre of mass, or the origin when the total area is not positive. */
  function MassCenter(vs: seq<Vec3>, ts: seq<Triangle>, area: (Vec3, Vec3, Vec3) -> real): Vec3
    requires AllTrianglesIn(ts, |vs|)
  {
    var total := TotalArea(vs, ts, area, |ts|);
    if total > 0.0 then Div3(WeightedCenter(vs, ts, area, |ts|), total) else Zero3
  }

  /** `center_of_mass(mesh)`: accumulates over the triangles of `mesh.vertices`. */
  method CenterOfMass(mesh: TriangleMesh, area: (Vec3, Vec3, Vec3) -> real) returns (c: Vec3)
    requires AllTrianglesIn(mesh.triangles, |mesh.vertices|)
    ensures c == MassCenter(mesh.vertices, mesh.triangles, area)
  {
    var vs, ts := mesh.vertices, mesh.triangles;
    var totalArea := 0.0;
    var weightedCenter := Zero3;
    for k := 0 to |ts|
      invariant totalArea == TotalArea(vs, ts, area, k)
      invariant weightedCenter == WeightedCenter(vs, ts, area, k)
    {
      var v1, v2, v3 := vs[ts[k].0], vs[ts[k].1], vs[ts[k].2];
      var a := area(v1, v2, v3);
      var center := Centroid(v1, v2, v3);
      totalArea := totalArea + a;
      weightedCenter := Add3(weightedCenter, Scale3(a, center));
    }
    if totalArea > 0.0 {
      c := Div3(weightedCenter, totalArea);
    } else {
      c := Zero3;
    }
  }

  lemma {:induction false} WeightedCommonCentroid(vs: seq<Vec3>, ts: seq<Triangle>, area: (Vec3, Vec3, Vec3) -> real,
                                                  n: nat, c: Vec3)
    requires n <= |ts| && AllTrianglesIn(ts, |vs|)
    requires forall k | 0 <= k < n :: Centroid(vs[ts[k].0], vs[ts[k].1], vs[ts[k].2]) == c
    ensures WeightedCenter(vs, ts, area, n) == Scale3(TotalArea(vs, ts, area, n), c)
  {
    if n == 0 {
      assert Scale3(0.0, c) == Zero3;
    } else {
      WeightedCommonCentroid(vs, ts, area, n - 1, c);
      var t := ts[n - 1];
      ScaleDistributes(TotalArea(vs, ts, area, n - 1), area(vs[t.0], vs[t.1], vs[t.2]), c);
    }
  }

  lemma ScaleDistributes(a: real, b: real, c: Vec3)
    ensures Add3(Scale3(a, c), Scale3(b, c)) == Scale3(a + b, c)
  {
    assert (a + b) * c.x == a * c.x + b * c.x;
    assert (a + b) * c.y == a * c.y + b * c.y;
    assert (a + b) * c.z == a * c.z + b * c.z;
  }

  /** When every triangle has the same centroid c and the total area is positive,
      the centre of mass is c, whatever the areas are. */
  lemma CenterOfCommonCentroid(vs: seq<Vec3>, ts: seq<Triangle>, area: (Vec3, Vec3, Vec3) -> real, c: Vec3)
    requires AllTrianglesIn(ts, |vs|)
    requires forall k | 0 <= k < |ts| :: Centroid(vs[ts[k].0], vs[ts[k].1], vs[ts[k].2]) == c
    requires TotalArea(vs, ts, area, |ts|) > 0.0
    ensures MassCenter(vs, ts, area) == c
  {
    WeightedCommonCentroid(vs, ts, area, |ts|, c);
    DivScale(TotalArea(vs, ts, area, |ts|), c);
  }

  lemma DivScale(k: real, c: Vec3)
    requires k != 0.0
    ensures Div3(Scale3(k, c), k) == c
  {
    assert (k * c.x) / k == c.x;
    assert (k * c.y) / k == c.y;
    assert (k * c.z) / k == c.z;
  }

  /** Without any triangle of positive total area the centre is the origin. */
  lemma CenterFallback(vs: seq<Vec3>, ts: seq<Triangle>, area: (Vec3, Vec3, Vec3) -> real)
    requires AllTrianglesIn(ts, |vs|)
    requires forall k | 0 <= k < |ts| :: area(vs[ts[k].0], vs[ts[k].1], vs[ts[k].2]) <= 0.0
    ensures MassCenter(vs, ts, area) == Zero3
  {
    NonPositiveTotal(vs, ts, area, |ts|);
  }

  lemma {:induction false} NonPositiveTotal(vs: seq<Vec3>, ts: seq<Triangle>, area: (Vec3, Vec3, Vec3) -> real, n: nat)
    requires n <= |ts| && AllTrianglesIn(ts, |vs|)
    requires forall k | 0 <= k < n :: area(vs[ts[k].0], vs[ts[k].1], vs[ts[k].2]) <= 0.0
    ensures TotalArea(vs, ts, area, n) <= 0.0
  {
    if n > 0 {
      NonPositiveTotal(vs, ts, area, n - 1);
    }
  }

  // ---------------------------------------------------------------------------
  // collect_neighbors

  /** Triangle t makes j a neighbour of i: both are corners of t, at different positions. */
  predicate LinkedIn(t: Triangle, i: nat, j: nat) {
    || (i == t.0 && (j == t.1 || j == t.2))
    || (i == t.1 && (j == t.0 || j == t.2))
    || (i == t.2 && (j == t.0 || j == t.1))
  }

  /** One of the first n triangles makes j a neighbour of i. */
  ghost predicate Adjacent(ts: seq<Triangle>, n: nat, i: nat, j: nat)
    requires n <= |ts|
  {
    exists k | 0 <= k < n :: LinkedIn(ts[k], i, j)
  }

  /** `collect_neighbors(mesh)`: one set per vertex of `mesh.vertices`. */
  method CollectNeighbors(mesh: TriangleMesh) returns (nb: seq<set<nat>>)
    requires AllTrianglesIn(mesh.triangles, |mesh.vertices|)
    ensures |nb| == |mesh.vertices|
    ensures forall i, j | 0 <= i < |nb| :: j in nb[i] <==> Adjacent(mesh.triangles, |mesh.triangles|, i, j)
  {
    var ts := mesh.triangles;
    nb := seq(|mesh.vertices|, _ => {});
    for k := 0 to |ts|
      invariant |nb| == |mesh.vertices|
      invariant forall i, j | 0 <= i < |nb| :: j in nb[i] <==> Adjacent(ts, k, i, j)
    {
      var t := ts[k];
      var nb' := nb[t.0 := nb[t.0] + {t.1, t.2}];
      nb' := nb'[t.1 := nb'[t.1] + {t.0, t.2}];
      nb' := nb'[t.2 := nb'[t.2] + {t.0, t.1}];
      forall i, j | 0 <= i < |nb'| ensures j in nb'[i] <==> Adjacent(ts, k + 1, i, j) {
        AdjacentStep(ts, k, i, j);
      }
      nb := nb';
    }
  }

  lemma AdjacentStep(ts: seq<Triangle>, k: nat, i: nat, j: nat)
    requires k < |ts|
    ensures Adjacent(ts, k + 1, i, j) <==> Adjacent(ts, k, i, j) || LinkedIn(ts[k], i, j)
  {
    if Adjacent(ts, k + 1, i, j) && !LinkedIn(ts[k], i, j) {
      var m :| 0 <= m < k + 1 && LinkedIn(ts[m], i, j);
      assert m < k;
    }
  }

  /** The neighbour relation is symmetric. */
  lemma AdjacentSymmetric(ts: seq<Triangle>, n: nat, i: nat, j: nat)
    requires n <= |ts|
    ensures Adjacent(ts, n, i, j) <==> Adjacent(ts, n, j, i)
  {
    if Adjacent(ts, n, i, j) {
      var k :| 0 <= k < n && LinkedIn(ts[k], i, j);
      assert LinkedIn(ts[k], j, i);
    }
    if Adjacent(ts, n, j, i) {
      var k :| 0 <= k < n && LinkedIn(ts[k], j, i);
      assert LinkedIn(ts[k], i, j);
    }
  }

  /** The table `collect_neighbors` returns is symmetric: j is a neighbour of i
      exactly when i is a neighbour of j. */
  lemma NeighborsSymmetric(mesh: TriangleMesh, nb: seq<set<nat>>, i: nat, j: nat)
    requires |nb| == |mesh.vertices| && i < |nb| && j < |nb|
    requires forall a, b | 0 <= a < |nb| :: b in nb[a] <==> Adjacent(mesh.triangles, |mesh.triangles|, a, b)
    ensures j in nb[i] <==> i in nb[j]
  {
    AdjacentSymmetric(mesh.triangles, |mesh.triangles|, i, j);
  }

  /** The neighbour sets as a function of the triangles: the vertices below n that
      share a triangle with i. */
  ghost function Neighborhoods(ts: seq<Triangle>, n: nat): (r: seq<set<nat>>)
    ensures |r| == n
  {
    seq(n, i requires 0 <= i < n => set j | 0 <= j < n && Adjacent(ts, |ts|, i, j))
  }

  /** The table `collect_neighbors` returns is `Neighborhoods`. */
  lemma NeighborsAreNeighborhoods(mesh: TriangleMesh, nb: seq<set<nat>>)
    requires AllTrianglesIn(mesh.triangles, |mesh.vertices|)
    requires |nb| == |mesh.vertices|
    requires forall a, b | 0 <= a < |nb| :: b in nb[a] <==> Adjacent(mesh.triangles, |mesh.triangles|, a, b)
    ensures nb == Neighborhoods(mesh.triangles, |mesh.vertices|)
  {
    var ts, n := mesh.triangles, |mesh.vertices|;
    var hood := Neighborhoods(ts, n);
    forall i | 0 <= i < n ensures nb[i] == hood[i] {
      forall j | j in nb[i] ensures j < n {
        var k :| 0 <= k < |ts| && LinkedIn(ts[k], i, j);
        assert TriangleIn(ts[k], n);
      }
    }
  }

  // ---------------------------------------------------------------------------
  // get_orientations

  /** `f64::signum` over the reals (a zero triple product counts as +0.0). */
  function Signum(x: real): real {
    if x < 0.0 then -1.0 else 1.0
  }

  /** The scalar triple product `(a x b) . c`. */
  function Triple(a: Vec3, b: Vec3, c: Vec3): real {
    Dot3(Cross3(a, b), c)
  }

  /** The sign of a triangle seen from the origin. */
  function Orientation(a: Vec3, b: Vec3, c: Vec3): (r: real)
    ensures r == 1.0 || r == -1.0
  {
    Signum(Triple(a, b, c))
  }

  /** `get_orientations(vertices, triangles)`: one sign per triangle, in order. */
  function GetOrientations(vs: seq<Vec3>, ts: seq<Triangle>): (r: seq<real>)
    requires AllTrianglesIn(ts, |vs|)
  {
    seq(|ts|, k requires 0 <= k < |ts| => Orientation(vs[ts[k].0], vs[ts[k].1], vs[ts[k].2]))
  }

  /** One sign per triangle, each +1 or -1, the k-th being the k-th triangle's. */
  lemma OrientationsShape(vs: seq<Vec3>, ts: seq<Triangle>)
    requires AllTrianglesIn(ts, |vs|)
    ensures |GetOrientations(vs, ts)| == |ts|
    ensures forall k | 0 <= k < |ts| :: GetOrientations(vs, ts)[k] in {1.0, -1.0}
  {
  }

  /** Rotating the corners of a triangle keeps its orientation. */
  lemma OrientationCyclic(a: Vec3, b: Vec3, c: Vec3)
    ensures Orientation(a, b, c) == Orientation(b, c, a)
  {
    assert Triple(a, b, c) == Triple(b, c, a) by {
      assert Triple(a, b, c)
        == a.y * b.z * c.x - a.z * b.y * c.x + a.z * b.x * c.y - a.x * b.z * c.y + a.x * b.y * c.z - a.y * b.x * c.z;
      assert Triple(b, c, a)
        == b.y * c.z * a.x - b.z * c.y * a.x + b.z * c.x * a.y - b.x * c.z * a.y + b.x * c.y * a.z - b.y * c.x * a.z;
    }
  }

  /** Swapping two corners of a non-degenerate triangle flips its orientation. */
  lemma OrientationSwap(a: Vec3, b: Vec3, c: Vec3)
    requires Triple(a, b, c) != 0.0
    ensures Orientation(b, a, c) == -Orientation(a, b, c)
  {
    assert Triple(b, a, c) == -Triple(a, b, c);
  }

  // ---------------------------------------------------------------------------
  // relax_mesh

  /** `(prev - curr).norm() < epsilon_threshold`, squared on both sides. */
  predicate Close(prev: Vec3, curr: Vec3) {
    NormSq3(Sub3(prev, curr)) < EpsilonThreshold * EpsilonThreshold
  }

  /** The zip-and-`all` test that sets `epsilon_reached`. */
  predicate AllClose(prev: seq<Vec3>, curr: seq<Vec3>) {
    forall i | 0 <= i < |prev| && i < |curr| :: Close(prev[i], curr[i])
  }

  /** Step 2 of a round: every vertex moves to the relaxed position of its neighbourhood. */
  function Relaxed(nb: seq<set<nat>>, prev: seq<Vec3>, relaxed: (set<nat>, seq<Vec3>) -> Vec3): (r: seq<Vec3>)
    requires |prev| <= |nb|
    ensures |r| == |prev|
  {
    seq(|prev|, i requires 0 <= i < |prev| => relaxed(nb[i], prev))
  }

  function SumPoints(vs: seq<Vec3>): Vec3 {
    if vs == [] then Zero3 else Add3(SumPoints(vs[..|vs| - 1]), vs[|vs| - 1])
  }

  /** The sphere re-centring at the end of a round: subtract the mean of all vertices. */
  function Centered(vs: seq<Vec3>): (r: seq<Vec3>)
    ensures |r| == |vs|
  {
    if vs == [] then []
    else
      var mean := Div3(SumPoints(vs), |vs| as real);
      seq(|vs|, i requires 0 <= i < |vs| => Sub3(vs[i], mean))
  }

  /** One relaxation round. */
  function Round(nb: seq<set<nat>>, vs: seq<Vec3>, relaxed: (set<nat>, seq<Vec3>) -> Vec3): (r: seq<Vec3>)
    requires |vs| <= |nb|
    ensures |r| == |vs|
  {
    Centered(Relaxed(nb, vs, relaxed))
  }

  /** The positions after k rounds. */
  function Iterate(nb: seq<set<nat>>, vs: seq<Vec3>, relaxed: (set<nat>, seq<Vec3>) -> Vec3, k: nat): (r: seq<Vec3>)
    requires |vs| <= |nb|
    ensures |r| == |vs|
  {
    if k == 0 then vs else Round(nb, Iterate(nb, vs, relaxed, k - 1), relaxed)
  }

  lemma IterateStep(nb: seq<set<nat>>, vs: seq<Vec3>, relaxed: (set<nat>, seq<Vec3>) -> Vec3, k: nat)
    requires |vs| <= |nb|
    ensures Iterate(nb, vs, relaxed, k + 1) == Centered(Relaxed(nb, Iterate(nb, vs, relaxed, k), relaxed))
  {
  }

  /** The loop's stop condition after k rounds: the orientations equal the original
      ones and (for k > 0) round k moved no vertex by `epsilon_threshold` or more. */
  predicate Settled(nb: seq<set<nat>>, vs: seq<Vec3>, relaxed: (set<nat>, seq<Vec3>) -> Vec3,
                    ts: seq<Triangle>, original: seq<real>, k: nat)
    requires |vs| <= |nb| && AllTrianglesIn(ts, |vs|)
  {
    && GetOrientations(Iterate(nb, vs, relaxed, k), ts) == original
    && (k == 0 || AllClose(Iterate(nb, vs, relaxed, k - 1), Relaxed(nb, Iterate(nb, vs, relaxed, k - 1), relaxed)))
  }

  /** The state of `relax_mesh`'s loop after `rounds` rounds. */
  ghost predicate RelaxState(nb: seq<set<nat>>, v0: seq<Vec3>, relaxed: (set<nat>, seq<Vec3>) -> Vec3,
                             ts: seq<Triangle>, original: seq<real>, rounds: nat,
                             vw: seq<Vec3>, established: bool, epsilonReached: bool)
    requires |v0| <= |nb| && AllTrianglesIn(ts, |v0|)
  {
    && vw == Iterate(nb, v0, relaxed, rounds)
    && established == (GetOrientations(vw, ts) == original)
    && epsilonReached == (rounds == 0 || AllClose(Iterate(nb, v0, relaxed, rounds - 1),
                                                  Relaxed(nb, Iterate(nb, v0, relaxed, rounds - 1), relaxed)))
  }

  lemma SettledState(nb: seq<set<nat>>, v0: seq<Vec3>, relaxed: (set<nat>, seq<Vec3>) -> Vec3,
                     ts: seq<Triangle>, original: seq<real>, rounds: nat,
                     vw: seq<Vec3>, established: bool, epsilonReached: bool)
    requires |v0| <= |nb| && AllTrianglesIn(ts, |v0|)
    requires RelaxState(nb, v0, relaxed, ts, original, rounds, vw, established, epsilonReached)
    ensures Settled(nb, v0, relaxed, ts, original, rounds) <==> established && epsilonReached
  {
  }

  lemma RelaxStateStep(nb: seq<set<nat>>, v0: seq<Vec3>, relaxed: (set<nat>, seq<Vec3>) -> Vec3,
                       ts: seq<Triangle>, original: seq<real>, rounds: nat,
                       prev: seq<Vec3>, vw: seq<Vec3>, established: bool, epsilonReached: bool)
    requires |v0| <= |nb| && AllTrianglesIn(ts, |v0|)
    requires prev == Iterate(nb, v0, relaxed, rounds)
    requires vw == Round(nb, prev, relaxed)
    requires established == (GetOrientations(vw, ts) == original)
    requires epsilonReached == AllClose(prev, Relaxed(nb, prev, relaxed))
    ensures RelaxState(nb, v0, relaxed, ts, original, rounds + 1, vw, established, epsilonReached)
  {
    IterateStep(nb, v0, relaxed, rounds);
  }

  lemma UnsettledExtend(nb: seq<set<nat>>, v0: seq<Vec3>, relaxed: (set<nat>, seq<Vec3>) -> Vec3,
                        ts: seq<Triangle>, original: seq<real>, rounds: nat)
    requires |v0| <= |nb| && AllTrianglesIn(ts, |v0|)
    requires forall k | 0 <= k < rounds :: !Settled(nb, v0, relaxed, ts, original, k)
    requires !Settled(nb, v0, relaxed, ts, original, rounds)
    ensures forall k | 0 <= k < rounds + 1 :: !Settled(nb, v0, relaxed, ts, original, k)
  {
    forall k | 0 <= k < rounds + 1 ensures !Settled(nb, v0, relaxed, ts, original, k) {
      if k < rounds {
      }
    }
  }

  /** The body of `relax_mesh`'s loop: relax, test the movement, re-centre, compare
      the orientations. */
  method RunRound(nb: seq<set<nat>>, prev: seq<Vec3>, relaxed: (set<nat>, seq<Vec3>) -> Vec3,
                  ts: seq<Triangle>, original: seq<real>)
    returns (vw: seq<Vec3>, established: bool, epsilonReached: bool)
    requires |prev| <= |nb| && AllTrianglesIn(ts, |prev|)
    ensures vw == Round(nb, prev, relaxed)
    ensures established == (GetOrientations(vw, ts) == original)
    ensures epsilonReached == AllClose(prev, Relaxed(nb, prev, relaxed))
  {
    var next := RelaxRound(nb, prev, relaxed);
    epsilonReached := AllClose(prev, next);
    vw := Recenter(next);
    var orientations := GetOrientations(vw, ts);
    established := orientations == original;
  }

  /** The per-vertex loop of step 2. */
  method RelaxRound(nb: seq<set<nat>>, prev: seq<Vec3>, relaxed: (set<nat>, seq<Vec3>) -> Vec3)
    returns (vs: seq<Vec3>)
    requires |prev| <= |nb|
    ensures vs == Relaxed(nb, prev, relaxed)
  {
    vs := prev;
    for i := 0 to |prev|
      invariant |vs| == |prev|
      invariant forall k | 0 <= k < i :: vs[k] == relaxed(nb[k], prev)
      invariant forall k | i <= k < |prev| :: vs[k] == prev[k]
    {
      vs := vs[i := relaxed(nb[i], prev)];
    }
  }

  /** The `iter_mut().for_each(|v| *v -= mean)` loop. */
  method Recenter(vs: seq<Vec3>) returns (r: seq<Vec3>)
    ensures r == Centered(vs)
  {
    r := vs;
    if |vs| > 0 {
      var mean := Div3(SumPoints(vs), |vs| as real);
      for i := 0 to |vs|
        invariant |r| == |vs|
        invariant forall k | 0 <= k < i :: r[k] == Sub3(vs[k], mean)
        invariant forall k | i <= k < |vs| :: r[k] == vs[k]
      {
        r := r[i := Sub3(r[i], mean)];
      }
    }
  }

  /** `relax_mesh(mesh, original_orientations)`. The round count, which the source
      prints, is returned. The loop stops at the first k below the cap for which the
      mesh is `Settled`; at the cap it stops regardless. */
  method RelaxMesh(mesh: TriangleMesh, original: seq<real>, relaxed: (set<nat>, seq<Vec3>) -> Vec3)
    returns (m: TriangleMesh, rounds: nat)
    requires AllTrianglesIn(mesh.triangles, |mesh.vertices|)
    requires AllTrianglesIn(mesh.triangles, |mesh.verticesWorld|)
    requires |mesh.verticesWorld| <= |mesh.vertices|
    ensures var nb := Neighborhoods(mesh.triangles, |mesh.vertices|);
      && rounds <= RelaxationRoundsLimit
      && m == mesh.(verticesWorld := Iterate(nb, mesh.verticesWorld, relaxed, rounds))
      && (rounds < RelaxationRoundsLimit ==> Settled(nb, mesh.verticesWorld, relaxed, mesh.triangles, original, rounds))
      && (forall k | 0 <= k < rounds :: !Settled(nb, mesh.verticesWorld, relaxed, mesh.triangles, original, k))
  {
    var ts := mesh.triangles;
    var nb := CollectNeighbors(mesh);
    NeighborsAreNeighborhoods(mesh, nb);
    ghost var v0 := mesh.verticesWorld;
    var vw := mesh.verticesWorld;
    var orientations := GetOrientations(vw, ts);
    var established := orientations == original;
    var epsilonReached := true;
    rounds := 0;
    while !(established && epsilonReached) && rounds < RelaxationRoundsLimit
      invariant rounds <= RelaxationRoundsLimit
      invariant RelaxState(nb, v0, relaxed, ts, original, rounds, vw, established, epsilonReached)
      invariant forall k | 0 <= k < rounds :: !Settled(nb, v0, relaxed, ts, original, k)
      decreases RelaxationRoundsLimit - rounds
    {
      SettledState(nb, v0, relaxed, ts, original, rounds, vw, established, epsilonReached);
      UnsettledExtend(nb, v0, relaxed, ts, original, rounds);
      var prev := vw;
      vw, established, epsilonReached := RunRound(nb, prev, relaxed, ts, original);
      RelaxStateStep(nb, v0, relaxed, ts, original, rounds, prev, vw, established, epsilonReached);
      rounds := rounds + 1;
    }
    SettledState(nb, v0, relaxed, ts, original, rounds, vw, established, epsilonReached);
    m := mesh.(verticesWorld := vw);
  }

  /** When the initial orientations already equal the original ones no round runs,
      because `epsilon_reached` starts out true. */
  lemma SettledAtStart(nb: seq<set<nat>>, vs: seq<Vec3>, relaxed: (set<nat>, seq<Vec3>) -> Vec3,
                       ts: seq<Triangle>, original: seq<real>)
    requires |vs| <= |nb| && AllTrianglesIn(ts, |vs|)
    ensures Settled(nb, vs, relaxed, ts, original, 0) <==> GetOrientations(vs, ts) == original
  {
  }

  // ---------------------------------------------------------------------------
  // parametrize_mesh

  /** The sign `parametrize_mesh` records for one triangle from its normal n: the triple
      product of its corners taken relative to `origin = v0 - n`. */
  function NormalOrientation(a: Vec3, b: Vec3, c: Vec3, n: Vec4): real {
    var origin := Sub3(a, Vec3(n.x, n.y, n.z));
    Orientation(Sub3(a, origin), Sub3(b, origin), Sub3(c, origin))
  }

  /** `izip!(triangles, normals)`: as many signs as the shorter of the two lists. */
  function OriginalOrientations(vs: seq<Vec3>, ts: seq<Triangle>, ns: seq<Vec4>): (r: seq<real>)
    requires AllTrianglesIn(ts, |vs|)
    ensures |r| == if |ts| <= |ns| then |ts| else |ns|
  {
    var n := if |ts| <= |ns| then |ts| else |ns|;
    seq(n, k requires 0 <= k < n => NormalOrientation(vs[ts[k].0], vs[ts[k].1], vs[ts[k].2], ns[k]))
  }

  /** The recorded sign is that of the triangle moved so that its first corner lies
      at the tip of its normal: the first corner's position drops out. */
  lemma NormalOrientationMoved(a: Vec3, b: Vec3, c: Vec3, n: Vec4)
    ensures var tip := Vec3(n.x, n.y, n.z);
      NormalOrientation(a, b, c, n) == Orientation(tip, Add3(tip, Sub3(b, a)), Add3(tip, Sub3(c, a)))
  {
    var tip := Vec3(n.x, n.y, n.z);
    var origin := Sub3(a, tip);
    assert Sub3(a, origin) == tip;
    assert Sub3(b, origin) == Add3(tip, Sub3(b, a));
    assert Sub3(c, origin) == Add3(tip, Sub3(c, a));
  }

  /** Each point moved to the normalised offset from `center`. */
  function OnSphere(vs: seq<Vec3>, center: Vec3, normalize: Vec3 -> Vec3): (r: seq<Vec3>)
    ensures |r| == |vs|
  {
    seq(|vs|, i requires 0 <= i < |vs| => normalize(Sub3(vs[i], center)))
  }

  /** Step 2 of `parametrize_mesh`: each world vertex becomes the normalised offset
      from the centre of mass. */
  method ProjectOnSphere(vs: seq<Vec3>, center: Vec3, normalize: Vec3 -> Vec3) returns (r: seq<Vec3>)
    ensures r == OnSphere(vs, center, normalize)
  {
    r := vs;
    for i := 0 to |vs|
      invariant |r| == |vs|
      invariant forall k | 0 <= k < i :: r[k] == normalize(Sub3(vs[k], center))
      invariant forall k | i <= k < |vs| :: r[k] == vs[k]
    {
      r := r[i := normalize(Sub3(r[i], center))];
    }
  }

  /** m is mesh parametrised after `rounds` relaxation rounds: the world vertices
      projected on the sphere around the centre of mass, relaxed until the
      orientations first agree or the round limit is reached, and copied into
      `vertices`; everything else as it was. */
  ghost predicate ParametrizationOf(mesh: TriangleMesh, m: TriangleMesh, rounds: nat,
                                    area: (Vec3, Vec3, Vec3) -> real, normalize: Vec3 -> Vec3,
                                    relaxed: (set<nat>, seq<Vec3>) -> Vec3)
    requires AllTrianglesIn(mesh.triangles, |mesh.vertices|)
    requires AllTrianglesIn(mesh.triangles, |mesh.verticesWorld|)
    requires |mesh.verticesWorld| <= |mesh.vertices|
  {
    var nb := Neighborhoods(mesh.triangles, |mesh.vertices|);
    var start := OnSphere(mesh.verticesWorld, MassCenter(mesh.vertices, mesh.triangles, area), normalize);
    var original := OriginalOrientations(mesh.verticesWorld, mesh.triangles, mesh.normalsWorld);
    && m.vertices == m.verticesWorld
    && |m.verticesWorld| == |mesh.verticesWorld|
    && m.triangles == mesh.triangles && m.material == mesh.material
    && m.normals == mesh.normals && m.normalsWorld == mesh.normalsWorld
    && rounds <= RelaxationRoundsLimit
    && m.verticesWorld == Iterate(nb, start, relaxed, rounds)
    && (rounds < RelaxationRoundsLimit ==> Settled(nb, start, relaxed, mesh.triangles, original, rounds))
    && (forall k | 0 <= k < rounds :: !Settled(nb, start, relaxed, mesh.triangles, original, k))
  }

  /** `parametrize_mesh(mesh)`: records the orientations, projects the world vertices on
      the unit sphere around the centre of mass, relaxes them, and copies them into
      `vertices`. Returns the relaxation's round count as well. */
  method ParametrizeMesh(mesh: TriangleMesh, area: (Vec3, Vec3, Vec3) -> real, normalize: Vec3 -> Vec3,
                         relaxed: (set<nat>, seq<Vec3>) -> Vec3)
    returns (m: TriangleMesh, rounds: nat)
    requires AllTrianglesIn(mesh.triangles, |mesh.vertices|)
    requires AllTrianglesIn(mesh.triangles, |mesh.verticesWorld|)
    requires |mesh.verticesWorld| <= |mesh.vertices|
    ensures ParametrizationOf(mesh, m, rounds, area, normalize, relaxed)
  {
    var original := OriginalOrientations(mesh.verticesWorld, mesh.triangles, mesh.normalsWorld);
    var center := CenterOfMass(mesh, area);
    var projected := ProjectOnSphere(mesh.verticesWorld, center, normalize);
    var projectedMesh := mesh.(verticesWorld := projected);
    assert projectedMesh.triangles == mesh.triangles && |projectedMesh.vertices| == |mesh.vertices|;
    var relaxedMesh;
    relaxedMesh, rounds := RelaxMesh(projectedMesh, original, relaxed);
    m := relaxedMesh.(vertices := relaxedMesh.verticesWorld);
  }
}
