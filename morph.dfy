/** The morph between two meshes (objects/morph.rs): the pipeline of `Morph::new`
    and the in-place refresh of `update`.

    Each interpolant closure of the source is kept as the pair it captures: a vertex
    or normal interpolant as its (source, target) values and the material interpolant
    as its two materials; evaluating one at t is `Lerp3`, `Lerp4` or `MaterialLerp`.
    The model matrix is left out: nothing in this model rotates or scales a morph, so
    it stays the identity, under which `update_vertices_world` copies each vertex and
    `update_normals_world` normalises each normal (the given `normalize4`). */
module MorphModel {
  import opened Common
  import opened Meshes
  import opened Materials
  import opened Lerping
  import HalfEdges
  import Parametrization
  import Overlay
  import Relocation

  /** `a.into_iter().zip(b.into_iter())`: pairs up to the shorter length. */
  function Zip<A, B>(a: seq<A>, b: seq<B>): (r: seq<(A, B)>)
    ensures |r| == if |a| <= |b| then |a| else |b|
    ensures forall i | 0 <= i < |r| :: r[i] == (a[i], b[i])
    decreases |a|
  {
    if |a| == 0 || |b| == 0 then [] else [(a[0], b[0])] + Zip(a[1..], b[1..])
  }

  class Morph {
    var vertices: seq<Vec3>
    var verticesWorld: seq<Vec3>
    var triangles: seq<Triangle>
    var normals: seq<Vec4>
    var normalsWorld: seq<Vec4>
    var material: Material
    var vertexInterpolations: seq<(Vec3, Vec3)>
    var normalsInterpolations: seq<(Vec4, Vec4)>
    var materialInterpolation: (Material, Material)

    /** One interpolant per vertex and per normal, and world copies of the same
        lengths: what lets `update` index every array without panicking. */
    ghost predicate Valid()
      reads this
    {
      && |vertices| == |vertexInterpolations| && |verticesWorld| == |vertices|
      && |normals| == |normalsInterpolations| && |normalsWorld| == |normals|
    }

    /** The struct literal at the end of `Morph::new`: every interpolant evaluated
        at 0, the world copies equal to the evaluated values. */
    constructor (triangles: seq<Triangle>, vertexInterpolations: seq<(Vec3, Vec3)>,
                 normalsInterpolations: seq<(Vec4, Vec4)>, materialInterpolation: (Material, Material))
      ensures Valid()
      ensures this.triangles == triangles && this.vertexInterpolations == vertexInterpolations
      ensures this.normalsInterpolations == normalsInterpolations && this.materialInterpolation == materialInterpolation
      ensures forall i | 0 <= i < |vertices| :: vertices[i] == vertexInterpolations[i].0
      ensures forall i | 0 <= i < |normals| :: normals[i] == normalsInterpolations[i].0
      ensures verticesWorld == vertices && normalsWorld == normals
      ensures material == materialInterpolation.0
    {
      var vs := seq(|vertexInterpolations|, (i: nat) requires i < |vertexInterpolations| =>
        Lerp3(vertexInterpolations[i].0, vertexInterpolations[i].1, 0.0));
      var ns := seq(|normalsInterpolations|, (i: nat) requires i < |normalsInterpolations| =>
        Lerp4(normalsInterpolations[i].0, normalsInterpolations[i].1, 0.0));
      MaterialLerpEnds(materialInterpolation.0, materialInterpolation.1);
      this.vertices := vs;
      this.verticesWorld := vs;
      this.triangles := triangles;
      this.normals := ns;
      this.normalsWorld := ns;
      this.material := MaterialLerp(materialInterpolation.0, materialInterpolation.1, 0.0);
      this.vertexInterpolations := vertexInterpolations;
      this.normalsInterpolations := normalsInterpolations;
      this.materialInterpolation := materialInterpolation;
    }

    /** `update(t)`: every vertex and normal set to its interpolant at t, the world
        copies refreshed, and the material set to the material interpolant at t. The
        triangles, the interpolants and every length stay as they were. */
    method Update(t: real, normalize4: Vec4 -> Vec4)
      requires Valid()
      modifies this
      ensures Valid()
      ensures triangles == old(triangles) && vertexInterpolations == old(vertexInterpolations)
      ensures normalsInterpolations == old(normalsInterpolations) && materialInterpolation == old(materialInterpolation)
      ensures |vertices| == old(|vertices|) && |normals| == old(|normals|)
      ensures forall i | 0 <= i < |vertices| :: vertices[i] == Lerp3(vertexInterpolations[i].0, vertexInterpolations[i].1, t)
      ensures forall i | 0 <= i < |normals| :: normals[i] == Lerp4(normalsInterpolations[i].0, normalsInterpolations[i].1, t)
      ensures verticesWorld == vertices
      ensures forall i | 0 <= i < |normals| :: normalsWorld[i] == normalize4(normals[i])
      ensures material == MaterialLerp(materialInterpolation.0, materialInterpolation.1, t)
    {
      for i := 0 to |vertices|
        modifies this`vertices
        invariant |vertices| == |vertexInterpolations|
        invariant forall j | 0 <= j < i :: vertices[j] == Lerp3(vertexInterpolations[j].0, vertexInterpolations[j].1, t)
      {
        vertices := vertices[i := Lerp3(vertexInterpolations[i].0, vertexInterpolations[i].1, t)];
      }
      for i := 0 to |normals|
        modifies this`normals
        invariant |normals| == |normalsInterpolations|
        invariant forall j | 0 <= j < i :: normals[j] == Lerp4(normalsInterpolations[j].0, normalsInterpolations[j].1, t)
      {
        normals := normals[i := Lerp4(normalsInterpolations[i].0, normalsInterpolations[i].1, t)];
      }
      UpdateVerticesWorld();
      UpdateNormalsWorld(normalize4);
      material := MaterialLerp(materialInterpolation.0, materialInterpolation.1, t);
    }

    /** `update_vertices_world` under the identity model matrix: each world vertex
        set to its vertex. */
    method UpdateVerticesWorld()
      requires |verticesWorld| == |vertices|
      modifies this`verticesWorld
      ensures verticesWorld == vertices
    {
      for i := 0 to |verticesWorld|
        invariant |verticesWorld| == |vertices|
        invariant forall j | 0 <= j < i :: verticesWorld[j] == vertices[j]
      {
        verticesWorld := verticesWorld[i := vertices[i]];
      }
    }

    /** `update_normals_world` under the identity model matrix: each world normal set
        to its normal, normalised. */
    method UpdateNormalsWorld(normalize4: Vec4 -> Vec4)
      requires |normalsWorld| == |normals|
      modifies this`normalsWorld
      ensures |normalsWorld| == |normals|
      ensures forall i | 0 <= i < |normals| :: normalsWorld[i] == normalize4(normals[i])
    {
      for i := 0 to |normalsWorld|
        invariant |normalsWorld| == |normals|
        invariant forall j | 0 <= j < i :: normalsWorld[j] == normalize4(normals[j])
      {
        normalsWorld := normalsWorld[i := normalize4(normals[i])];
      }
    }
  }

  /** The three stages whose failure `Morph::new` passes on. */
  datatype MorphFailure =
    | OverlayFailed(dcelError: HalfEdges.DcelError)
    | TriangulationFailed(triangulationError: Relocation.MorphError)
    | RelocationFailed(relocationError: Relocation.MorphError)

  /** The index bounds every mesh loaded or built here satisfies. */
  predicate MeshIndicesOk(mesh: TriangleMesh) {
    && AllTrianglesIn(mesh.triangles, |mesh.vertices|)
    && AllTrianglesIn(mesh.triangles, |mesh.verticesWorld|)
    && |mesh.verticesWorld| == |mesh.vertices|
  }

  /** Every overlay vertex has an enclosing triangle on both parametrisations, and
      so has every overlay triangle's centroid, with a normal there: what steps 4
      of `Morph::new` need to succeed. */
  ghost predicate Locatable(points: seq<Vec3>, tris: seq<Triangle>, pA: TriangleMesh, actualA: seq<Vec3>,
                            pB: TriangleMesh, actualB: seq<Vec3>, project: (Vec3, Vec3, Vec3, Vec3) -> Option<Vec3>)
    requires AllTrianglesIn(tris, |points|)
    requires AllTrianglesIn(pA.triangles, |pA.verticesWorld|) && AllTrianglesIn(pA.triangles, |actualA|)
    requires AllTrianglesIn(pB.triangles, |pB.verticesWorld|) && AllTrianglesIn(pB.triangles, |actualB|)
  {
    && (forall i | 0 <= i < |points| ::
          && Relocation.Relocated(points[i], pA, actualA, project).Some?
          && Relocation.Relocated(points[i], pB, actualB, project).Some?)
    && (forall k | 0 <= k < |tris| ::
          && Relocation.NormalFor(tris[k], points, pA, project).Some?
          && Relocation.NormalFor(tris[k], points, pB, project).Some?)
  }

  /** The i-th vertex interpolant runs from the i-th overlay vertex relocated on
      mesh A to the same vertex relocated on mesh B, and the k-th normal interpolant
      from the normal found for the k-th triangle on parametrisation A to the one
      found on parametrisation B. */
  ghost predicate Interpolants(vi: seq<(Vec3, Vec3)>, ni: seq<(Vec4, Vec4)>, points: seq<Vec3>, tris: seq<Triangle>,
                               pA: TriangleMesh, actualA: seq<Vec3>, pB: TriangleMesh, actualB: seq<Vec3>,
                               project: (Vec3, Vec3, Vec3, Vec3) -> Option<Vec3>)
    requires AllTrianglesIn(tris, |points|)
    requires AllTrianglesIn(pA.triangles, |pA.verticesWorld|) && AllTrianglesIn(pA.triangles, |actualA|)
    requires AllTrianglesIn(pB.triangles, |pB.verticesWorld|) && AllTrianglesIn(pB.triangles, |actualB|)
    requires Locatable(points, tris, pA, actualA, pB, actualB, project)
  {
    && |vi| == |points| && |ni| == |tris|
    && (forall i | 0 <= i < |points| ::
          vi[i] == (Relocation.Relocated(points[i], pA, actualA, project).value,
                    Relocation.Relocated(points[i], pB, actualB, project).value))
    && (forall k | 0 <= k < |tris| ::
          ni[k] == (Relocation.NormalFor(tris[k], points, pA, project).value,
                    Relocation.NormalFor(tris[k], points, pB, project).value))
  }

  /** Step 4 of `Morph::new`: relocate the overlay's vertices on both originals, find
      each triangle's normal on both parametrisations, and zip each pair of results
      into interpolants; the first failure is returned. */
  method FindInterpolants(points: seq<Vec3>, tris: seq<Triangle>, pA: TriangleMesh, actualA: seq<Vec3>,
                          pB: TriangleMesh, actualB: seq<Vec3>, project: (Vec3, Vec3, Vec3, Vec3) -> Option<Vec3>)
    returns (r: Result<(seq<(Vec3, Vec3)>, seq<(Vec4, Vec4)>), Relocation.MorphError>)
    requires AllTrianglesIn(tris, |points|)
    requires AllTrianglesIn(pA.triangles, |pA.verticesWorld|) && AllTrianglesIn(pA.triangles, |actualA|)
    requires AllTrianglesIn(pB.triangles, |pB.verticesWorld|) && AllTrianglesIn(pB.triangles, |actualB|)
    ensures r.Success? <==> Locatable(points, tris, pA, actualA, pB, actualB, project)
    ensures r.Success? ==> Interpolants(r.value.0, r.value.1, points, tris, pA, actualA, pB, actualB, project)
    ensures r.Failure? ==> r.error == Relocation.NoEnclosingTriangle || r.error == Relocation.MissingNormal
  {
    var srcVertices := Relocation.RelocateVerticesOnMesh(points, pA, actualA, project);
    if srcVertices.Failure? {
      return Failure(srcVertices.error);
    }
    var dstVertices := Relocation.RelocateVerticesOnMesh(points, pB, actualB, project);
    if dstVertices.Failure? {
      return Failure(dstVertices.error);
    }
    var srcNormals := Relocation.FindNormals(points, tris, pA, project);
    if srcNormals.Failure? {
      return Failure(srcNormals.error);
    }
    var dstNormals := Relocation.FindNormals(points, tris, pB, project);
    if dstNormals.Failure? {
      return Failure(dstNormals.error);
    }
    r := Success((Zip(srcVertices.value, dstVertices.value), Zip(srcNormals.value, dstNormals.value)));
  }

  /** Steps 3 to 5 of `Morph::new`, on the overlay DCEL `d` of the parametrised meshes
      `pA` and `pB` whose originals have the world positions `actualA` and `actualB`:
      triangulate the overlay's faces, locate each overlay vertex on both originals
      and each triangle's normal on both parametrisations, and pair them up. */
  method MorphFromOverlay(d: HalfEdges.Dcel, pA: TriangleMesh, actualA: seq<Vec3>, pB: TriangleMesh, actualB: seq<Vec3>,
                          materials: (Material, Material),
                          triangulate: seq<Vec3> -> Option<seq<nat>>, project: (Vec3, Vec3, Vec3, Vec3) -> Option<Vec3>)
    returns (r: Result<Morph, MorphFailure>)
    requires HalfEdges.Walkable(d) && HalfEdges.NextInjective(d.halfEdges)
    requires AllTrianglesIn(pA.triangles, |pA.verticesWorld|) && AllTrianglesIn(pA.triangles, |actualA|)
    requires AllTrianglesIn(pB.triangles, |pB.verticesWorld|) && AllTrianglesIn(pB.triangles, |actualB|)
    ensures var tris := Relocation.Triangulation(d, triangulate);
      && (tris.Failure? ==> r == Failure(TriangulationFailed(tris.error)))
      && (tris.Success? ==> AllTrianglesIn(tris.value, |d.vertices|))
    ensures Relocation.Triangulation(d, triangulate).Success? ==>
      (r.Success? <==> Locatable(d.vertices, Relocation.Triangulation(d, triangulate).value, pA, actualA, pB, actualB, project))
    ensures r.Success? ==>
      && Relocation.Triangulation(d, triangulate).Success?
      && r.value.triangles == Relocation.Triangulation(d, triangulate).value
      && Interpolants(r.value.vertexInterpolations, r.value.normalsInterpolations,
                      d.vertices, r.value.triangles, pA, actualA, pB, actualB, project)
    ensures r.Success? ==> fresh(r.value)
    ensures r.Success? ==> var m := r.value;
      && m.Valid()
      && AllTrianglesIn(m.triangles, |m.vertices|)
      && |m.normals| == |m.triangles|
      && (forall i | 0 <= i < |m.vertices| :: m.vertices[i] == m.vertexInterpolations[i].0)
      && (forall i | 0 <= i < |m.normals| :: m.normals[i] == m.normalsInterpolations[i].0)
      && m.verticesWorld == m.vertices && m.normalsWorld == m.normals
      && m.materialInterpolation == materials && m.material == materials.0
    ensures r.Failure? ==> r.error.TriangulationFailed? || r.error.RelocationFailed?
    ensures r.Failure? && r.error.RelocationFailed? ==>
      r.error.relocationError == Relocation.NoEnclosingTriangle || r.error.relocationError == Relocation.MissingNormal
  {
    var triangulated, _ := Relocation.TriangulateDcel(d, triangulate);
    if triangulated.Failure? {
      return Failure(TriangulationFailed(triangulated.error));
    }
    var triangles := triangulated.value;
    assert AllTrianglesIn(triangles, |d.vertices|);

    var interpolants := FindInterpolants(d.vertices, triangles, pA, actualA, pB, actualB, project);
    if interpolants.Failure? {
      return Failure(RelocationFailed(interpolants.error));
    }

    // The morph at t = 0.
    var (vertexInterpolations, normalsInterpolations) := interpolants.value;
    var m := new Morph(triangles, vertexInterpolations, normalsInterpolations, materials);
    r := Success(m);
  }

  /** `Morph::new(obj_a, obj_b)`: parametrise both meshes onto the sphere, overlay
      them into one DCEL, then build the morph from the overlay as
      `MorphFromOverlay` does; the morph starts at t = 0, that is, on mesh A. The
      ghost outputs are the two parametrised meshes with their round counts, and the
      overlay's result. */
  method NewMorph(objA: TriangleMesh, objB: TriangleMesh,
                  area: (Vec3, Vec3, Vec3) -> real, normalize: Vec3 -> Vec3, relaxed: (set<nat>, seq<Vec3>) -> Vec3,
                  intersect: (Vec3, Vec3, Vec3, Vec3) -> Option<Vec3>, angle: (Vec3, Vec3) -> real,
                  triangulate: seq<Vec3> -> Option<seq<nat>>, project: (Vec3, Vec3, Vec3, Vec3) -> Option<Vec3>)
    returns (r: Result<Morph, MorphFailure>, ghost pA: TriangleMesh, ghost roundsA: nat,
             ghost pB: TriangleMesh, ghost roundsB: nat, ghost overlay: Result<HalfEdges.Dcel, HalfEdges.DcelError>)
    requires MeshIndicesOk(objA) && MeshIndicesOk(objB)
    ensures r.Success? ==> fresh(r.value)
    ensures r.Success? ==> var m := r.value;
      && m.Valid()
      && AllTrianglesIn(m.triangles, |m.vertices|)
      && |m.normals| == |m.triangles|
      && (forall i | 0 <= i < |m.vertices| :: m.vertices[i] == m.vertexInterpolations[i].0)
      && (forall i | 0 <= i < |m.normals| :: m.normals[i] == m.normalsInterpolations[i].0)
      && m.verticesWorld == m.vertices && m.normalsWorld == m.normals
      && m.materialInterpolation == (objA.material, objB.material) && m.material == objA.material
    ensures r.Failure? && r.error.RelocationFailed? ==>
      r.error.relocationError == Relocation.NoEnclosingTriangle || r.error.relocationError == Relocation.MissingNormal
    ensures Parametrization.ParametrizationOf(objA, pA, roundsA, area, normalize, relaxed)
    ensures Parametrization.ParametrizationOf(objB, pB, roundsB, area, normalize, relaxed)
    ensures overlay.Failure? ==> r == Failure(OverlayFailed(overlay.error)) && overlay.error.TooFewOutgoing?
    ensures overlay.Success? ==>
      var base := pA.verticesWorld + pB.verticesWorld;
      && HalfEdges.Valid(overlay.value) && HalfEdges.Walkable(overlay.value)
      && |base| <= |overlay.value.vertices| && overlay.value.vertices[..|base|] == base
    ensures overlay.Success? ==>
      var d, tris := overlay.value, Relocation.Triangulation(overlay.value, triangulate);
      && (tris.Failure? ==> r == Failure(TriangulationFailed(tris.error)))
      && (tris.Success? ==> AllTrianglesIn(tris.value, |d.vertices|))
      && (tris.Success? ==>
            (r.Success? <==> Locatable(d.vertices, tris.value, pA, objA.verticesWorld, pB, objB.verticesWorld, project)))
    ensures r.Success? ==>
      && overlay.Success?
      && var d := overlay.value;
      && Relocation.Triangulation(d, triangulate).Success?
      && r.value.triangles == Relocation.Triangulation(d, triangulate).value
      && Interpolants(r.value.vertexInterpolations, r.value.normalsInterpolations,
                      d.vertices, r.value.triangles, pA, objA.verticesWorld, pB, objB.verticesWorld, project)
  {
    // 1. Parametrisation of both meshes.
    var parametrizedA, parametrizedB;
    parametrizedA, roundsA := Parametrization.ParametrizeMesh(objA, area, normalize, relaxed);
    parametrizedB, roundsB := Parametrization.ParametrizeMesh(objB, area, normalize, relaxed);
    pA, pB := parametrizedA, parametrizedB;

    // 2. The overlay of the two parametrisations.
    var dcel, _, _, _, _, _ := Overlay.CreateDcelMap(parametrizedA, parametrizedB, intersect, angle);
    overlay := dcel;
    if dcel.Failure? {
      r := Failure(OverlayFailed(dcel.error));
      return;
    }
    HalfEdges.ValidWalkable(dcel.value);

    // 3 to 5. Triangulation, relocation, and the interpolants.
    r := MorphFromOverlay(dcel.value, parametrizedA, objA.verticesWorld, parametrizedB, objB.verticesWorld,
                          (objA.material, objB.material), triangulate, project);
  }
}
