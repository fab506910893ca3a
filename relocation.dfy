/** From the overlay back to real meshes (utils/morphing.rs, lines 338-515): the
    triangulation of every DCEL face with its local-to-global index mapping, the
    first-match search for the triangle enclosing a point of the sphere, and the
    relocation of points and lookup of normals through it.

    The geometry of `triangulate_face` (normal search, plane basis, projection and
    the Delaunay call) is the given function `triangulate`, which returns `None`
    where that function's own assertion on the normal fails; the projection of a
    point onto a triangle's plane in `find_enclosing_triangle` is the given
    function `project`, which returns `None` for a triangle facing away. */
module Relocation {
  import opened Common
  import opened Meshes
  import opened HalfEdges
  import opened Barycentric
  import Parametrization

  /** The panics of the triangulation and relocation steps, reported as errors. */
  datatype MorphError =
    | FaceTooSmall(face: nat)        // `assert!(face_vertices.len() >= 3)`
    | DegenerateFace(face: nat)      // `assert!(normal.norm() > 0.)` and the basis assertion
    | BadLocalTriangles(face: nat)   // a short chunk or a local index past the face
    | NoEnclosingTriangle            // "No triangle found. Impossible"
    | MissingNormal                  // `normals()[tri_idx]` out of range

  // ---------------------------------------------------------------------------
  // triangulate_dcel

  /** What `local_triangles.chunks(3).map(...)` needs in order not to panic: whole
      chunks of three, and every local index inside the face. */
  predicate LocalTrianglesOk(vs: seq<nat>, local: seq<nat>) {
    |local| % 3 == 0 && forall j | 0 <= j < |local| :: local[j] < |vs|
  }

  /** `local_triangles.chunks(3).map(...)`: each triple of local indices mapped through
      the face's vertex list. */
  function Chunks(vs: seq<nat>, local: seq<nat>): (r: seq<Triangle>)
    requires LocalTrianglesOk(vs, local)
    ensures |r| * 3 == |local|
    ensures forall k | 0 <= k < |r| ::
      r[k] == Triangle(vs[local[3 * k]], vs[local[3 * k + 1]], vs[local[3 * k + 2]])
    decreases |local|
  {
    if |local| == 0 then []
    else
      var tail := local[3..];
      assert forall j | 0 <= j < |tail| :: tail[j] == local[j + 3];
      var rest := Chunks(vs, tail);
      ChunkShift(local, |rest|);
      [Triangle(vs[local[0]], vs[local[1]], vs[local[2]])] + rest
  }

  lemma ChunkShift(local: seq<nat>, n: nat)
    requires 3 * n + 3 <= |local|
    ensures forall k | 0 <= k < n ::
      local[3..][3 * k] == local[3 * (k + 1)] && local[3..][3 * k + 1] == local[3 * (k + 1) + 1]
      && local[3..][3 * k + 2] == local[3 * (k + 1) + 2]
  {
  }

  /** Vertex v lies on the `next` cycle of face f. */
  ghost predicate FaceVertex(d: Dcel, f: nat, v: nat)
    requires f < |d.faces|
  {
    exists i: nat :: OriginAt(d.halfEdges, d.faces[f].edge, i) == v
  }

  /** The face's vertex list as `get_face_vertices` returns it, together with what the
      triangulation needs of it. */
  lemma FaceVerticesOnFace(d: Dcel, f: nat, vs: seq<nat>)
    requires Walkable(d) && f < |d.faces|
    requires forall i | 0 <= i < |vs| :: vs[i] == OriginAt(d.halfEdges, d.faces[f].edge, i)
    ensures forall i | 0 <= i < |vs| :: vs[i] < |d.vertices| && FaceVertex(d, f, vs[i])
  {
    var hs, start := d.halfEdges, d.faces[f].edge;
    forall i | 0 <= i < |vs| ensures vs[i] < |d.vertices| && FaceVertex(d, f, vs[i]) {
      AdvanceInRange(hs, start, i);
    }
  }

  /** Every triangle of ts has its corners among the vertices and on face f. */
  ghost predicate OnFace(d: Dcel, f: nat, ts: seq<Triangle>)
    requires f < |d.faces|
  {
    forall t | t in ts ::
      TriangleIn(t, |d.vertices|) && FaceVertex(d, f, t.0) && FaceVertex(d, f, t.1) && FaceVertex(d, f, t.2)
  }

  /** Every triangle chunk of a face's triangulation has its corners on that face. */
  lemma GlobalizedOnFace(d: Dcel, f: nat, vs: seq<nat>, local: seq<nat>)
    requires f < |d.faces|
    requires forall i | 0 <= i < |vs| :: vs[i] < |d.vertices| && FaceVertex(d, f, vs[i])
    requires LocalTrianglesOk(vs, local)
    ensures OnFace(d, f, Chunks(vs, local))
  {
    var ts := Chunks(vs, local);
    forall t | t in ts ensures TriangleIn(t, |d.vertices|) && FaceVertex(d, f, t.0) && FaceVertex(d, f, t.1) && FaceVertex(d, f, t.2) {
      var k :| 0 <= k < |ts| && ts[k] == t;
      assert 3 * k + 2 < |local|;
    }
  }

  /** The triangles so far, each labelled with its face: faces in ascending order and
      every corner on its face. */
  ghost predicate Labelled(d: Dcel, ts: seq<Triangle>, owner: seq<nat>, faces: nat)
    requires faces <= |d.faces|
  {
    && |owner| == |ts|
    && (forall k | 0 <= k < |ts| :: owner[k] < faces)
    && (forall k, l | 0 <= k < l < |ts| :: owner[k] <= owner[l])
    && (forall k | 0 <= k < |ts| :: TriangleIn(ts[k], |d.vertices|))
    && (forall k | 0 <= k < |ts| ::
          FaceVertex(d, owner[k], ts[k].0) && FaceVertex(d, owner[k], ts[k].1) && FaceVertex(d, owner[k], ts[k].2))
  }

  /** n copies of face index f: the labels of a face's n triangles. */
  ghost function Copies(f: nat, n: nat): (r: seq<nat>)
    ensures |r| == n && forall k | 0 <= k < n :: r[k] == f
  {
    seq(n, _ => f)
  }

  /** Appending face f's triangles keeps the labelling. */
  lemma LabelledExtend(d: Dcel, ts: seq<Triangle>, owner: seq<nat>, f: nat, more: seq<Triangle>,
                        ts': seq<Triangle>, owner': seq<nat>, faces: nat)
    requires f < |d.faces| && faces == f + 1 && Labelled(d, ts, owner, f)
    requires OnFace(d, f, more)
    requires ts' == ts + more && owner' == owner + Copies(f, |more|)
    ensures Labelled(d, ts', owner', faces)
  {
    forall k | |ts| <= k < |ts'|
      ensures TriangleIn(ts'[k], |d.vertices|) && owner'[k] == f
      ensures FaceVertex(d, owner'[k], ts'[k].0) && FaceVertex(d, owner'[k], ts'[k].1) && FaceVertex(d, owner'[k], ts'[k].2)
    {
      assert ts'[k] == more[k - |ts|] && ts'[k] in more;
    }
    forall k | 0 <= k < |ts| ensures ts'[k] == ts[k] && owner'[k] == owner[k] {
    }
  }

  /** What `triangulate_face` yields for face f: too small below three vertices, the
      error of a failing triangulation, or the local triples mapped through the
      face's vertex list. */
  function FaceTriangulation(d: Dcel, f: nat, triangulate: seq<Vec3> -> Option<seq<nat>>)
    : Result<seq<Triangle>, MorphError>
    requires Walkable(d) && f < |d.faces|
  {
    var vs := FaceVertices(d, f);
    FaceVerticesInRange(d, f);
    if |vs| < 3 then Failure(FaceTooSmall(f))
    else match triangulate(FacePositions(d.vertices, vs))
      case None => Failure(DegenerateFace(f))
      case Some(local) =>
        if LocalTrianglesOk(vs, local) then Success(Chunks(vs, local)) else Failure(BadLocalTriangles(f))
  }

  /** Per-face results folded in face order: the triangle lists concatenated, or the
      error of the first result that is one. */
  function Collect(rs: seq<Result<seq<Triangle>, MorphError>>): Result<seq<Triangle>, MorphError>
  {
    if |rs| == 0 then Success([])
    else
      var prev := Collect(rs[..|rs| - 1]);
      if prev.Failure? then prev
      else if rs[|rs| - 1].Failure? then Failure(rs[|rs| - 1].error)
      else Success(prev.value + rs[|rs| - 1].value)
  }

  /** Once a result has failed, the later ones do not change the outcome. */
  lemma {:induction false} CollectFailureKept(rs: seq<Result<seq<Triangle>, MorphError>>, n: nat, m: nat)
    requires n <= m <= |rs| && Collect(rs[..n]).Failure?
    ensures Collect(rs[..m]) == Collect(rs[..n])
    decreases m
  {
    if m > n {
      CollectFailureKept(rs, n, m - 1);
      assert rs[..m][..m - 1] == rs[..m - 1];
    }
  }

  /** The fold succeeds exactly when every result does. */
  lemma {:induction false} CollectSucceedsIff(rs: seq<Result<seq<Triangle>, MorphError>>)
    ensures Collect(rs).Success? <==> forall f | 0 <= f < |rs| :: rs[f].Success?
    decreases |rs|
  {
    if |rs| > 0 {
      var init := rs[..|rs| - 1];
      CollectSucceedsIff(init);
      assert forall f | 0 <= f < |init| :: init[f] == rs[f];
    }
  }

  /** A failing fold reports the error of the first result that fails. */
  lemma {:induction false} CollectFirstFailure(rs: seq<Result<seq<Triangle>, MorphError>>)
    requires Collect(rs).Failure?
    ensures exists f | 0 <= f < |rs| ::
      rs[f] == Failure(Collect(rs).error) && forall g | 0 <= g < f :: rs[g].Success?
    decreases |rs|
  {
    var init := rs[..|rs| - 1];
    assert forall f | 0 <= f < |init| :: init[f] == rs[f];
    if Collect(init).Failure? {
      CollectFirstFailure(init);
      var f :| 0 <= f < |init| && init[f] == Failure(Collect(init).error) && forall g | 0 <= g < f :: init[g].Success?;
      assert rs[f] == Failure(Collect(rs).error);
    } else {
      CollectSucceedsIff(init);
      assert rs[|rs| - 1] == Failure(Collect(rs).error);
    }
  }

  /** The successful results' triangle lists joined front to back: an independent
      reading of `triangles.extend` over the faces. */
  function ConcatValues(rs: seq<Result<seq<Triangle>, MorphError>>): seq<Triangle>
    decreases |rs|
  {
    if |rs| == 0 then []
    else (if rs[0].Success? then rs[0].value else []) + ConcatValues(rs[1..])
  }

  lemma {:induction false} ConcatValuesAppend(rs: seq<Result<seq<Triangle>, MorphError>>, x: Result<seq<Triangle>, MorphError>)
    ensures ConcatValues(rs + [x]) == ConcatValues(rs) + (if x.Success? then x.value else [])
    decreases |rs|
  {
    if |rs| > 0 {
      assert (rs + [x])[1..] == rs[1..] + [x];
      ConcatValuesAppend(rs[1..], x);
    }
  }

  /** A successful fold is exactly the concatenation of the per-face lists. */
  lemma {:induction false} CollectConcatenates(rs: seq<Result<seq<Triangle>, MorphError>>)
    requires Collect(rs).Success?
    ensures Collect(rs).value == ConcatValues(rs)
    decreases |rs|
  {
    if |rs| > 0 {
      var n := |rs| - 1;
      CollectConcatenates(rs[..n]);
      assert rs[..n] + [rs[n]] == rs;
      ConcatValuesAppend(rs[..n], rs[n]);
    }
  }

  /** One step of `triangulate_dcel`'s loop: result k appended, or its error reported. */
  lemma CollectStep(rs: seq<Result<seq<Triangle>, MorphError>>, k: nat, ts: seq<Triangle>)
    requires k < |rs| && Collect(rs[..k]) == Success(ts)
    ensures rs[k].Success? ==> Collect(rs[..k + 1]) == Success(ts + rs[k].value)
    ensures rs[k].Failure? ==> Collect(rs) == Failure(rs[k].error)
  {
    assert rs[..k + 1][..k] == rs[..k];
    if rs[k].Failure? {
      CollectFailureKept(rs, k + 1, |rs|);
      assert rs[..|rs|] == rs;
    }
  }

  /** Each triangle's face, in the order `Collect` lists them. */
  ghost function Owners(rs: seq<Result<seq<Triangle>, MorphError>>): seq<nat>
    requires Collect(rs).Success?
    decreases |rs|
  {
    if |rs| == 0 then []
    else Owners(rs[..|rs| - 1]) + Copies(|rs| - 1, |rs[|rs| - 1].value|)
  }

  /** When every successful result of face f lies on face f, a successful fold is
      labelled by `Owners`. */
  lemma {:induction false} CollectLabelled(d: Dcel, rs: seq<Result<seq<Triangle>, MorphError>>)
    requires |rs| <= |d.faces| && Collect(rs).Success?
    requires forall f | 0 <= f < |rs| :: rs[f].Success? ==> OnFace(d, f, rs[f].value)
    ensures Labelled(d, Collect(rs).value, Owners(rs), |rs|)
    decreases |rs|
  {
    if |rs| > 0 {
      var n := |rs| - 1;
      var init := rs[..n];
      assert forall f | 0 <= f < |init| :: init[f] == rs[f];
      CollectLabelled(d, init);
      LabelledExtend(d, Collect(init).value, Owners(init), n, rs[n].value, Collect(rs).value, Owners(rs), |rs|);
    }
  }

  /** A face's triangles have their corners on that face. */
  lemma FaceTriangulationOnFace(d: Dcel, f: nat, triangulate: seq<Vec3> -> Option<seq<nat>>)
    requires Walkable(d) && f < |d.faces|
    ensures FaceTriangulation(d, f, triangulate).Success? ==>
      OnFace(d, f, FaceTriangulation(d, f, triangulate).value)
  {
    var vs := FaceVertices(d, f);
    FaceVerticesAreOrigins(d, f);
    FaceVerticesOnFace(d, f, vs);
    if FaceTriangulation(d, f, triangulate).Success? {
      var local := triangulate(FacePositions(d.vertices, vs)).value;
      GlobalizedOnFace(d, f, vs, local);
    }
  }

  /** What `triangulate_face` yields for each face, in face order. */
  function FaceResults(d: Dcel, triangulate: seq<Vec3> -> Option<seq<nat>>): (r: seq<Result<seq<Triangle>, MorphError>>)
    requires Walkable(d)
    ensures |r| == |d.faces| && forall f | 0 <= f < |r| :: r[f] == FaceTriangulation(d, f, triangulate)
  {
    seq(|d.faces|, (f: nat) requires f < |d.faces| => FaceTriangulation(d, f, triangulate))
  }

  /** What `triangulate_dcel` yields: the faces' triangles in face order, or the error
      of the first face that fails. */
  function Triangulation(d: Dcel, triangulate: seq<Vec3> -> Option<seq<nat>>): Result<seq<Triangle>, MorphError>
    requires Walkable(d)
  {
    Collect(FaceResults(d, triangulate))
  }

  /** The triangulation succeeds exactly when every face's does. */
  lemma TriangulationSucceedsIff(d: Dcel, triangulate: seq<Vec3> -> Option<seq<nat>>)
    requires Walkable(d)
    ensures Triangulation(d, triangulate).Success? <==>
      forall f | 0 <= f < |d.faces| :: FaceTriangulation(d, f, triangulate).Success?
  {
    CollectSucceedsIff(FaceResults(d, triangulate));
  }

  /** A successful triangulation is the faces' triangle lists concatenated in face order. */
  lemma TriangulationConcatenates(d: Dcel, triangulate: seq<Vec3> -> Option<seq<nat>>)
    requires Walkable(d) && Triangulation(d, triangulate).Success?
    ensures Triangulation(d, triangulate).value == ConcatValues(FaceResults(d, triangulate))
  {
    CollectConcatenates(FaceResults(d, triangulate));
  }

  /** A failing triangulation reports the error of the first face that fails. */
  lemma TriangulationFirstFailure(d: Dcel, triangulate: seq<Vec3> -> Option<seq<nat>>)
    requires Walkable(d) && Triangulation(d, triangulate).Failure?
    ensures exists f | 0 <= f < |d.faces| ::
      && FaceTriangulation(d, f, triangulate) == Failure(Triangulation(d, triangulate).error)
      && forall g | 0 <= g < f :: FaceTriangulation(d, g, triangulate).Success?
  {
    CollectFirstFailure(FaceResults(d, triangulate));
  }

  /** A successful triangulation is labelled by each triangle's face. */
  lemma TriangulationLabelled(d: Dcel, triangulate: seq<Vec3> -> Option<seq<nat>>)
    requires Walkable(d) && Triangulation(d, triangulate).Success?
    ensures Labelled(d, Triangulation(d, triangulate).value, Owners(FaceResults(d, triangulate)), |d.faces|)
  {
    var rs := FaceResults(d, triangulate);
    forall f | 0 <= f < |rs| ensures rs[f].Success? ==> OnFace(d, f, rs[f].value) {
      FaceTriangulationOnFace(d, f, triangulate);
    }
    CollectLabelled(d, rs);
  }

  /** `triangulate_dcel(dcel)`: every face's vertex list, triangulated and mapped back
      to global indices, concatenated in face order. The ghost `owner` names each
      triangle's face. */
  method TriangulateDcel(d: Dcel, triangulate: seq<Vec3> -> Option<seq<nat>>)
    returns (r: Result<seq<Triangle>, MorphError>, ghost owner: seq<nat>)
    requires Walkable(d) && NextInjective(d.halfEdges)
    ensures r == Triangulation(d, triangulate)
    ensures r.Success? <==> forall f | 0 <= f < |d.faces| :: FaceTriangulation(d, f, triangulate).Success?
    ensures r.Success? ==> r.value == ConcatValues(FaceResults(d, triangulate))
    ensures r.Failure? ==> exists f | 0 <= f < |d.faces| ::
      && FaceTriangulation(d, f, triangulate) == Failure(r.error)
      && forall g | 0 <= g < f :: FaceTriangulation(d, g, triangulate).Success?
    ensures r.Success? ==> Labelled(d, r.value, owner, |d.faces|)
    ensures r.Failure? ==> r.error.FaceTooSmall? || r.error.DegenerateFace? || r.error.BadLocalTriangles?
    ensures r.Failure? && r.error.FaceTooSmall? ==>
      var f := r.error.face;
      f < |d.faces| && exists k: nat | 0 < k < 3 :: Advance(d.halfEdges, d.faces[f].edge, k) == d.faces[f].edge
  {
    ghost var rs := FaceResults(d, triangulate);
    var triangles := [];
    owner := [];
    for f := 0 to |d.faces|
      invariant Collect(rs[..f]) == Success(triangles)
    {
      var faceTriangles := TriangulateFace(d, f, triangulate);
      CollectStep(rs, f, triangles);
      if faceTriangles.Failure? {
        r := Failure(faceTriangles.error);
        TriangulationFirstFailure(d, triangulate);
        TriangulationSucceedsIff(d, triangulate);
        return;
      }
      triangles := triangles + faceTriangles.value;
    }
    assert rs[..|d.faces|] == rs;
    r := Success(triangles);
    TriangulationLabelled(d, triangulate);
    TriangulationConcatenates(d, triangulate);
    TriangulationSucceedsIff(d, triangulate);
    owner := Owners(rs);
  }

  /** The positions of the face's vertices, in face order. */
  function FacePositions(vertices: seq<Vec3>, vs: seq<nat>): (r: seq<Vec3>)
    requires forall i | 0 <= i < |vs| :: vs[i] < |vertices|
    ensures |r| == |vs| && forall i | 0 <= i < |vs| :: r[i] == vertices[vs[i]]
  {
    seq(|vs|, i requires 0 <= i < |vs| => vertices[vs[i]])
  }

  /** `triangulate_face(dcel, face_idx)`: the face's vertex list, checked to have at
      least three vertices, triangulated, and mapped back to global indices. */
  method TriangulateFace(d: Dcel, f: nat, triangulate: seq<Vec3> -> Option<seq<nat>>)
    returns (r: Result<seq<Triangle>, MorphError>)
    requires Walkable(d) && NextInjective(d.halfEdges) && f < |d.faces|
    ensures r == FaceTriangulation(d, f, triangulate)
    ensures r.Success? ==> OnFace(d, f, r.value)
    ensures r.Failure? ==> r.error == FaceTooSmall(f) || r.error == DegenerateFace(f) || r.error == BadLocalTriangles(f)
    ensures r.Failure? && r.error.FaceTooSmall? ==>
      exists k: nat | 0 < k < 3 :: Advance(d.halfEdges, d.faces[f].edge, k) == d.faces[f].edge
  {
    assert d.faces[f].edge < |d.halfEdges|;
    var vertexIndices := GetFaceVertices(d, f);
    FaceVerticesOnFace(d, f, vertexIndices);
    if |vertexIndices| < 3 {
      ghost var k: nat := |vertexIndices|;
      assert 0 < k < 3 && Advance(d.halfEdges, d.faces[f].edge, k) == d.faces[f].edge;
      return Failure(FaceTooSmall(f));
    }
    var faceVertices := FacePositions(d.vertices, vertexIndices);
    var local := triangulate(faceVertices);
    if local.None? {
      return Failure(DegenerateFace(f));
    }
    if !LocalTrianglesOk(vertexIndices, local.value) {
      return Failure(BadLocalTriangles(f));
    }
    GlobalizedOnFace(d, f, vertexIndices, local.value);
    r := Success(Chunks(vertexIndices, local.value));
  }

  // ---------------------------------------------------------------------------
  // find_enclosing_triangle

  /** The acceptance threshold of the barycentric test. */
  const BaryTolerance: real := 0.000000000001

  /** The barycentric coordinates of p in triangle (v0, v1, v2) when the triangle
      faces p and every coordinate of the projected point exceeds -1e-12. */
  function Locate(p: Vec3, v0: Vec3, v1: Vec3, v2: Vec3, project: (Vec3, Vec3, Vec3, Vec3) -> Option<Vec3>): (r: Option<Vec3>)
    ensures r.Some? ==> r.value.x > -BaryTolerance && r.value.y > -BaryTolerance && r.value.z > -BaryTolerance
    ensures r.Some? ==> r.value.x + r.value.y + r.value.z == 1.0
  {
    var q := project(p, v0, v1, v2);
    if q.None? then None
    else
      var b := Barycentric.Barycentric(q.value, v0, v1, v2);
      if b.Some? && b.value.x > -BaryTolerance && b.value.y > -BaryTolerance && b.value.z > -BaryTolerance then b
      else None
  }

  /** Triangle i of the mesh, located against p. */
  function LocateIn(p: Vec3, mesh: TriangleMesh, project: (Vec3, Vec3, Vec3, Vec3) -> Option<Vec3>, i: nat): Option<Vec3>
    requires i < |mesh.triangles| && AllTrianglesIn(mesh.triangles, |mesh.verticesWorld|)
  {
    var t := mesh.triangles[i];
    Locate(p, mesh.verticesWorld[t.0], mesh.verticesWorld[t.1], mesh.verticesWorld[t.2], project)
  }

  /** The first triangle from index `from` on that accepts p, with p's coordinates. */
  function Enclosing(p: Vec3, mesh: TriangleMesh, project: (Vec3, Vec3, Vec3, Vec3) -> Option<Vec3>, from: nat): Option<(nat, Vec3)>
    requires AllTrianglesIn(mesh.triangles, |mesh.verticesWorld|)
    decreases |mesh.triangles| - from
  {
    if from >= |mesh.triangles| then None
    else
      var b := LocateIn(p, mesh, project, from);
      if b.Some? then Some((from, b.value)) else Enclosing(p, mesh, project, from + 1)
  }

  /** `Enclosing` is a first-match search: it names an accepting triangle with no
      accepting triangle before it, and it finds nothing exactly when no triangle
      accepts. */
  lemma {:induction false} EnclosingIsFirstMatch(p: Vec3, mesh: TriangleMesh,
                                                 project: (Vec3, Vec3, Vec3, Vec3) -> Option<Vec3>, from: nat)
    requires AllTrianglesIn(mesh.triangles, |mesh.verticesWorld|)
    ensures var r := Enclosing(p, mesh, project, from);
      && (r.None? <==> forall j | from <= j < |mesh.triangles| :: LocateIn(p, mesh, project, j).None?)
      && (r.Some? ==>
            && from <= r.value.0 < |mesh.triangles|
            && LocateIn(p, mesh, project, r.value.0) == Some(r.value.1)
            && forall j | from <= j < r.value.0 :: LocateIn(p, mesh, project, j).None?)
    decreases |mesh.triangles| - from
  {
    if from < |mesh.triangles| && LocateIn(p, mesh, project, from).None? {
      EnclosingIsFirstMatch(p, mesh, project, from + 1);
    }
  }

  /** `find_enclosing_triangle(p, mesh)`: the triangles in order until one accepts. */
  method FindEnclosingTriangle(p: Vec3, mesh: TriangleMesh, project: (Vec3, Vec3, Vec3, Vec3) -> Option<Vec3>)
    returns (r: Result<(nat, Vec3), MorphError>)
    requires AllTrianglesIn(mesh.triangles, |mesh.verticesWorld|)
    ensures r.Success? <==> Enclosing(p, mesh, project, 0).Some?
    ensures r.Success? ==> r.value == Enclosing(p, mesh, project, 0).value
    ensures r.Failure? ==> r.error == NoEnclosingTriangle
  {
    var vs := mesh.verticesWorld;
    for i := 0 to |mesh.triangles|
      invariant Enclosing(p, mesh, project, 0) == Enclosing(p, mesh, project, i)
    {
      var tri := mesh.triangles[i];
      var bary := Locate(p, vs[tri.0], vs[tri.1], vs[tri.2], project);
      if bary.Some? {
        return Success((i, bary.value));
      }
    }
    r := Failure(NoEnclosingTriangle);
  }

  // ---------------------------------------------------------------------------
  // relocate_vertices_on_mesh and find_normals

  /** The real position of p: its coordinates in the enclosing triangle applied to the
      same triangle's corners in the real vertex list. */
  function Relocated(p: Vec3, mesh: TriangleMesh, actual: seq<Vec3>, project: (Vec3, Vec3, Vec3, Vec3) -> Option<Vec3>): Option<Vec3>
    requires AllTrianglesIn(mesh.triangles, |mesh.verticesWorld|) && AllTrianglesIn(mesh.triangles, |actual|)
  {
    var e := Enclosing(p, mesh, project, 0);
    if e.None? then None
    else
      EnclosingIsFirstMatch(p, mesh, project, 0);
      var t := mesh.triangles[e.value.0];
      Some(Combine(e.value.1, actual[t.0], actual[t.1], actual[t.2]))
  }

  /** `relocate_vertices_on_mesh(parametrized_vertices, parametrized_mesh, real_vertices)`:
      one relocated point per parametrised vertex, in order. */
  method RelocateVerticesOnMesh(points: seq<Vec3>, mesh: TriangleMesh, actual: seq<Vec3>,
                                project: (Vec3, Vec3, Vec3, Vec3) -> Option<Vec3>)
    returns (r: Result<seq<Vec3>, MorphError>)
    requires AllTrianglesIn(mesh.triangles, |mesh.verticesWorld|) && AllTrianglesIn(mesh.triangles, |actual|)
    ensures r.Success? <==> forall k | 0 <= k < |points| :: Relocated(points[k], mesh, actual, project).Some?
    ensures r.Success? ==> |r.value| == |points|
    ensures r.Success? ==> forall k | 0 <= k < |points| :: Some(r.value[k]) == Relocated(points[k], mesh, actual, project)
    ensures r.Failure? ==> r.error == NoEnclosingTriangle
  {
    var relocated := [];
    for k := 0 to |points|
      invariant |relocated| == k
      invariant forall j | 0 <= j < k :: Some(relocated[j]) == Relocated(points[j], mesh, actual, project)
    {
      var found := FindEnclosingTriangle(points[k], mesh, project);
      if found.Failure? {
        return Failure(found.error);
      }
      EnclosingIsFirstMatch(points[k], mesh, project, 0);
      var (triIdx, bary) := found.value;
      var tri := mesh.triangles[triIdx];
      relocated := relocated + [Combine(bary, actual[tri.0], actual[tri.1], actual[tri.2])];
    }
    r := Success(relocated);
  }

  /** The normal `find_normals` copies for triangle t: that of the parametrised
      triangle enclosing t's centroid, if there is one and it has a normal. */
  function NormalFor(t: Triangle, points: seq<Vec3>, mesh: TriangleMesh,
                     project: (Vec3, Vec3, Vec3, Vec3) -> Option<Vec3>): Option<Vec4>
    requires TriangleIn(t, |points|) && AllTrianglesIn(mesh.triangles, |mesh.verticesWorld|)
  {
    var e := Enclosing(Parametrization.Centroid(points[t.0], points[t.1], points[t.2]), mesh, project, 0);
    if e.None? || e.value.0 >= |mesh.normalsWorld| then None else Some(mesh.normalsWorld[e.value.0])
  }

  /** `find_normals(parametrized_vertices, triangles, parametrized_mesh)`: one copied
      normal per triangle, in order. */
  method FindNormals(points: seq<Vec3>, triangles: seq<Triangle>, mesh: TriangleMesh,
                     project: (Vec3, Vec3, Vec3, Vec3) -> Option<Vec3>)
    returns (r: Result<seq<Vec4>, MorphError>)
    requires AllTrianglesIn(triangles, |points|) && AllTrianglesIn(mesh.triangles, |mesh.verticesWorld|)
    ensures r.Success? <==> forall k | 0 <= k < |triangles| :: NormalFor(triangles[k], points, mesh, project).Some?
    ensures r.Success? ==> |r.value| == |triangles|
    ensures r.Success? ==> forall k | 0 <= k < |triangles| :: Some(r.value[k]) == NormalFor(triangles[k], points, mesh, project)
    ensures r.Failure? ==> r.error == NoEnclosingTriangle || r.error == MissingNormal
  {
    var normals := [];
    for k := 0 to |triangles|
      invariant |normals| == k
      invariant forall j | 0 <= j < k :: Some(normals[j]) == NormalFor(triangles[j], points, mesh, project)
    {
      var tri := triangles[k];
      var center := Parametrization.Centroid(points[tri.0], points[tri.1], points[tri.2]);
      var found := FindEnclosingTriangle(center, mesh, project);
      if found.Failure? {
        return Failure(found.error);
      }
      var triIdx := found.value.0;
      if triIdx >= |mesh.normalsWorld| {
        return Failure(MissingNormal);
      }
      normals := normals + [mesh.normalsWorld[triIdx]];
    }
    r := Success(normals);
  }
}
