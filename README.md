# Mesh morphing core, modelled in Dafny

This project models the geometry pipeline of a mesh-morphing program. The program
turns one closed triangle mesh into another in four stages:

1. It maps each mesh onto the unit sphere: it centres the mesh on its centre of
   mass, projects it radially, and relaxes it until no triangle is flipped.
2. It overlays the two spherical meshes. Their edges are cut at every crossing, and
   the pieces are assembled into a half-edge structure (a DCEL: every edge is stored
   as two opposite half-edges, each knowing its twin, its successor around its face,
   and its face).
3. It triangulates the overlay's faces.
4. It locates every overlay vertex and every overlay triangle's normal on both
   originals. It then interpolates positions, normals and material between the two
   as the morph parameter t moves from 0 to 1.

The project also covers the parts of the program these stages rely on:

- the Wavefront OBJ loader that builds a mesh;
- the conversion of a DCEL into a mesh;
- linear interpolation of scalars, vectors and materials;
- the barycentric-coordinate formula;
- the depth buffer of the z-buffer renderer.

Positions and vectors are exact reals. Every piece of floating-point geometry that
needs square roots, normalisation, `atan2` or a foreign library is a function passed
in as a parameter (see "Left out"). The model keeps the bookkeeping the program
builds around those functions:

- indices, twins and successor links;
- face walks and segment splitting;
- first-match searches and error paths;
- in-place updates.

Module layout, one module per file:

| file | module | models |
|---|---|---|
| common.dfy | `Common` | `Option`, `Result`, points, vectors, index triangles and segments |
| math.dfy | `Lerping` | `lerp` (utils/math.rs) |
| triangles.dfy | `Barycentric` | `barycentric` (utils/triangles.rs) |
| model3d.dfy | `Materials` | `Material`, its default, `Material::lerp` (objects/model3d.rs) |
| mesh.dfy | `Meshes` | the `TriangleMesh` record (objects/triangle_mesh.rs) |
| sorting.dfy | `Sorting` | the slice sorts by a real key |
| dcel.dfy | `HalfEdges` | `DCEL::new`, `get_face_vertices` (utils/dcel.rs) |
| parametrization.dfy | `Parametrization` | centre of mass, neighbours, orientations, relaxation, `parametrize_mesh` |
| overlay.dfy | `Overlay` | mesh segments, `find_or_add_vertex`, `create_dcel_map` |
| relocation.dfy | `Relocation` | `triangulate_dcel`, `find_enclosing_triangle`, `relocate_vertices_on_mesh`, `find_normals` |
| objloading.dfy | `ObjLoading` | `parse_and_validate_face_part`, `from_obj`, `centerify`, `From<DCEL>` |
| morph.dfy | `MorphModel` | `Morph::new`, `Morph::update` (objects/morph.rs) |
| zbuffer.dfy | `ZBuffer` | `ZBufferPerformer` (render/z_buffer.rs) |

The program's own sources disagree on two points, and the model follows `dcel.rs`
and `morph.rs` on both:

- `DCEL::new` returns a `Result`. `Morph::new` applies `?` to the result of
  `create_dcel_map` and `map_err` to the result of `triangulate_dcel`. However,
  `utils/morphing.rs` declares these two functions as returning a bare
  `DCEL` and a bare list of triangles. In the model, `create_dcel_map` passes on
  the error of `DCEL::new`, and `triangulate_dcel` reports the failures of
  `triangulate_face` as errors.
- The generic `lerp` of `utils/math.rs` takes an `f32` parameter, while
  `Material::lerp` and the morph call it with `f64` values. Every interpolation is
  modelled over the reals.

## Model

| member | source | states |
|---|---|---|
| Lerping.Lerp | code/src/utils/math.rs:3-8 | Interpolation returns a at t = 0 and b at t = 1, returns a for every t when a = b, and equals a + t·(b − a). |
| Lerping.LerpBetween | code/src/utils/math.rs:3-8 | For 0 ≤ t ≤ 1 the interpolated scalar lies between min(a, b) and max(a, b). |
| Lerping.Lerp3 | code/src/utils/math.rs:3-8 | Point interpolation returns a at t = 0 and b at t = 1, and returns a for every t when a = b. |
| Lerping.Lerp4 | code/src/utils/math.rs:3-8 | Normal interpolation returns a at t = 0 and b at t = 1, and returns a for every t when a = b. |
| Barycentric.Barycentric | code/src/utils/triangles.rs:3-15 | There is a result exactly when the denominator is nonzero, and the three coordinates sum to 1. |
| Barycentric.BarycentricReconstructs | code/src/utils/triangles.rs:9-14 | With a nonzero denominator, u·a + v·b + w·c reproduces p in x and y. |
| Barycentric.BarycentricAtCorners | code/src/utils/triangles.rs:9-14 | Corners a, b and c get the coordinates (1,0,0), (0,1,0) and (0,0,1). |
| Barycentric.BarycentricAtA | code/src/utils/triangles.rs:9-14 | Corner a gets (1,0,0). |
| Barycentric.BarycentricAtB | code/src/utils/triangles.rs:9-14 | Corner b gets (0,1,0). |
| Barycentric.BarycentricAtC | code/src/utils/triangles.rs:9-14 | Corner c gets (0,0,1). |
| Barycentric.BarycentricIgnoresZ | code/src/utils/triangles.rs:9-11 | Points that agree in x and y give the same result, whatever their z. |
| Materials.DefaultMaterialFields | code/src/objects/model3d.rs:60-70 | The default material has diffuse 0.45, specular 0.02, gloss 1, colour (208, 43, 43) and opacity 0.1. |
| Materials.Round | code/src/objects/model3d.rs:87-89 | Rounding stays within 1/2 of its argument. |
| Materials.SaturateU8 | code/src/objects/model3d.rs:87-89 | The `as u8` cast keeps every value in 0..255 unchanged. |
| Materials.RoundWithin | code/src/objects/model3d.rs:87-89 | Rounding never leaves an interval with integer ends. |
| Materials.LerpChannelBetween | code/src/objects/model3d.rs:87-89 | For 0 ≤ t ≤ 1 an interpolated colour channel lies between the two input channels. |
| Materials.MaterialLerpEnds | code/src/objects/model3d.rs:73-99 | The interpolated material is a at t = 0 and b at t = 1, colour included. |
| Materials.MaterialLerpSelf | code/src/objects/model3d.rs:73-99 | Interpolating a material with itself returns it unchanged, for every t. |
| Materials.MaterialLerpColorBetween | code/src/objects/model3d.rs:87-90 | For 0 ≤ t ≤ 1 each colour channel of the result lies between the inputs' channels. |
| Sorting.SortByKey | code/src/utils/dcel.rs:163-175 | The sorted list is a permutation of the input, ordered by the key. |
| HalfEdges.InitialHalfEdges | code/src/utils/dcel.rs:36-51 | Step 1 makes two half-edges per segment: index 2k starts at seg[0] and 2k+1 at seg[1], each the other's twin, with no successor and no face. |
| HalfEdges.InitialPair | code/src/utils/dcel.rs:41-51 | The two half-edges of segment k are exactly (seg[0], twin 2k+1) and (seg[1], twin 2k). |
| HalfEdges.InitialTwinsPaired | code/src/utils/dcel.rs:41-48 | `twin` is an involution without fixed points: twin(twin(e)) = e and twin(e) ≠ e. |
| HalfEdges.InitialOrigins | code/src/utils/dcel.rs:44-47 | When every segment joins two of the vertices, every half-edge starts at one of them. |
| HalfEdges.InitialUnlinked | code/src/utils/dcel.rs:38-39 | Step 1 sets no successor and no face. |
| HalfEdges.OutgoingMembers | code/src/utils/dcel.rs:53-54 | A vertex's outgoing list holds exactly the half-edges starting there, in increasing index order. |
| HalfEdges.OutgoingDistinct | code/src/utils/dcel.rs:53-54 | No outgoing list repeats a half-edge. |
| HalfEdges.PushKeepsGrouping | code/src/utils/dcel.rs:53-54 | Recording a new half-edge under its origin keeps `edge_map` grouping every half-edge under its origin. |
| HalfEdges.CreateHalfEdges | code/src/utils/dcel.rs:31-55 | The step-1 loop produces the initial half-edges, and `edge_map` groups them by origin. |
| HalfEdges.EdgeMapDegrees | code/src/utils/dcel.rs:36-55 | The keys of `edge_map` are exactly the vertices that appear in some segment, and each key lists as many half-edges as the vertex has outgoing half-edges (a self-loop segment counting twice). |
| HalfEdges.EdgeMapInRange | code/src/utils/dcel.rs:53-54 | Every key of `edge_map` is the origin of some half-edge, hence a valid vertex. |
| HalfEdges.ShortListIsLowDegree | code/src/utils/dcel.rs:59-66 | A key whose list has fewer than two entries is exactly a vertex in range with one outgoing half-edge. |
| HalfEdges.SortEdgeMap | code/src/utils/dcel.rs:59-70 | Step 2 fails exactly when some outgoing list has fewer than two entries, naming the first such vertex in ascending order and its count. Otherwise every list is replaced by a permutation of itself sorted by angle, with the keys unchanged. |
| HalfEdges.SortedOutgoing | code/src/utils/dcel.rs:139-176 | Each sorted list is non-empty, free of repeats, and holds exactly the half-edges leaving its vertex. |
| HalfEdges.RotationIsRotationSystem | code/src/utils/dcel.rs:57-70 | The sorted lists form a rotation system: one list per vertex with outgoing half-edges, each listing exactly those half-edges once. |
| HalfEdges.RotationLists | code/src/utils/dcel.rs:57-70 | At every vertex the sorted list is non-empty, repeats nothing, and holds each half-edge leaving that vertex. |
| HalfEdges.SortedIsRotation | code/src/utils/dcel.rs:57-70 | The map step 2 produces is the angular rotation system of the half-edges. |
| HalfEdges.CyclicPrev | code/src/utils/dcel.rs:79 | `(i + n - 1) % n` is the position before i in a cyclic list of n, wrapping to n − 1 at 0. |
| HalfEdges.TargetOfPreviousTwin | code/src/utils/dcel.rs:77-83 | At a vertex, the successor given to the twin of the previous outgoing half-edge is the current one. |
| HalfEdges.LinkOne | code/src/utils/dcel.rs:77-83 | One inner iteration links the previous half-edge's twin to its proper successor and keeps every earlier link. |
| HalfEdges.LinkAt | code/src/utils/dcel.rs:78-82 | The inner loop body extends the linked prefix of the vertex's list by one. |
| HalfEdges.SetNextKeepsPartlyLinked | code/src/utils/dcel.rs:82 | Setting one successor to its proper target keeps the arena a valid partial linking. |
| HalfEdges.LinkVertex | code/src/utils/dcel.rs:76-83 | The inner loop for vertex v links the twin of every half-edge leaving v, keeps earlier links, and changes no other field. |
| HalfEdges.LinkNext | code/src/utils/dcel.rs:74-84 | Step 3 sets every half-edge's successor to the half-edge after its twin in the rotation at the vertex where it ends, and changes nothing else. |
| HalfEdges.TargetContinues | code/src/utils/dcel.rs:74-84 | The successor of e starts where e ends, at the origin of twin(e). |
| HalfEdges.TargetInjective | code/src/utils/dcel.rs:74-84 | No two half-edges get the same successor. |
| HalfEdges.TargetSurjective | code/src/utils/dcel.rs:74-84 | Every half-edge is the successor of some half-edge. |
| HalfEdges.LinksBijective | code/src/utils/dcel.rs:74-84 | After linking, every half-edge has a successor, and `next` is an injective map from the half-edges to themselves. |
| HalfEdges.WalkBound | code/src/utils/dcel.rs:95-107 | A walk along `next` that has not returned to its start has taken fewer steps than there are half-edges, so every face walk closes. |
| HalfEdges.MarkFace | code/src/utils/dcel.rs:95-107 | The face walk always succeeds, so the "HalfEdge loop is broken" error cannot occur. It marks exactly the `next` cycle of the starting half-edge with the new face and keeps faces closed under `next`. |
| HalfEdges.WalkCloses | code/src/utils/dcel.rs:95-107 | Once the walk is back at its start, `next` neither leaves nor enters a marked face. |
| HalfEdges.DiscoverStep | code/src/utils/dcel.rs:88-108 | Marking the face found at an unassigned half-edge keeps the state of step 4: assigned half-edges lie on their face's cycle, and representatives are increasing. |
| HalfEdges.DiscoverAt | code/src/utils/dcel.rs:88-108 | One iteration of step 4 keeps the face-discovery state, whether it skips the half-edge or starts a new face. |
| HalfEdges.DiscoveredComplete | code/src/utils/dcel.rs:86-109 | After the last half-edge, the faces cover all half-edges. Each face is one `next` cycle with its representative on it, faces are numbered by their least half-edge, and only face fields changed. |
| HalfEdges.DiscoverFaces | code/src/utils/dcel.rs:86-109 | Step 4 always succeeds. It gives every half-edge exactly one face, one face per `next` cycle in order of the cycle's least half-edge, and changes no other field. |
| HalfEdges.AssembledValid | code/src/utils/dcel.rs:111-117 | The arena after steps 1 to 4 satisfies every DCEL property: twin involution, `next` a bijection that continues at the twin's origin, and faces that are `next` cycles. |
| HalfEdges.InitialLinkable | code/src/utils/dcel.rs:31-84 | The initial half-edges and their rotation system meet what steps 3 and 4 need, and the successor step 3 gives each half-edge is the one after its twin. |
| HalfEdges.LinkAndDiscover | code/src/utils/dcel.rs:72-117 | Steps 3 and 4 produce a valid DCEL with the vertices, origins and twins unchanged and each successor the rotation target. |
| HalfEdges.LinkRotation | code/src/utils/dcel.rs:72-117 | Linking the initial half-edges of the segments gives a valid DCEL in which each half-edge's successor is the one after its twin in angular order. |
| HalfEdges.New | code/src/utils/dcel.rs:27-118 | `new` fails exactly when some vertex has at least one but fewer than two outgoing half-edges (a self-loop segment gives its vertex two), reporting the least such vertex and its count; vertices with none are never checked. On success it returns a valid DCEL over the same vertices, with half-edges 2k and 2k+1 for segment k and each successor the half-edge after its twin. |
| HalfEdges.GetFaceVertices | code/src/utils/dcel.rs:120-137 | The result is the face walk `FaceVertices`: one origin per half-edge on the face's `next` cycle, starting at the representative's origin, and it stops exactly when the walk returns to the representative. |
| HalfEdges.WalkFromOrigins | code/src/utils/dcel.rs:125-134 | The i-th vertex the walk records from step k on is the origin of the half-edge k + i steps along `next`. |
| HalfEdges.FaceVerticesAreOrigins | code/src/utils/dcel.rs:120-137 | The i-th vertex of a face is the origin of the half-edge i steps from its representative. |
| HalfEdges.WalkFromInRange | code/src/utils/dcel.rs:125-134 | When every origin is a vertex index, so is every vertex the walk records. |
| HalfEdges.FaceVerticesInRange | code/src/utils/dcel.rs:120-137 | Every vertex of a face walk indexes the vertex list. |
| Parametrization.CenterOfMass | code/src/utils/morphing.rs:22-45 | The loop computes the area-weighted average of the triangle centroids, or the origin when the total area is not positive. |
| Parametrization.CenterOfCommonCentroid | code/src/utils/morphing.rs:22-45 | When all triangles share one centroid and the total area is positive, the centre of mass is that centroid, whatever the areas. |
| Parametrization.CenterFallback | code/src/utils/morphing.rs:40-44 | With no triangle of positive area, the centre of mass is the origin. |
| Parametrization.CollectNeighbors | code/src/utils/morphing.rs:47-57 | The table has one set per vertex, and j is in the set of i exactly when some triangle has both as corners at different positions. |
| Parametrization.NeighborsSymmetric | code/src/utils/morphing.rs:47-57 | Adjacency is symmetric: j is a neighbour of i exactly when i is a neighbour of j. |
| Parametrization.NeighborsAreNeighborhoods | code/src/utils/morphing.rs:47-57 | The table equals the neighbourhood function of the triangle list. |
| Parametrization.Orientation | code/src/utils/morphing.rs:63-67 | A triangle's sign seen from the origin is +1 or −1. |
| Parametrization.OrientationsShape | code/src/utils/morphing.rs:59-70 | `get_orientations` gives exactly one sign per triangle, in triangle order, each ±1. |
| Parametrization.OrientationCyclic | code/src/utils/morphing.rs:63-67 | Rotating a triangle's corners keeps its orientation. |
| Parametrization.OrientationSwap | code/src/utils/morphing.rs:63-67 | Swapping two corners of a non-degenerate triangle flips its orientation. |
| Parametrization.RelaxRound | code/src/utils/morphing.rs:94-101 | The per-vertex loop moves every vertex to the relaxed position of its neighbourhood, computed from the previous positions. |
| Parametrization.Recenter | code/src/utils/morphing.rs:110-112 | The re-centring loop subtracts the mean of all vertices from each vertex. |
| Parametrization.RunRound | code/src/utils/morphing.rs:87-117 | One round relaxes and re-centres. `epsilon_reached` holds exactly when no vertex moved by 1e-3 or more, and `orientations_established` exactly when the new signs equal the original ones. |
| Parametrization.SettledAtStart | code/src/utils/morphing.rs:78-86 | Because `epsilon_reached` starts out true, the loop runs no round exactly when the initial signs already equal the original ones. |
| Parametrization.RelaxMesh | code/src/utils/morphing.rs:72-123 | `relax_mesh` runs at most `RELAXATION_ROUNDS_LIMIT` (100000) rounds and stops at the first settled round. If it stops before the cap, the signs equal the original ones and the last round moved each vertex by less than 1e-3. Only the world vertices change. |
| Parametrization.OriginalOrientations | code/src/utils/morphing.rs:127-135 | One recorded sign per zipped (triangle, normal) pair, as many as the shorter list. |
| Parametrization.NormalOrientationMoved | code/src/utils/morphing.rs:127-135 | The recorded sign is that of the triangle translated so its first corner sits at the normal's tip. |
| Parametrization.ProjectOnSphere | code/src/utils/morphing.rs:138-141 | Each world vertex becomes the normalised offset from the centre of mass. |
| Parametrization.ParametrizeMesh | code/src/utils/morphing.rs:125-147 | `ParametrizationOf`: the sphere positions are the relaxation of the centred projection, after the first settled round or the round cap, with no earlier round settled. `vertices` becomes the world copy; triangles, normals and material are unchanged. |
| Overlay.Canonical | code/src/utils/morphing.rs:217-224 | A sorted pair holds the same two indices, lower first. |
| Overlay.MeshSegmentsMembers | code/src/utils/morphing.rs:213-229 | The set holds every side of every triangle, canonical, and holds nothing else; every endpoint is a vertex index. |
| Overlay.ShiftedInRange | code/src/utils/morphing.rs:258-266 | Offsetting mesh B's segments by mesh A's vertex count keeps them canonical and puts them in B's index range of the combined list. |
| Overlay.CombinedSegmentsInRange | code/src/utils/morphing.rs:249-266 | Every segment of either mesh, B's offset, indexes the combined vertex list. |
| Overlay.NoPoints | code/src/utils/morphing.rs:268-276 | Before intersections are added, every original segment of both meshes is a key of `segment_map`, with no points. |
| Overlay.FindOrAddVertexAsWritten | code/src/utils/morphing.rs:231-243 | As written, the point is always appended and its new index returned. |
| Overlay.AsWrittenMissesEqualPoint | code/src/utils/morphing.rs:233-235 | The test as written rejects even the very same point, which the intended test accepts. |
| Overlay.FindOrAddVertex | code/src/utils/morphing.rs:231-243 | Returns the first vertex within EPS of the point, with no earlier one near it, leaving the list unchanged. If there is none, it appends the point and returns its index. |
| Overlay.FindOrAddKeepsSeparated | code/src/utils/morphing.rs:231-243 | The returned index is near the point. Only the point can be added, so added vertices stay apart from all earlier ones. |
| Overlay.ExtendsTrans | code/src/utils/morphing.rs:279-291 | The loops only ever append vertices and add points to a key's set, and two such steps in a row are one such step. |
| Overlay.PairRecordedKept | code/src/utils/morphing.rs:279-291 | A crossing recorded on both segments stays recorded as later pairs append vertices and add points. |
| Overlay.NewPointAt | code/src/utils/morphing.rs:281-289 | A point recorded since an earlier state lies near a crossing of its segment. |
| Overlay.NewPointsCrossTrans | code/src/utils/morphing.rs:279-291 | If the points added by each of two successive steps lie near crossings of their segments, so do the points added by both together. |
| Overlay.IntersectPair | code/src/utils/morphing.rs:281-289 | When `intersect` reports a crossing for the pair, one vertex index near the crossing is recorded on both segments. When it reports none, the vertex list and the map are unchanged. The old vertices and recorded points are kept, and every newly recorded index is a vertex near a crossing of its segment with an arc of the other mesh. |
| Overlay.HitKeepsGrown | code/src/utils/morphing.rs:281-289 | Adding the found or appended vertex for a reported crossing to both segments' sets keeps every added vertex a crossing point apart from the earlier ones, the keys unchanged and every recorded index a vertex. |
| Overlay.IntersectRow | code/src/utils/morphing.rs:280-290 | After the inner loop, every crossing of arc `a` with an arc of mesh B is recorded on both segments, earlier points are kept, and every newly recorded point lies near a crossing of its segment. |
| Overlay.FindIntersections | code/src/utils/morphing.rs:279-291 | After all pairs, the combined list is extended only by separated crossing points, and the map's keys are unchanged with no point removed. Every crossing of one arc of A with one arc of B is recorded on both segments, and every newly recorded point is a vertex near a crossing of its segment. |
| Overlay.CombineAndIntersect | code/src/utils/morphing.rs:247-291 | The vertex list starts with A's and then B's world vertices, and `segment_map` has exactly the segments of A and the offset segments of B as keys, all in range. Every vertex past the two meshes' own is the point `intersect` reports for some segment of A and some segment of B. Every crossing of a segment of A with a segment of B is recorded on both, and every recorded point is a vertex near a crossing of its segment with a segment of the other mesh. |
| Overlay.AddedAreCrossings | code/src/utils/morphing.rs:279-291 | Every vertex the loops appended is the point `intersect` reports for some pair of a segment of A and a segment of B. |
| Overlay.SearchFindsCrossings | code/src/utils/morphing.rs:268-291 | Run over listings of both meshes' segment sets from empty point sets, the loops give the crossings of the overlay: every added vertex is a reported crossing, every reported crossing is recorded on both segments, and every recorded point lies near a crossing of its segment. |
| Overlay.Dedup | code/src/utils/morphing.rs:315 | `dedup` leaves no equal neighbours, keeps the first and last elements and the set of elements, and never lengthens. |
| Overlay.DedupUnchanged | code/src/utils/morphing.rs:315 | A list without equal neighbours is left as it is. |
| Overlay.DedupIdempotent | code/src/utils/morphing.rs:315 | Applying `dedup` twice is the same as once. |
| Overlay.SetToSeq | code/src/utils/morphing.rs:299 | Collecting a set gives a duplicate-free list of exactly its elements. |
| Overlay.Chain | code/src/utils/morphing.rs:299-315 | A segment's point list is its point set sorted by distance from the start, then start prepended, end appended and deduplicated. |
| Overlay.AddSubSegments | code/src/utils/morphing.rs:318-330 | The loop adds exactly the canonical consecutive pairs of the list; the `assert!(false)` branch cannot be reached after `dedup`. |
| Overlay.SubSegmentsShape | code/src/utils/morphing.rs:318-330 | Every emitted pair has distinct endpoints, lower first, both from the list. |
| Overlay.SubSegmentsChain | code/src/utils/morphing.rs:318-330 | The emitted pairs form a chain from the first to the last point, each sharing a point with the next. |
| Overlay.UnsplitSegment | code/src/utils/morphing.rs:313-330 | A segment with no crossing points is emitted whole. |
| Overlay.ChainOnOriginal | code/src/utils/morphing.rs:298-331 | Each sub-segment joins two points of the segment it came from, both valid vertex indices. |
| Overlay.SplitOne | code/src/utils/morphing.rs:298-331 | Splitting one key adds exactly the sub-segments of its chain (start, its points sorted by distance, end, deduplicated) to the set, all valid and on that key, and keeps an uncut segment whole. |
| Overlay.SplitSegments | code/src/utils/morphing.rs:295-331 | The result is exactly the union, over every key of `segment_map`, of the sub-segments of that key's chain through its points in distance order. Every produced sub-segment joins two points of one original segment, and every segment without crossings survives whole. |
| Overlay.SplitUnionMembers | code/src/utils/morphing.rs:295-331 | A pair is in the union exactly when it is a sub-segment of one of the keys' chains. |
| Overlay.SplitUnionPrefix | code/src/utils/morphing.rs:297-331 | Recording the order of one more key leaves the union over the earlier keys unchanged. |
| Overlay.SplitToConnections | code/src/utils/morphing.rs:295-334 | The connections given to `DCEL::new` are exactly the sub-segments of every key's chain, listed once each. They are canonical pairs of valid indices, each on one original segment, and include every uncut segment. |
| Overlay.OverlaySegments | code/src/utils/morphing.rs:247-334 | Everything before `DCEL::new`: the combined vertex list (both meshes, then separated crossing points), `segment_map` keyed by both meshes' segments, with the added vertices and the recorded points tied to the crossings as in `CombineAndIntersect`, and the connections as above. |
| Overlay.PairsOrdered | code/src/utils/morphing.rs:324-329 | Canonical connections give half-edge pairs whose first origin is below the second. |
| Overlay.CreateDcelMap | code/src/utils/morphing.rs:247-335 | The vertices past both meshes' own and the segment map's points are the crossings, as in `CombineAndIntersect`, and the connections are as above. It fails exactly when some vertex has one outgoing half-edge, naming the least such vertex. Otherwise the DCEL has the combined vertex list, is valid, and has half-edges 2k and 2k+1 starting at the ends of connection k, each the other's twin, each successor the one after its twin in angular order. |
| Overlay.ConnectionHalves | code/src/utils/dcel.rs:36-51 | Half-edges with the initial origins and twins are two per connection: 2k starts at its first end and 2k+1 at its second, each the other's twin. |
| Relocation.Chunks | code/src/utils/morphing.rs:410-419 | Each triple of local indices becomes the triangle of the face's vertices at those positions, one triangle per three indices. |
| Relocation.FaceVerticesOnFace | code/src/utils/morphing.rs:405-408 | Every vertex on a face's walk is a valid vertex lying on that face. |
| Relocation.GlobalizedOnFace | code/src/utils/morphing.rs:405-419 | Every triangle mapped from a face's local triangulation has its corners on that face. |
| Relocation.LabelledExtend | code/src/utils/morphing.rs:421 | Appending the next face's triangles keeps the output concatenated in face order, each triangle on its face. |
| Relocation.FacePositions | code/src/utils/morphing.rs:407-408 | The face's positions are the vertices at its indices, in order. |
| Relocation.TriangulateFace | code/src/utils/morphing.rs:338-419 | The result is `FaceTriangulation`: too small below three face vertices (only when the walk closes within two steps), degenerate when the triangulation fails, a bad-index error when a local index is out of range, otherwise the local triples mapped through the face's vertex list. Every output triangle has its corners on the face. |
| Relocation.FaceTriangulationOnFace | code/src/utils/morphing.rs:404-419 | A face's successful triangulation has every corner on that face. |
| Relocation.TriangulateDcel | code/src/utils/morphing.rs:402-425 | The result is `Triangulation`. It succeeds exactly when every face does, and then is the faces' triangle lists concatenated in face order, each triangle on its own face. Otherwise it is the error of the first face that fails. |
| Relocation.CollectFailureKept | code/src/utils/morphing.rs:402-425 | Once a face has failed, later faces do not change the outcome. |
| Relocation.CollectSucceedsIff | code/src/utils/morphing.rs:402-425 | The fold over the faces succeeds exactly when every face does. |
| Relocation.CollectFirstFailure | code/src/utils/morphing.rs:402-425 | A failing fold reports the error of the first failing face, all earlier faces succeeding. |
| Relocation.CollectStep | code/src/utils/morphing.rs:404-422 | One loop step appends face k's triangles, or ends the whole fold with face k's error. |
| Relocation.ConcatValuesAppend | code/src/utils/morphing.rs:421 | Concatenating one more face's result appends its triangles. |
| Relocation.CollectConcatenates | code/src/utils/morphing.rs:402-425 | A successful fold equals the front-to-back concatenation of the faces' lists. |
| Relocation.CollectLabelled | code/src/utils/morphing.rs:402-425 | When each face's triangles lie on it, the folded triangles are labelled by their face, in non-decreasing face order. |
| Relocation.TriangulationSucceedsIff | code/src/utils/morphing.rs:402-425 | The triangulation succeeds exactly when every face's does. |
| Relocation.TriangulationFirstFailure | code/src/utils/morphing.rs:402-425 | A failed triangulation reports the first failing face's error. |
| Relocation.TriangulationConcatenates | code/src/utils/morphing.rs:402-425 | A successful triangulation is the faces' lists concatenated in face order. |
| Relocation.TriangulationLabelled | code/src/utils/morphing.rs:402-425 | A successful triangulation's triangles lie each on its face, in face order. |
| Relocation.Locate | code/src/utils/morphing.rs:437-468 | A triangle accepts a point only with all three coordinates above −1e-12, and they sum to 1. |
| Relocation.EnclosingIsFirstMatch | code/src/utils/morphing.rs:429-472 | The search returns the first triangle that accepts the point, with its coordinates, and none exactly when no triangle accepts. |
| Relocation.FindEnclosingTriangle | code/src/utils/morphing.rs:429-472 | The loop returns the first-match search's answer, and the "No triangle found" error exactly when there is none. |
| Relocation.RelocateVerticesOnMesh | code/src/utils/morphing.rs:475-494 | Returns one point per input vertex, in order: its coordinates applied to the same triangle's real corners. It fails exactly when some point has no enclosing triangle. |
| Relocation.FindNormals | code/src/utils/morphing.rs:496-515 | Returns one copied normal per triangle, in order: the normal of the triangle enclosing its centroid. It fails exactly when some triangle has none. |
| ObjLoading.Split | code/src/objects/triangle_mesh.rs:133 | Splitting yields at least one field, so the `indices.is_empty()` branch is unreachable; no field contains the separator. |
| ObjLoading.JoinSplit | code/src/objects/triangle_mesh.rs:133 | Joining the fields with the separator gives the string back. |
| ObjLoading.SplitJoin | code/src/objects/triangle_mesh.rs:133 | Separator-free fields are recovered by splitting their join. |
| ObjLoading.ParseUsize | code/src/objects/triangle_mesh.rs:140 | A parsed index fits in 64 bits and comes from a string starting with a digit or `+`. |
| ObjLoading.ParseDecimal | code/src/objects/triangle_mesh.rs:140 | Every 64-bit value written in decimal, with or without `+`, parses back to itself. |
| ObjLoading.NormalPart | code/src/objects/triangle_mesh.rs:148-162 | There is a normal index exactly when a non-empty third field is present; it is that field minus 1 and below the normal count, otherwise an error. |
| ObjLoading.ParseAndValidateFacePart | code/src/objects/triangle_mesh.rs:127-165 | The vertex index is the first field minus 1 and below the vertex count. The normal follows the third-field rule. Errors report a bad number or an out-of-range 1-based index, 0 included, with the line number. |
| ObjLoading.FacePartWithoutNormal | code/src/objects/triangle_mesh.rs:127-165 | A valid first field without a non-empty third gives the vertex and no normal. |
| ObjLoading.FacePartWithNormal | code/src/objects/triangle_mesh.rs:127-165 | Valid first and third fields give the vertex and the normal. |
| ObjLoading.FacePartVertexRoundTrip | code/src/objects/triangle_mesh.rs:127-165 | The corner `v` parses to vertex v − 1 and no normal. |
| ObjLoading.FacePartTextureRoundTrip | code/src/objects/triangle_mesh.rs:127-165 | The corner `v/vt` parses to vertex v − 1 and no normal; the texture is never read. |
| ObjLoading.FacePartNormalRoundTrip | code/src/objects/triangle_mesh.rs:127-165 | The corners `v/vt/vn` and `v//vn` parse to vertex v − 1 and normal vn − 1. |
| ObjLoading.FirstPresent | code/src/objects/triangle_mesh.rs:232 | The face's normal is the first corner normal present, and is absent only when no corner has one. |
| ObjLoading.StepConsistent | code/src/objects/triangle_mesh.rs:184-239 | Every line keeps each triangle index below the number of vertices read, and at most one normal per triangle. |
| ObjLoading.ScanConsistent | code/src/objects/triangle_mesh.rs:175-240 | After any number of lines, triangles index only vertices read and there are at most as many normals as triangles. |
| ObjLoading.ScanSkipsIgnored | code/src/objects/triangle_mesh.rs:179-238 | Empty lines and lines with another leading token change nothing. |
| ObjLoading.ScanPrefix | code/src/objects/triangle_mesh.rs:175-240 | The state after n lines depends only on those lines. |
| ObjLoading.ScanStopsAtFailure | code/src/objects/triangle_mesh.rs:175-240 | The first failing line's error is the result; later lines are not read. |
| ObjLoading.NonTriangleFaceRejected | code/src/objects/triangle_mesh.rs:200-203 | A face line whose token count is not four fails the load with the quad error. |
| ObjLoading.ScanCounts | code/src/objects/triangle_mesh.rs:186-236 | A successful read has one vertex per `v` line, one parsed normal per `vn` line and one triangle per `f` line. |
| ObjLoading.LoadIsWellFormed | code/src/objects/triangle_mesh.rs:168-251 | A loaded mesh has every triangle index in range of its vertices, between 1 and one normal per triangle, and world copies equal to its data. |
| ObjLoading.Centerify | code/src/objects/triangle_mesh.rs:114-119 | Every vertex is moved by minus the given centre. |
| ObjLoading.ShiftedSums | code/src/utils/morphing.rs:28-38 | Translating the vertices keeps the total area, for an area that ignores translation, and moves the weighted centroid sum by −total·c. |
| ObjLoading.CenterifyCentres | code/src/objects/triangle_mesh.rs:114-119 | After centring, the centre of mass is the origin, for an area that ignores translation and a positive total. |
| ObjLoading.FromObj | code/src/objects/triangle_mesh.rs:168-251 | The loader returns the specified load: the first failing line's error, or the error of a file without normals, or the centred mesh. |
| ObjLoading.MeshFromDcel | code/src/objects/triangle_mesh.rs:261-272 | Succeeds exactly when `Triangulation` does, with its triangles or its error. The mesh keeps the DCEL's vertices as both copies, its triangles are in range and in face order, and it is coloured (0, 255, 0) with no normals. |
| MorphModel.Zip | code/src/objects/morph.rs:57-59 | Pairs the i-th source with the i-th target, as many pairs as the shorter list. |
| MorphModel.Morph.constructor | code/src/objects/morph.rs:78-102 | The new morph holds every interpolant evaluated at 0, world copies equal to them, and the material interpolant at 0. |
| MorphModel.Morph.Update | code/src/objects/morph.rs:154-171 | Each vertex and normal is set to its interpolant at t, the world copies are refreshed, and the material is set to the material interpolant at t. Triangles, interpolants and array lengths are unchanged. |
| MorphModel.Morph.UpdateVerticesWorld | code/src/objects/morph.rs:107-111 | Under the identity matrix each world vertex becomes its vertex. |
| MorphModel.Morph.UpdateNormalsWorld | code/src/objects/morph.rs:113-118 | Under the identity matrix each world normal becomes its normal, normalised. |
| MorphModel.NewMorph | code/src/objects/morph.rs:31-103 | Both meshes are parametrised as `ParametrizationOf` says. An overlay failure is returned as is. Otherwise the overlay is a valid DCEL starting with both parametrised vertex lists, and the result of `Triangulation` decides the next step: its error is returned, or the morph succeeds exactly when `Locatable` holds (every overlay vertex relocated, and every triangle's normal found, on both meshes). Then its triangles are the triangulation and its interpolants those that `Interpolants` names. The morph starts at mesh A's side, with the world copies equal. |
| MorphModel.MorphFromOverlay | code/src/objects/morph.rs:42-102 | A triangulation failure is returned. Otherwise the morph succeeds exactly when every overlay vertex and every triangle's centroid are located on both parametrisations. Its triangles are the triangulation, its interpolants pair the relocated vertices and found normals, and it is evaluated at t = 0. |
| MorphModel.FindInterpolants | code/src/objects/morph.rs:47-72 | Succeeds exactly when every vertex is relocated and every normal found on both meshes; then the i-th vertex interpolant is (relocation on A, relocation on B) of vertex i, and likewise for normals. |
| ZBuffer.ZBufferPerformer.constructor | code/src/render/z_buffer.rs:18-24 | `new` stores the size and a buffer of width·height depths, all +∞. |
| ZBuffer.ZBufferPerformer.Reset | code/src/render/z_buffer.rs:26-32 | `reset` stores the new size, with the buffer resized to width·height and filled with +∞. |
| ZBuffer.ZBufferPerformer.SetDepth | code/src/render/z_buffer.rs:35-44 | `set_depth` writes only index y·width + x, and `get_depth` at that pixel then returns the written depth. |
| ZBuffer.CastU32 | code/src/render/z_buffer.rs:55-58 | The saturating cast to `u32` keeps every value in range unchanged. |
| ZBuffer.CastU32Monotone | code/src/render/z_buffer.rs:55-58 | The saturating cast preserves order. |
| ZBuffer.BoundingBox | code/src/render/z_buffer.rs:55-58 | The clamped box never goes past the last column or row. |
| ZBuffer.BoxCoversCorners | code/src/render/z_buffer.rs:55-58 | A corner inside the image rounds to a pixel inside the box. |
| ZBuffer.BoxInBuffer | code/src/render/z_buffer.rs:63-64 | Every pixel the loops visit has an index below width·height. |
| ZBuffer.PixelIndex | code/src/render/z_buffer.rs:36-43 | Index y·width + x with x < width is the pixel in row y, column x. |
| ZBuffer.PixelCoordinatesAgree | code/src/render/z_buffer.rs:61-71 | The renderer's inline formula at pixel (x, y) is the barycentric function of `utils/triangles.rs`. |
| ZBuffer.DrawnAt | code/src/render/z_buffer.rs:73-80 | A pixel's depth never increases, and changes only when the pixel is inside (all three coordinates above −EPSILON) to the interpolated depth. |
| ZBuffer.Painted | code/src/render/z_buffer.rs:63-99 | Drawing keeps the buffer's length, makes no depth larger, and leaves every pixel outside the box unchanged. |
| ZBuffer.PaintedOnlyInside | code/src/render/z_buffer.rs:63-99 | A changed pixel lies in the box and inside the triangle, and its new depth is the interpolated one, strictly closer than before. |
| ZBuffer.DegenerateDrawsNothing | code/src/render/z_buffer.rs:61-74 | A triangle collinear in xy changes no depth. |
| ZBuffer.ZBufferPerformer.DrawPixel | code/src/render/z_buffer.rs:66-80 | The depth test at one pixel of the box extends the drawn prefix by that pixel. |
| ZBuffer.ZBufferPerformer.DrawTriangle | code/src/render/z_buffer.rs:46-100 | The depth buffer after `draw_triangle` is the painted buffer: every pixel of the clamped box has passed the strictly-closer test, and every other pixel is unchanged. |

## Findings

| source | as written | input that shows it | evidently intended | confidence | as-written member | corrected member |
|---|---|---|---|---|---|---|
| code/src/utils/morphing.rs:233-235 | `find_or_add_vertex` accepts an existing vertex only when every coordinate of `v - point` satisfies `coord > EPS && coord < EPS`, which no number satisfies | a point already in the vertex list, e.g. the same crossing found on two pairs of arcs | a vertex whose coordinates are all within EPS of the point is reused and its index returned | not executed | Overlay.FindOrAddVertexAsWritten, Overlay.AsWrittenMissesEqualPoint | Overlay.FindOrAddVertex |

The rest of the model (`Overlay.IntersectPair` and everything built on it) uses the
corrected `Overlay.FindOrAddVertex`.

## Left out

- Floating point: every value is an exact real. This leaves out rounding, NaN, infinities other than the depth buffer's +∞, and the `f32`/`f64` distinction.
- Geometry given as parameters, each kept abstract:
  - `area` is `triangle_area`, which needs a square root;
  - `normalize` is vector normalisation;
  - `relaxed` is the normalised neighbour sum of `relax_mesh`;
  - `intersect` is `is_on_arc` and `intersect_arcs`;
  - `angle` is the tangent basis and `atan2` of `sort_edges_by_angle`;
  - `triangulate` is the normal search, the plane basis, the projection and the `delaunator` call of `triangulate_face`;
  - `project` is the plane projection of `find_enclosing_triangle`;
  - `parseFloat` is `parse::<f64>`;
  - `normalize4` is `Vector4::normalize`.

  Only their combinatorial contracts are modelled.
- Sorting.SortByKey: `sort_by` with `total_cmp`, and `sort_unstable_by` with `partial_cmp().unwrap()`, are both modelled as one stable insertion sort by an abstract real key. This is one of the orders either library sort may produce. The panic of `unwrap` on a NaN distance is not modelled.
- Hash-set and hash-map iteration orders: the order in which `segment_map` is iterated is not modelled, and neither is the order in which `all_segments` or each point set is collected. The lists built from them are some duplicate-free listing of the set.
- File and console I/O: `fs::File::open`, `BufReader::lines` and its I/O errors, and `split_whitespace` are not modelled; `from_obj` takes the file's lines already split into tokens. The `println!` calls in `relax_mesh` and `triangulate_face` are not modelled either.
- Panics are modelled as `Result` errors:
  - the `assert!`s of `triangulate_face`;
  - an out-of-range chunk in `triangulate_dcel`;
  - "No triangle found" in `find_enclosing_triangle`;
  - an out-of-range normal in `find_normals`;
  - a token missing on a short `v` or `vn` line;
  - `compute_normals`, which is `todo!()`;
  - a face index of 0, which underflows `parse::<usize>()? - 1` in a debug build and wraps to a failed range check in a release build. It is reported as the index error.
- Relocation.TriangulateDcel and Overlay.CreateDcelMap return a `Result`, as `Morph::new` uses them. `utils/morphing.rs` declares them without one.
- ObjLoading.MeshFromDcel returns the triangulation's error, where `From<DCEL>` would panic.
- MorphModel.NewMorph: of the overlay it states only that it is a valid DCEL beginning with both parametrised vertex lists. The segment-level description of the overlay is the contract of Overlay.CreateDcelMap, which `Morph::new` calls.
- MorphModel.MorphFromOverlay and MorphModel.FindInterpolants are steps 3 to 5 and step 4 of `Morph::new`, split off as methods of their own; the source has them inline.
- Model matrices: `translate`, `rotate`, `scale`, `reset_transformations` and the camera are not modelled. The morph's matrix is always the identity, so `update_vertices_world` copies each vertex and `update_normals_world` normalises each normal. `TriangleMesh::update_vertices_world` and `update_normals_world` are not modelled.
- MorphModel: the trivial `Model3D` accessors are not modelled. Its `normals()` returns `normals_world`, and `compute_normals` is `todo!()`.
- ZBuffer.ZBufferPerformer.DrawTriangle: colour interpolation and `image.put_pixel` are not modelled; the method states only the depth-buffer effect. It requires a non-empty image, because `self.width - 1` underflows `u32` for an empty one.
- ZBuffer.ZBufferPerformer.constructor, ZBuffer.ZBufferPerformer.Reset: both require width·height to fit in a `u32`. The source computes that product in `u32`, where it overflows.
- ZBuffer: `draw_object`, `create_frame_mut`, `render_single_object`, shading, and the transparency and wireframe renderers are not modelled.
- Parametrization.RelaxMesh: the round count it prints is returned instead.
- The `create_supermesh` that the benchmark calls is not part of this model.
- HalfEdges.New, HalfEdges.SortEdgeMap: require every connection endpoint (every key of the edge map) to index the vertex list. The source indexes `vertices[...]` with it (`dcel.rs` line 68) and would panic otherwise. Every caller meets the bound: the overlay's connections are in range by Overlay.CombinedSegmentsInRange and Overlay.SplitToConnections, and a chain walk's by Overlay.ChainOnOriginal.
