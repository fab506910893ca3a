/** The overlay of two parametrised meshes (utils/morphing.rs, lines 213-335): the
    canonical edges of each mesh, the combined vertex list with mesh B's indices
    shifted, the intersection points found on every pair of arcs, the splitting of
    each original edge into consecutive sub-segments, and the DCEL built from them.

    The arc intersection test (`intersect_arcs`) and the angular order of the DCEL
    are given functions; hash-set and hash-map iteration orders are arbitrary
    choices. */
module Overlay {
  import opened Common
  import opened Meshes
  import opened Sorting
  import opened HalfEdges

  /** `EPS` of morphing.rs. */
  const Eps: real := 0.000001

  // ---------------------------------------------------------------------------
  // get_mesh_segments

  /** A two-element array after `sort_unstable`. */
  function Canonical(a: nat, b: nat): (s: Segment)
    ensures s.0 <= s.1
    ensures (s.0 == a && s.1 == b) || (s.0 == b && s.1 == a)
  {
    if a <= b then Segment(a, b) else Segment(b, a)
  }

  /** The three sides of a triangle, in the order `[t0,t1]`, `[t1,t2]`, `[t2,t0]`. */
  function Side(t: Triangle, j: nat): Segment
    requires j < 3
  {
    if j == 0 then Canonical(t.0, t.1) else if j == 1 then Canonical(t.1, t.2) else Canonical(t.2, t.0)
  }

  /** `get_mesh_segments`: every side of every triangle, canonical. */
  function MeshSegments(ts: seq<Triangle>): set<Segment> {
    set k, j | 0 <= k < |ts| && 0 <= j < 3 :: Side(ts[k], j)
  }

  /** Every side of every triangle is in the set, and every member is a canonical
      side of some triangle whose endpoints are below the vertex count. */
  lemma MeshSegmentsMembers(ts: seq<Triangle>, n: nat)
    requires AllTrianglesIn(ts, n)
    ensures forall k, j | 0 <= k < |ts| && 0 <= j < 3 :: Side(ts[k], j) in MeshSegments(ts)
    ensures forall s | s in MeshSegments(ts) :: s.0 <= s.1 < n
    ensures forall s | s in MeshSegments(ts) :: exists k, j | 0 <= k < |ts| && 0 <= j < 3 :: s == Side(ts[k], j)
  {
    forall s | s in MeshSegments(ts) ensures s.0 <= s.1 < n {
      var k, j :| 0 <= k < |ts| && 0 <= j < 3 && s == Side(ts[k], j);
      assert TriangleIn(ts[k], n);
    }
  }

  /** The `map` of `create_dcel_map` applied to mesh B's segments. */
  function Shifted(segs: set<Segment>, offset: nat): set<Segment> {
    set s | s in segs :: Segment(s.0 + offset, s.1 + offset)
  }

  /** Shifting keeps segments canonical and moves them into `[offset, offset + n)`. */
  lemma ShiftedInRange(segs: set<Segment>, offset: nat, n: nat)
    requires forall s | s in segs :: s.0 <= s.1 < n
    ensures forall s | s in Shifted(segs, offset) :: offset <= s.0 <= s.1 < offset + n
  {
  }

  // ---------------------------------------------------------------------------
  // find_or_add_vertex

  function Abs(x: real): real { if x < 0.0 then -x else x }

  /** The per-coordinate test as written: `coord > EPS && coord < EPS`. */
  predicate CoordTestAsWritten(c: real) { c > Eps && c < Eps }

  /** The test `find_or_add_vertex` runs on `v - point`, as written. */
  predicate MatchAsWritten(v: Vec3, p: Vec3) {
    var d := Sub3(v, p);
    CoordTestAsWritten(d.x) && CoordTestAsWritten(d.y) && CoordTestAsWritten(d.z)
  }

  /** The evidently intended test: every coordinate of `v - point` within EPS of 0. */
  predicate Near(v: Vec3, p: Vec3) {
    Abs(v.x - p.x) < Eps && Abs(v.y - p.y) < Eps && Abs(v.z - p.z) < Eps
  }

  /** `find_or_add_vertex` as written. Since its test never holds, the point is always
      appended, even when the very same point is already in the list. */
  method FindOrAddVertexAsWritten(vertices: seq<Vec3>, point: Vec3) returns (vs: seq<Vec3>, idx: nat)
    ensures vs == vertices + [point] && idx == |vertices|
  {
    for i := 0 to |vertices|
    {
      if MatchAsWritten(vertices[i], point) {
        // where the source returns `i`; the test cannot hold
        assert false;
      }
    }
    idx := |vertices|;
    vs := vertices + [point];
  }

  /** The discrepancy: a point already in the list is not found by the test as
      written, while the intended test finds it. */
  lemma AsWrittenMissesEqualPoint(p: Vec3)
    ensures !MatchAsWritten(p, p)
    ensures Near(p, p)
  {
  }

  /** `find_or_add_vertex` with the intended test: the index of the first vertex near
      the point, or the point appended and its new index. */
  method FindOrAddVertex(vertices: seq<Vec3>, point: Vec3) returns (vs: seq<Vec3>, idx: nat)
    ensures idx <= |vertices|
    ensures forall i | 0 <= i < idx :: !Near(vertices[i], point)
    ensures idx < |vertices| ==> vs == vertices && Near(vertices[idx], point)
    ensures idx == |vertices| ==> vs == vertices + [point]
  {
    for i := 0 to |vertices|
      invariant forall k | 0 <= k < i :: !Near(vertices[k], point)
    {
      if Near(vertices[i], point) {
        return vertices, i;
      }
    }
    idx := |vertices|;
    vs := vertices + [point];
  }

  /** Appending only points that are not near any earlier vertex keeps the vertices
      from `base` on apart from every earlier one. */
  ghost predicate Separated(vs: seq<Vec3>, base: nat) {
    forall i, j | 0 <= i < j < |vs| && base <= j :: !Near(vs[i], vs[j])
  }

  /** The returned index is near the point in the new list, and nothing new is near
      an older vertex. */
  lemma FindOrAddKeepsSeparated(vertices: seq<Vec3>, point: Vec3, vs: seq<Vec3>, idx: nat, base: nat)
    requires Separated(vertices, base) && base <= |vertices|
    requires idx <= |vertices|
    requires forall i | 0 <= i < idx :: !Near(vertices[i], point)
    requires idx < |vertices| ==> vs == vertices && Near(vertices[idx], point)
    requires idx == |vertices| ==> vs == vertices + [point]
    ensures Separated(vs, base) && idx < |vs| && Near(vs[idx], point)
    ensures |vertices| <= |vs| <= |vertices| + 1 && vs[..|vertices|] == vertices
  {
    assert vs[..|vertices|] == vertices;
  }

  // ---------------------------------------------------------------------------
  // Intersections

  predicate SegmentIn(s: Segment, n: nat) { s.0 < n && s.1 < n }

  /** `intersect_arcs` on the two arcs' endpoints, taken from the vertex list; no
      crossing for a segment outside the list, which no caller passes. */
  function ArcIntersection(vs: seq<Vec3>, a: Segment, b: Segment,
                           intersect: (Vec3, Vec3, Vec3, Vec3) -> Option<Vec3>): Option<Vec3>
  {
    if SegmentIn(a, |vs|) && SegmentIn(b, |vs|) then intersect(vs[a.0], vs[a.1], vs[b.0], vs[b.1]) else None
  }

  /** p is where an arc of `as` crosses an arc of `bs`. */
  ghost predicate IsIntersection(vs: seq<Vec3>, arcsA: seq<Segment>, arcsB: seq<Segment>,
                                 intersect: (Vec3, Vec3, Vec3, Vec3) -> Option<Vec3>, p: Vec3)
    requires forall k | 0 <= k < |arcsA| :: SegmentIn(arcsA[k], |vs|)
    requires forall k | 0 <= k < |arcsB| :: SegmentIn(arcsB[k], |vs|)
  {
    exists a, b | 0 <= a < |arcsA| && 0 <= b < |arcsB| :: ArcIntersection(vs, arcsA[a], arcsB[b], intersect) == Some(p)
  }

  /** What the intersection loops keep: the first `|base|` vertices are the combined
      input, every later vertex is an intersection point and apart from all earlier
      ones, the map has the same keys, and every recorded point index is a vertex. */
  ghost predicate Grown(base: seq<Vec3>, arcsA: seq<Segment>, arcsB: seq<Segment>,
                        intersect: (Vec3, Vec3, Vec3, Vec3) -> Option<Vec3>,
                        keys: set<Segment>, vs: seq<Vec3>, segMap: map<Segment, set<nat>>)
    requires forall k | 0 <= k < |arcsA| :: SegmentIn(arcsA[k], |base|)
    requires forall k | 0 <= k < |arcsB| :: SegmentIn(arcsB[k], |base|)
  {
    && |base| <= |vs| && vs[..|base|] == base
    && Separated(vs, |base|)
    && (forall i | |base| <= i < |vs| :: IsIntersection(base, arcsA, arcsB, intersect, vs[i]))
    && segMap.Keys == keys
    && (forall s, i | s in segMap && i in segMap[s] :: i < |vs|)
  }

  /** The crossing of arcs sa and sb, if `intersect_arcs` reports one, is recorded on
      both segments as a vertex near it. */
  ghost predicate PairRecorded(base: seq<Vec3>, sa: Segment, sb: Segment,
                               intersect: (Vec3, Vec3, Vec3, Vec3) -> Option<Vec3>,
                               vs: seq<Vec3>, segMap: map<Segment, set<nat>>)
  {
    ArcIntersection(base, sa, sb, intersect).Some? ==>
      && sa in segMap && sb in segMap
      && exists i | i in segMap[sa] && i in segMap[sb] ::
           i < |vs| && Near(vs[i], ArcIntersection(base, sa, sb, intersect).value)
  }

  /** q lies near a crossing of segment s with a segment of the other mesh. */
  ghost predicate OnCrossing(base: seq<Vec3>, segsA: set<Segment>, segsB: set<Segment>,
                             intersect: (Vec3, Vec3, Vec3, Vec3) -> Option<Vec3>, s: Segment, q: Vec3)
  {
    exists sa, sb | sa in segsA && sb in segsB && (s == sa || s == sb) ::
      ArcIntersection(base, sa, sb, intersect).Some? && Near(q, ArcIntersection(base, sa, sb, intersect).value)
  }

  /** Every point recorded in `segMap` but not in `before` is a vertex near a crossing
      of its segment. */
  ghost predicate NewPointsCross(base: seq<Vec3>, segsA: set<Segment>, segsB: set<Segment>,
                                 intersect: (Vec3, Vec3, Vec3, Vec3) -> Option<Vec3>,
                                 vs: seq<Vec3>, before: map<Segment, set<nat>>, segMap: map<Segment, set<nat>>)
  {
    forall s, i | s in segMap && i in segMap[s] && i !in PointsOf(before, s) ::
      i < |vs| && OnCrossing(base, segsA, segsB, intersect, s, vs[i])
  }

  /** The points recorded on s, none when s is not a key. */
  function PointsOf(segMap: map<Segment, set<nat>>, s: Segment): set<nat> {
    if s in segMap then segMap[s] else {}
  }

  /** The vertex list only grows at its end, and no recorded point is dropped. */
  ghost predicate Extends(vs: seq<Vec3>, segMap: map<Segment, set<nat>>, vs': seq<Vec3>, segMap': map<Segment, set<nat>>) {
    && |vs| <= |vs'| && vs'[..|vs|] == vs
    && forall s | s in segMap :: s in segMap' && segMap[s] <= segMap'[s]
  }

  lemma ExtendsTrans(v0: seq<Vec3>, m0: map<Segment, set<nat>>, v1: seq<Vec3>, m1: map<Segment, set<nat>>,
                     v2: seq<Vec3>, m2: map<Segment, set<nat>>)
    requires Extends(v0, m0, v1, m1) && Extends(v1, m1, v2, m2)
    ensures Extends(v0, m0, v2, m2)
  {
    assert v2[..|v0|] == v2[..|v1|][..|v0|];
  }

  /** A recorded crossing stays recorded as the state extends. */
  lemma PairRecordedKept(base: seq<Vec3>, sa: Segment, sb: Segment, intersect: (Vec3, Vec3, Vec3, Vec3) -> Option<Vec3>,
                         vs: seq<Vec3>, segMap: map<Segment, set<nat>>, vs': seq<Vec3>, segMap': map<Segment, set<nat>>)
    requires PairRecorded(base, sa, sb, intersect, vs, segMap) && Extends(vs, segMap, vs', segMap')
    ensures PairRecorded(base, sa, sb, intersect, vs', segMap')
  {
    if ArcIntersection(base, sa, sb, intersect).Some? {
      var i :| i in segMap[sa] && i in segMap[sb] && i < |vs| && Near(vs[i], ArcIntersection(base, sa, sb, intersect).value);
      assert vs'[i] == vs'[..|vs|][i];
    }
  }

  /** Points new since m0 are crossings when those new since m1 are, and those of m1
      new since m0 were. */
  lemma NewPointAt(base: seq<Vec3>, segsA: set<Segment>, segsB: set<Segment>,
                   intersect: (Vec3, Vec3, Vec3, Vec3) -> Option<Vec3>,
                   vs: seq<Vec3>, before: map<Segment, set<nat>>, segMap: map<Segment, set<nat>>,
                   s: Segment, i: nat)
    requires NewPointsCross(base, segsA, segsB, intersect, vs, before, segMap)
    requires s in segMap && i in segMap[s] && i !in PointsOf(before, s)
    ensures i < |vs| && OnCrossing(base, segsA, segsB, intersect, s, vs[i])
  {
  }

  lemma NewPointsCrossTrans(base: seq<Vec3>, segsA: set<Segment>, segsB: set<Segment>,
                            intersect: (Vec3, Vec3, Vec3, Vec3) -> Option<Vec3>,
                            m0: map<Segment, set<nat>>, v1: seq<Vec3>, m1: map<Segment, set<nat>>,
                            v2: seq<Vec3>, m2: map<Segment, set<nat>>)
    requires NewPointsCross(base, segsA, segsB, intersect, v1, m0, m1)
    requires NewPointsCross(base, segsA, segsB, intersect, v2, m1, m2)
    requires Extends(v1, m1, v2, m2)
    ensures NewPointsCross(base, segsA, segsB, intersect, v2, m0, m2)
  {
    forall s, i | s in m2 && i in m2[s] && i !in PointsOf(m0, s)
      ensures i < |v2| && OnCrossing(base, segsA, segsB, intersect, s, v2[i])
    {
      if i in PointsOf(m1, s) {
        NewPointAt(base, segsA, segsB, intersect, v1, m0, m1, s, i);
        assert v2[i] == v2[..|v1|][i];
      } else {
        NewPointAt(base, segsA, segsB, intersect, v2, m1, m2, s, i);
      }
    }
  }

  /** One pair of arcs: on an intersection, find or add its vertex and record it on
      both segments. */
  method IntersectPair(ghost base: seq<Vec3>, arcsA: seq<Segment>, arcsB: seq<Segment>,
                       intersect: (Vec3, Vec3, Vec3, Vec3) -> Option<Vec3>, ghost keys: set<Segment>,
                       ghost segsA: set<Segment>, ghost segsB: set<Segment>,
                       a: nat, b: nat, vs: seq<Vec3>, segMap: map<Segment, set<nat>>)
    returns (vs': seq<Vec3>, segMap': map<Segment, set<nat>>)
    requires forall k | 0 <= k < |arcsA| :: SegmentIn(arcsA[k], |base|)
    requires forall k | 0 <= k < |arcsB| :: SegmentIn(arcsB[k], |base|)
    requires a < |arcsA| && b < |arcsB| && arcsA[a] in keys && arcsB[b] in keys
    requires arcsA[a] in segsA && arcsB[b] in segsB
    requires Grown(base, arcsA, arcsB, intersect, keys, vs, segMap)
    ensures Grown(base, arcsA, arcsB, intersect, keys, vs', segMap')
    ensures Extends(vs, segMap, vs', segMap')
    ensures PairRecorded(base, arcsA[a], arcsB[b], intersect, vs', segMap')
    ensures NewPointsCross(base, segsA, segsB, intersect, vs', segMap, segMap')
    ensures ArcIntersection(base, arcsA[a], arcsB[b], intersect).None? ==> vs' == vs && segMap' == segMap
  {
    assert vs[arcsA[a].0] == base[arcsA[a].0] && vs[arcsA[a].1] == base[arcsA[a].1];
    assert vs[arcsB[b].0] == base[arcsB[b].0] && vs[arcsB[b].1] == base[arcsB[b].1];
    var hit := intersect(vs[arcsA[a].0], vs[arcsA[a].1], vs[arcsB[b].0], vs[arcsB[b].1]);
    if hit.None? {
      return vs, segMap;
    }
    assert ArcIntersection(base, arcsA[a], arcsB[b], intersect) == hit;
    var idx;
    vs', idx := FindOrAddVertex(vs, hit.value);
    FindOrAddKeepsSeparated(vs, hit.value, vs', idx, |base|);
    HitKeepsGrown(base, arcsA, arcsB, intersect, keys, a, b, vs, segMap, hit.value, vs', idx);
    segMap' := segMap[arcsA[a] := segMap[arcsA[a]] + {idx}];
    segMap' := segMap'[arcsB[b] := segMap'[arcsB[b]] + {idx}];
    assert vs'[..|vs|] == vs;
    assert idx in segMap'[arcsA[a]] && idx in segMap'[arcsB[b]] && idx < |vs'| && Near(vs'[idx], hit.value);
    assert OnCrossing(base, segsA, segsB, intersect, arcsA[a], vs'[idx]);
    assert OnCrossing(base, segsA, segsB, intersect, arcsB[b], vs'[idx]);
  }

  /** Recording a found or added intersection point on both arcs keeps the loops'
      invariant. */
  lemma HitKeepsGrown(base: seq<Vec3>, arcsA: seq<Segment>, arcsB: seq<Segment>,
                      intersect: (Vec3, Vec3, Vec3, Vec3) -> Option<Vec3>, keys: set<Segment>,
                      a: nat, b: nat, vs: seq<Vec3>, segMap: map<Segment, set<nat>>, p: Vec3, vs': seq<Vec3>, idx: nat)
    requires forall k | 0 <= k < |arcsA| :: SegmentIn(arcsA[k], |base|)
    requires forall k | 0 <= k < |arcsB| :: SegmentIn(arcsB[k], |base|)
    requires a < |arcsA| && b < |arcsB| && arcsA[a] in keys && arcsB[b] in keys
    requires Grown(base, arcsA, arcsB, intersect, keys, vs, segMap)
    requires ArcIntersection(base, arcsA[a], arcsB[b], intersect) == Some(p)
    requires Separated(vs', |base|) && idx < |vs'|
    requires |vs| <= |vs'| <= |vs| + 1 && vs'[..|vs|] == vs
    requires idx == |vs| ==> vs' == vs + [p]
    requires idx < |vs| ==> vs' == vs
    ensures Grown(base, arcsA, arcsB, intersect, keys, vs',
                  segMap[arcsA[a] := segMap[arcsA[a]] + {idx}][arcsB[b] := segMap[arcsA[a] := segMap[arcsA[a]] + {idx}][arcsB[b]] + {idx}])
  {
    assert vs'[..|base|] == base by {
      assert vs'[..|vs|] == vs;
    }
    forall i | |base| <= i < |vs'| ensures IsIntersection(base, arcsA, arcsB, intersect, vs'[i]) {
      if i == |vs| {
        assert vs'[i] == p;
      } else {
        assert vs'[i] == vs[i];
      }
    }
  }

  /** The inner loop over mesh B's segments for segment `a` of mesh A. */
  method IntersectRow(ghost base: seq<Vec3>, arcsA: seq<Segment>, arcsB: seq<Segment>,
                      intersect: (Vec3, Vec3, Vec3, Vec3) -> Option<Vec3>, ghost keys: set<Segment>,
                      ghost segsA: set<Segment>, ghost segsB: set<Segment>,
                      a: nat, vs: seq<Vec3>, segMap: map<Segment, set<nat>>)
    returns (vs': seq<Vec3>, segMap': map<Segment, set<nat>>)
    requires forall k | 0 <= k < |arcsA| :: SegmentIn(arcsA[k], |base|)
    requires forall k | 0 <= k < |arcsB| :: SegmentIn(arcsB[k], |base|)
    requires a < |arcsA| && arcsA[a] in keys && forall k | 0 <= k < |arcsB| :: arcsB[k] in keys
    requires arcsA[a] in segsA && forall k | 0 <= k < |arcsB| :: arcsB[k] in segsB
    requires Grown(base, arcsA, arcsB, intersect, keys, vs, segMap)
    ensures Grown(base, arcsA, arcsB, intersect, keys, vs', segMap')
    ensures Extends(vs, segMap, vs', segMap')
    ensures forall b | 0 <= b < |arcsB| :: PairRecorded(base, arcsA[a], arcsB[b], intersect, vs', segMap')
    ensures NewPointsCross(base, segsA, segsB, intersect, vs', segMap, segMap')
  {
    vs', segMap' := vs, segMap;
    assert vs[..|vs|] == vs;
    for b := 0 to |arcsB|
      invariant Grown(base, arcsA, arcsB, intersect, keys, vs', segMap')
      invariant Extends(vs, segMap, vs', segMap')
      invariant forall b' | 0 <= b' < b :: PairRecorded(base, arcsA[a], arcsB[b'], intersect, vs', segMap')
      invariant NewPointsCross(base, segsA, segsB, intersect, vs', segMap, segMap')
    {
      var vs2, segMap2 := IntersectPair(base, arcsA, arcsB, intersect, keys, segsA, segsB, a, b, vs', segMap');
      forall b' | 0 <= b' < b ensures PairRecorded(base, arcsA[a], arcsB[b'], intersect, vs2, segMap2) {
        PairRecordedKept(base, arcsA[a], arcsB[b'], intersect, vs', segMap', vs2, segMap2);
      }
      NewPointsCrossTrans(base, segsA, segsB, intersect, segMap, vs', segMap', vs2, segMap2);
      ExtendsTrans(vs, segMap, vs', segMap', vs2, segMap2);
      vs', segMap' := vs2, segMap2;
    }
  }

  /** The two nested loops over all pairs of arcs: every crossing reported for a pair
      is recorded on both segments, and every point recorded is a crossing. */
  method FindIntersections(base: seq<Vec3>, arcsA: seq<Segment>, arcsB: seq<Segment>,
                           intersect: (Vec3, Vec3, Vec3, Vec3) -> Option<Vec3>,
                           ghost segsA: set<Segment>, ghost segsB: set<Segment>,
                           segMap: map<Segment, set<nat>>)
    returns (vs: seq<Vec3>, segMap': map<Segment, set<nat>>)
    requires forall k | 0 <= k < |arcsA| :: SegmentIn(arcsA[k], |base|) && arcsA[k] in segMap && arcsA[k] in segsA
    requires forall k | 0 <= k < |arcsB| :: SegmentIn(arcsB[k], |base|) && arcsB[k] in segMap && arcsB[k] in segsB
    requires forall s, i | s in segMap && i in segMap[s] :: i < |base|
    ensures Grown(base, arcsA, arcsB, intersect, segMap.Keys, vs, segMap')
    ensures segMap'.Keys == segMap.Keys && |base| <= |vs| && vs[..|base|] == base && Separated(vs, |base|)
    ensures forall s, i | s in segMap' && i in segMap'[s] :: i < |vs|
    ensures forall s | s in segMap :: segMap[s] <= segMap'[s]
    ensures forall a, b | 0 <= a < |arcsA| && 0 <= b < |arcsB| :: PairRecorded(base, arcsA[a], arcsB[b], intersect, vs, segMap')
    ensures NewPointsCross(base, segsA, segsB, intersect, vs, segMap, segMap')
  {
    vs, segMap' := base, segMap;
    assert vs[..|base|] == base;
    for a := 0 to |arcsA|
      invariant Grown(base, arcsA, arcsB, intersect, segMap.Keys, vs, segMap')
      invariant Extends(base, segMap, vs, segMap')
      invariant forall a', b | 0 <= a' < a && 0 <= b < |arcsB| :: PairRecorded(base, arcsA[a'], arcsB[b], intersect, vs, segMap')
      invariant NewPointsCross(base, segsA, segsB, intersect, vs, segMap, segMap')
    {
      var vs2, segMap2 := IntersectRow(base, arcsA, arcsB, intersect, segMap.Keys, segsA, segsB, a, vs, segMap');
      forall a', b | 0 <= a' < a && 0 <= b < |arcsB| ensures PairRecorded(base, arcsA[a'], arcsB[b], intersect, vs2, segMap2) {
        PairRecordedKept(base, arcsA[a'], arcsB[b], intersect, vs, segMap', vs2, segMap2);
      }
      NewPointsCrossTrans(base, segsA, segsB, intersect, segMap, vs, segMap', vs2, segMap2);
      ExtendsTrans(base, segMap, vs, segMap', vs2, segMap2);
      vs, segMap' := vs2, segMap2;
    }
  }

  // ---------------------------------------------------------------------------
  // Splitting

  predicate NoAdjacentDuplicates(s: seq<nat>) {
    forall i | 0 <= i < |s| - 1 :: s[i] != s[i + 1]
  }

  /** `Vec::dedup`: collapses each run of equal neighbours to one element. */
  function Dedup(s: seq<nat>): (r: seq<nat>)
    ensures |r| <= |s|
    ensures NoAdjacentDuplicates(r)
    ensures s != [] ==> r != [] && r[0] == s[0] && r[|r| - 1] == s[|s| - 1]
    ensures forall x :: x in r <==> x in s
  {
    if |s| <= 1 then s
    else if s[0] == s[1] then Dedup(s[1..])
    else
      var rest := Dedup(s[1..]);
      assert forall x :: x in s <==> x == s[0] || x in s[1..];
      [s[0]] + rest
  }

  /** A list without equal neighbours is left as it is. */
  lemma {:induction false} DedupUnchanged(s: seq<nat>)
    requires NoAdjacentDuplicates(s)
    ensures Dedup(s) == s
  {
    if |s| > 1 {
      assert NoAdjacentDuplicates(s[1..]) by {
        forall i | 0 <= i < |s[1..]| - 1 ensures s[1..][i] != s[1..][i + 1] {
          assert s[1..][i] == s[i + 1] && s[1..][i + 1] == s[i + 2];
        }
      }
      DedupUnchanged(s[1..]);
      assert s == [s[0]] + s[1..];
    }
  }

  /** `dedup` is idempotent. */
  lemma DedupIdempotent(s: seq<nat>)
    ensures Dedup(Dedup(s)) == Dedup(s)
  {
    DedupUnchanged(Dedup(s));
  }

  /** The canonical pair of the i-th and (i+1)-th points. */
  function Link(points: seq<nat>, i: nat): Segment
    requires i + 1 < |points|
  {
    Canonical(points[i], points[i + 1])
  }

  /** The first n consecutive pairs of a list, canonical. */
  function LinksBelow(points: seq<nat>, n: nat): set<Segment>
    requires n < |points| || n == 0
  {
    set i | 0 <= i < n :: Link(points, i)
  }

  /** All consecutive pairs of a list, canonical. */
  function SubSegments(points: seq<nat>): set<Segment> {
    if |points| == 0 then {} else LinksBelow(points, |points| - 1)
  }

  lemma LinksBelowStep(points: seq<nat>, n: nat)
    requires n + 1 < |points|
    ensures LinksBelow(points, n + 1) == LinksBelow(points, n) + {Link(points, n)}
  {
  }

  /** The loop `for i in 0..points.len() - 1` of `create_dcel_map`. The branch for two
      equal neighbours, `assert!(false)`, cannot be reached after `dedup`. */
  method AddSubSegments(segs: set<Segment>, points: seq<nat>) returns (r: set<Segment>)
    requires |points| >= 1 && NoAdjacentDuplicates(points)
    ensures r == segs + SubSegments(points)
  {
    r := segs;
    for i := 0 to |points| - 1
      invariant r == segs + LinksBelow(points, i)
    {
      var seg := Segment(points[i], points[i + 1]);
      if seg.0 == seg.1 {
        assert false;
      }
      if seg.0 > seg.1 {
        seg := Segment(seg.1, seg.0);
      }
      LinksBelowStep(points, i);
      r := r + {seg};
    }
  }

  predicate Touches(c: Segment, x: nat) { c.0 == x || c.1 == x }

  /** Every sub-segment of a list without equal neighbours has distinct, ordered
      endpoints, both taken from the list. */
  lemma SubSegmentsShape(points: seq<nat>)
    requires NoAdjacentDuplicates(points)
    ensures forall c | c in SubSegments(points) :: c.0 < c.1 && c.0 in points && c.1 in points
  {
    forall c | c in SubSegments(points) ensures c.0 < c.1 && c.0 in points && c.1 in points {
      var i :| 0 <= i < |points| - 1 && c == Link(points, i);
      assert points[i] != points[i + 1];
    }
  }

  /** The sub-segments form a chain from the first point to the last: the first
      touches the first point, the last touches the last point, consecutive ones
      share a point, and each is emitted. */
  lemma SubSegmentsChain(points: seq<nat>)
    requires |points| >= 2
    ensures Touches(Link(points, 0), points[0])
    ensures Touches(Link(points, |points| - 2), points[|points| - 1])
    ensures forall i | 0 <= i && i + 2 < |points| :: Touches(Link(points, i), points[i + 1])
    ensures forall i | 1 <= i && i + 1 < |points| :: Touches(Link(points, i), points[i])
    ensures forall i | 0 <= i && i + 1 < |points| :: Link(points, i) in SubSegments(points)
  {
  }

  /** A segment with no crossing points keeps itself as its only sub-segment. */
  lemma UnsplitSegment(s: Segment)
    requires s.0 < s.1
    ensures SubSegments(Dedup([s.0] + [] + [s.1])) == {s}
  {
    assert [s.0] + [] + [s.1] == [s.0, s.1];
    DedupUnchanged([s.0, s.1]);
    assert Link([s.0, s.1], 0) == s;
    assert SubSegments([s.0, s.1]) == {s} by {
      forall c | c in SubSegments([s.0, s.1]) ensures c == s {
      }
    }
  }

  /** The squared distance from the segment's start that orders its points. */
  function DistanceFrom(vs: seq<Vec3>, start: nat): nat -> real {
    (i: nat) => if start < |vs| && i < |vs| then NormSq3(Sub3(vs[start], vs[i])) else 0.0
  }

  /** `points_set.into_iter().collect()` and the other walks over a `HashSet` or
      `HashMap`: the elements in some order. The source's order is that of the hash
      table, which the program neither chooses nor relies on, so the model promises
      only that each element appears exactly once. */
  method SetToSeq<T>(s: set<T>) returns (r: seq<T>)
    ensures |r| == |s| && Distinct(r)
    ensures forall x :: x in r <==> x in s
  {
    r := [];
    var rest := s;
    while rest != {}
      invariant rest <= s && |r| + |rest| == |s| && Distinct(r)
      invariant forall x :: x in r <==> x in s && x !in rest
      decreases |rest|
    {
      var x :| x in rest;
      r := r + [x];
      rest := rest - {x};
    }
  }

  /** `sorted` lists the points found on s, each once, by distance from its start. */
  ghost predicate SortedPoints(vs: seq<Vec3>, s: Segment, points: set<nat>, sorted: seq<nat>) {
    && (forall x :: x in sorted <==> x in points) && |sorted| == |points|
    && SortedBy(sorted, DistanceFrom(vs, s.0))
  }

  /** The chain of segment s through its sorted points: start, points, end, with
      equal neighbours collapsed. */
  function ChainOf(s: Segment, sorted: seq<nat>): seq<nat> {
    Dedup([s.0] + sorted + [s.1])
  }

  /** The points of one segment in the order the split uses: sorted by distance
      from the start, between the two endpoints, with equal neighbours collapsed. */
  method Chain(vs: seq<Vec3>, s: Segment, points: set<nat>) returns (sorted: seq<nat>, chain: seq<nat>)
    ensures SortedPoints(vs, s, points, sorted)
    ensures chain == ChainOf(s, sorted)
  {
    var ps := SetToSeq(points);
    sorted := SortByKey(ps, DistanceFrom(vs, s.0));
    assert forall x :: x in sorted <==> x in multiset(sorted);
    assert forall x :: x in ps <==> x in multiset(ps);
    chain := Dedup([s.0] + sorted + [s.1]);
  }

  /** c joins two points of one original segment: its endpoints or the points found
      on it. */
  ghost predicate OnOriginal(segMap: map<Segment, set<nat>>, c: Segment) {
    exists s | s in segMap :: (c.0 == s.0 || c.0 == s.1 || c.0 in segMap[s]) && (c.1 == s.0 || c.1 == s.1 || c.1 in segMap[s])
  }

  ghost predicate SplitOk(segMap: map<Segment, set<nat>>, n: nat, segs: set<Segment>) {
    forall c | c in segs :: c.0 < c.1 < n && OnOriginal(segMap, c)
  }

  /** A chain's sub-segments join points of the segment it was built from. */
  lemma ChainOnOriginal(vs: seq<Vec3>, segMap: map<Segment, set<nat>>, s: Segment, sorted: seq<nat>, chain: seq<nat>)
    requires s in segMap && s.0 <= s.1 < |vs| && forall i | i in segMap[s] :: i < |vs|
    requires forall x :: x in sorted <==> x in segMap[s]
    requires chain == Dedup([s.0] + sorted + [s.1])
    ensures forall c | c in SubSegments(chain) :: c.0 < c.1 < |vs| && OnOriginal(segMap, c)
  {
    SubSegmentsShape(chain);
    forall c | c in SubSegments(chain) ensures c.0 < c.1 < |vs| && OnOriginal(segMap, c) {
      var whole := [s.0] + sorted + [s.1];
      assert c.0 in whole && c.1 in whole;
      assert c.0 == s.0 || c.0 == s.1 || c.0 in sorted;
      assert c.1 == s.0 || c.1 == s.1 || c.1 in sorted;
      assert (c.0 == s.0 || c.0 == s.1 || c.0 in segMap[s]) && (c.1 == s.0 || c.1 == s.1 || c.1 in segMap[s]);
    }
  }

  /** One key of the map: add its chain's sub-segments. The ghost `sorted` is the
      order in which the key's points were put. */
  method SplitOne(vs: seq<Vec3>, segMap: map<Segment, set<nat>>, s: Segment, segs: set<Segment>)
    returns (segs': set<Segment>, ghost sorted: seq<nat>)
    requires s in segMap && s.0 <= s.1 < |vs| && forall i | i in segMap[s] :: i < |vs|
    requires SplitOk(segMap, |vs|, segs)
    ensures SortedPoints(vs, s, segMap[s], sorted)
    ensures segs' == segs + SubSegments(ChainOf(s, sorted))
    ensures SplitOk(segMap, |vs|, segs')
    ensures segMap[s] == {} && s.0 < s.1 ==> s in segs'
  {
    var chain;
    sorted, chain := Chain(vs, s, segMap[s]);
    segs' := AddSubSegments(segs, chain);
    ChainOnOriginal(vs, segMap, s, sorted, chain);
    if segMap[s] == {} && s.0 < s.1 {
      assert sorted == [];
      UnsplitSegment(s);
    }
  }

  /** The sub-segments of the chains of keys[..n], keys[j] taking its points in the
      order sorted[j]. */
  function SplitUnion(keys: seq<Segment>, sorted: seq<seq<nat>>, n: nat): set<Segment>
    requires n <= |keys| && n <= |sorted|
  {
    if n == 0 then {} else SplitUnion(keys, sorted, n - 1) + SubSegments(ChainOf(keys[n - 1], sorted[n - 1]))
  }

  /** A sub-segment is in the union exactly when it comes from one of the chains. */
  lemma {:induction false} SplitUnionMembers(keys: seq<Segment>, sorted: seq<seq<nat>>, n: nat)
    requires n <= |keys| && n <= |sorted|
    ensures forall c :: c in SplitUnion(keys, sorted, n) <==>
      exists j | 0 <= j < n :: c in SubSegments(ChainOf(keys[j], sorted[j]))
  {
    if n > 0 {
      SplitUnionMembers(keys, sorted, n - 1);
    }
  }

  /** Adding the chain of a further key to a shorter order list leaves the chains of
      the earlier keys as they were. */
  lemma {:induction false} SplitUnionPrefix(keys: seq<Segment>, sorted: seq<seq<nat>>, x: seq<nat>, n: nat)
    requires n <= |keys| && n <= |sorted|
    ensures SplitUnion(keys, sorted + [x], n) == SplitUnion(keys, sorted, n)
  {
    if n > 0 {
      SplitUnionPrefix(keys, sorted, x, n - 1);
      assert (sorted + [x])[n - 1] == sorted[n - 1];
    }
  }

  /** The facts about the per-key orders that `SplitSegments` passes on. */
  ghost predicate KeyOrders(vs: seq<Vec3>, segMap: map<Segment, set<nat>>, keys: seq<Segment>, sorted: seq<seq<nat>>) {
    && Distinct(keys) && (forall s :: s in keys <==> s in segMap) && |sorted| == |keys|
    && forall j | 0 <= j < |keys| :: SortedPoints(vs, keys[j], segMap[keys[j]], sorted[j])
  }

  /** The loop over `segment_map` producing `all_segments`. The ghost `keys` is the
      map's iteration order and `sorted[j]` the order of `keys[j]`'s points. */
  method SplitSegments(vs: seq<Vec3>, segMap: map<Segment, set<nat>>)
    returns (segs: set<Segment>, ghost keys: seq<Segment>, ghost sorted: seq<seq<nat>>)
    requires forall s | s in segMap :: s.0 <= s.1 < |vs|
    requires forall s, i | s in segMap && i in segMap[s] :: i < |vs|
    ensures KeyOrders(vs, segMap, keys, sorted)
    ensures segs == SplitUnion(keys, sorted, |keys|)
    ensures SplitOk(segMap, |vs|, segs)
    ensures forall s | s in segMap && segMap[s] == {} && s.0 < s.1 :: s in segs
  {
    var ks := SetToSeq(segMap.Keys);
    keys := ks;
    segs := {};
    sorted := [];
    for k := 0 to |ks|
      invariant SplitOk(segMap, |vs|, segs)
      invariant UnsplitKept(segMap, keys, k, segs)
      invariant |sorted| == k && segs == SplitUnion(keys, sorted, k)
      invariant forall j | 0 <= j < k :: SortedPoints(vs, keys[j], segMap[keys[j]], sorted[j])
    {
      var segs';
      ghost var order;
      segs', order := SplitOne(vs, segMap, ks[k], segs);
      UnsplitKeptStep(segMap, keys, k, segs, segs');
      SplitUnionPrefix(keys, sorted, order, k);
      forall j | 0 <= j < k + 1
        ensures SortedPoints(vs, keys[j], segMap[keys[j]], (sorted + [order])[j])
      {
        if j < k {
          assert (sorted + [order])[j] == sorted[j];
        }
      }
      segs := segs';
      sorted := sorted + [order];
    }
    UnsplitKeptDone(segMap, keys, segs);
  }

  /** Every key among the first k that has no point on it and is not a single point
      is kept whole. */
  ghost predicate UnsplitKept(segMap: map<Segment, set<nat>>, keys: seq<Segment>, k: nat, segs: set<Segment>) {
    forall j | 0 <= j < k && j < |keys| && keys[j] in segMap && segMap[keys[j]] == {} && keys[j].0 < keys[j].1 ::
      keys[j] in segs
  }

  lemma UnsplitKeptStep(segMap: map<Segment, set<nat>>, keys: seq<Segment>, k: nat, segs: set<Segment>, segs': set<Segment>)
    requires k < |keys| && keys[k] in segMap && UnsplitKept(segMap, keys, k, segs) && segs <= segs'
    requires segMap[keys[k]] == {} && keys[k].0 < keys[k].1 ==> keys[k] in segs'
    ensures UnsplitKept(segMap, keys, k + 1, segs')
  {
  }

  lemma UnsplitKeptDone(segMap: map<Segment, set<nat>>, keys: seq<Segment>, segs: set<Segment>)
    requires forall x :: x in keys <==> x in segMap.Keys
    requires UnsplitKept(segMap, keys, |keys|, segs)
    ensures forall s | s in segMap && segMap[s] == {} && s.0 < s.1 :: s in segs
  {
    forall s | s in segMap && segMap[s] == {} && s.0 < s.1 ensures s in segs {
      assert s in keys;
      var j :| 0 <= j < |keys| && keys[j] == s;
    }
  }

  // ---------------------------------------------------------------------------
  // create_dcel_map

  /** The crossings of the overlay: for every segment sa of mesh A and sb of mesh B
      (offset), a crossing reported by `intersect_arcs` is recorded on both as a vertex
      near it; every point recorded on a segment is a vertex near a crossing of
      that segment with one of the other mesh; and every vertex past the two meshes'
      own is the crossing point of a segment of A with one of B. */
  ghost predicate Crossings(meshA: TriangleMesh, meshB: TriangleMesh, intersect: (Vec3, Vec3, Vec3, Vec3) -> Option<Vec3>,
                            vs: seq<Vec3>, segMap: map<Segment, set<nat>>)
  {
    var base := meshA.verticesWorld + meshB.verticesWorld;
    var segsA := MeshSegments(meshA.triangles);
    var segsB := Shifted(MeshSegments(meshB.triangles), |meshA.vertices|);
    && (forall sa, sb | sa in segsA && sb in segsB :: PairRecorded(base, sa, sb, intersect, vs, segMap))
    && (forall s, i | s in segMap && i in segMap[s] :: i < |vs| && OnCrossing(base, segsA, segsB, intersect, s, vs[i]))
    && (forall i | |base| <= i < |vs| :: ReportedCrossing(base, segsA, segsB, intersect, vs[i]))
  }

  /** The combined vertex list with the intersection points appended, and the
      segment map: both meshes' segments, B's shifted by A's vertex count, each with
      the indices of the points found on it. */
  method CombineAndIntersect(meshA: TriangleMesh, meshB: TriangleMesh,
                             intersect: (Vec3, Vec3, Vec3, Vec3) -> Option<Vec3>)
    returns (vs: seq<Vec3>, segMap: map<Segment, set<nat>>)
    requires AllTrianglesIn(meshA.triangles, |meshA.verticesWorld|)
    requires AllTrianglesIn(meshB.triangles, |meshB.verticesWorld|)
    requires |meshA.vertices| <= |meshA.verticesWorld|
    ensures var base := meshA.verticesWorld + meshB.verticesWorld;
      && |base| <= |vs| && vs[..|base|] == base
      && Separated(vs, |base|)
    ensures segMap.Keys == MeshSegments(meshA.triangles) + Shifted(MeshSegments(meshB.triangles), |meshA.vertices|)
    ensures forall s | s in segMap :: s.0 <= s.1 < |vs|
    ensures forall s, i | s in segMap && i in segMap[s] :: i < |vs|
    ensures Crossings(meshA, meshB, intersect, vs, segMap)
  {
    var base := meshA.verticesWorld + meshB.verticesWorld;
    var segsA := MeshSegments(meshA.triangles);
    var segsB := Shifted(MeshSegments(meshB.triangles), |meshA.vertices|);
    CombinedSegmentsInRange(meshA, meshB);
    var arcsA := SetToSeq(segsA);
    var arcsB := SetToSeq(segsB);
    var initial := NoPoints(segsA + segsB);
    vs, segMap := FindIntersections(base, arcsA, arcsB, intersect, segsA, segsB, initial);
    SearchFindsCrossings(meshA, meshB, intersect, arcsA, arcsB, initial, vs, segMap);
  }

  /** The loops over every pair of listed arcs give the crossings of the two meshes'
      segment sets. */
  lemma SearchFindsCrossings(meshA: TriangleMesh, meshB: TriangleMesh,
                             intersect: (Vec3, Vec3, Vec3, Vec3) -> Option<Vec3>,
                             arcsA: seq<Segment>, arcsB: seq<Segment>, initial: map<Segment, set<nat>>,
                             vs: seq<Vec3>, segMap: map<Segment, set<nat>>)
    requires var base := meshA.verticesWorld + meshB.verticesWorld;
      && (forall k | 0 <= k < |arcsA| :: SegmentIn(arcsA[k], |base|))
      && (forall k | 0 <= k < |arcsB| :: SegmentIn(arcsB[k], |base|))
      && Grown(base, arcsA, arcsB, intersect, initial.Keys, vs, segMap)
    requires forall x :: x in arcsA <==> x in MeshSegments(meshA.triangles)
    requires forall x :: x in arcsB <==> x in Shifted(MeshSegments(meshB.triangles), |meshA.vertices|)
    requires forall s | s in initial :: initial[s] == {}
    requires var base := meshA.verticesWorld + meshB.verticesWorld;
      && (forall a, b | 0 <= a < |arcsA| && 0 <= b < |arcsB| :: PairRecorded(base, arcsA[a], arcsB[b], intersect, vs, segMap))
      && NewPointsCross(base, MeshSegments(meshA.triangles), Shifted(MeshSegments(meshB.triangles), |meshA.vertices|),
                        intersect, vs, initial, segMap)
    ensures Crossings(meshA, meshB, intersect, vs, segMap)
  {
    var base := meshA.verticesWorld + meshB.verticesWorld;
    var segsA := MeshSegments(meshA.triangles);
    var segsB := Shifted(MeshSegments(meshB.triangles), |meshA.vertices|);
    forall sa, sb | sa in segsA && sb in segsB ensures PairRecorded(base, sa, sb, intersect, vs, segMap) {
      var a :| 0 <= a < |arcsA| && arcsA[a] == sa;
      var b :| 0 <= b < |arcsB| && arcsB[b] == sb;
    }
    forall s, i | s in segMap && i in segMap[s] ensures i < |vs| && OnCrossing(base, segsA, segsB, intersect, s, vs[i]) {
      assert PointsOf(initial, s) == {};
      NewPointAt(base, segsA, segsB, intersect, vs, initial, segMap, s, i);
    }
    forall k | 0 <= k < |arcsA| ensures arcsA[k] in segsA {
      assert arcsA[k] in arcsA;
    }
    forall k | 0 <= k < |arcsB| ensures arcsB[k] in segsB {
      assert arcsB[k] in arcsB;
    }
    AddedAreCrossings(base, arcsA, arcsB, intersect, segsA, segsB, initial.Keys, vs, segMap);
  }

  /** `p` is the point `intersect_arcs` reports for some segment of A and some of B. */
  ghost predicate ReportedCrossing(base: seq<Vec3>, segsA: set<Segment>, segsB: set<Segment>,
                                   intersect: (Vec3, Vec3, Vec3, Vec3) -> Option<Vec3>, p: Vec3)
  {
    exists sa, sb | sa in segsA && sb in segsB :: ArcIntersection(base, sa, sb, intersect) == Some(p)
  }

  /** Every vertex the loops appended is the point `intersect_arcs` reports for some
      segment of A and some segment of B. */
  lemma AddedAreCrossings(base: seq<Vec3>, arcsA: seq<Segment>, arcsB: seq<Segment>,
                          intersect: (Vec3, Vec3, Vec3, Vec3) -> Option<Vec3>,
                          segsA: set<Segment>, segsB: set<Segment>, keys: set<Segment>,
                          vs: seq<Vec3>, segMap: map<Segment, set<nat>>)
    requires forall k | 0 <= k < |arcsA| :: SegmentIn(arcsA[k], |base|) && arcsA[k] in segsA
    requires forall k | 0 <= k < |arcsB| :: SegmentIn(arcsB[k], |base|) && arcsB[k] in segsB
    requires Grown(base, arcsA, arcsB, intersect, keys, vs, segMap)
    ensures forall i | |base| <= i < |vs| :: ReportedCrossing(base, segsA, segsB, intersect, vs[i])
  {
    forall i | |base| <= i < |vs| ensures ReportedCrossing(base, segsA, segsB, intersect, vs[i]) {
      assert IsIntersection(base, arcsA, arcsB, intersect, vs[i]);
      var a, b :| 0 <= a < |arcsA| && 0 <= b < |arcsB| && ArcIntersection(base, arcsA[a], arcsB[b], intersect) == Some(vs[i]);
      assert arcsA[a] in segsA && arcsB[b] in segsB;
    }
  }

  /** Every segment of either mesh, B's shifted, is canonical and indexes the
      combined vertex list. */
  lemma CombinedSegmentsInRange(meshA: TriangleMesh, meshB: TriangleMesh)
    requires AllTrianglesIn(meshA.triangles, |meshA.verticesWorld|)
    requires AllTrianglesIn(meshB.triangles, |meshB.verticesWorld|)
    requires |meshA.vertices| <= |meshA.verticesWorld|
    ensures forall s | s in MeshSegments(meshA.triangles) + Shifted(MeshSegments(meshB.triangles), |meshA.vertices|) ::
      s.0 <= s.1 < |meshA.verticesWorld| + |meshB.verticesWorld|
  {
    MeshSegmentsMembers(meshA.triangles, |meshA.verticesWorld|);
    MeshSegmentsMembers(meshB.triangles, |meshB.verticesWorld|);
    ShiftedInRange(MeshSegments(meshB.triangles), |meshA.vertices|, |meshB.verticesWorld|);
  }

  /** The `segment_map` after the two `or_insert_with(HashSet::new)` loops. */
  function NoPoints(keys: set<Segment>): (m: map<Segment, set<nat>>)
    ensures m.Keys == keys
    ensures forall s | s in m :: m[s] == {}
  {
    map s | s in keys :: {}
  }

  /** The split segments in some order, ready for `DCEL::new`: exactly the
      sub-segments of the keys' chains. */
  method SplitToConnections(vs: seq<Vec3>, segMap: map<Segment, set<nat>>)
    returns (connections: seq<Segment>, ghost keys: seq<Segment>, ghost sorted: seq<seq<nat>>)
    requires forall s | s in segMap :: s.0 <= s.1 < |vs|
    requires forall s, i | s in segMap && i in segMap[s] :: i < |vs|
    ensures KeyOrders(vs, segMap, keys, sorted)
    ensures forall c :: c in connections <==> c in SplitUnion(keys, sorted, |keys|)
    ensures Distinct(connections)
    ensures forall k | 0 <= k < |connections| :: connections[k].0 < connections[k].1 < |vs|
    ensures forall k | 0 <= k < |connections| :: OnOriginal(segMap, connections[k])
    ensures forall s | s in segMap && segMap[s] == {} && s.0 < s.1 :: s in connections
  {
    var segs;
    segs, keys, sorted := SplitSegments(vs, segMap);
    connections := SetToSeq(segs);
    assert forall k | 0 <= k < |connections| :: connections[k] in segs;
  }

  /** The part of `create_dcel_map` before `DCEL::new`. */
  method OverlaySegments(meshA: TriangleMesh, meshB: TriangleMesh,
                         intersect: (Vec3, Vec3, Vec3, Vec3) -> Option<Vec3>)
    returns (vs: seq<Vec3>, segMap: map<Segment, set<nat>>, connections: seq<Segment>,
             ghost keys: seq<Segment>, ghost sorted: seq<seq<nat>>)
    requires AllTrianglesIn(meshA.triangles, |meshA.verticesWorld|)
    requires AllTrianglesIn(meshB.triangles, |meshB.verticesWorld|)
    requires |meshA.vertices| <= |meshA.verticesWorld|
    ensures var base := meshA.verticesWorld + meshB.verticesWorld;
      && |base| <= |vs| && vs[..|base|] == base
      && Separated(vs, |base|)
    ensures segMap.Keys == MeshSegments(meshA.triangles) + Shifted(MeshSegments(meshB.triangles), |meshA.vertices|)
    ensures forall s, i | s in segMap && i in segMap[s] :: i < |vs|
    ensures KeyOrders(vs, segMap, keys, sorted)
    ensures forall c :: c in connections <==> c in SplitUnion(keys, sorted, |keys|)
    ensures Distinct(connections)
    ensures forall k | 0 <= k < |connections| :: connections[k].0 < connections[k].1 < |vs|
    ensures forall k | 0 <= k < |connections| :: OnOriginal(segMap, connections[k])
    ensures forall s | s in segMap && segMap[s] == {} && s.0 < s.1 :: s in connections
    ensures Crossings(meshA, meshB, intersect, vs, segMap)
  {
    vs, segMap := CombineAndIntersect(meshA, meshB, intersect);
    connections, keys, sorted := SplitToConnections(vs, segMap);
  }

  /** Half-edges 2k and 2k+1 are the two halves of connection k: they start at its
      two ends and are each other's twins. */
  lemma ConnectionHalves(connections: seq<Segment>, hs: seq<HalfEdge>)
    requires |hs| == |InitialHalfEdges(connections)|
    requires forall e | 0 <= e < |hs| ::
      hs[e].origin == InitialHalfEdges(connections)[e].origin && hs[e].twin == InitialHalfEdges(connections)[e].twin
    ensures |hs| == 2 * |connections|
    ensures forall k | 0 <= k < |connections| ::
      && hs[2 * k].origin == connections[k].0 && hs[2 * k + 1].origin == connections[k].1
      && hs[2 * k].twin == 2 * k + 1 && hs[2 * k + 1].twin == 2 * k
  {
    forall k | 0 <= k < |connections|
      ensures hs[2 * k].origin == connections[k].0 && hs[2 * k + 1].origin == connections[k].1
      ensures hs[2 * k].twin == 2 * k + 1 && hs[2 * k + 1].twin == 2 * k
    {
      InitialPair(connections, k);
    }
  }

  /** Ordered connections give ordered pairs of origins. */
  lemma PairsOrdered(connections: seq<Segment>, hs: seq<HalfEdge>)
    requires forall k | 0 <= k < |connections| :: connections[k].0 < connections[k].1
    requires |hs| == 2 * |connections|
    requires forall k | 0 <= k < |connections| :: hs[2 * k].origin == connections[k].0 && hs[2 * k + 1].origin == connections[k].1
    ensures |hs| % 2 == 0
    ensures forall k | 0 <= k < |hs| / 2 :: hs[2 * k].origin < hs[2 * k + 1].origin
  {
  }

  /** `create_dcel_map(mesh_a, mesh_b)`: the overlay handed to `DCEL::new`, whose
      error it passes on. The ghost outputs are the intermediate results: the vertex
      list, the segment map, the map's iteration order with each key's point order,
      and the connections. */
  method CreateDcelMap(meshA: TriangleMesh, meshB: TriangleMesh,
                       intersect: (Vec3, Vec3, Vec3, Vec3) -> Option<Vec3>, angle: (Vec3, Vec3) -> real)
    returns (r: Result<Dcel, DcelError>, ghost vs: seq<Vec3>, ghost segMap: map<Segment, set<nat>>,
             ghost keys: seq<Segment>, ghost sorted: seq<seq<nat>>, ghost connections: seq<Segment>)
    requires AllTrianglesIn(meshA.triangles, |meshA.verticesWorld|)
    requires AllTrianglesIn(meshB.triangles, |meshB.verticesWorld|)
    requires |meshA.vertices| <= |meshA.verticesWorld|
    ensures var base := meshA.verticesWorld + meshB.verticesWorld;
      && |base| <= |vs| && vs[..|base|] == base
      && Separated(vs, |base|)
    ensures segMap.Keys == MeshSegments(meshA.triangles) + Shifted(MeshSegments(meshB.triangles), |meshA.vertices|)
    ensures forall s, i | s in segMap && i in segMap[s] :: i < |vs|
    ensures KeyOrders(vs, segMap, keys, sorted)
    ensures forall c :: c in connections <==> c in SplitUnion(keys, sorted, |keys|)
    ensures Distinct(connections)
    ensures forall k | 0 <= k < |connections| :: connections[k].0 < connections[k].1 < |vs|
    ensures forall k | 0 <= k < |connections| :: OnOriginal(segMap, connections[k])
    ensures forall s | s in segMap && segMap[s] == {} && s.0 < s.1 :: s in connections
    ensures Crossings(meshA, meshB, intersect, vs, segMap)
    ensures r.Failure? <==> exists v | 0 <= v < |vs| :: 0 < Degree(connections, v) < 2
    ensures r.Failure? ==> r.error.TooFewOutgoing?
    ensures r.Failure? && r.error.TooFewOutgoing? ==>
      var v := r.error.vertex;
      && v < |vs| && 0 < Degree(connections, v) < 2 && r.error.count == Degree(connections, v)
      && forall u | 0 <= u < v :: !(0 < Degree(connections, u) < 2)
    ensures r.Success? ==>
      var d := r.value;
      && d.vertices == vs
      && Valid(d)
      && |d.halfEdges| == 2 * |connections|
      && (forall k | 0 <= k < |connections| ::
            && d.halfEdges[2 * k].origin == connections[k].0 && d.halfEdges[2 * k + 1].origin == connections[k].1
            && d.halfEdges[2 * k].twin == 2 * k + 1 && d.halfEdges[2 * k + 1].twin == 2 * k)
      && (forall e | 0 <= e < |d.halfEdges| :: d.halfEdges[e].next == Some(NextAfterTwin(vs, connections, angle, e)))
    ensures r.Success? ==>
      && |r.value.halfEdges| % 2 == 0
      && (forall k | 0 <= k < |r.value.halfEdges| / 2 ::
            r.value.halfEdges[2 * k].origin < r.value.halfEdges[2 * k + 1].origin)
  {
    var points, m, cs;
    points, m, cs, keys, sorted := OverlaySegments(meshA, meshB, intersect);
    vs, segMap, connections := points, m, cs;
    r := New(points, cs, angle);
    if r.Success? {
      ConnectionHalves(cs, r.value.halfEdges);
      PairsOrdered(cs, r.value.halfEdges);
    }
  }
}
