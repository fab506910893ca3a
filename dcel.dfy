/** The half-edge structure (DCEL) of the overlay (utils/dcel.rs): an arena of
    half-edges addressed by index, with a twin, an optional `next` and an optional
    face, built from a list of vertex-index segments. */
module HalfEdges {
  import opened Common
  import opened Sorting

  datatype HalfEdge = HalfEdge(origin: nat, twin: nat, face: Option<nat>, next: Option<nat>)

  datatype Face = Face(edge: nat)

  datatype Dcel = Dcel(vertices: seq<Vec3>, halfEdges: seq<HalfEdge>, faces: seq<Face>)

  /** The `Err(String)` cases of `DCEL::new`. */
  datatype DcelError =
    | TooFewOutgoing(vertex: nat, count: nat)  // "vertex must have at least 2 outgoing edges"
    | BrokenLoop                               // "HalfEdge loop is broken"

  // ---------------------------------------------------------------------------
  // Step 1: one twin pair per segment.

  /** Half-edge `i` as step 1 creates it: segment k gives indices 2k (from its first
      endpoint) and 2k+1 (from its second), each the other's twin. */
  function InitialHalfEdge(conn: seq<Segment>, i: nat): HalfEdge
    requires i < 2 * |conn|
  {
    if i % 2 == 0 then HalfEdge(conn[i / 2].0, i + 1, None, None)
    else HalfEdge(conn[i / 2].1, i - 1, None, None)
  }

  function InitialHalfEdges(conn: seq<Segment>): (hs: seq<HalfEdge>)
    ensures |hs| == 2 * |conn|
    ensures forall i | 0 <= i < |hs| :: hs[i] == InitialHalfEdge(conn, i)
  {
    seq(2 * |conn|, i requires 0 <= i < 2 * |conn| => InitialHalfEdge(conn, i))
  }

  /** The indices of the half-edges leaving `v`, in increasing order: the list step 1
      accumulates in `edge_map[v]`. */
  function Outgoing(hs: seq<HalfEdge>, v: nat): seq<nat> {
    if hs == [] then []
    else Outgoing(hs[..|hs| - 1], v) + (if hs[|hs| - 1].origin == v then [|hs| - 1] else [])
  }

  lemma OutgoingPush(hs: seq<HalfEdge>, h: HalfEdge, v: nat)
    ensures Outgoing(hs + [h], v) == Outgoing(hs, v) + (if h.origin == v then [|hs|] else [])
  {
    assert (hs + [h])[..|hs|] == hs;
  }

  lemma {:induction false} OutgoingMembers(hs: seq<HalfEdge>, v: nat)
    ensures forall x: nat :: x in Outgoing(hs, v) <==> x < |hs| && hs[x].origin == v
    ensures forall i, j | 0 <= i < j < |Outgoing(hs, v)| :: Outgoing(hs, v)[i] < Outgoing(hs, v)[j]
  {
    if hs != [] {
      var init, last := hs[..|hs| - 1], hs[|hs| - 1];
      assert init + [last] == hs;
      OutgoingMembers(init, v);
      OutgoingPush(init, last, v);
      var o := Outgoing(init, v);
      var tail: seq<nat> := if last.origin == v then [|init|] else [];
      assert Outgoing(hs, v) == o + tail;
      forall x: nat ensures x in o + tail <==> x < |hs| && hs[x].origin == v {
        if x < |init| {
          assert hs[x] == init[x];
        }
      }
      forall i, j | 0 <= i < j < |o + tail| ensures (o + tail)[i] < (o + tail)[j] {
        if j >= |o| {
          assert (o + tail)[i] == o[i] && o[i] in o;
        }
      }
    }
  }

  lemma OutgoingDistinct(hs: seq<HalfEdge>, v: nat)
    ensures Distinct(Outgoing(hs, v))
  {
    OutgoingMembers(hs, v);
  }

  /** `edge_map` describes the half-edges created so far: a key for every vertex with
      an outgoing half-edge, holding their indices in creation order. */
  ghost predicate GroupsOutgoing(hs: seq<HalfEdge>, edgeMap: map<nat, seq<nat>>) {
    && (forall v: nat :: v in edgeMap <==> Outgoing(hs, v) != [])
    && (forall v | v in edgeMap :: edgeMap[v] == Outgoing(hs, v))
  }

  /** `edge_map.entry(v).or_default().push(e)`. */
  function AppendOutgoing(edgeMap: map<nat, seq<nat>>, v: nat, e: nat): map<nat, seq<nat>> {
    edgeMap[v := (if v in edgeMap then edgeMap[v] else []) + [e]]
  }

  lemma PushKeepsGrouping(hs: seq<HalfEdge>, edgeMap: map<nat, seq<nat>>, h: HalfEdge)
    requires GroupsOutgoing(hs, edgeMap)
    ensures GroupsOutgoing(hs + [h], AppendOutgoing(edgeMap, h.origin, |hs|))
  {
    forall v: nat ensures Outgoing(hs + [h], v) == Outgoing(hs, v) + (if h.origin == v then [|hs|] else []) {
      OutgoingPush(hs, h, v);
    }
  }

  /** Step 1 of `DCEL::new`: creates the twin pairs and groups them by origin. */
  method CreateHalfEdges(conn: seq<Segment>) returns (hs: seq<HalfEdge>, edgeMap: map<nat, seq<nat>>)
    ensures hs == InitialHalfEdges(conn)
    ensures GroupsOutgoing(hs, edgeMap)
  {
    hs := [];
    edgeMap := map[];
    for k := 0 to |conn|
      invariant CreatedUpTo(conn, k, hs, edgeMap)
    {
      CreateStep(conn, k, hs, edgeMap);
      var pushed := PushSegment(hs, edgeMap, conn[k]);
      hs, edgeMap := pushed.0, pushed.1;
    }
    assert conn[..|conn|] == conn;
  }

  /** The loop body of step 1: the two half-edges of one segment, each recorded under
      its origin. */
  function PushSegment(hs: seq<HalfEdge>, edgeMap: map<nat, seq<nat>>, seg: Segment): (seq<HalfEdge>, map<nat, seq<nat>>) {
    var start, end := seg.0, seg.1;
    var he1Idx := |hs|;
    var he2Idx := he1Idx + 1;
    (hs + [HalfEdge(start, he2Idx, None, None), HalfEdge(end, he1Idx, None, None)],
     AppendOutgoing(AppendOutgoing(edgeMap, start, he1Idx), end, he2Idx))
  }

  /** The loop state of `CreateHalfEdges` after the first k segments. */
  ghost predicate CreatedUpTo(conn: seq<Segment>, k: nat, hs: seq<HalfEdge>, edgeMap: map<nat, seq<nat>>)
    requires k <= |conn|
  {
    hs == InitialHalfEdges(conn[..k]) && GroupsOutgoing(hs, edgeMap)
  }

  lemma CreateStep(conn: seq<Segment>, k: nat, hs: seq<HalfEdge>, edgeMap: map<nat, seq<nat>>)
    requires k < |conn| && CreatedUpTo(conn, k, hs, edgeMap)
    ensures CreatedUpTo(conn, k + 1, PushSegment(hs, edgeMap, conn[k]).0, PushSegment(hs, edgeMap, conn[k]).1)
  {
    PushSegmentEdges(conn, k, edgeMap);
    PushSegmentGroups(hs, edgeMap, conn[k]);
  }

  lemma PushSegmentEdges(conn: seq<Segment>, k: nat, edgeMap: map<nat, seq<nat>>)
    requires k < |conn|
    ensures PushSegment(InitialHalfEdges(conn[..k]), edgeMap, conn[k]).0 == InitialHalfEdges(conn[..k + 1])
  {
    assert |conn[..k]| == k;
    InitialHalfEdgesPush(conn, k);
  }

  lemma PushSegmentGroups(hs: seq<HalfEdge>, edgeMap: map<nat, seq<nat>>, seg: Segment)
    requires GroupsOutgoing(hs, edgeMap)
    ensures GroupsOutgoing(PushSegment(hs, edgeMap, seg).0, PushSegment(hs, edgeMap, seg).1)
  {
    PushPairKeepsGrouping(hs, edgeMap, HalfEdge(seg.0, |hs| + 1, None, None), HalfEdge(seg.1, |hs|, None, None));
  }

  lemma PushPairKeepsGrouping(hs: seq<HalfEdge>, edgeMap: map<nat, seq<nat>>, h1: HalfEdge, h2: HalfEdge)
    requires GroupsOutgoing(hs, edgeMap)
    ensures GroupsOutgoing(hs + [h1, h2], AppendOutgoing(AppendOutgoing(edgeMap, h1.origin, |hs|), h2.origin, |hs| + 1))
  {
    PushKeepsGrouping(hs, edgeMap, h1);
    PushKeepsGrouping(hs + [h1], AppendOutgoing(edgeMap, h1.origin, |hs|), h2);
    assert hs + [h1] + [h2] == hs + [h1, h2];
  }

  /** Adding segment k to the first k segments adds its two half-edges at the end. */
  lemma InitialHalfEdgesPush(conn: seq<Segment>, k: nat)
    requires k < |conn|
    ensures InitialHalfEdges(conn[..k + 1])
      == InitialHalfEdges(conn[..k]) + [HalfEdge(conn[k].0, 2 * k + 1, None, None), HalfEdge(conn[k].1, 2 * k, None, None)]
  {
    var a, b := InitialHalfEdges(conn[..k + 1]), InitialHalfEdges(conn[..k]);
    var c := b + [HalfEdge(conn[k].0, 2 * k + 1, None, None), HalfEdge(conn[k].1, 2 * k, None, None)];
    forall i | 0 <= i < |a| ensures a[i] == c[i] {
      if i < 2 * k {
        assert a[i] == InitialHalfEdge(conn[..k + 1], i) && b[i] == InitialHalfEdge(conn[..k], i);
        assert (conn[..k + 1])[i / 2] == (conn[..k])[i / 2];
      } else {
        InitialPair(conn[..k + 1], k);
      }
    }
  }

  /** The two half-edges segment k contributes. */
  lemma InitialPair(conn: seq<Segment>, k: nat)
    requires k < |conn|
    ensures InitialHalfEdge(conn, 2 * k) == HalfEdge(conn[k].0, 2 * k + 1, None, None)
    ensures InitialHalfEdge(conn, 2 * k + 1) == HalfEdge(conn[k].1, 2 * k, None, None)
  {
    assert (2 * k) / 2 == k && (2 * k + 1) / 2 == k && (2 * k) % 2 == 0 && (2 * k + 1) % 2 == 1;
  }

  /** Twin pairing: every half-edge has a twin other than itself whose twin is it. */
  ghost predicate TwinsPaired(hs: seq<HalfEdge>) {
    forall e | 0 <= e < |hs| :: hs[e].twin < |hs| && hs[e].twin != e && hs[hs[e].twin].twin == e
  }

  lemma InitialTwinsPaired(conn: seq<Segment>)
    ensures TwinsPaired(InitialHalfEdges(conn))
  {
    var hs := InitialHalfEdges(conn);
    forall e | 0 <= e < |hs| ensures hs[e].twin < |hs| && hs[e].twin != e && hs[hs[e].twin].twin == e {
      if e % 2 == 0 {
        assert hs[e].twin == e + 1 && (e + 1) % 2 == 1 && (e + 1) / 2 == e / 2;
      } else {
        assert hs[e].twin == e - 1 && (e - 1) % 2 == 0 && (e - 1) / 2 == e / 2;
      }
    }
  }

  // ---------------------------------------------------------------------------
  // Step 2: the size check and the angular sort of every vertex's outgoing list.

  /** The sort key of half-edge `e` at vertex `v`: the tangent-plane angle of the
      direction from `v` towards the origin of `e`'s twin. The angle itself
      (basis construction, normalisation, `atan2`) is the `angle` parameter. */
  function AngleKey(vertices: seq<Vec3>, hs: seq<HalfEdge>, v: nat, angle: (Vec3, Vec3) -> real): nat -> real {
    (e: nat) =>
      if v < |vertices| && e < |hs| && hs[e].twin < |hs| && hs[hs[e].twin].origin < |vertices|
      then angle(vertices[v], vertices[hs[hs[e].twin].origin])
      else 0.0
  }

  /** Step 2 of `DCEL::new`: visits the keys of `edge_map` in ascending order, fails
      on the first vertex with fewer than two outgoing half-edges, and sorts each
      list by angle. */
  method SortEdgeMap(vertices: seq<Vec3>, hs: seq<HalfEdge>, edgeMap: map<nat, seq<nat>>,
                     angle: (Vec3, Vec3) -> real)
    returns (r: Result<map<nat, seq<nat>>, DcelError>)
    requires forall v | v in edgeMap :: v < |vertices|
    ensures r.Failure? <==> exists v | v in edgeMap :: |edgeMap[v]| < 2
    ensures r.Failure? ==> r.error.TooFewOutgoing?
    ensures r.Failure? && r.error.TooFewOutgoing? ==>
      var v := r.error.vertex;
      && v in edgeMap && |edgeMap[v]| < 2 && r.error.count == |edgeMap[v]|
      && forall u | u in edgeMap && u < v :: |edgeMap[u]| >= 2
    ensures r.Success? ==>
      && r.value.Keys == edgeMap.Keys
      && forall v | v in edgeMap :: r.value[v] == SortByKey(edgeMap[v], AngleKey(vertices, hs, v, angle))
  {
    var m: map<nat, seq<nat>> := edgeMap;
    for v := 0 to |vertices|
      invariant SortedBelow(vertices, hs, edgeMap, angle, m, v)
    {
      if v in m {
        if |m[v]| < 2 {
          SortStopsAt(vertices, hs, edgeMap, angle, m, v);
          return Failure(TooFewOutgoing(v, |m[v]|));
        }
        SortStep(vertices, hs, edgeMap, angle, m, v);
        m := m[v := SortByKey(m[v], AngleKey(vertices, hs, v, angle))];
      } else {
        SortSkip(vertices, hs, edgeMap, angle, m, v);
      }
    }
    SortDone(vertices, hs, edgeMap, angle, m);
    return Success(m);
  }

  /** The loop state of `SortEdgeMap`: the lists of the vertices below v are checked
      and sorted, the others untouched. */
  ghost predicate SortedBelow(vertices: seq<Vec3>, hs: seq<HalfEdge>, edgeMap: map<nat, seq<nat>>,
                              angle: (Vec3, Vec3) -> real, m: map<nat, seq<nat>>, v: nat) {
    && m.Keys == edgeMap.Keys
    && (forall u | u in edgeMap && u < v ::
          |edgeMap[u]| >= 2 && m[u] == SortByKey(edgeMap[u], AngleKey(vertices, hs, u, angle)))
    && (forall u | u in edgeMap && u >= v :: m[u] == edgeMap[u])
  }

  lemma SortStep(vertices: seq<Vec3>, hs: seq<HalfEdge>, edgeMap: map<nat, seq<nat>>,
                 angle: (Vec3, Vec3) -> real, m: map<nat, seq<nat>>, v: nat)
    requires SortedBelow(vertices, hs, edgeMap, angle, m, v) && v in m && |m[v]| >= 2
    ensures SortedBelow(vertices, hs, edgeMap, angle, m[v := SortByKey(m[v], AngleKey(vertices, hs, v, angle))], v + 1)
  {
    var m' := m[v := SortByKey(m[v], AngleKey(vertices, hs, v, angle))];
    assert m'.Keys == edgeMap.Keys;
    SortStepBelow(vertices, hs, edgeMap, angle, m, v);
    SortStepAbove(vertices, hs, edgeMap, angle, m, v);
  }

  lemma SortStepBelow(vertices: seq<Vec3>, hs: seq<HalfEdge>, edgeMap: map<nat, seq<nat>>,
                      angle: (Vec3, Vec3) -> real, m: map<nat, seq<nat>>, v: nat)
    requires SortedBelow(vertices, hs, edgeMap, angle, m, v) && v in m && |m[v]| >= 2
    ensures forall u | u in edgeMap && u < v + 1 ::
      |edgeMap[u]| >= 2
      && m[v := SortByKey(m[v], AngleKey(vertices, hs, v, angle))][u] == SortByKey(edgeMap[u], AngleKey(vertices, hs, u, angle))
  {
    forall u | u in edgeMap && u < v + 1
      ensures |edgeMap[u]| >= 2
      && m[v := SortByKey(m[v], AngleKey(vertices, hs, v, angle))][u] == SortByKey(edgeMap[u], AngleKey(vertices, hs, u, angle))
    {
      SortStepAt(vertices, hs, edgeMap, angle, m, v, u);
    }
  }

  lemma SortStepAbove(vertices: seq<Vec3>, hs: seq<HalfEdge>, edgeMap: map<nat, seq<nat>>,
                      angle: (Vec3, Vec3) -> real, m: map<nat, seq<nat>>, v: nat)
    requires SortedBelow(vertices, hs, edgeMap, angle, m, v) && v in m
    ensures forall u | u in edgeMap && u >= v + 1 ::
      m[v := SortByKey(m[v], AngleKey(vertices, hs, v, angle))][u] == edgeMap[u]
  {
    var m' := m[v := SortByKey(m[v], AngleKey(vertices, hs, v, angle))];
    forall u | u in edgeMap && u >= v + 1 ensures m'[u] == edgeMap[u] {
      assert m'[u] == m[u];
    }
  }

  lemma SortStepAt(vertices: seq<Vec3>, hs: seq<HalfEdge>, edgeMap: map<nat, seq<nat>>,
                   angle: (Vec3, Vec3) -> real, m: map<nat, seq<nat>>, v: nat, u: nat)
    requires SortedBelow(vertices, hs, edgeMap, angle, m, v) && v in m && |m[v]| >= 2
    requires u in edgeMap && u <= v
    ensures |edgeMap[u]| >= 2
    ensures m[v := SortByKey(m[v], AngleKey(vertices, hs, v, angle))][u] == SortByKey(edgeMap[u], AngleKey(vertices, hs, u, angle))
  {
    if u == v {
      assert m[v] == edgeMap[v];
    }
  }

  lemma SortSkip(vertices: seq<Vec3>, hs: seq<HalfEdge>, edgeMap: map<nat, seq<nat>>,
                 angle: (Vec3, Vec3) -> real, m: map<nat, seq<nat>>, v: nat)
    requires SortedBelow(vertices, hs, edgeMap, angle, m, v) && v !in m
    ensures SortedBelow(vertices, hs, edgeMap, angle, m, v + 1)
  {
  }

  lemma SortStopsAt(vertices: seq<Vec3>, hs: seq<HalfEdge>, edgeMap: map<nat, seq<nat>>,
                    angle: (Vec3, Vec3) -> real, m: map<nat, seq<nat>>, v: nat)
    requires SortedBelow(vertices, hs, edgeMap, angle, m, v) && v in m && |m[v]| < 2
    ensures v in edgeMap && |edgeMap[v]| < 2 && m[v] == edgeMap[v]
    ensures forall u | u in edgeMap && u < v :: |edgeMap[u]| >= 2
  {
  }

  lemma SortDone(vertices: seq<Vec3>, hs: seq<HalfEdge>, edgeMap: map<nat, seq<nat>>,
                 angle: (Vec3, Vec3) -> real, m: map<nat, seq<nat>>)
    requires forall v | v in edgeMap :: v < |vertices|
    requires SortedBelow(vertices, hs, edgeMap, angle, m, |vertices|)
    ensures !exists v | v in edgeMap :: |edgeMap[v]| < 2
    ensures m.Keys == edgeMap.Keys
    ensures forall v | v in edgeMap :: m[v] == SortByKey(edgeMap[v], AngleKey(vertices, hs, v, angle))
  {
  }

  /** What linking needs of the sorted map: each list holds exactly the half-edges
      leaving its vertex, once each, and is not empty. */
  ghost predicate RotationSystem(hs: seq<HalfEdge>, rot: map<nat, seq<nat>>) {
    && (forall v | v in rot :: |rot[v]| >= 1 && Distinct(rot[v]))
    && (forall v, j | v in rot && 0 <= j < |rot[v]| :: rot[v][j] < |hs| && hs[rot[v][j]].origin == v)
    && (forall e | 0 <= e < |hs| :: hs[e].origin in rot && e in rot[hs[e].origin])
  }

  lemma {:induction false} DistinctMultiplicity(s: seq<nat>)
    ensures Distinct(s) <==> forall x :: multiset(s)[x] <= 1
  {
    if s != [] {
      var init, y := s[..|s| - 1], s[|s| - 1];
      assert s == init + [y];
      DistinctMultiplicity(init);
      if Distinct(s) {
        assert Distinct(init);
        forall i | 0 <= i < |init| ensures init[i] != y {
          assert s[i] != s[|s| - 1];
        }
        assert y !in init;
      } else {
        var i, j :| 0 <= i < j < |s| && s[i] == s[j];
        if j < |s| - 1 {
          assert init[i] == init[j];
          var x :| multiset(init)[x] > 1;
          assert multiset(s)[x] == multiset(init)[x] + multiset([y])[x];
        } else {
          assert init[i] == y;
          assert y in multiset(init);
          assert multiset(s)[y] == multiset(init)[y] + 1;
        }
      }
    }
  }

  /** A list with the same elements as a duplicate-free list is duplicate-free. */
  lemma PermutationDistinct(s: seq<nat>, t: seq<nat>)
    requires multiset(s) == multiset(t) && Distinct(t)
    ensures Distinct(s)
  {
    DistinctMultiplicity(s);
    DistinctMultiplicity(t);
  }

  /** The map that step 2 produces on success: the sorted outgoing lists. */
  ghost function Rotation(vertices: seq<Vec3>, hs: seq<HalfEdge>, angle: (Vec3, Vec3) -> real): map<nat, seq<nat>> {
    map v | 0 <= v < |vertices| && Outgoing(hs, v) != [] :: SortByKey(Outgoing(hs, v), AngleKey(vertices, hs, v, angle))
  }

  /** The sorted list at one vertex holds the half-edges leaving it, once each. */
  lemma SortedOutgoing(hs: seq<HalfEdge>, v: nat, key: nat -> real)
    requires Outgoing(hs, v) != []
    ensures var sorted := SortByKey(Outgoing(hs, v), key);
      && |sorted| >= 1 && Distinct(sorted)
      && forall x: nat :: x in sorted <==> x < |hs| && hs[x].origin == v
  {
    var out := Outgoing(hs, v);
    var sorted := SortByKey(out, key);
    OutgoingMembers(hs, v);
    OutgoingDistinct(hs, v);
    PermutationDistinct(sorted, out);
    forall x: nat ensures x in sorted <==> x in out {
      assert x in sorted <==> x in multiset(sorted);
      assert x in out <==> x in multiset(out);
    }
  }

  lemma RotationIsRotationSystem(vertices: seq<Vec3>, hs: seq<HalfEdge>, angle: (Vec3, Vec3) -> real)
    requires forall e | 0 <= e < |hs| :: hs[e].origin < |vertices|
    ensures RotationSystem(hs, Rotation(vertices, hs, angle))
  {
    RotationLists(vertices, hs, angle);
    var rot := Rotation(vertices, hs, angle);
    forall e | 0 <= e < |hs| ensures hs[e].origin in rot && e in rot[hs[e].origin] {
      OutgoingMembers(hs, hs[e].origin);
      assert e in Outgoing(hs, hs[e].origin);
    }
    forall v, j | v in rot && 0 <= j < |rot[v]| ensures rot[v][j] < |hs| && hs[rot[v][j]].origin == v {
      assert rot[v][j] in rot[v];
    }
  }

  /** Each sorted list is non-empty, repeats nothing and holds exactly the half-edges
      leaving its vertex. */
  lemma RotationLists(vertices: seq<Vec3>, hs: seq<HalfEdge>, angle: (Vec3, Vec3) -> real)
    requires forall e | 0 <= e < |hs| :: hs[e].origin < |vertices|
    ensures var rot := Rotation(vertices, hs, angle);
      forall v | v in rot :: |rot[v]| >= 1 && Distinct(rot[v]) && forall x: nat :: x in rot[v] <==> x < |hs| && hs[x].origin == v
  {
    var rot := Rotation(vertices, hs, angle);
    forall v | v in rot ensures |rot[v]| >= 1 && Distinct(rot[v])
      && forall x: nat :: x in rot[v] <==> x < |hs| && hs[x].origin == v
    {
      SortedOutgoing(hs, v, AngleKey(vertices, hs, v, angle));
    }
  }

  // ---------------------------------------------------------------------------
  // Step 3: `next` links by rotation order.

  function IndexOf(s: seq<nat>, x: nat): (i: nat)
    requires x in s
    ensures i < |s| && s[i] == x
    ensures Distinct(s) ==> forall j | 0 <= j < |s| && s[j] == x :: j == i
  {
    if s[0] == x then 0 else 1 + IndexOf(s[1..], x)
  }

  /** The half-edge that linking makes the `next` of `e`: at the vertex where `e`
      ends (the origin of its twin), the successor of `twin(e)` in rotation order. */
  ghost function Target(hs: seq<HalfEdge>, rot: map<nat, seq<nat>>, e: nat): nat
    requires e < |hs| && TwinsPaired(hs) && RotationSystem(hs, rot)
  {
    var tw := hs[e].twin;
    var rotation := rot[hs[tw].origin];
    rotation[(IndexOf(rotation, tw) + 1) % |rotation|]
  }

  /** `(i + n - 1) % n`: the position before `i` in a cyclic list of length `n`. */
  function CyclicPrev(i: nat, n: nat): (p: nat)
    requires i < n
    ensures p == if i == 0 then n - 1 else i - 1
  {
    ModPrev(i, n);
    (i + n - 1) % n
  }

  lemma ModPrev(i: nat, n: nat)
    requires i < n
    ensures (i + n - 1) % n == if i == 0 then n - 1 else i - 1
  {
  }

  lemma ModNext(j: nat, n: nat)
    requires j < n
    ensures (j + 1) % n == if j == n - 1 then 0 else j + 1
  {
  }

  /** A partial linking: only `next` fields have changed, and each one set points
      at its target. */
  ghost predicate PartlyLinked(hs0: seq<HalfEdge>, rot: map<nat, seq<nat>>, hs: seq<HalfEdge>)
    requires TwinsPaired(hs0) && RotationSystem(hs0, rot)
  {
    && |hs| == |hs0|
    && (forall e | 0 <= e < |hs| :: hs[e] == hs0[e].(next := hs[e].next))
    && (forall e | 0 <= e < |hs| && hs[e].next.Some? :: hs[e].next.value == Target(hs0, rot, e))
  }

  /** `he.next = Some(h)` on the half-edge at index `t`. */
  function SetNext(hs: seq<HalfEdge>, t: nat, h: nat): (r: seq<HalfEdge>)
    requires t < |hs|
    ensures r == hs[t := hs[t].(next := Some(h))]
  {
    hs[t := hs[t].(next := Some(h))]
  }

  /** The state of the inner loop of step 3 after the first `i` outgoing half-edges
      of `v`: the links set so far are correct, none set before is lost, and the
      twins of the last and of the first i - 1 outgoing half-edges are linked. */
  ghost predicate LinkProgress(hs0: seq<HalfEdge>, rot: map<nat, seq<nat>>, hs: seq<HalfEdge>, hs': seq<HalfEdge>, v: nat, i: nat)
    requires TwinsPaired(hs0) && RotationSystem(hs0, rot) && v in rot
  {
    var outgoing := rot[v];
    var n := |outgoing|;
    && PartlyLinked(hs0, rot, hs')
    && |hs| == |hs'|
    && (forall e | 0 <= e < |hs| && hs[e].next.Some? :: hs'[e].next.Some?)
    && (i >= 1 ==> hs'[hs0[outgoing[n - 1]].twin].next.Some?)
    && (forall j | 0 <= j < i - 1 && j < n :: hs'[hs0[outgoing[j]].twin].next.Some?)
  }

  /** At vertex `v`, the target of the twin of the outgoing half-edge at position `p`,
      the one before position `i` (cyclically), is the one at position `i`. */
  lemma TargetOfPreviousTwin(hs0: seq<HalfEdge>, rot: map<nat, seq<nat>>, v: nat, i: nat, p: nat)
    requires TwinsPaired(hs0) && RotationSystem(hs0, rot) && v in rot && i < |rot[v]|
    requires p == if i == 0 then |rot[v]| - 1 else i - 1
    ensures rot[v][p] < |hs0| && Target(hs0, rot, hs0[rot[v][p]].twin) == rot[v][i]
  {
    var tPrev := hs0[rot[v][p]].twin;
    ModNext(p, |rot[v]|);
    assert hs0[tPrev].twin == rot[v][p];
    assert IndexOf(rot[v], rot[v][p]) == p;
  }

  /** One iteration of the inner loop of step 3 links the twin of the previous
      outgoing half-edge, at position `p`, to the current one, which is its target. */
  lemma LinkOne(hs0: seq<HalfEdge>, rot: map<nat, seq<nat>>, hs: seq<HalfEdge>, hs': seq<HalfEdge>, v: nat, i: nat, p: nat)
    requires TwinsPaired(hs0) && RotationSystem(hs0, rot) && v in rot && i < |rot[v]|
    requires p == if i == 0 then |rot[v]| - 1 else i - 1
    requires LinkProgress(hs0, rot, hs, hs', v, i)
    ensures var t := hs'[rot[v][p]].twin;
      t < |hs'| && LinkProgress(hs0, rot, hs, SetNext(hs', t, rot[v][i]), v, i + 1)
  {
    var tPrev := hs'[rot[v][p]].twin;
    assert tPrev == hs0[rot[v][p]].twin && tPrev < |hs'| && Target(hs0, rot, tPrev) == rot[v][i] by {
      TargetOfPreviousTwin(hs0, rot, v, i, p);
      assert hs'[rot[v][p]] == hs0[rot[v][p]].(next := hs'[rot[v][p]].next);
    }
    var hs'' := SetNext(hs', tPrev, rot[v][i]);
    assert PartlyLinked(hs0, rot, hs'') by {
      SetNextKeepsPartlyLinked(hs0, rot, hs', tPrev, rot[v][i]);
    }
    LinkOneCovers(hs0, rot, hs', v, i, p, tPrev, rot[v][i]);
    assert forall e | 0 <= e < |hs| && hs[e].next.Some? :: hs''[e].next.Some? by {
      forall e | 0 <= e < |hs| && hs[e].next.Some? ensures hs''[e].next.Some? {
        assert hs'[e].next.Some?;
      }
    }
  }

  /** Linking the twin of the previous outgoing half-edge extends the linked prefix
      by one, and loses no earlier link. */
  lemma LinkOneCovers(hs0: seq<HalfEdge>, rot: map<nat, seq<nat>>, hs': seq<HalfEdge>, v: nat, i: nat, p: nat, t: nat, h: nat)
    requires TwinsPaired(hs0) && RotationSystem(hs0, rot) && v in rot && i < |rot[v]|
    requires p == if i == 0 then |rot[v]| - 1 else i - 1
    requires |hs'| == |hs0| && t == hs0[rot[v][p]].twin
    requires i >= 1 ==> hs'[hs0[rot[v][|rot[v]| - 1]].twin].next.Some?
    requires forall j | 0 <= j < i - 1 && j < |rot[v]| :: hs'[hs0[rot[v][j]].twin].next.Some?
    ensures forall e | 0 <= e < |hs'| && hs'[e].next.Some? :: SetNext(hs', t, h)[e].next.Some?
    ensures SetNext(hs', t, h)[hs0[rot[v][|rot[v]| - 1]].twin].next.Some?
    ensures forall j | 0 <= j < i && j < |rot[v]| :: SetNext(hs', t, h)[hs0[rot[v][j]].twin].next.Some?
  {
    var hs'' := SetNext(hs', t, h);
    forall j | 0 <= j < i && j < |rot[v]| ensures hs''[hs0[rot[v][j]].twin].next.Some? {
      if j < i - 1 {
        assert hs'[hs0[rot[v][j]].twin].next.Some?;
      }
    }
  }

  /** Setting one `next` to its target keeps a partial linking. */
  lemma SetNextKeepsPartlyLinked(hs0: seq<HalfEdge>, rot: map<nat, seq<nat>>, hs: seq<HalfEdge>, t: nat, h: nat)
    requires TwinsPaired(hs0) && RotationSystem(hs0, rot)
    requires PartlyLinked(hs0, rot, hs) && t < |hs| && h == Target(hs0, rot, t)
    ensures PartlyLinked(hs0, rot, SetNext(hs, t, h))
  {
    var hs' := SetNext(hs, t, h);
    forall e | 0 <= e < |hs'| ensures hs'[e] == hs0[e].(next := hs'[e].next) {
      if e != t {
        assert hs'[e] == hs[e];
      }
    }
  }

  /** The inner loop of step 3 for the outgoing list of one vertex `v`. */
  method LinkVertex(hs0: seq<HalfEdge>, rot: map<nat, seq<nat>>, hs: seq<HalfEdge>, v: nat)
    returns (hs': seq<HalfEdge>)
    requires TwinsPaired(hs0) && RotationSystem(hs0, rot) && v in rot
    requires PartlyLinked(hs0, rot, hs)
    ensures PartlyLinked(hs0, rot, hs')
    ensures forall e | 0 <= e < |hs| && hs[e].next.Some? :: hs'[e].next.Some?
    ensures forall j | 0 <= j < |rot[v]| :: hs'[hs0[rot[v][j]].twin].next.Some?
  {
    hs' := hs;
    LinkStart(hs0, rot, hs, v);
    for i := 0 to |rot[v]|
      invariant LinkProgress(hs0, rot, hs, hs', v, i)
    {
      hs' := LinkAt(hs0, rot, hs, hs', v, i);
    }
    LinkDone(hs0, rot, hs, hs', v);
  }

  /** One iteration of the inner loop: `twin(prev).next := curr`. */
  method LinkAt(hs0: seq<HalfEdge>, rot: map<nat, seq<nat>>, hs: seq<HalfEdge>, hs': seq<HalfEdge>, v: nat, i: nat)
    returns (hs'': seq<HalfEdge>)
    requires TwinsPaired(hs0) && RotationSystem(hs0, rot) && v in rot && i < |rot[v]|
    requires LinkProgress(hs0, rot, hs, hs', v, i)
    ensures LinkProgress(hs0, rot, hs, hs'', v, i + 1)
  {
    var p := CyclicPrev(i, |rot[v]|);
    LinkOne(hs0, rot, hs, hs', v, i, p);
    var tPrev := hs'[rot[v][p]].twin;
    hs'' := SetNext(hs', tPrev, rot[v][i]);
  }

  lemma LinkStart(hs0: seq<HalfEdge>, rot: map<nat, seq<nat>>, hs: seq<HalfEdge>, v: nat)
    requires TwinsPaired(hs0) && RotationSystem(hs0, rot) && v in rot
    requires PartlyLinked(hs0, rot, hs)
    ensures LinkProgress(hs0, rot, hs, hs, v, 0)
  {
  }

  lemma LinkDone(hs0: seq<HalfEdge>, rot: map<nat, seq<nat>>, hs: seq<HalfEdge>, hs': seq<HalfEdge>, v: nat)
    requires TwinsPaired(hs0) && RotationSystem(hs0, rot) && v in rot
    requires LinkProgress(hs0, rot, hs, hs', v, |rot[v]|)
    ensures PartlyLinked(hs0, rot, hs')
    ensures forall e | 0 <= e < |hs| && hs[e].next.Some? :: hs'[e].next.Some?
    ensures forall j | 0 <= j < |rot[v]| :: hs'[hs0[rot[v][j]].twin].next.Some?
  {
    var n := |rot[v]|;
    forall j | 0 <= j < n ensures hs'[hs0[rot[v][j]].twin].next.Some? {
      if j == n - 1 {
        assert n >= 1;
      }
    }
  }

  /** Step 3 of `DCEL::new`: at each vertex, for consecutive outgoing half-edges
      (prev, curr) in rotation order, `twin(prev).next := curr`. */
  method LinkNext(hs0: seq<HalfEdge>, rot: map<nat, seq<nat>>, n: nat) returns (hs: seq<HalfEdge>)
    requires TwinsPaired(hs0) && RotationSystem(hs0, rot)
    requires forall v | v in rot :: v < n
    requires forall e | 0 <= e < |hs0| :: hs0[e].next.None?
    ensures |hs| == |hs0|
    ensures forall e | 0 <= e < |hs| :: hs[e] == hs0[e].(next := Some(Target(hs0, rot, e)))
  {
    hs := hs0;
    for v := 0 to n
      invariant LinkedBelow(hs0, rot, hs, v)
    {
      if v in rot {
        var hs' := LinkVertex(hs0, rot, hs, v);
        LinkedBelowStep(hs0, rot, hs, hs', v);
        hs := hs';
      }
    }
    LinkNextDone(hs0, rot, hs, n);
  }

  /** The state of step 3 before vertex `v`: a partial linking in which the twin of
      every outgoing half-edge of every vertex below `v` is linked. */
  ghost predicate LinkedBelow(hs0: seq<HalfEdge>, rot: map<nat, seq<nat>>, hs: seq<HalfEdge>, v: nat)
    requires TwinsPaired(hs0) && RotationSystem(hs0, rot)
  {
    && PartlyLinked(hs0, rot, hs)
    && (forall u, j | u in rot && u < v && 0 <= j < |rot[u]| :: hs[hs0[rot[u][j]].twin].next.Some?)
  }

  lemma LinkedBelowStep(hs0: seq<HalfEdge>, rot: map<nat, seq<nat>>, hs: seq<HalfEdge>, hs': seq<HalfEdge>, v: nat)
    requires TwinsPaired(hs0) && RotationSystem(hs0, rot) && v in rot
    requires LinkedBelow(hs0, rot, hs, v)
    requires PartlyLinked(hs0, rot, hs')
    requires forall e | 0 <= e < |hs| && hs[e].next.Some? :: hs'[e].next.Some?
    requires forall j | 0 <= j < |rot[v]| :: hs'[hs0[rot[v][j]].twin].next.Some?
    ensures LinkedBelow(hs0, rot, hs', v + 1)
  {
    forall u, j | u in rot && u < v + 1 && 0 <= j < |rot[u]| ensures hs'[hs0[rot[u][j]].twin].next.Some? {
      if u < v {
        var e := hs0[rot[u][j]].twin;
        assert hs[e].next.Some?;
      }
    }
  }

  /** After the last vertex, every half-edge is linked to its target. */
  lemma LinkNextDone(hs0: seq<HalfEdge>, rot: map<nat, seq<nat>>, hs: seq<HalfEdge>, n: nat)
    requires TwinsPaired(hs0) && RotationSystem(hs0, rot)
    requires forall v | v in rot :: v < n
    requires LinkedBelow(hs0, rot, hs, n)
    ensures forall e | 0 <= e < |hs| :: hs[e] == hs0[e].(next := Some(Target(hs0, rot, e)))
  {
    forall e | 0 <= e < |hs| ensures hs[e].next.Some? {
      var tw := hs0[e].twin;
      var w := hs0[tw].origin;
      var j := IndexOf(rot[w], tw);
      assert hs0[rot[w][j]].twin == e;
    }
  }

  /** Linking points every half-edge at a half-edge leaving the vertex where it ends. */
  lemma TargetContinues(hs: seq<HalfEdge>, rot: map<nat, seq<nat>>, e: nat)
    requires TwinsPaired(hs) && RotationSystem(hs, rot) && e < |hs|
    ensures Target(hs, rot, e) < |hs|
    ensures hs[Target(hs, rot, e)].origin == hs[hs[e].twin].origin
  {
    var tw := hs[e].twin;
    var L := rot[hs[tw].origin];
    var q := (IndexOf(L, tw) + 1) % |L|;
    assert L[q] < |hs| && hs[L[q]].origin == hs[tw].origin;
  }

  /** No two half-edges are linked to the same successor. */
  lemma TargetInjective(hs: seq<HalfEdge>, rot: map<nat, seq<nat>>, e1: nat, e2: nat)
    requires TwinsPaired(hs) && RotationSystem(hs, rot) && e1 < |hs| && e2 < |hs|
    requires Target(hs, rot, e1) == Target(hs, rot, e2)
    ensures e1 == e2
  {
    var t1, t2 := hs[e1].twin, hs[e2].twin;
    var w1, w2 := hs[t1].origin, hs[t2].origin;
    var L1, L2 := rot[w1], rot[w2];
    var p1, p2 := IndexOf(L1, t1), IndexOf(L2, t2);
    var q1, q2 := (p1 + 1) % |L1|, (p2 + 1) % |L2|;
    assert hs[L1[q1]].origin == w1 && hs[L2[q2]].origin == w2;
    assert w1 == w2;
    ModNext(p1, |L1|);
    ModNext(p2, |L1|);
    assert q1 == q2;
    assert p1 == p2;
    assert hs[t1].twin == e1 && hs[t2].twin == e2;
  }

  /** Every half-edge is the successor of some half-edge. */
  lemma TargetSurjective(hs: seq<HalfEdge>, rot: map<nat, seq<nat>>, h: nat)
    requires TwinsPaired(hs) && RotationSystem(hs, rot) && h < |hs|
    ensures exists e: nat :: e < |hs| && Target(hs, rot, e) == h
  {
    var w := hs[h].origin;
    var L := rot[w];
    var i := IndexOf(L, h);
    ModPrev(i, |L|);
    var p := (i + |L| - 1) % |L|;
    var e := hs[L[p]].twin;
    assert hs[e].twin == L[p];
    assert IndexOf(L, L[p]) == p;
    ModNext(p, |L|);
    assert Target(hs, rot, e) == h;
  }

  // ---------------------------------------------------------------------------
  // Walking `next`.

  /** The origin of half-edge `e`, and 0 for an index outside the arena. */
  function OriginOf(hs: seq<HalfEdge>, e: nat): nat {
    if e < |hs| then hs[e].origin else 0
  }

  /** The face of half-edge `e`, and `None` for an index outside the arena. */
  function FaceOf(hs: seq<HalfEdge>, e: nat): Option<nat> {
    if e < |hs| then hs[e].face else None
  }

  /** The `next` index of `e`, or `e` itself where there is none. */
  function Next(hs: seq<HalfEdge>, e: nat): nat {
    if e < |hs| && hs[e].next.Some? then hs[e].next.value else e
  }

  /** The half-edge reached from `e` by following `next` k times. */
  ghost function Advance(hs: seq<HalfEdge>, e: nat, k: nat): nat {
    if k == 0 then e else Next(hs, Advance(hs, e, k - 1))
  }

  /** The origin of the half-edge reached after i steps from s. */
  ghost function OriginAt(hs: seq<HalfEdge>, s: nat, i: nat): nat {
    OriginOf(hs, Advance(hs, s, i))
  }

  /** The face (in `marked`) of the half-edge reached after i steps from s along `links`. */
  ghost function FaceAt(links: seq<HalfEdge>, marked: seq<HalfEdge>, s: nat, i: nat): Option<nat> {
    FaceOf(marked, Advance(links, s, i))
  }

  ghost predicate Linked(hs: seq<HalfEdge>) {
    forall e | 0 <= e < |hs| :: hs[e].next.Some? && hs[e].next.value < |hs|
  }

  ghost predicate NextInjective(hs: seq<HalfEdge>) {
    forall e1, e2 | 0 <= e1 < |hs| && 0 <= e2 < |hs| && Next(hs, e1) == Next(hs, e2) :: e1 == e2
  }

  /** Some half-edge has `h` as its `next`. */
  ghost predicate HasPredecessor(hs: seq<HalfEdge>, h: nat) {
    exists e: nat :: e < |hs| && Next(hs, e) == h
  }

  ghost predicate NextSurjective(hs: seq<HalfEdge>) {
    forall h | 0 <= h < |hs| :: HasPredecessor(hs, h)
  }

  /** `next(e)` starts where `e` ends. */
  ghost predicate NextContinues(hs: seq<HalfEdge>) {
    forall e {:trigger OriginOf(hs, Next(hs, e))} | 0 <= e < |hs| ::
      Next(hs, e) < |hs| && hs[e].twin < |hs| && OriginOf(hs, Next(hs, e)) == OriginOf(hs, hs[e].twin)
  }

  /** Every half-edge has a face, every face's representative belongs to it, and
      `next` stays inside a face. */
  ghost predicate FacesAssigned(hs: seq<HalfEdge>, faces: seq<Face>) {
    && (forall e | 0 <= e < |hs| :: hs[e].face.Some? && hs[e].face.value < |faces|)
    && (forall f | 0 <= f < |faces| :: faces[f].edge < |hs| && hs[faces[f].edge].face == Some(f))
    && (forall e {:trigger FaceOf(hs, Next(hs, e))} | 0 <= e < |hs| :: Next(hs, e) < |hs| && FaceOf(hs, Next(hs, e)) == hs[e].face)
  }

  /** Each face is one `next` cycle: every half-edge of face f is reached from
      the face's representative. */
  ghost predicate FacesAreCycles(hs: seq<HalfEdge>, faces: seq<Face>) {
    forall e | 0 <= e < |hs| && hs[e].face.Some? && hs[e].face.value < |faces| ::
      exists k: nat :: Advance(hs, faces[hs[e].face.value].edge, k) == e
  }

  /** Faces are numbered in discovery order: by their least half-edge, which is
      their representative. */
  ghost predicate FacesInDiscoveryOrder(hs: seq<HalfEdge>, faces: seq<Face>) {
    && (forall e | 0 <= e < |hs| && hs[e].face.Some? && hs[e].face.value < |faces| ::
          faces[hs[e].face.value].edge <= e)
    && (forall f, g | 0 <= f < g < |faces| :: faces[f].edge < faces[g].edge)
  }

  /** The structure `DCEL::new` returns. */
  ghost predicate Valid(d: Dcel) {
    var hs := d.halfEdges;
    && (forall e | 0 <= e < |hs| :: hs[e].origin < |d.vertices|)
    && TwinsPaired(hs)
    && Linked(hs)
    && NextInjective(hs)
    && NextSurjective(hs)
    && NextContinues(hs)
    && FacesAssigned(hs, d.faces)
    && FacesAreCycles(hs, d.faces)
    && FacesInDiscoveryOrder(hs, d.faces)
  }

  lemma {:induction false} AdvanceInRange(hs: seq<HalfEdge>, s: nat, k: nat)
    requires Linked(hs) && s < |hs|
    ensures Advance(hs, s, k) < |hs|
  {
    if k > 0 {
      AdvanceInRange(hs, s, k - 1);
    }
  }

  /** Until the walk from `s` returns to `s`, it never repeats a half-edge. */
  lemma {:induction false} AdvanceNoRepeat(hs: seq<HalfEdge>, s: nat, i: nat, j: nat)
    requires Linked(hs) && NextInjective(hs) && s < |hs|
    requires i < j
    requires forall m: nat | 0 < m <= j :: Advance(hs, s, m) != s
    ensures Advance(hs, s, i) != Advance(hs, s, j)
  {
    if i > 0 {
      AdvanceNoRepeat(hs, s, i - 1, j - 1);
      AdvanceInRange(hs, s, i - 1);
      AdvanceInRange(hs, s, j - 1);
    }
  }

  /** Pigeonhole: a duplicate-free list of indices below n has at most n entries. */
  lemma {:induction false} DistinctBound(s: seq<nat>, n: nat)
    requires Distinct(s) && forall i | 0 <= i < |s| :: s[i] < n
    ensures |s| <= n
    decreases n
  {
    assert s != [] ==> s[0] < n;
    if s == [] {
    } else if i :| 0 <= i < |s| && s[i] == n - 1 {
      var t := s[..i] + s[i + 1..];
      assert forall k | 0 <= k < |t| :: t[k] == if k < i then s[k] else s[k + 1];
      forall k | 0 <= k < |t| ensures t[k] < n - 1 {
        if k < i {
          assert s[k] != s[i];
        } else {
          assert s[k + 1] != s[i];
        }
      }
      forall k, l | 0 <= k < l < |t| ensures t[k] != t[l] {
        if l < i {
        } else if k < i {
          assert s[k] != s[l + 1];
        } else {
          assert s[k + 1] != s[l + 1];
        }
      }
      DistinctBound(t, n - 1);
    } else {
      forall k | 0 <= k < |s| ensures s[k] < n - 1 {
      }
      DistinctBound(s, n - 1);
    }
  }

  /** A walk that has not come back to `s` after k steps has visited k + 1 distinct
      half-edges, so k is less than the number of half-edges. */
  lemma WalkBound(hs: seq<HalfEdge>, s: nat, k: nat)
    requires Linked(hs) && NextInjective(hs) && s < |hs|
    requires forall m: nat | 0 < m <= k :: Advance(hs, s, m) != s
    ensures k < |hs|
  {
    var walk := seq(k + 1, i requires 0 <= i < k + 1 => Advance(hs, s, i));
    forall i, j | 0 <= i < j < |walk| ensures walk[i] != walk[j] {
      AdvanceNoRepeat(hs, s, i, j);
    }
    forall i | 0 <= i < |walk| ensures walk[i] < |hs| {
      AdvanceInRange(hs, s, i);
    }
    DistinctBound(walk, |hs|);
  }

  lemma {:induction false} AdvanceSameLinks(a: seq<HalfEdge>, b: seq<HalfEdge>, s: nat, k: nat)
    requires |a| == |b| && forall e | 0 <= e < |a| :: a[e].next == b[e].next
    ensures Advance(a, s, k) == Advance(b, s, k)
  {
    if k > 0 {
      AdvanceSameLinks(a, b, s, k - 1);
    }
  }

  // ---------------------------------------------------------------------------
  // Step 4: face discovery.

  /** Faces already assigned are closed under `next` in both directions. */
  ghost predicate FacesClosed(links: seq<HalfEdge>, hs: seq<HalfEdge>) {
    && (forall e {:trigger FaceOf(hs, Next(links, e))} | 0 <= e < |hs| && hs[e].face.Some? ::
          FaceOf(hs, Next(links, e)) == hs[e].face)
    && (forall e {:trigger FaceOf(hs, Next(links, e))} | 0 <= e < |hs| && FaceOf(hs, Next(links, e)).Some? ::
          hs[e].face == FaceOf(hs, Next(links, e)))
  }

  /** The state of the walk inside step 4 after k steps from `he`: `marked` is `hs`
      with the first k half-edges of the walk given face `faceIdx`, and `walk` records
      how many steps from `he` each newly marked half-edge lies. */
  ghost predicate Walked(links: seq<HalfEdge>, hs: seq<HalfEdge>, marked: seq<HalfEdge>, walk: map<nat, nat>,
                         he: nat, faceIdx: nat, k: nat) {
    && |marked| == |hs| == |links|
    && (forall e | 0 <= e < |hs| :: marked[e] == hs[e].(face := marked[e].face))
    && (forall e | 0 <= e < |hs| && hs[e].face.Some? :: marked[e] == hs[e])
    && (forall e | 0 <= e < |hs| && hs[e].face.None? && marked[e].face.Some? ::
          marked[e].face == Some(faceIdx) && e in walk && walk[e] < k && Advance(links, he, walk[e]) == e)
    && (forall i: nat | i < k :: FaceAt(links, marked, he, i) == Some(faceIdx))
  }

  /** Marking the half-edge k steps along extends the walk by one. */
  lemma MarkStep(links: seq<HalfEdge>, hs: seq<HalfEdge>, marked: seq<HalfEdge>, walk: map<nat, nat>,
                 he: nat, faceIdx: nat, k: nat, curr: nat)
    requires Walked(links, hs, marked, walk, he, faceIdx, k)
    requires curr == Advance(links, he, k) && curr < |hs| && marked[curr].face.None?
    ensures Walked(links, hs, marked[curr := marked[curr].(face := Some(faceIdx))], walk[curr := k], he, faceIdx, k + 1)
  {
    var marked' := marked[curr := marked[curr].(face := Some(faceIdx))];
    forall i: nat | i < k + 1 ensures FaceAt(links, marked', he, i) == Some(faceIdx) {
      if Advance(links, he, i) != curr {
        assert FaceAt(links, marked, he, i) == Some(faceIdx);
      }
    }
  }

  /** While the walk has not closed, the half-edge after `curr` is unmarked: not on
      this walk (its predecessor on the walk would be `curr`, which is unmarked) and
      not on an earlier face (`curr` would be on that face too). */
  lemma StepFresh(links: seq<HalfEdge>, hs: seq<HalfEdge>, marked: seq<HalfEdge>, walk: map<nat, nat>,
                  he: nat, faceIdx: nat, k: nat, curr: nat)
    requires Linked(links) && NextInjective(links) && he < |links|
    requires Walked(links, hs, marked, walk, he, faceIdx, k)
    requires FacesClosed(links, hs)
    requires curr < |hs| && curr == Advance(links, he, k) && marked[curr].face.None?
    requires Next(links, curr) != he
    ensures Next(links, curr) != curr && marked[Next(links, curr)].face.None?
  {
    var next := Next(links, curr);
    assert hs[curr].face.None?;
    assert hs[next].face.None? by {
      var f := FaceOf(hs, Next(links, curr));
    }
    assert next != curr by {
      if k > 0 {
        AdvanceInRange(links, he, k - 1);
        var before := Advance(links, he, k - 1);
        assert FaceAt(links, marked, he, k - 1) == Some(faceIdx);
        assert Next(links, before) == curr;
      }
    }
    assert next !in walk || walk[next] >= k || Advance(links, he, walk[next]) != next by {
      if next in walk && walk[next] < k && Advance(links, he, walk[next]) == next {
        var s := walk[next];
        assert s != 0;
        AdvanceInRange(links, he, s - 1);
        var before := FaceAt(links, marked, he, s - 1);
      }
    }
  }

  /** The half-edges not yet given a face. */
  ghost function Unmarked(hs: seq<HalfEdge>): set<int> {
    set e | 0 <= e < |hs| && hs[e].face.None?
  }

  lemma MarkShrinksUnmarked(hs: seq<HalfEdge>, e: nat, faceIdx: nat)
    requires e < |hs| && hs[e].face.None?
    ensures |Unmarked(hs[e := hs[e].(face := Some(faceIdx))])| < |Unmarked(hs)|
  {
    var hs' := hs[e := hs[e].(face := Some(faceIdx))];
    assert Unmarked(hs') + {e} == Unmarked(hs);
    assert e !in Unmarked(hs');
  }

  /** Once the walk is back at `he`, `next` leaves no marked face. */
  lemma WalkClosedForward(links: seq<HalfEdge>, hs: seq<HalfEdge>, marked: seq<HalfEdge>, walk: map<nat, nat>,
                          he: nat, faceIdx: nat, k: nat, e: nat)
    requires Linked(links) && he < |links|
    requires Walked(links, hs, marked, walk, he, faceIdx, k) && k >= 1 && Advance(links, he, k) == he
    requires FacesClosed(links, hs)
    requires e < |hs| && marked[e].face.Some?
    ensures FaceOf(marked, Next(links, e)) == marked[e].face
  {
    if hs[e].face.None? {
      WalkForwardOnWalk(links, hs, marked, walk, he, faceIdx, k, e);
    } else {
      WalkForwardEarlier(links, hs, marked, walk, he, faceIdx, k, e);
    }
  }

  /** A half-edge marked on this walk is followed by one marked on it too. */
  lemma WalkForwardOnWalk(links: seq<HalfEdge>, hs: seq<HalfEdge>, marked: seq<HalfEdge>, walk: map<nat, nat>,
                          he: nat, faceIdx: nat, k: nat, e: nat)
    requires Walked(links, hs, marked, walk, he, faceIdx, k) && k >= 1 && Advance(links, he, k) == he
    requires e < |hs| && hs[e].face.None? && marked[e].face.Some?
    ensures FaceOf(marked, Next(links, e)) == Some(faceIdx)
  {
    assert e in walk && walk[e] < k && Advance(links, he, walk[e]) == e;
    var s := walk[e];
    var i := if s + 1 == k then 0 else s + 1;
    assert Advance(links, he, i) == Next(links, e) by {
      assert Advance(links, he, s + 1) == Next(links, Advance(links, he, s));
    }
    assert FaceAt(links, marked, he, i) == Some(faceIdx);
  }

  /** A half-edge of an earlier face is followed by one of the same face, untouched. */
  lemma WalkForwardEarlier(links: seq<HalfEdge>, hs: seq<HalfEdge>, marked: seq<HalfEdge>, walk: map<nat, nat>,
                           he: nat, faceIdx: nat, k: nat, e: nat)
    requires Linked(links) && Walked(links, hs, marked, walk, he, faceIdx, k)
    requires FacesClosed(links, hs)
    requires e < |hs| && hs[e].face.Some?
    ensures FaceOf(marked, Next(links, e)) == hs[e].face
  {
    assert FaceOf(hs, Next(links, e)) == hs[e].face;
  }

  /** Once the walk is back at `he`, `next` enters no marked face from outside. */
  lemma WalkClosedBackward(links: seq<HalfEdge>, hs: seq<HalfEdge>, marked: seq<HalfEdge>, walk: map<nat, nat>,
                           he: nat, faceIdx: nat, k: nat, e: nat)
    requires Linked(links) && NextInjective(links) && he < |links|
    requires Walked(links, hs, marked, walk, he, faceIdx, k) && k >= 1 && Advance(links, he, k) == he
    requires FacesClosed(links, hs)
    requires e < |hs| && FaceOf(marked, Next(links, e)).Some?
    ensures marked[e].face == FaceOf(marked, Next(links, e))
  {
    var x := Next(links, e);
    if hs[x].face.None? {
      var s := walk[x];
      var p := if s == 0 then k - 1 else s - 1;
      AdvanceInRange(links, he, p);
      assert Next(links, Advance(links, he, p)) == x;
      assert FaceAt(links, marked, he, p) == Some(faceIdx);
    } else {
      assert FaceOf(hs, Next(links, e)) == hs[x].face;
    }
  }

  /** Once the walk is back at `he`, the marked faces are closed under `next`. */
  lemma WalkCloses(links: seq<HalfEdge>, hs: seq<HalfEdge>, marked: seq<HalfEdge>, walk: map<nat, nat>,
                   he: nat, faceIdx: nat, k: nat)
    requires Linked(links) && NextInjective(links) && he < |links|
    requires Walked(links, hs, marked, walk, he, faceIdx, k) && k >= 1 && Advance(links, he, k) == he
    requires FacesClosed(links, hs)
    ensures FacesClosed(links, marked)
  {
    forall e | 0 <= e < |hs| && marked[e].face.Some?
      ensures FaceOf(marked, Next(links, e)) == marked[e].face
    {
      WalkClosedForward(links, hs, marked, walk, he, faceIdx, k, e);
    }
    forall e | 0 <= e < |hs| && FaceOf(marked, Next(links, e)).Some?
      ensures marked[e].face == FaceOf(marked, Next(links, e))
    {
      WalkClosedBackward(links, hs, marked, walk, he, faceIdx, k, e);
    }
  }

  /** Half-edge `e` lies on the `next` walk from `start`. */
  ghost predicate OnWalk(links: seq<HalfEdge>, start: nat, e: nat) {
    exists k: nat :: Advance(links, start, k) == e
  }

  /** `marked` is `hs` with the `next` cycle through `he` given face `faceIdx`:
      nothing else changes, every newly marked half-edge is on the walk from `he`,
      and the faces are still closed under `next`. */
  ghost predicate FaceMarked(links: seq<HalfEdge>, hs: seq<HalfEdge>, marked: seq<HalfEdge>, he: nat, faceIdx: nat) {
    && |marked| == |hs| && he < |hs|
    && (forall e {:trigger marked[e]} | 0 <= e < |hs| :: marked[e] == hs[e].(face := marked[e].face))
    && (forall e {:trigger marked[e]} | 0 <= e < |hs| && hs[e].face.Some? :: marked[e].face == hs[e].face)
    && (forall e {:trigger marked[e]} | 0 <= e < |hs| && hs[e].face.None? && marked[e].face.Some? ::
          marked[e].face == Some(faceIdx) && OnWalk(links, he, e))
    && marked[he].face == Some(faceIdx)
    && FacesClosed(links, marked)
  }

  /** The walk inside step 4: marks the `next` cycle from `he` with `faceIdx`. */
  method MarkFace(links: seq<HalfEdge>, hs: seq<HalfEdge>, he: nat, faceIdx: nat)
    returns (r: Result<seq<HalfEdge>, DcelError>)
    requires Linked(links) && NextInjective(links) && |hs| == |links|
    requires forall e | 0 <= e < |hs| :: hs[e].next == links[e].next
    requires he < |hs| && hs[he].face.None?
    requires FacesClosed(links, hs)
    ensures r.Success? && FaceMarked(links, hs, r.value, he, faceIdx)
  {
    var marked := hs;
    ghost var walk: map<nat, nat> := map[];
    var curr := he;
    ghost var k: nat := 0;
    while true
      invariant Walked(links, hs, marked, walk, he, faceIdx, k)
      invariant curr < |hs| && curr == Advance(links, he, k) && marked[curr].face.None?
      invariant k == 0 || curr != he
      decreases |Unmarked(marked)|
    {
      if marked[curr].face.Some? {
        assert false;
        break;
      }
      MarkAdvance(links, hs, marked, walk, he, faceIdx, k, curr);
      ghost var next := Next(links, curr);
      marked := marked[curr := marked[curr].(face := Some(faceIdx))];
      walk := walk[curr := k];
      if marked[curr].next.None? {
        assert false;
        return Failure(BrokenLoop);
      }
      curr := marked[curr].next.value;
      k := k + 1;
      assert curr == next == Advance(links, he, k);
      if curr == he {
        break;
      }
    }
    MarkDone(links, hs, marked, walk, he, faceIdx, k);
    return Success(marked);
  }

  /** One step of the walk: marking `curr` extends the walk, shrinks the unmarked
      set, and leads to `next`, which is unmarked unless it is `he`. */
  lemma MarkAdvance(links: seq<HalfEdge>, hs: seq<HalfEdge>, marked: seq<HalfEdge>, walk: map<nat, nat>,
                    he: nat, faceIdx: nat, k: nat, curr: nat)
    requires Linked(links) && NextInjective(links) && |hs| == |links|
    requires forall e | 0 <= e < |hs| :: hs[e].next == links[e].next
    requires he < |hs| && FacesClosed(links, hs)
    requires Walked(links, hs, marked, walk, he, faceIdx, k)
    requires curr < |hs| && curr == Advance(links, he, k) && marked[curr].face.None?
    ensures var marked' := marked[curr := marked[curr].(face := Some(faceIdx))];
      && Walked(links, hs, marked', walk[curr := k], he, faceIdx, k + 1)
      && |Unmarked(marked')| < |Unmarked(marked)|
      && marked'[curr].next.Some? && marked'[curr].next.value == Next(links, curr) == Advance(links, he, k + 1)
      && Next(links, curr) < |hs|
      && (Next(links, curr) != he ==> marked'[Next(links, curr)].face.None?)
  {
    assert hs[curr].face.None?;
    if Next(links, curr) != he {
      StepFresh(links, hs, marked, walk, he, faceIdx, k, curr);
    }
    MarkStep(links, hs, marked, walk, he, faceIdx, k, curr);
    MarkShrinksUnmarked(marked, curr, faceIdx);
  }

  /** Back at `he`, the walk has marked exactly the face's cycle. */
  lemma MarkDone(links: seq<HalfEdge>, hs: seq<HalfEdge>, marked: seq<HalfEdge>, walk: map<nat, nat>,
                 he: nat, faceIdx: nat, k: nat)
    requires Linked(links) && NextInjective(links) && |hs| == |links|
    requires forall e | 0 <= e < |hs| :: hs[e].next == links[e].next
    requires he < |hs| && hs[he].face.None?
    requires FacesClosed(links, hs)
    requires Walked(links, hs, marked, walk, he, faceIdx, k) && k >= 1 && Advance(links, he, k) == he
    ensures FaceMarked(links, hs, marked, he, faceIdx)
  {
    WalkCloses(links, hs, marked, walk, he, faceIdx, k);
    assert FaceAt(links, marked, he, 0) == Some(faceIdx);
    forall e | 0 <= e < |hs| && hs[e].face.None? && marked[e].face.Some? ensures OnWalk(links, he, e) {
      assert Advance(links, he, walk[e]) == e;
    }
  }

  /** The state of step 4 before half-edge `he` is examined: `hs` is `hs0` with faces
      `faces` assigned, every half-edge below `he` has a face, each face's
      representative is the least of its half-edges, and faces are closed under
      `next` and lie on the walk from their representative. */
  ghost predicate Discovered(hs0: seq<HalfEdge>, hs: seq<HalfEdge>, faces: seq<Face>, he: nat) {
    && |hs| == |hs0|
    && (forall e {:trigger hs[e]} | 0 <= e < |hs| :: hs[e] == hs0[e].(face := hs[e].face))
    && (forall e | 0 <= e < |hs| && e < he :: hs[e].face.Some?)
    && (forall e | 0 <= e < |hs| && hs[e].face.Some? ::
          && hs[e].face.value < |faces| && faces[hs[e].face.value].edge <= e
          && OnWalk(hs0, faces[hs[e].face.value].edge, e))
    && (forall f | 0 <= f < |faces| :: faces[f].edge < he && faces[f].edge < |hs| && hs[faces[f].edge].face == Some(f))
    && (forall f, g | 0 <= f < g < |faces| :: faces[f].edge < faces[g].edge)
    && FacesClosed(hs0, hs)
  }

  /** After marking the face found at `he`, each half-edge with a face still has a
      face in range whose representative precedes it on its walk. */
  lemma DiscoverStepAt(hs0: seq<HalfEdge>, hs: seq<HalfEdge>, faces: seq<Face>, he: nat, marked: seq<HalfEdge>, e: nat)
    requires Discovered(hs0, hs, faces, he) && he < |hs| && hs[he].face.None?
    requires FaceMarked(hs0, hs, marked, he, |faces|)
    requires e < |marked| && marked[e].face.Some?
    ensures var faces' := faces + [Face(he)];
      && marked[e].face.value < |faces'| && faces'[marked[e].face.value].edge <= e
      && OnWalk(hs0, faces'[marked[e].face.value].edge, e)
  {
    var faces' := faces + [Face(he)];
    if hs[e].face.Some? {
      assert faces'[hs[e].face.value] == faces[hs[e].face.value];
    } else {
      assert he <= e;
      assert faces'[|faces|] == Face(he);
    }
  }

  lemma DiscoverStepFaces(hs0: seq<HalfEdge>, hs: seq<HalfEdge>, faces: seq<Face>, he: nat, marked: seq<HalfEdge>)
    requires Discovered(hs0, hs, faces, he) && he < |hs| && hs[he].face.None?
    requires FaceMarked(hs0, hs, marked, he, |faces|)
    ensures var faces' := faces + [Face(he)];
      forall e | 0 <= e < |marked| && marked[e].face.Some? ::
        && marked[e].face.value < |faces'| && faces'[marked[e].face.value].edge <= e
        && OnWalk(hs0, faces'[marked[e].face.value].edge, e)
  {
    forall e | 0 <= e < |marked| && marked[e].face.Some?
      ensures var faces' := faces + [Face(he)];
        && marked[e].face.value < |faces'| && faces'[marked[e].face.value].edge <= e
        && OnWalk(hs0, faces'[marked[e].face.value].edge, e)
    {
      DiscoverStepAt(hs0, hs, faces, he, marked, e);
    }
  }

  lemma DiscoverStepReps(hs0: seq<HalfEdge>, hs: seq<HalfEdge>, faces: seq<Face>, he: nat, marked: seq<HalfEdge>)
    requires Discovered(hs0, hs, faces, he) && he < |hs| && hs[he].face.None?
    requires FaceMarked(hs0, hs, marked, he, |faces|)
    ensures var faces' := faces + [Face(he)];
      forall f | 0 <= f < |faces'| ::
        faces'[f].edge < he + 1 && faces'[f].edge < |marked| && marked[faces'[f].edge].face == Some(f)
  {
    var faces' := faces + [Face(he)];
    forall f | 0 <= f < |faces'|
      ensures faces'[f].edge < he + 1 && faces'[f].edge < |marked| && marked[faces'[f].edge].face == Some(f)
    {
      if f < |faces| {
        assert faces'[f] == faces[f];
        assert hs[faces[f].edge].face == Some(f);
      }
    }
  }

  /** Marking the face found at `he` keeps the state of step 4. */
  lemma DiscoverStep(hs0: seq<HalfEdge>, hs: seq<HalfEdge>, faces: seq<Face>, he: nat, marked: seq<HalfEdge>)
    requires Discovered(hs0, hs, faces, he) && he < |hs| && hs[he].face.None?
    requires FaceMarked(hs0, hs, marked, he, |faces|)
    ensures Discovered(hs0, marked, faces + [Face(he)], he + 1)
  {
    DiscoverStepFaces(hs0, hs, faces, he, marked);
    DiscoverStepReps(hs0, hs, faces, he, marked);
    DiscoverStepFields(hs0, hs, faces, he, marked);
  }

  lemma DiscoverStepFields(hs0: seq<HalfEdge>, hs: seq<HalfEdge>, faces: seq<Face>, he: nat, marked: seq<HalfEdge>)
    requires Discovered(hs0, hs, faces, he) && he < |hs| && hs[he].face.None?
    requires FaceMarked(hs0, hs, marked, he, |faces|)
    ensures |marked| == |hs0|
    ensures forall e | 0 <= e < |marked| :: marked[e] == hs0[e].(face := marked[e].face)
    ensures forall e | 0 <= e < |marked| && e < he + 1 :: marked[e].face.Some?
    ensures var faces' := faces + [Face(he)];
      forall f, g | 0 <= f < g < |faces'| :: faces'[f].edge < faces'[g].edge
  {
    forall e | 0 <= e < |marked| ensures marked[e] == hs0[e].(face := marked[e].face) {
      assert marked[e] == hs[e].(face := marked[e].face);
      assert hs[e] == hs0[e].(face := hs[e].face);
    }
    forall e | 0 <= e < |marked| && e < he + 1 ensures marked[e].face.Some? {
      if e < he {
        assert hs[e].face.Some?;
      }
    }
    var faces' := faces + [Face(he)];
    forall f, g | 0 <= f < g < |faces'| ensures faces'[f].edge < faces'[g].edge {
      assert faces'[f] == faces[f];
      if g < |faces| {
        assert faces'[g] == faces[g];
      }
    }
  }

  /** A half-edge that already has a face is passed over. */
  lemma DiscoverSkip(hs0: seq<HalfEdge>, hs: seq<HalfEdge>, faces: seq<Face>, he: nat)
    requires Discovered(hs0, hs, faces, he) && he < |hs| && hs[he].face.Some?
    ensures Discovered(hs0, hs, faces, he + 1)
  {
  }

  /** Marking faces leaves every `next` link as it was. */
  lemma DiscoveredLinks(hs0: seq<HalfEdge>, hs: seq<HalfEdge>, faces: seq<Face>, he: nat)
    requires Discovered(hs0, hs, faces, he)
    ensures forall e | 0 <= e < |hs| :: hs[e].next == hs0[e].next
  {
  }

  /** One iteration of step 4: a half-edge still without a face starts a new one. */
  method DiscoverAt(hs0: seq<HalfEdge>, hs: seq<HalfEdge>, faces: seq<Face>, he: nat)
    returns (hs': seq<HalfEdge>, faces': seq<Face>)
    requires Linked(hs0) && NextInjective(hs0)
    requires Discovered(hs0, hs, faces, he) && he < |hs|
    ensures Discovered(hs0, hs', faces', he + 1)
  {
    hs', faces' := hs, faces;
    if hs[he].face.Some? {
      DiscoverSkip(hs0, hs, faces, he);
    } else {
      DiscoveredLinks(hs0, hs, faces, he);
      var marked := MarkFace(hs0, hs, he, |faces|);
      if marked.Failure? {
        assert false;
        return;
      }
      DiscoverStep(hs0, hs, faces, he, marked.value);
      hs', faces' := marked.value, faces + [Face(he)];
    }
  }

  /** Once every half-edge has been visited, the faces are complete. */
  lemma DiscoveredComplete(hs0: seq<HalfEdge>, hs: seq<HalfEdge>, faces: seq<Face>)
    requires Linked(hs0) && NextInjective(hs0)
    requires Discovered(hs0, hs, faces, |hs|)
    ensures forall e | 0 <= e < |hs| :: hs[e] == hs0[e].(face := hs[e].face)
    ensures FacesAssigned(hs, faces) && FacesAreCycles(hs, faces) && FacesInDiscoveryOrder(hs, faces)
  {
    forall e | 0 <= e < |hs| ensures Next(hs, e) == Next(hs0, e) && Next(hs, e) < |hs| {
      assert hs[e].next == hs0[e].next;
    }
    forall e | 0 <= e < |hs| && hs[e].face.Some? && hs[e].face.value < |faces|
      ensures exists k: nat :: Advance(hs, faces[hs[e].face.value].edge, k) == e
    {
      var start := faces[hs[e].face.value].edge;
      var k: nat :| Advance(hs0, start, k) == e;
      AdvanceSameLinks(hs, hs0, start, k);
    }
  }

  /** Step 4 of `DCEL::new`: every half-edge without a face starts a new face, whose
      `next` cycle is walked and marked. */
  method DiscoverFaces(hs0: seq<HalfEdge>) returns (r: Result<(seq<HalfEdge>, seq<Face>), DcelError>)
    requires Linked(hs0) && NextInjective(hs0)
    requires forall e | 0 <= e < |hs0| :: hs0[e].face.None?
    ensures r.Success?
    ensures var (hs, faces) := r.value;
      && |hs| == |hs0|
      && (forall e | 0 <= e < |hs| :: hs[e] == hs0[e].(face := hs[e].face))
      && FacesAssigned(hs, faces) && FacesAreCycles(hs, faces) && FacesInDiscoveryOrder(hs, faces)
  {
    var hs := hs0;
    var faces: seq<Face> := [];
    for he := 0 to |hs0|
      invariant Discovered(hs0, hs, faces, he)
    {
      hs, faces := DiscoverAt(hs0, hs, faces, he);
    }
    DiscoveredComplete(hs0, hs, faces);
    return Success((hs, faces));
  }

  // ---------------------------------------------------------------------------
  // The whole constructor.

  /** Half-edges per vertex after step 1, counted as `DCEL::new` counts them. */
  function Degree(conn: seq<Segment>, v: nat): nat {
    |Outgoing(InitialHalfEdges(conn), v)|
  }

  /** After step 1 `edge_map` has a key exactly for the vertices of nonzero degree,
      holding that many half-edges. */
  lemma EdgeMapDegrees(conn: seq<Segment>, hs: seq<HalfEdge>, edgeMap: map<nat, seq<nat>>)
    requires hs == InitialHalfEdges(conn) && GroupsOutgoing(hs, edgeMap)
    ensures forall v: nat :: v in edgeMap <==> Degree(conn, v) > 0
    ensures forall v | v in edgeMap :: |edgeMap[v]| == Degree(conn, v)
  {
  }

  /** Every key of the edge map is the origin of some half-edge. */
  lemma EdgeMapInRange(hs: seq<HalfEdge>, edgeMap: map<nat, seq<nat>>, n: nat)
    requires GroupsOutgoing(hs, edgeMap)
    requires forall e | 0 <= e < |hs| :: hs[e].origin < n
    ensures forall v | v in edgeMap :: v < n
  {
    forall v | v in edgeMap ensures v < n {
      OutgoingMembers(hs, v);
      var e := Outgoing(hs, v)[0];
      assert e in Outgoing(hs, v);
    }
  }

  /** A key of `edge_map` with fewer than two half-edges is exactly a vertex with one
      incident connection. */
  lemma ShortListIsLowDegree(conn: seq<Segment>, hs: seq<HalfEdge>, edgeMap: map<nat, seq<nat>>, n: nat)
    requires hs == InitialHalfEdges(conn) && GroupsOutgoing(hs, edgeMap)
    requires forall v | v in edgeMap :: v < n
    ensures forall v: nat :: (v in edgeMap && |edgeMap[v]| < 2) <==> (v < n && 0 < Degree(conn, v) < 2)
  {
    EdgeMapDegrees(conn, hs, edgeMap);
  }

  /** The sorted edge map is the rotation system of the half-edges. */
  lemma SortedIsRotation(vertices: seq<Vec3>, hs: seq<HalfEdge>, edgeMap: map<nat, seq<nat>>,
                         angle: (Vec3, Vec3) -> real, rot: map<nat, seq<nat>>)
    requires GroupsOutgoing(hs, edgeMap) && forall v | v in edgeMap :: v < |vertices|
    requires rot.Keys == edgeMap.Keys
    requires forall v | v in edgeMap :: rot[v] == SortByKey(edgeMap[v], AngleKey(vertices, hs, v, angle))
    ensures rot == Rotation(vertices, hs, angle)
  {
    RotationKeys(vertices, hs, edgeMap, angle);
    RotationValues(vertices, hs, edgeMap, angle);
    MapsEqual(rot, Rotation(vertices, hs, angle));
  }

  lemma RotationKeys(vertices: seq<Vec3>, hs: seq<HalfEdge>, edgeMap: map<nat, seq<nat>>, angle: (Vec3, Vec3) -> real)
    requires GroupsOutgoing(hs, edgeMap) && forall v | v in edgeMap :: v < |vertices|
    ensures edgeMap.Keys == Rotation(vertices, hs, angle).Keys
  {
    var r := Rotation(vertices, hs, angle);
    forall v: nat ensures v in edgeMap <==> v in r {
      assert v in edgeMap <==> Outgoing(hs, v) != [];
    }
  }

  lemma RotationValues(vertices: seq<Vec3>, hs: seq<HalfEdge>, edgeMap: map<nat, seq<nat>>, angle: (Vec3, Vec3) -> real)
    requires GroupsOutgoing(hs, edgeMap) && forall v | v in edgeMap :: v < |vertices|
    ensures forall v | v in edgeMap ::
      v in Rotation(vertices, hs, angle) && Rotation(vertices, hs, angle)[v] == SortByKey(edgeMap[v], AngleKey(vertices, hs, v, angle))
  {
    var r := Rotation(vertices, hs, angle);
    forall v | v in edgeMap ensures v in r && r[v] == SortByKey(edgeMap[v], AngleKey(vertices, hs, v, angle)) {
      assert edgeMap[v] == Outgoing(hs, v);
    }
  }

  lemma MapsEqual(a: map<nat, seq<nat>>, b: map<nat, seq<nat>>)
    requires a.Keys == b.Keys && forall v | v in a :: a[v] == b[v]
    ensures a == b
  {
  }

  /** The links step 3 sets form a bijection on the half-edges. */
  lemma LinksBijective(hs0: seq<HalfEdge>, rot: map<nat, seq<nat>>, linked: seq<HalfEdge>)
    requires TwinsPaired(hs0) && RotationSystem(hs0, rot)
    requires |linked| == |hs0| && forall e | 0 <= e < |hs0| :: linked[e] == hs0[e].(next := Some(Target(hs0, rot, e)))
    ensures forall e | 0 <= e < |linked| :: Next(linked, e) == Target(hs0, rot, e)
    ensures Linked(linked) && NextInjective(linked)
  {
    forall e | 0 <= e < |linked| ensures Next(linked, e) == Target(hs0, rot, e) && linked[e].next.value < |linked| {
      TargetContinues(hs0, rot, e);
    }
    forall e1, e2 | 0 <= e1 < |linked| && 0 <= e2 < |linked| && Next(linked, e1) == Next(linked, e2)
      ensures e1 == e2
    {
      TargetInjective(hs0, rot, e1, e2);
    }
  }

  /** The arena after step 4 satisfies every property of a DCEL. */
  lemma AssembledValid(vertices: seq<Vec3>, hs0: seq<HalfEdge>, rot: map<nat, seq<nat>>, linked: seq<HalfEdge>,
                       hs: seq<HalfEdge>, faces: seq<Face>)
    requires TwinsPaired(hs0) && RotationSystem(hs0, rot)
    requires forall e | 0 <= e < |hs0| :: hs0[e].origin < |vertices|
    requires |linked| == |hs0| && forall e | 0 <= e < |hs0| :: linked[e] == hs0[e].(next := Some(Target(hs0, rot, e)))
    requires |hs| == |linked| && forall e | 0 <= e < |hs| :: hs[e] == linked[e].(face := hs[e].face)
    requires FacesAssigned(hs, faces) && FacesAreCycles(hs, faces) && FacesInDiscoveryOrder(hs, faces)
    ensures Valid(Dcel(vertices, hs, faces))
  {
    AssembledNext(hs0, rot, linked, hs);
    AssembledContinues(hs0, rot, hs);
    AssembledInjective(hs0, rot, hs);
    AssembledSurjective(hs0, rot, hs);
  }

  /** The assembled `next` of every half-edge is its target. */
  lemma AssembledNext(hs0: seq<HalfEdge>, rot: map<nat, seq<nat>>, linked: seq<HalfEdge>, hs: seq<HalfEdge>)
    requires TwinsPaired(hs0) && RotationSystem(hs0, rot)
    requires |linked| == |hs0| && forall e | 0 <= e < |hs0| :: linked[e] == hs0[e].(next := Some(Target(hs0, rot, e)))
    requires |hs| == |linked| && forall e | 0 <= e < |hs| :: hs[e] == linked[e].(face := hs[e].face)
    ensures forall e | 0 <= e < |hs| :: hs[e].twin == hs0[e].twin && hs[e].origin == hs0[e].origin
    ensures forall e | 0 <= e < |hs| :: Next(hs, e) == Target(hs0, rot, e) < |hs| && hs[e].next.Some?
    ensures TwinsPaired(hs) && Linked(hs)
  {
    assert forall e | 0 <= e < |hs| :: hs[e].next == Some(Target(hs0, rot, e));
    forall e | 0 <= e < |hs| ensures Next(hs, e) == Target(hs0, rot, e) < |hs| {
      TargetContinues(hs0, rot, e);
    }
  }

  lemma AssembledContinues(hs0: seq<HalfEdge>, rot: map<nat, seq<nat>>, hs: seq<HalfEdge>)
    requires TwinsPaired(hs0) && RotationSystem(hs0, rot) && |hs| == |hs0|
    requires forall e | 0 <= e < |hs| :: hs[e].twin == hs0[e].twin && hs[e].origin == hs0[e].origin
    requires forall e | 0 <= e < |hs| :: Next(hs, e) == Target(hs0, rot, e) < |hs|
    ensures NextContinues(hs)
  {
    forall e | 0 <= e < |hs|
      ensures Next(hs, e) < |hs| && hs[e].twin < |hs| && OriginOf(hs, Next(hs, e)) == OriginOf(hs, hs[e].twin)
    {
      TargetContinues(hs0, rot, e);
    }
  }

  lemma AssembledInjective(hs0: seq<HalfEdge>, rot: map<nat, seq<nat>>, hs: seq<HalfEdge>)
    requires TwinsPaired(hs0) && RotationSystem(hs0, rot) && |hs| == |hs0|
    requires forall e | 0 <= e < |hs| :: Next(hs, e) == Target(hs0, rot, e) < |hs|
    ensures NextInjective(hs)
  {
    forall e1, e2 | 0 <= e1 < |hs| && 0 <= e2 < |hs| && Next(hs, e1) == Next(hs, e2) ensures e1 == e2 {
      TargetInjective(hs0, rot, e1, e2);
    }
  }

  lemma AssembledSurjective(hs0: seq<HalfEdge>, rot: map<nat, seq<nat>>, hs: seq<HalfEdge>)
    requires TwinsPaired(hs0) && RotationSystem(hs0, rot) && |hs| == |hs0|
    requires forall e | 0 <= e < |hs| :: Next(hs, e) == Target(hs0, rot, e) < |hs|
    ensures NextSurjective(hs)
  {
    forall h | 0 <= h < |hs| ensures HasPredecessor(hs, h) {
      TargetSurjective(hs0, rot, h);
      var e: nat :| e < |hs| && Target(hs0, rot, e) == h;
      assert Next(hs, e) == h;
    }
  }

  /** Every half-edge starts at one of the vertices when every connection joins two of them. */
  lemma InitialOrigins(conn: seq<Segment>, n: nat)
    requires forall k | 0 <= k < |conn| :: conn[k].0 < n && conn[k].1 < n
    ensures forall e | 0 <= e < |InitialHalfEdges(conn)| :: InitialHalfEdges(conn)[e].origin < n
  {
    var hs := InitialHalfEdges(conn);
    forall e | 0 <= e < |hs| ensures hs[e].origin < n {
      assert hs[e] == InitialHalfEdge(conn, e);
    }
  }

  /** Step 1 sets no `next` and no face. */
  lemma InitialUnlinked(conn: seq<Segment>)
    ensures forall e | 0 <= e < |InitialHalfEdges(conn)| ::
      InitialHalfEdges(conn)[e].next.None? && InitialHalfEdges(conn)[e].face.None?
  {
    var hs := InitialHalfEdges(conn);
    forall e | 0 <= e < |hs| ensures hs[e].next.None? && hs[e].face.None? {
      assert hs[e] == InitialHalfEdge(conn, e);
    }
  }

  /** The half-edge `new` links `e` to: the one after e's twin in the angular order
      around the vertex where e ends. */
  ghost function NextAfterTwin(vertices: seq<Vec3>, conn: seq<Segment>, angle: (Vec3, Vec3) -> real, e: nat): nat
    requires forall k | 0 <= k < |conn| :: conn[k].0 < |vertices| && conn[k].1 < |vertices|
    requires e < 2 * |conn|
  {
    var hs0 := InitialHalfEdges(conn);
    InitialTwinsPaired(conn);
    InitialOrigins(conn, |vertices|);
    RotationIsRotationSystem(vertices, hs0, angle);
    Target(hs0, Rotation(vertices, hs0, angle), e)
  }

  /** `DCEL::new(vertices, connections)`. */
  method New(vertices: seq<Vec3>, connections: seq<Segment>, angle: (Vec3, Vec3) -> real)
    returns (r: Result<Dcel, DcelError>)
    requires forall k | 0 <= k < |connections| :: connections[k].0 < |vertices| && connections[k].1 < |vertices|
    ensures r.Failure? <==> exists v | 0 <= v < |vertices| :: 0 < Degree(connections, v) < 2
    ensures r.Failure? ==> r.error.TooFewOutgoing?
    ensures r.Failure? && r.error.TooFewOutgoing? ==>
      var v := r.error.vertex;
      && v < |vertices| && 0 < Degree(connections, v) < 2 && r.error.count == Degree(connections, v)
      && forall u | 0 <= u < v :: !(0 < Degree(connections, u) < 2)
    ensures r.Success? ==>
      var d := r.value;
      var hs0 := InitialHalfEdges(connections);
      && d.vertices == vertices
      && Valid(d)
      && |d.halfEdges| == |hs0|
      && (forall e | 0 <= e < |hs0| ::
            && d.halfEdges[e].origin == hs0[e].origin
            && d.halfEdges[e].twin == hs0[e].twin
            && d.halfEdges[e].next == Some(NextAfterTwin(vertices, connections, angle, e)))
  {
    var hs, edgeMap := CreateHalfEdges(connections);
    InitialOrigins(connections, |vertices|);
    EdgeMapInRange(hs, edgeMap, |vertices|);
    ShortListIsLowDegree(connections, hs, edgeMap, |vertices|);
    var sorted := SortEdgeMap(vertices, hs, edgeMap, angle);
    if sorted.Failure? {
      return Failure(sorted.error);
    }
    var rot := sorted.value;
    SortedIsRotation(vertices, hs, edgeMap, angle, rot);
    var d := LinkRotation(vertices, connections, angle, hs, rot);
    r := Success(d);
  }

  /** Steps 3 and 4 applied to the rotation system of the initial half-edges. */
  method LinkRotation(vertices: seq<Vec3>, connections: seq<Segment>, angle: (Vec3, Vec3) -> real,
                      hs: seq<HalfEdge>, rot: map<nat, seq<nat>>)
    returns (d: Dcel)
    requires forall k | 0 <= k < |connections| :: connections[k].0 < |vertices| && connections[k].1 < |vertices|
    requires hs == InitialHalfEdges(connections) && rot == Rotation(vertices, hs, angle)
    ensures d.vertices == vertices
    ensures Valid(d)
    ensures |d.halfEdges| == |hs|
    ensures forall e | 0 <= e < |hs| ::
      && d.halfEdges[e].origin == hs[e].origin
      && d.halfEdges[e].twin == hs[e].twin
      && d.halfEdges[e].next == Some(NextAfterTwin(vertices, connections, angle, e))
  {
    InitialLinkable(vertices, connections, angle, hs, rot);
    d := LinkAndDiscover(vertices, hs, rot);
  }

  /** The initial half-edges and their rotation system are what steps 3 and 4 expect,
      and the successor they will give each half-edge is the one after its twin. */
  lemma InitialLinkable(vertices: seq<Vec3>, connections: seq<Segment>, angle: (Vec3, Vec3) -> real,
                        hs: seq<HalfEdge>, rot: map<nat, seq<nat>>)
    requires forall k | 0 <= k < |connections| :: connections[k].0 < |vertices| && connections[k].1 < |vertices|
    requires hs == InitialHalfEdges(connections) && rot == Rotation(vertices, hs, angle)
    ensures TwinsPaired(hs) && RotationSystem(hs, rot)
    ensures forall e | 0 <= e < |hs| :: hs[e].origin < |vertices| && hs[e].next.None? && hs[e].face.None?
    ensures forall v | v in rot :: v < |vertices|
    ensures |hs| == 2 * |connections|
    ensures forall e | 0 <= e < |hs| :: NextAfterTwin(vertices, connections, angle, e) == Target(hs, rot, e)
  {
    InitialTwinsPaired(connections);
    InitialOrigins(connections, |vertices|);
    InitialUnlinked(connections);
    RotationIsRotationSystem(vertices, hs, angle);
  }

  /** Steps 3 and 4 of `new`: link every half-edge to its successor, then walk and
      number the faces. */
  method LinkAndDiscover(vertices: seq<Vec3>, hs: seq<HalfEdge>, rot: map<nat, seq<nat>>)
    returns (d: Dcel)
    requires TwinsPaired(hs) && RotationSystem(hs, rot)
    requires forall e | 0 <= e < |hs| :: hs[e].origin < |vertices| && hs[e].next.None? && hs[e].face.None?
    requires forall v | v in rot :: v < |vertices|
    ensures d.vertices == vertices
    ensures Valid(d)
    ensures |d.halfEdges| == |hs|
    ensures forall e | 0 <= e < |hs| ::
      && d.halfEdges[e].origin == hs[e].origin
      && d.halfEdges[e].twin == hs[e].twin
      && d.halfEdges[e].next == Some(Target(hs, rot, e))
  {
    var linked := LinkNext(hs, rot, |vertices|);
    LinksBijective(hs, rot, linked);
    var found := DiscoverFaces(linked);
    if found.Failure? {
      assert false;
      return Dcel(vertices, linked, []);
    }
    var (hs', faces) := found.value;
    AssembledValid(vertices, hs, rot, linked, hs', faces);
    d := Dcel(vertices, hs', faces);
  }

  // ---------------------------------------------------------------------------
  // Reading a face back.

  /** The origins met on the walk along `next` from `curr`, which is k steps past
      `start`, until the walk is back at `start`; a walk is cut off after |hs| steps,
      which a linked arena never reaches (`WalkBound`). */
  function WalkFrom(hs: seq<HalfEdge>, start: nat, curr: nat, k: nat): seq<nat>
    decreases |hs| - k
  {
    if k >= |hs| || curr >= |hs| || (k > 0 && curr == start) then []
    else [hs[curr].origin] + WalkFrom(hs, start, if hs[curr].next.Some? then hs[curr].next.value else curr, k + 1)
  }

  /** The vertex list of face f: the origins along its `next` cycle, starting at its
      representative. */
  function FaceVertices(d: Dcel, f: nat): seq<nat>
    requires f < |d.faces|
  {
    WalkFrom(d.halfEdges, d.faces[f].edge, d.faces[f].edge, 0)
  }

  lemma {:induction false} WalkFromInRange(hs: seq<HalfEdge>, n: nat, start: nat, curr: nat, k: nat)
    requires Linked(hs) && curr < |hs|
    requires forall e | 0 <= e < |hs| :: hs[e].origin < n
    ensures forall i | 0 <= i < |WalkFrom(hs, start, curr, k)| :: WalkFrom(hs, start, curr, k)[i] < n
    decreases |hs| - k
  {
    if !(k >= |hs| || (k > 0 && curr == start)) {
      WalkFromInRange(hs, n, start, hs[curr].next.value, k + 1);
    }
  }

  lemma {:induction false} WalkFromOrigins(hs: seq<HalfEdge>, start: nat, k: nat)
    ensures forall i | 0 <= i < |WalkFrom(hs, start, Advance(hs, start, k), k)| ::
      WalkFrom(hs, start, Advance(hs, start, k), k)[i] == OriginAt(hs, start, k + i)
    decreases |hs| - k
  {
    var curr := Advance(hs, start, k);
    if !(k >= |hs| || curr >= |hs| || (k > 0 && curr == start)) {
      assert Next(hs, curr) == Advance(hs, start, k + 1);
      WalkFromOrigins(hs, start, k + 1);
      var rest := WalkFrom(hs, start, Advance(hs, start, k + 1), k + 1);
      assert forall j | 0 <= j < |rest| :: rest[j] == OriginAt(hs, start, k + 1 + j);
      var w := WalkFrom(hs, start, curr, k);
      assert w == [OriginOf(hs, curr)] + rest;
      forall i | 0 <= i < |w| ensures w[i] == OriginAt(hs, start, k + i) {
        if i > 0 {
          var j := i - 1;
          assert w[i] == rest[j] == OriginAt(hs, start, (k + 1) + j);
          assert (k + 1) + j == k + i;
        }
      }
    }
  }

  /** The i-th vertex of a face's list is the origin of the half-edge i steps along
      its cycle. */
  lemma FaceVerticesAreOrigins(d: Dcel, f: nat)
    requires f < |d.faces|
    ensures forall i | 0 <= i < |FaceVertices(d, f)| ::
      FaceVertices(d, f)[i] == OriginAt(d.halfEdges, d.faces[f].edge, i)
  {
    var hs, start := d.halfEdges, d.faces[f].edge;
    WalkFromOrigins(hs, start, 0);
    assert Advance(hs, start, 0) == start;
    forall i | 0 <= i < |FaceVertices(d, f)| ensures FaceVertices(d, f)[i] == OriginAt(hs, start, i) {
      assert FaceVertices(d, f)[i] == OriginAt(hs, start, 0 + i);
    }
  }

  /** What walking a face needs: origins among the vertices, `next` defined and inside
      the arena, and every face's representative inside the arena. */
  ghost predicate Walkable(d: Dcel) {
    && (forall e | 0 <= e < |d.halfEdges| :: d.halfEdges[e].origin < |d.vertices|)
    && Linked(d.halfEdges)
    && (forall f | 0 <= f < |d.faces| :: d.faces[f].edge < |d.halfEdges|)
  }

  lemma ValidWalkable(d: Dcel)
    requires Valid(d)
    ensures Walkable(d)
  {
  }

  /** Every vertex of a face's list is a vertex of the DCEL. */
  lemma FaceVerticesInRange(d: Dcel, f: nat)
    requires Walkable(d) && f < |d.faces|
    ensures forall i | 0 <= i < |FaceVertices(d, f)| :: FaceVertices(d, f)[i] < |d.vertices|
  {
    WalkFromInRange(d.halfEdges, |d.vertices|, d.faces[f].edge, d.faces[f].edge, 0);
  }

  /** `get_face_vertices(face_idx)`: the origins of the half-edges met walking `next`
      from the face's representative until it comes back. */
  method GetFaceVertices(d: Dcel, faceIdx: nat) returns (vs: seq<nat>)
    requires Linked(d.halfEdges) && NextInjective(d.halfEdges)
    requires faceIdx < |d.faces| && d.faces[faceIdx].edge < |d.halfEdges|
    ensures vs == FaceVertices(d, faceIdx)
    ensures var hs, start := d.halfEdges, d.faces[faceIdx].edge;
      && |vs| >= 1
      && (forall i | 0 <= i < |vs| :: vs[i] == OriginAt(hs, start, i))
      && Advance(hs, start, |vs|) == start
      && (forall i: nat | 0 < i < |vs| :: Advance(hs, start, i) != start)
  {
    var hs := d.halfEdges;
    var startHe := d.faces[faceIdx].edge;
    var curr := startHe;
    vs := [];
    while true
      invariant curr < |hs| && curr == Advance(hs, startHe, |vs|)
      invariant forall m: nat | 0 < m <= |vs| :: Advance(hs, startHe, m) != startHe
      invariant FaceVertices(d, faceIdx) == vs + WalkFrom(hs, startHe, curr, |vs|)
      decreases |hs| - |vs|
    {
      WalkBound(hs, startHe, |vs|);
      ghost var rest := WalkFrom(hs, startHe, hs[curr].next.value, |vs| + 1);
      assert WalkFrom(hs, startHe, curr, |vs|) == [hs[curr].origin] + rest;
      assert vs + ([hs[curr].origin] + rest) == (vs + [hs[curr].origin]) + rest;
      vs := vs + [hs[curr].origin];
      curr := hs[curr].next.value;
      if curr == startHe {
        assert WalkFrom(hs, startHe, curr, |vs|) == [];
        FaceVerticesAreOrigins(d, faceIdx);
        return;
      }
    }
  }
}
