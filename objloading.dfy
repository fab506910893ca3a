/** Building a `TriangleMesh` (objects/triangle_mesh.rs): the Wavefront OBJ line
    dispatcher of `from_obj` over lines already split on white space, the face-corner
    parser `parse_and_validate_face_part`, centring, and the conversion from a DCEL.

    Reading the file, `split_whitespace`, `parse::<f64>` (the given `parseFloat`),
    the normalisation of a parsed normal (the given `normalize4`) and the triangle
    area of `center_of_mass` (the given `area`) are not part of this model. */
module ObjLoading {
  import opened Common
  import opened Meshes
  import opened Materials
  import opened HalfEdges
  import Parametrization
  import Relocation

  /** The errors `from_obj` returns, and the panics of its dispatcher. */
  datatype ObjError =
    | MissingField                           // `parts[k]` past the end of a `v` or `vn` line
    | BadFloat                               // `parse::<f64>()?`
    | BadIndex                               // `parse::<usize>()?`
    | FaceNotTriangle                        // "Quads are not supported"
    | InvalidVertexIndex(index: nat, line: nat)
    | InvalidNormalIndex(index: nat, line: nat)
    | NormalsNotComputed                     // `compute_normals` is `todo!()`

  // ---------------------------------------------------------------------------
  // str::split

  /** `part.split(sep)`: the fields between separators, empty ones included. */
  function Split(s: string, sep: char): (r: seq<string>)
    ensures |r| >= 1
    ensures forall k | 0 <= k < |r| :: sep !in r[k]
    decreases |s|
  {
    if |s| == 0 then [""]
    else
      var rest := Split(s[1..], sep);
      if s[0] == sep then [""] + rest
      else [[s[0]] + rest[0]] + rest[1..]
  }

  /** The fields joined back with the separator between them. */
  function Join(parts: seq<string>, sep: char): string
    requires |parts| >= 1
    decreases |parts|
  {
    if |parts| == 1 then parts[0] else parts[0] + [sep] + Join(parts[1..], sep)
  }

  /** Splitting loses nothing: joining the fields gives back the string. */
  lemma {:induction false} JoinSplit(s: string, sep: char)
    ensures Join(Split(s, sep), sep) == s
    decreases |s|
  {
    if |s| > 0 {
      JoinSplit(s[1..], sep);
      var rest := Split(s[1..], sep);
      if s[0] == sep {
        assert s == [sep] + s[1..];
      } else if |rest| == 1 {
        assert s == [s[0]] + s[1..];
      } else {
        assert Join(rest, sep) == rest[0] + [sep] + Join(rest[1..], sep);
        assert ([[s[0]] + rest[0]] + rest[1..])[1..] == rest[1..];
        assert s == [s[0]] + s[1..];
      }
    }
  }

  /** A string with no separator is one field. */
  lemma {:induction false} SplitNoSeparator(a: string, sep: char)
    requires sep !in a
    ensures Split(a, sep) == [a]
    decreases |a|
  {
    if |a| > 0 {
      SplitNoSeparator(a[1..], sep);
      assert [a[0]] + a[1..] == a;
    }
  }

  /** A separator-free prefix followed by the separator splits off as the first field. */
  lemma {:induction false} SplitFirstField(a: string, sep: char, rest: string)
    requires sep !in a
    ensures Split(a + [sep] + rest, sep) == [a] + Split(rest, sep)
    decreases |a|
  {
    if |a| == 0 {
      assert a + [sep] + rest == [sep] + rest;
      assert ([sep] + rest)[1..] == rest;
    } else {
      SplitFirstField(a[1..], sep, rest);
      var s := a + [sep] + rest;
      assert s[0] == a[0] && s[1..] == a[1..] + [sep] + rest;
      assert [a[0]] + a[1..] == a;
    }
  }

  /** Fields free of the separator are recovered by splitting their join. */
  lemma {:induction false} SplitJoin(parts: seq<string>, sep: char)
    requires |parts| >= 1
    requires forall k | 0 <= k < |parts| :: sep !in parts[k]
    ensures Split(Join(parts, sep), sep) == parts
    decreases |parts|
  {
    if |parts| == 1 {
      SplitNoSeparator(parts[0], sep);
    } else {
      SplitJoin(parts[1..], sep);
      SplitFirstField(parts[0], sep, Join(parts[1..], sep));
      assert [parts[0]] + parts[1..] == parts;
    }
  }

  // ---------------------------------------------------------------------------
  // str::parse::<usize>

  const UsizeMax: nat := 0xFFFF_FFFF_FFFF_FFFF

  predicate IsDigit(c: char) { '0' <= c <= '9' }

  predicate AllDigits(s: string) {
    forall k | 0 <= k < |s| :: IsDigit(s[k])
  }

  /** The value of a string of decimal digits, most significant first. */
  function DecimalValue(s: string): nat
    requires AllDigits(s)
    decreases |s|
  {
    if |s| == 0 then 0
    else DecimalValue(s[..|s| - 1]) * 10 + ((s[|s| - 1] as int - '0' as int) as nat)
  }

  /** `s.parse::<usize>()`: an optional `+`, then one or more decimal digits whose
      value fits in 64 bits. */
  function ParseUsize(s: string): (r: Option<nat>)
    ensures r.Some? ==> r.value <= UsizeMax
    ensures r.Some? ==> |s| >= 1 && (IsDigit(s[0]) || s[0] == '+')
  {
    var digits := if |s| > 0 && s[0] == '+' then s[1..] else s;
    if |digits| == 0 || !AllDigits(digits) || DecimalValue(digits) > UsizeMax then None
    else Some(DecimalValue(digits))
  }

  /** The decimal writing of n, without leading zeros. */
  function Decimal(n: nat): (s: string)
    ensures |s| >= 1 && AllDigits(s)
    decreases n
  {
    var last := [('0' as int + n % 10) as char];
    if n < 10 then last else Decimal(n / 10) + last
  }

  /** Reading a number's decimal writing gives the number back. */
  lemma {:induction false} DecimalValueOfDecimal(n: nat)
    ensures DecimalValue(Decimal(n)) == n
    decreases n
  {
    var s := Decimal(n);
    if n >= 10 {
      DecimalValueOfDecimal(n / 10);
      assert s[..|s| - 1] == Decimal(n / 10);
    }
  }

  /** `parse::<usize>` accepts every usize written in decimal and returns it. */
  lemma ParseDecimal(n: nat)
    requires n <= UsizeMax
    ensures ParseUsize(Decimal(n)) == Some(n)
    ensures ParseUsize("+" + Decimal(n)) == Some(n)
  {
    DecimalValueOfDecimal(n);
    assert ("+" + Decimal(n))[1..] == Decimal(n);
  }

  // ---------------------------------------------------------------------------
  // parse_and_validate_face_part

  /** One face corner, `v`, `v/vt`, `v//vn` or `v/vt/vn`: the 0-based vertex index
      and, when a non-empty third field is present, the 0-based normal index. The
      texture field is never read. `split` always yields a field, so the source's
      empty-list error cannot occur. An index of 0 underflows the subtraction; in a
      release build it wraps to `usize::MAX`, which the range check then rejects, so
      it is reported as that index error here. */
  function ParseAndValidateFacePart(part: string, totalVertices: nat, totalNormals: nat, line: nat)
    : (r: Result<(nat, Option<nat>), ObjError>)
    ensures r.Success? ==> r.value.0 < totalVertices
    ensures r.Success? ==> ParseUsize(Split(part, '/')[0]) == Some(r.value.0 + 1)
    ensures r.Success? ==> (r.value.1.Some? <==> |Split(part, '/')| > 2 && Split(part, '/')[2] != "")
    ensures r.Success? && r.value.1.Some? ==>
      r.value.1.value < totalNormals && ParseUsize(Split(part, '/')[2]) == Some(r.value.1.value + 1)
    ensures r.Failure? ==> r.error.BadIndex? || r.error.InvalidVertexIndex? || r.error.InvalidNormalIndex?
    ensures r.Failure? && r.error.InvalidVertexIndex? ==>
      r.error.line == line && (r.error.index == 0 || r.error.index > totalVertices)
    ensures r.Failure? && r.error.InvalidNormalIndex? ==>
      r.error.line == line && (r.error.index == 0 || r.error.index > totalNormals)
  {
    var indices := Split(part, '/');
    var v := ParseUsize(indices[0]);
    if v.None? then Failure(BadIndex)
    else if v.value == 0 || v.value - 1 >= totalVertices then Failure(InvalidVertexIndex(v.value, line))
    else
      var n := NormalPart(indices, totalNormals, line);
      if n.Failure? then Failure(n.error) else Success((v.value - 1, n.value))
  }

  /** The `match indices.get(2)` of a face corner: the 0-based normal index when a
      non-empty third field is present, and none otherwise. */
  function NormalPart(indices: seq<string>, totalNormals: nat, line: nat): (r: Result<Option<nat>, ObjError>)
    ensures r.Success? ==> (r.value.Some? <==> |indices| > 2 && indices[2] != "")
    ensures r.Success? && r.value.Some? ==>
      r.value.value < totalNormals && ParseUsize(indices[2]) == Some(r.value.value + 1)
    ensures r.Failure? ==> r.error.BadIndex? || r.error.InvalidNormalIndex?
    ensures r.Failure? && r.error.InvalidNormalIndex? ==>
      r.error.line == line && (r.error.index == 0 || r.error.index > totalNormals)
  {
    if |indices| > 2 && indices[2] != "" then
      var n := ParseUsize(indices[2]);
      if n.None? then Failure(BadIndex)
      else if n.value == 0 || n.value - 1 >= totalNormals then Failure(InvalidNormalIndex(n.value, line))
      else Success(Some(n.value - 1))
    else Success(None)
  }

  lemma NoSlashInDigits(s: string)
    requires AllDigits(s)
    ensures '/' !in s
  {
    forall k | 0 <= k < |s| ensures s[k] != '/' {
      assert IsDigit(s[k]);
    }
  }

  /** The corner's result from its fields: a vertex index and no normal. */
  lemma FacePartWithoutNormal(part: string, v: nat, totalVertices: nat, totalNormals: nat, line: nat)
    requires v < totalVertices && ParseUsize(Split(part, '/')[0]) == Some(v + 1)
    requires |Split(part, '/')| <= 2 || Split(part, '/')[2] == ""
    ensures ParseAndValidateFacePart(part, totalVertices, totalNormals, line) == Success((v, None))
  {
  }

  /** The corner's result from its fields: a vertex index and a normal index. */
  lemma FacePartWithNormal(part: string, v: nat, n: nat, totalVertices: nat, totalNormals: nat, line: nat)
    requires v < totalVertices && ParseUsize(Split(part, '/')[0]) == Some(v + 1)
    requires n < totalNormals && |Split(part, '/')| > 2 && ParseUsize(Split(part, '/')[2]) == Some(n + 1)
    ensures ParseAndValidateFacePart(part, totalVertices, totalNormals, line) == Success((v, Some(n)))
  {
    var fields := Split(part, '/');
    assert ParseUsize("") == None;
    assert fields[2] != "";
  }

  /** A corner written `v`, with v 1-based and in range, parses to its vertex alone. */
  lemma FacePartVertexRoundTrip(v: nat, totalVertices: nat, totalNormals: nat, line: nat)
    requires v < totalVertices <= UsizeMax
    ensures ParseAndValidateFacePart(Decimal(v + 1), totalVertices, totalNormals, line) == Success((v, None))
  {
    ParseDecimal(v + 1);
    NoSlashInDigits(Decimal(v + 1));
    SplitNoSeparator(Decimal(v + 1), '/');
    FacePartWithoutNormal(Decimal(v + 1), v, totalVertices, totalNormals, line);
  }

  /** A corner written `v/vt` parses to its vertex alone: the texture is not read. */
  lemma FacePartTextureRoundTrip(v: nat, texture: string, totalVertices: nat, totalNormals: nat, line: nat)
    requires v < totalVertices <= UsizeMax && '/' !in texture
    ensures ParseAndValidateFacePart(Decimal(v + 1) + "/" + texture, totalVertices, totalNormals, line)
      == Success((v, None))
  {
    var dv := Decimal(v + 1);
    ParseDecimal(v + 1);
    NoSlashInDigits(dv);
    SplitFirstField(dv, '/', texture);
    SplitNoSeparator(texture, '/');
    var whole := dv + "/" + texture;
    assert Split(whole, '/') == [dv, texture];
    FacePartWithoutNormal(whole, v, totalVertices, totalNormals, line);
  }

  /** A corner written `v/vt/vn` or `v//vn`, with both indices 1-based and in range,
      parses to its vertex and its normal. */
  lemma FacePartNormalRoundTrip(v: nat, n: nat, texture: string, totalVertices: nat, totalNormals: nat, line: nat)
    requires v < totalVertices <= UsizeMax && n < totalNormals <= UsizeMax && '/' !in texture
    ensures ParseAndValidateFacePart(Decimal(v + 1) + "/" + texture + "/" + Decimal(n + 1), totalVertices, totalNormals, line)
      == Success((v, Some(n)))
  {
    var dv, dn := Decimal(v + 1), Decimal(n + 1);
    ParseDecimal(v + 1);
    ParseDecimal(n + 1);
    NoSlashInDigits(dv);
    NoSlashInDigits(dn);
    SplitThreeFields(dv, texture, dn);
    FacePartWithNormal(dv + "/" + texture + "/" + dn, v, n, totalVertices, totalNormals, line);
  }

  lemma SplitThreeFields(a: string, b: string, c: string)
    requires '/' !in a && '/' !in b && '/' !in c
    ensures Split(a + "/" + b + "/" + c, '/') == [a, b, c]
  {
    var tail := b + "/" + c;
    SplitFirstField(b, '/', c);
    SplitNoSeparator(c, '/');
    SplitFirstField(a, '/', tail);
    assert a + "/" + b + "/" + c == a + "/" + tail;
  }

  // ---------------------------------------------------------------------------
  // from_obj: the line dispatcher

  /** What the dispatcher has read so far: `mesh.vertices`, `temp_normals`,
      `mesh.normals` and `mesh.triangles`. */
  datatype ObjState = ObjState(vertices: seq<Vec3>, tempNormals: seq<Vec4>, normals: seq<Vec4>, triangles: seq<Triangle>)

  /** `parts[k].parse::<f64>()?`. */
  function Coordinate(parts: seq<string>, k: nat, parseFloat: string -> Option<real>): Result<real, ObjError> {
    if k >= |parts| then Failure(MissingField)
    else
      var x := parseFloat(parts[k]);
      if x.None? then Failure(BadFloat) else Success(x.value)
  }

  /** The three coordinates of a `v` or `vn` line, read left to right. */
  function Coordinates(parts: seq<string>, parseFloat: string -> Option<real>): Result<Vec3, ObjError> {
    var x := Coordinate(parts, 1, parseFloat);
    if x.Failure? then Failure(x.error)
    else
      var y := Coordinate(parts, 2, parseFloat);
      if y.Failure? then Failure(y.error)
      else
        var z := Coordinate(parts, 3, parseFloat);
        if z.Failure? then Failure(z.error)
        else Success(Vec3(x.value, y.value, z.value))
  }

  /** `n1_opt.or(n2_opt).or(n3_opt)`. */
  function FirstPresent(a: Option<nat>, b: Option<nat>, c: Option<nat>): (r: Option<nat>)
    ensures r.Some? <==> a.Some? || b.Some? || c.Some?
    ensures r.Some? ==> r == if a.Some? then a else if b.Some? then b else c
  {
    if a.Some? then a else if b.Some? then b else c
  }

  /** An `f` line: exactly three corners, validated against what has been read so far. */
  function FaceLine(st: ObjState, parts: seq<string>, line: nat): Result<ObjState, ObjError>
    requires |parts| >= 1
  {
    if |parts| != 4 then Failure(FaceNotTriangle)
    else
      var c1 := ParseAndValidateFacePart(parts[1], |st.vertices|, |st.tempNormals|, line);
      if c1.Failure? then Failure(c1.error)
      else
        var c2 := ParseAndValidateFacePart(parts[2], |st.vertices|, |st.tempNormals|, line);
        if c2.Failure? then Failure(c2.error)
        else
          var c3 := ParseAndValidateFacePart(parts[3], |st.vertices|, |st.tempNormals|, line);
          if c3.Failure? then Failure(c3.error)
          else
            var n := FirstPresent(c1.value.1, c2.value.1, c3.value.1);
            var normals := if n.Some? then st.normals + [st.tempNormals[n.value]] else st.normals;
            Success(st.(triangles := st.triangles + [Triangle(c1.value.0, c2.value.0, c3.value.0)], normals := normals))
  }

  /** The dispatcher's effect of one line (numbered from 1). */
  function Step(st: ObjState, parts: seq<string>, line: nat,
                parseFloat: string -> Option<real>, normalize4: Vec4 -> Vec4): Result<ObjState, ObjError>
  {
    if |parts| == 0 then Success(st)
    else if parts[0] == "v" then
      var p := Coordinates(parts, parseFloat);
      if p.Failure? then Failure(p.error) else Success(st.(vertices := st.vertices + [p.value]))
    else if parts[0] == "vn" then
      var p := Coordinates(parts, parseFloat);
      if p.Failure? then Failure(p.error)
      else Success(st.(tempNormals := st.tempNormals + [normalize4(Vec4(p.value.x, p.value.y, p.value.z, 0.0))]))
    else if parts[0] == "f" then FaceLine(st, parts, line)
    else Success(st)
  }

  /** The state after the first n lines, or the error of the first failing one. */
  function Scan(lines: seq<seq<string>>, n: nat, parseFloat: string -> Option<real>, normalize4: Vec4 -> Vec4)
    : Result<ObjState, ObjError>
    requires n <= |lines|
  {
    if n == 0 then Success(ObjState([], [], [], []))
    else
      ScanNext(Scan(lines, n - 1, parseFloat, normalize4), lines[n - 1], n, parseFloat, normalize4)
  }

  /** One more line read after `prev`: a failure is passed on unchanged. */
  function ScanNext(prev: Result<ObjState, ObjError>, parts: seq<string>, line: nat,
                    parseFloat: string -> Option<real>, normalize4: Vec4 -> Vec4): Result<ObjState, ObjError>
  {
    if prev.Failure? then prev else Step(prev.value, parts, line, parseFloat, normalize4)
  }

  /** The indices of the triangles read are in range of the vertices read, and there
      are at most as many normals as triangles. */
  predicate Consistent(st: ObjState) {
    AllTrianglesIn(st.triangles, |st.vertices|) && |st.normals| <= |st.triangles|
  }

  /** Each line keeps the state consistent: faces only refer to vertices already read,
      vertices are only appended, and a face appends at most one normal. */
  lemma StepConsistent(st: ObjState, parts: seq<string>, line: nat,
                       parseFloat: string -> Option<real>, normalize4: Vec4 -> Vec4)
    requires Consistent(st)
    requires Step(st, parts, line, parseFloat, normalize4).Success?
    ensures Consistent(Step(st, parts, line, parseFloat, normalize4).value)
  {
    var st' := Step(st, parts, line, parseFloat, normalize4).value;
    if |parts| > 0 && parts[0] == "f" {
      assert st'.triangles[..|st.triangles|] == st.triangles;
    } else if |parts| > 0 && parts[0] == "v" {
      forall k | 0 <= k < |st'.triangles| ensures TriangleIn(st'.triangles[k], |st'.vertices|) {
        assert TriangleIn(st.triangles[k], |st.vertices|);
      }
    }
  }

  lemma {:induction false} ScanConsistent(lines: seq<seq<string>>, n: nat,
                                          parseFloat: string -> Option<real>, normalize4: Vec4 -> Vec4)
    requires n <= |lines|
    requires Scan(lines, n, parseFloat, normalize4).Success?
    ensures Consistent(Scan(lines, n, parseFloat, normalize4).value)
  {
    if n > 0 {
      ScanConsistent(lines, n - 1, parseFloat, normalize4);
      StepConsistent(Scan(lines, n - 1, parseFloat, normalize4).value, lines[n - 1], n, parseFloat, normalize4);
    }
  }

  /** An empty line or one whose first token is not `v`, `vn` or `f`. */
  predicate Ignored(parts: seq<string>) {
    |parts| == 0 || (parts[0] != "v" && parts[0] != "vn" && parts[0] != "f")
  }

  /** Ignored lines change nothing: appending them to the input keeps the result. */
  lemma {:induction false} ScanSkipsIgnored(lines: seq<seq<string>>, extra: seq<seq<string>>,
                                            parseFloat: string -> Option<real>, normalize4: Vec4 -> Vec4)
    requires forall k | 0 <= k < |extra| :: Ignored(extra[k])
    ensures Scan(lines + extra, |lines + extra|, parseFloat, normalize4) == Scan(lines, |lines|, parseFloat, normalize4)
    decreases |extra|
  {
    if |extra| == 0 {
      assert lines + extra == lines;
    } else {
      var init := extra[..|extra| - 1];
      ScanSkipsIgnored(lines, init, parseFloat, normalize4);
      ScanPrefix(lines + extra, lines + init, |lines + init|, parseFloat, normalize4);
    }
  }

  /** Scan only looks at the lines it has read. */
  lemma {:induction false} ScanPrefix(lines: seq<seq<string>>, prefix: seq<seq<string>>, n: nat,
                                      parseFloat: string -> Option<real>, normalize4: Vec4 -> Vec4)
    requires n <= |prefix| <= |lines| && prefix == lines[..|prefix|]
    ensures Scan(lines, n, parseFloat, normalize4) == Scan(prefix, n, parseFloat, normalize4)
  {
    if n > 0 {
      ScanPrefix(lines, prefix, n - 1, parseFloat, normalize4);
      assert lines[n - 1] == prefix[n - 1];
    }
  }

  /** Once a line fails, reading stops there with that line's error. */
  lemma {:induction false} ScanStopsAtFailure(lines: seq<seq<string>>, i: nat, j: nat,
                                              parseFloat: string -> Option<real>, normalize4: Vec4 -> Vec4)
    requires i <= j <= |lines|
    requires Scan(lines, i, parseFloat, normalize4).Failure?
    ensures Scan(lines, j, parseFloat, normalize4) == Scan(lines, i, parseFloat, normalize4)
    decreases j - i
  {
    if i < j {
      ScanStopsAtFailure(lines, i, j - 1, parseFloat, normalize4);
    }
  }

  /** A file whose first failing line is a face without exactly three corners is
      rejected with the quad error. */
  lemma NonTriangleFaceRejected(lines: seq<seq<string>>, i: nat, parseFloat: string -> Option<real>,
                                normalize4: Vec4 -> Vec4, area: (Vec3, Vec3, Vec3) -> real)
    requires i < |lines| && |lines[i]| >= 1 && lines[i][0] == "f" && |lines[i]| != 4
    requires Scan(lines, i, parseFloat, normalize4).Success?
    ensures Load(lines, parseFloat, normalize4, area) == Failure(FaceNotTriangle)
  {
    ScanStopsAtFailure(lines, i + 1, |lines|, parseFloat, normalize4);
  }

  /** The number of lines among the first n whose first token is `tag`. */
  function CountTag(lines: seq<seq<string>>, n: nat, tag: string): nat
    requires n <= |lines|
  {
    if n == 0 then 0
    else CountTag(lines, n - 1, tag) + (if |lines[n - 1]| > 0 && lines[n - 1][0] == tag then 1 else 0)
  }

  /** A successful read has one vertex per `v` line, one parsed normal per `vn` line
      and one triangle per `f` line. */
  lemma {:induction false} ScanCounts(lines: seq<seq<string>>, n: nat,
                                      parseFloat: string -> Option<real>, normalize4: Vec4 -> Vec4)
    requires n <= |lines|
    requires Scan(lines, n, parseFloat, normalize4).Success?
    ensures var st := Scan(lines, n, parseFloat, normalize4).value;
      && |st.vertices| == CountTag(lines, n, "v")
      && |st.tempNormals| == CountTag(lines, n, "vn")
      && |st.triangles| == CountTag(lines, n, "f")
  {
    if n > 0 {
      ScanCounts(lines, n - 1, parseFloat, normalize4);
    }
  }

  /** The loaded mesh: the vertices read, moved so that the centre of mass is the
      origin, with world copies equal to the mesh's own data. */
  function Load(lines: seq<seq<string>>, parseFloat: string -> Option<real>, normalize4: Vec4 -> Vec4,
                area: (Vec3, Vec3, Vec3) -> real): Result<TriangleMesh, ObjError>
  {
    var s := Scan(lines, |lines|, parseFloat, normalize4);
    if s.Failure? then Failure(s.error)
    else if |s.value.normals| == 0 then Failure(NormalsNotComputed)
    else
      var st := s.value;
      ScanConsistent(lines, |lines|, parseFloat, normalize4);
      var vs := Shifted(st.vertices, Parametrization.MassCenter(st.vertices, st.triangles, area));
      Success(TriangleMesh(vs, vs, st.normals, st.normals, st.triangles, DefaultMaterial()))
  }

  /** Every vertex moved by -c. */
  function Shifted(vs: seq<Vec3>, c: Vec3): seq<Vec3> {
    seq(|vs|, (i: nat) requires i < |vs| => Sub3(vs[i], c))
  }

  /** A loaded mesh refers only to its own vertices, has at most one normal per
      triangle and at least one normal. */
  lemma LoadIsWellFormed(lines: seq<seq<string>>, parseFloat: string -> Option<real>, normalize4: Vec4 -> Vec4,
                         area: (Vec3, Vec3, Vec3) -> real)
    requires Load(lines, parseFloat, normalize4, area).Success?
    ensures var m := Load(lines, parseFloat, normalize4, area).value;
      && AllTrianglesIn(m.triangles, |m.vertices|)
      && 0 < |m.normals| <= |m.triangles|
      && m.verticesWorld == m.vertices && m.normalsWorld == m.normals
      && |m.vertices| == CountTag(lines, |lines|, "v") && |m.triangles| == CountTag(lines, |lines|, "f")
  {
    ScanConsistent(lines, |lines|, parseFloat, normalize4);
    ScanCounts(lines, |lines|, parseFloat, normalize4);
  }

  /** `centerify`: every vertex moved by minus the centre of mass. */
  method Centerify(vertices: seq<Vec3>, center: Vec3) returns (vs: seq<Vec3>)
    ensures vs == Shifted(vertices, center)
  {
    vs := vertices;
    for k := 0 to |vs|
      invariant |vs| == |vertices|
      invariant forall j | 0 <= j < k :: vs[j] == Sub3(vertices[j], center)
      invariant forall j | k <= j < |vs| :: vs[j] == vertices[j]
    {
      vs := vs[k := Sub3(vs[k], center)];
    }
  }

  /** `TriangleMesh::from_obj` over the file's lines, each split on white space. */
  method FromObj(lines: seq<seq<string>>, parseFloat: string -> Option<real>, normalize4: Vec4 -> Vec4,
                 area: (Vec3, Vec3, Vec3) -> real)
    returns (r: Result<TriangleMesh, ObjError>)
    ensures r == Load(lines, parseFloat, normalize4, area)
  {
    var vertices: seq<Vec3> := [];
    var tempNormals: seq<Vec4> := [];
    var normals: seq<Vec4> := [];
    var triangles: seq<Triangle> := [];
    for i := 0 to |lines|
      invariant Scan(lines, i, parseFloat, normalize4) == Success(ObjState(vertices, tempNormals, normals, triangles))
    {
      var parts := lines[i];
      if |parts| == 0 {
        continue;
      }
      if parts[0] == "v" {
        var p := Coordinates(parts, parseFloat);
        if p.Failure? {
          assert Load(lines, parseFloat, normalize4, area) == Failure(p.error) by {
            ScanStopsAtFailure(lines, i + 1, |lines|, parseFloat, normalize4);
          }
          return Failure(p.error);
        }
        vertices := vertices + [p.value];
      } else if parts[0] == "vn" {
        var p := Coordinates(parts, parseFloat);
        if p.Failure? {
          assert Load(lines, parseFloat, normalize4, area) == Failure(p.error) by {
            ScanStopsAtFailure(lines, i + 1, |lines|, parseFloat, normalize4);
          }
          return Failure(p.error);
        }
        tempNormals := tempNormals + [normalize4(Vec4(p.value.x, p.value.y, p.value.z, 0.0))];
      } else if parts[0] == "f" {
        var face := FaceLine(ObjState(vertices, tempNormals, normals, triangles), parts, i + 1);
        if face.Failure? {
          assert Load(lines, parseFloat, normalize4, area) == Failure(face.error) by {
            ScanStopsAtFailure(lines, i + 1, |lines|, parseFloat, normalize4);
          }
          return Failure(face.error);
        }
        vertices, tempNormals, normals, triangles :=
          face.value.vertices, face.value.tempNormals, face.value.normals, face.value.triangles;
      }
    }
    if |normals| == 0 {
      return Failure(NormalsNotComputed);
    }
    ScanConsistent(lines, |lines|, parseFloat, normalize4);
    var center := Parametrization.CenterOfMass(TriangleMesh(vertices, [], normals, [], triangles, DefaultMaterial()), area);
    vertices := Centerify(vertices, center);
    r := Success(TriangleMesh(vertices, vertices, normals, normals, triangles, DefaultMaterial()));
  }

  // ---------------------------------------------------------------------------
  // centring

  /** Moving every vertex moves every centroid by the same amount. */
  lemma CentroidShifted(a: Vec3, b: Vec3, d: Vec3, c: Vec3)
    ensures Parametrization.Centroid(Sub3(a, c), Sub3(b, c), Sub3(d, c)) == Sub3(Parametrization.Centroid(a, b, d), c)
  {
  }

  lemma ShiftStep(w: Vec3, total: real, a: real, g: Vec3, c: Vec3)
    ensures Add3(Sub3(w, Scale3(total, c)), Scale3(a, Sub3(g, c))) == Sub3(Add3(w, Scale3(a, g)), Scale3(total + a, c))
  {
    ScaleOverDifference(a, g, c);
    Parametrization.ScaleDistributes(total, a, c);
    Regroup(w, Scale3(total, c), Scale3(a, g), Scale3(a, c));
  }

  lemma ScaleOverDifference(a: real, g: Vec3, c: Vec3)
    ensures Scale3(a, Sub3(g, c)) == Sub3(Scale3(a, g), Scale3(a, c))
  {
    assert a * (g.x - c.x) == a * g.x - a * c.x;
    assert a * (g.y - c.y) == a * g.y - a * c.y;
    assert a * (g.z - c.z) == a * g.z - a * c.z;
  }

  lemma Regroup(w: Vec3, p: Vec3, q: Vec3, r: Vec3)
    ensures Add3(Sub3(w, p), Sub3(q, r)) == Sub3(Add3(w, q), Add3(p, r))
  {
  }

  /** Triangle t has the same area after its corners are moved by -c. */
  predicate TranslatedArea(vs: seq<Vec3>, t: Triangle, area: (Vec3, Vec3, Vec3) -> real, c: Vec3)
    requires TriangleIn(t, |vs|)
  {
    area(Sub3(vs[t.0], c), Sub3(vs[t.1], c), Sub3(vs[t.2], c)) == area(vs[t.0], vs[t.1], vs[t.2])
  }

  /** With an area that ignores translation, translating the vertices by -c keeps the
      total area and moves the weighted sum of centroids by -total·c. */
  lemma {:induction false} ShiftedSums(vs: seq<Vec3>, ts: seq<Triangle>, area: (Vec3, Vec3, Vec3) -> real, n: nat, c: Vec3)
    requires n <= |ts| && AllTrianglesIn(ts, |vs|)
    requires forall k | 0 <= k < n :: TranslatedArea(vs, ts[k], area, c)
    ensures Parametrization.TotalArea(Shifted(vs, c), ts, area, n) == Parametrization.TotalArea(vs, ts, area, n)
    ensures Parametrization.WeightedCenter(Shifted(vs, c), ts, area, n)
      == Sub3(Parametrization.WeightedCenter(vs, ts, area, n), Scale3(Parametrization.TotalArea(vs, ts, area, n), c))
  {
    if n == 0 {
      assert Parametrization.TotalArea(Shifted(vs, c), ts, area, n) == 0.0;
      assert Parametrization.TotalArea(vs, ts, area, n) == 0.0;
      assert Parametrization.WeightedCenter(vs, ts, area, n) == Zero3;
      assert Scale3(0.0, c) == Zero3;
      assert Parametrization.WeightedCenter(Shifted(vs, c), ts, area, n) == Zero3;
      assert Sub3(Zero3, Zero3) == Zero3;
    } else {
      ShiftedSums(vs, ts, area, n - 1, c);
      var t := ts[n - 1];
      var sv := Shifted(vs, c);
      assert sv[t.0] == Sub3(vs[t.0], c) && sv[t.1] == Sub3(vs[t.1], c) && sv[t.2] == Sub3(vs[t.2], c);
      var a := area(vs[t.0], vs[t.1], vs[t.2]);
      assert TranslatedArea(vs, ts[n - 1], area, c);
      assert area(sv[t.0], sv[t.1], sv[t.2]) == a;
      var g := Parametrization.Centroid(vs[t.0], vs[t.1], vs[t.2]);
      CentroidShifted(vs[t.0], vs[t.1], vs[t.2], c);
      var total := Parametrization.TotalArea(vs, ts, area, n - 1);
      var w := Parametrization.WeightedCenter(vs, ts, area, n - 1);
      assert Parametrization.TotalArea(sv, ts, area, n) == Parametrization.TotalArea(sv, ts, area, n - 1) + a;
      assert Parametrization.WeightedCenter(sv, ts, area, n)
          == Add3(Parametrization.WeightedCenter(sv, ts, area, n - 1), Scale3(a, Sub3(g, c)));
      assert Parametrization.TotalArea(vs, ts, area, n) == total + a;
      assert Parametrization.WeightedCenter(vs, ts, area, n) == Add3(w, Scale3(a, g));
      ShiftStep(w, total, a, g, c);
      assert Parametrization.TotalArea(sv, ts, area, n) == Parametrization.TotalArea(vs, ts, area, n);
      assert Parametrization.WeightedCenter(sv, ts, area, n - 1) == Sub3(w, Scale3(total, c));
      assert Parametrization.WeightedCenter(sv, ts, area, n) == Sub3(Add3(w, Scale3(a, g)), Scale3(total + a, c));
    }
  }

  lemma CancelCenter(w: Vec3, total: real)
    requires total != 0.0
    ensures Parametrization.Div3(Sub3(w, Scale3(total, Parametrization.Div3(w, total))), total) == Zero3
  {
    assert total * (w.x / total) == w.x && total * (w.y / total) == w.y && total * (w.z / total) == w.z;
  }

  /** `centerify` centres the mesh: when the area ignores translation and the total
      area is positive, the centred vertices have their centre of mass at the origin. */
  lemma CenterifyCentres(vs: seq<Vec3>, ts: seq<Triangle>, area: (Vec3, Vec3, Vec3) -> real)
    requires AllTrianglesIn(ts, |vs|)
    requires forall a, b, d, c :: area(Sub3(a, c), Sub3(b, c), Sub3(d, c)) == area(a, b, d)
    requires Parametrization.TotalArea(vs, ts, area, |ts|) > 0.0
    ensures Parametrization.MassCenter(Shifted(vs, Parametrization.MassCenter(vs, ts, area)), ts, area) == Zero3
  {
    var total := Parametrization.TotalArea(vs, ts, area, |ts|);
    var w := Parametrization.WeightedCenter(vs, ts, area, |ts|);
    var c := Parametrization.Div3(w, total);
    forall k | 0 <= k < |ts| ensures TranslatedArea(vs, ts[k], area, c) {
      var t := ts[k];
      assert area(Sub3(vs[t.0], c), Sub3(vs[t.1], c), Sub3(vs[t.2], c)) == area(vs[t.0], vs[t.1], vs[t.2]);
    }
    ShiftedSums(vs, ts, area, |ts|, c);
    CancelCenter(w, total);
  }

  // ---------------------------------------------------------------------------
  // From<DCEL>

  /** The colour `From<DCEL>` gives the mesh. */
  function OverlayMaterial(): Material {
    DefaultMaterial().(color := Rgb(0, 255, 0))
  }

  /** `TriangleMesh::from(dcel)`: the DCEL's vertices (world copy equal), its faces
      triangulated, green, and no normals. */
  method MeshFromDcel(d: Dcel, triangulate: seq<Vec3> -> Option<seq<nat>>)
    returns (r: Result<TriangleMesh, Relocation.MorphError>, ghost owner: seq<nat>)
    requires Walkable(d) && NextInjective(d.halfEdges)
    ensures var t := Relocation.Triangulation(d, triangulate);
      && (r.Success? <==> t.Success?)
      && (r.Success? ==> r.value.triangles == t.value)
      && (r.Failure? ==> r.error == t.error)
    ensures r.Success? ==>
      && r.value.vertices == d.vertices && r.value.verticesWorld == d.vertices
      && r.value.normals == [] && r.value.normalsWorld == []
      && r.value.material == OverlayMaterial()
      && AllTrianglesIn(r.value.triangles, |d.vertices|)
      && Relocation.Labelled(d, r.value.triangles, owner, |d.faces|)
    ensures r.Failure? ==> r.error.FaceTooSmall? || r.error.DegenerateFace? || r.error.BadLocalTriangles?
  {
    var triangles;
    triangles, owner := Relocation.TriangulateDcel(d, triangulate);
    if triangles.Failure? {
      return Failure(triangles.error), owner;
    }
    var mesh := DefaultMesh();
    mesh := mesh.(triangles := triangles.value);
    mesh := mesh.(vertices := d.vertices);
    mesh := mesh.(verticesWorld := mesh.vertices);
    mesh := mesh.(material := mesh.material.(color := Rgb(0, 255, 0)));
    r := Success(mesh);
  }
}
