/** The depth buffer of the z-buffer renderer (render/z_buffer.rs): a flat,
    row-major buffer of `width * height` depths, reset to +infinity, read and written
    per pixel, and updated by the strictly-closer test of `draw_triangle`.

    The colour interpolation and the image writes of `draw_triangle` are left out;
    only its effect on the depth buffer is modelled. */
module ZBuffer {
  import opened Common
  import opened Lerping
  import Materials
  import Barycentric

  /** Every `u32` is below this. */
  const U32Limit: nat := 0x1_0000_0000

  /** `f64::EPSILON`. */
  const Epsilon: real := 0.0000000000000002220446049250313

  /** An `f64` depth: `f64::INFINITY` or a finite value. */
  datatype Depth = Inf | Fin(value: real)

  /** `z < depth` for a finite z. */
  predicate Closer(z: real, d: Depth) {
    d.Inf? || z < d.value
  }

  /** a <= b as depths. */
  predicate NotDeeper(a: Depth, b: Depth) {
    b.Inf? || (a.Fin? && a.value <= b.value)
  }

  /** The saturating float-to-`u32` cast `as u32` applied to an already rounded value. */
  function CastU32(i: int): (r: nat)
    ensures r < U32Limit
    ensures 0 <= i < U32Limit ==> r == i
  {
    if i < 0 then 0 else if i >= U32Limit then U32Limit - 1 else i
  }

  lemma CastU32Monotone(i: int, j: int)
    requires i <= j
    ensures CastU32(i) <= CastU32(j)
  {
  }

  // ---------------------------------------------------------------------------
  // The pixel geometry of draw_triangle

  /** The pixel rectangle `min_x..=max_x` by `min_y..=max_y`. */
  datatype Box = Box(minX: nat, maxX: int, minY: nat, maxY: int)

  /** The corners' rounded extent, cast to `u32`, with the upper ends clamped to the
      last column and row. */
  function BoundingBox(p1: Vec3, p2: Vec3, p3: Vec3, width: nat, height: nat): (b: Box)
    requires width >= 1 && height >= 1
    ensures b.maxX < width && b.maxY < height
  {
    var minX := CastU32(Materials.Round(Min(Min(p1.x, p2.x), p3.x)));
    var maxX := CastU32(Materials.Round(Max(Max(p1.x, p2.x), p3.x)));
    var minY := CastU32(Materials.Round(Min(Min(p1.y, p2.y), p3.y)));
    var maxY := CastU32(Materials.Round(Max(Max(p1.y, p2.y), p3.y)));
    Box(minX, if maxX < width - 1 then maxX else width - 1, minY, if maxY < height - 1 then maxY else height - 1)
  }

  /** The pixel a corner rounds to lies in the box whenever it lies in the image. */
  lemma BoxCoversCorners(p1: Vec3, p2: Vec3, p3: Vec3, width: nat, height: nat)
    requires width >= 1 && height >= 1
    ensures var b := BoundingBox(p1, p2, p3, width, height);
      forall p | p in [p1, p2, p3] ::
        var x, y := CastU32(Materials.Round(p.x)), CastU32(Materials.Round(p.y));
        x < width && y < height ==> b.minX <= x <= b.maxX && b.minY <= y <= b.maxY
  {
    var lx, hx := Min(Min(p1.x, p2.x), p3.x), Max(Max(p1.x, p2.x), p3.x);
    var ly, hy := Min(Min(p1.y, p2.y), p3.y), Max(Max(p1.y, p2.y), p3.y);
    forall p | p in [p1, p2, p3]
      ensures lx <= p.x <= hx && ly <= p.y <= hy
    {
    }
    forall p | p in [p1, p2, p3]
      ensures CastU32(Materials.Round(lx)) <= CastU32(Materials.Round(p.x)) <= CastU32(Materials.Round(hx))
      ensures CastU32(Materials.Round(ly)) <= CastU32(Materials.Round(p.y)) <= CastU32(Materials.Round(hy))
    {
      Materials.RoundMonotone(lx, p.x);
      Materials.RoundMonotone(p.x, hx);
      Materials.RoundMonotone(ly, p.y);
      Materials.RoundMonotone(p.y, hy);
      CastU32Monotone(Materials.Round(lx), Materials.Round(p.x));
      CastU32Monotone(Materials.Round(p.x), Materials.Round(hx));
      CastU32Monotone(Materials.Round(ly), Materials.Round(p.y));
      CastU32Monotone(Materials.Round(p.y), Materials.Round(hy));
    }
  }

  /** `(u, v, 1 - u - v)` at pixel (x, y), or `None` for a triangle collinear in xy,
      where the source's division gives infinities or NaN that fail the inside test. */
  function PixelCoordinates(p1: Vec3, p2: Vec3, p3: Vec3, x: int, y: int): Option<Vec3> {
    var denom := (p2.x - p1.x) * (p3.y - p1.y) - (p2.y - p1.y) * (p3.x - p1.x);
    if denom == 0.0 then None
    else
      var u := ((p3.x - p2.x) * (y as real - p2.y) - (p3.y - p2.y) * (x as real - p2.x)) / denom;
      var v := ((p1.x - p3.x) * (y as real - p3.y) - (p1.y - p3.y) * (x as real - p3.x)) / denom;
      Some(Vec3(u, v, 1.0 - u - v))
  }

  /** The renderer's inline formula is the barycentric function of utils/triangles.rs
      at the pixel centre. */
  lemma PixelCoordinatesAgree(p1: Vec3, p2: Vec3, p3: Vec3, x: int, y: int)
    ensures PixelCoordinates(p1, p2, p3, x, y) == Barycentric.Barycentric(Vec3(x as real, y as real, 0.0), p1, p2, p3)
  {
    var X, Y := x as real, y as real;
    var denom := (p2.x - p1.x) * (p3.y - p1.y) - (p2.y - p1.y) * (p3.x - p1.x);
    var d := Barycentric.Denominator(p1, p2, p3);
    assert denom == d;
    if d != 0.0 {
      var nu := (p3.x - p2.x) * (Y - p2.y) - (p3.y - p2.y) * (X - p2.x);
      var nu' := (p2.y - p3.y) * (X - p3.x) + (p3.x - p2.x) * (Y - p3.y);
      assert nu == nu';
      var nv := (p1.x - p3.x) * (Y - p3.y) - (p1.y - p3.y) * (X - p3.x);
      var nv' := (p3.y - p1.y) * (X - p3.x) + (p1.x - p3.x) * (Y - p3.y);
      assert nv == nv';
      var pc := PixelCoordinates(p1, p2, p3, x, y);
      var bc := Barycentric.Barycentric(Vec3(X, Y, 0.0), p1, p2, p3);
      assert pc.value.x == nu / denom;
      assert pc.value.y == nv / denom;
      assert bc.value.x == nu' / d;
      assert bc.value.y == nv' / d;
    }
  }

  /** Inside the triangle: all three coordinates exceed `-f64::EPSILON`. */
  predicate Inside(b: Vec3) {
    b.x > -Epsilon && b.y > -Epsilon && b.z > -Epsilon
  }

  /** `p1.z * u + p2.z * v + p3.z * w`. */
  function PixelDepth(p1: Vec3, p2: Vec3, p3: Vec3, b: Vec3): real {
    p1.z * b.x + p2.z * b.y + p3.z * b.z
  }

  /** The depth of pixel (x, y) after the depth test, from the depth d it had. */
  function DrawnAt(d: Depth, p1: Vec3, p2: Vec3, p3: Vec3, x: int, y: int): (r: Depth)
    ensures NotDeeper(r, d)
    ensures r != d ==> var b := PixelCoordinates(p1, p2, p3, x, y);
      b.Some? && Inside(b.value) && r == Fin(PixelDepth(p1, p2, p3, b.value))
  {
    var b := PixelCoordinates(p1, p2, p3, x, y);
    if b.Some? && Inside(b.value) && Closer(PixelDepth(p1, p2, p3, b.value), d) then Fin(PixelDepth(p1, p2, p3, b.value))
    else d
  }

  /** Buffer index i is a pixel of the box. */
  predicate InBox(i: nat, width: nat, b: Box)
    requires width >= 1
  {
    b.minX <= i % width <= b.maxX && b.minY <= i / width <= b.maxY
  }

  /** The whole buffer after `draw_triangle`: every pixel of the box passed through the
      depth test, everything else as it was. */
  function Painted(buf: seq<Depth>, width: nat, b: Box, p1: Vec3, p2: Vec3, p3: Vec3): (r: seq<Depth>)
    requires width >= 1
    ensures |r| == |buf|
    ensures forall i | 0 <= i < |buf| :: NotDeeper(r[i], buf[i])
    ensures forall i | 0 <= i < |buf| :: !InBox(i, width, b) ==> r[i] == buf[i]
  {
    seq(|buf|, (i: nat) requires i < |buf| =>
      if InBox(i, width, b) then DrawnAt(buf[i], p1, p2, p3, i % width, i / width) else buf[i])
  }

  /** A depth changes only at a pixel of the box whose barycentric coordinates
      (utils/triangles.rs) all exceed `-f64::EPSILON`, and it becomes the depth
      interpolated there, which is strictly closer than the old one. */
  lemma PaintedOnlyInside(buf: seq<Depth>, width: nat, b: Box, p1: Vec3, p2: Vec3, p3: Vec3, i: nat)
    requires width >= 1 && i < |buf|
    requires Painted(buf, width, b, p1, p2, p3)[i] != buf[i]
    ensures InBox(i, width, b)
    ensures var w := Barycentric.Barycentric(Vec3((i % width) as real, (i / width) as real, 0.0), p1, p2, p3);
      && w.Some? && Inside(w.value)
      && Painted(buf, width, b, p1, p2, p3)[i] == Fin(PixelDepth(p1, p2, p3, w.value))
      && Closer(PixelDepth(p1, p2, p3, w.value), buf[i])
  {
    PixelCoordinatesAgree(p1, p2, p3, i % width, i / width);
  }

  /** A triangle collinear in xy changes no depth. */
  lemma DegenerateDrawsNothing(buf: seq<Depth>, width: nat, b: Box, p1: Vec3, p2: Vec3, p3: Vec3)
    requires width >= 1
    requires Barycentric.Denominator(p1, p2, p3) == 0.0
    ensures Painted(buf, width, b, p1, p2, p3) == buf
  {
    var r := Painted(buf, width, b, p1, p2, p3);
    forall i | 0 <= i < |buf| ensures r[i] == buf[i] {
      PixelCoordinatesAgree(p1, p2, p3, i % width, i / width);
    }
  }

  /** Row-major indexing: y * width + x with x < width is the pixel in row y and
      column x. */
  lemma PixelIndex(x: nat, y: nat, width: nat)
    requires x < width
    ensures (y * width + x) / width == y && (y * width + x) % width == x
  {
    var i := y * width + x;
    var q, r := i / width, i % width;
    assert i == q * width + r && 0 <= r < width;
    if q > y {
      MulMonotone(y + 1, q, width);
      assert false;
    } else if q < y {
      MulMonotone(q + 1, y, width);
      assert false;
    }
  }

  lemma MulMonotone(a: int, b: int, w: nat)
    requires a <= b
    ensures a * w <= b * w
  {
    assert b * w - a * w == (b - a) * w;
  }

  /** Every pixel of the box is inside the buffer. */
  lemma BoxInBuffer(x: nat, y: nat, width: nat, height: nat)
    requires x < width && y < height
    ensures y * width + x < width * height
  {
    assert y * width <= (height - 1) * width == height * width - width;
  }

  // ---------------------------------------------------------------------------
  // ZBufferPerformer

  class ZBufferPerformer {
    var width: nat
    var height: nat
    var zBuffer: seq<Depth>

    /** One depth per pixel, and the pixel count fits the `u32` product. */
    ghost predicate Valid()
      reads this
    {
      width * height < U32Limit && |zBuffer| == width * height
    }

    /** `ZBufferPerformer::new(width, height)`: every pixel at +infinity. */
    constructor (width: nat, height: nat)
      requires width * height < U32Limit
      ensures Valid()
      ensures this.width == width && this.height == height
      ensures forall i | 0 <= i < |zBuffer| :: zBuffer[i] == Inf
    {
      this.width := width;
      this.height := height;
      this.zBuffer := seq(width * height, _ => Inf);
    }

    /** `reset(width, height)`: the buffer resized to the new pixel count and filled
        with +infinity. */
    method Reset(width: nat, height: nat)
      requires width * height < U32Limit
      modifies this
      ensures Valid()
      ensures this.width == width && this.height == height
      ensures forall i | 0 <= i < |zBuffer| :: zBuffer[i] == Inf
    {
      this.width := width;
      this.height := height;
      var n := width * height;
      if n <= |zBuffer| {
        zBuffer := zBuffer[..n];
      } else {
        zBuffer := zBuffer + seq(n - |zBuffer|, _ => Inf);
      }
      for i := 0 to |zBuffer|
        modifies this`zBuffer
        invariant |zBuffer| == n
        invariant forall j | 0 <= j < i :: zBuffer[j] == Inf
      {
        zBuffer := zBuffer[i := Inf];
      }
    }

    /** `y * width + x`, as the source computes it. */
    function Index(x: nat, y: nat): nat
      reads this
    {
      y * width + x
    }

    /** `get_depth(x, y)`. */
    function GetDepth(x: nat, y: nat): Depth
      reads this
      requires Index(x, y) < |zBuffer|
    {
      zBuffer[Index(x, y)]
    }

    /** `set_depth(x, y, depth)`: writes index `y * width + x` and nothing else. */
    method SetDepth(x: nat, y: nat, depth: Depth)
      requires Index(x, y) < |zBuffer| && Index(x, y) < U32Limit
      modifies this`zBuffer
      ensures |zBuffer| == old(|zBuffer|)
      ensures GetDepth(x, y) == depth
      ensures forall i | 0 <= i < |zBuffer| && i != Index(x, y) :: zBuffer[i] == old(zBuffer[i])
    {
      zBuffer := zBuffer[Index(x, y) := depth];
    }

    /** The buffer when the pixels of box b before index `limit` (in row-major order)
        have been drawn and the rest are as in `orig`. */
    ghost predicate DrawnBefore(orig: seq<Depth>, b: Box, p1: Vec3, p2: Vec3, p3: Vec3, limit: nat)
      reads this
      requires width >= 1
    {
      && |zBuffer| == |orig|
      && forall i | 0 <= i < |orig| ::
           zBuffer[i] == if InBox(i, width, b) && i < limit then DrawnAt(orig[i], p1, p2, p3, i % width, i / width) else orig[i]
    }

    /** The depth part of `draw_triangle(image, [p1, p2, p3], colors)`. */
    method DrawTriangle(p1: Vec3, p2: Vec3, p3: Vec3)
      requires Valid() && width >= 1 && height >= 1
      modifies this`zBuffer
      ensures Valid()
      ensures zBuffer == Painted(old(zBuffer), width, BoundingBox(p1, p2, p3, width, height), p1, p2, p3)
    {
      var b := BoundingBox(p1, p2, p3, width, height);
      ghost var orig := zBuffer;
      NothingDrawn(b, p1, p2, p3);
      var y := b.minY;
      while y <= b.maxY
        invariant b.minY <= y && (y <= b.maxY + 1 || y == b.minY)
        invariant DrawnBefore(orig, b, p1, p2, p3, y * width)
        decreases b.maxY + 1 - y
      {
        RowStart(orig, b, p1, p2, p3, y);
        var x := b.minX;
        while x <= b.maxX
          invariant b.minX <= x && (x <= b.maxX + 1 || x == b.minX)
          invariant DrawnBefore(orig, b, p1, p2, p3, y * width + x)
          decreases b.maxX + 1 - x
        {
          DrawPixel(orig, b, p1, p2, p3, x, y);
          x := x + 1;
        }
        RowEnd(orig, b, p1, p2, p3, x, y);
        y := y + 1;
      }
      BufferDone(orig, b, p1, p2, p3, y);
    }

    /** The depth test and write at one pixel of the box. */
    method DrawPixel(ghost orig: seq<Depth>, b: Box, p1: Vec3, p2: Vec3, p3: Vec3, x: nat, y: nat)
      requires Valid() && width >= 1 && height >= 1
      requires b.minX <= x <= b.maxX < width && b.minY <= y <= b.maxY < height
      requires DrawnBefore(orig, b, p1, p2, p3, y * width + x)
      modifies this`zBuffer
      ensures DrawnBefore(orig, b, p1, p2, p3, y * width + x + 1)
    {
      PixelIndex(x, y, width);
      BoxInBuffer(x, y, width, height);
      var bary := PixelCoordinates(p1, p2, p3, x, y);
      if bary.Some? && Inside(bary.value) {
        var z := PixelDepth(p1, p2, p3, bary.value);
        if Closer(z, GetDepth(x, y)) {
          SetDepth(x, y, Fin(z));
        }
      }
    }

    /** No pixel of the box comes before its first row. */
    lemma NothingDrawn(b: Box, p1: Vec3, p2: Vec3, p3: Vec3)
      requires width >= 1
      ensures DrawnBefore(zBuffer, b, p1, p2, p3, b.minY * width)
    {
      forall i | 0 <= i < |zBuffer| && InBox(i, width, b) ensures i >= b.minY * width {
        assert i == (i / width) * width + i % width;
        MulMonotone(b.minY, i / width, width);
      }
    }

    /** No pixel of the box lies in row y before column `minX`. */
    lemma RowStart(orig: seq<Depth>, b: Box, p1: Vec3, p2: Vec3, p3: Vec3, y: nat)
      requires width >= 1
      requires DrawnBefore(orig, b, p1, p2, p3, y * width)
      ensures DrawnBefore(orig, b, p1, p2, p3, y * width + b.minX)
    {
      forall i | y * width <= i < y * width + b.minX ensures !InBox(i, width, b) {
        if i - y * width < width {
          PixelIndex(i - y * width, y, width);
        }
      }
    }

    /** No pixel of the box lies in row y after column `maxX`. */
    lemma RowEnd(orig: seq<Depth>, b: Box, p1: Vec3, p2: Vec3, p3: Vec3, x: nat, y: nat)
      requires width >= 1 && b.maxX < width && b.minX <= x && (x == b.maxX + 1 || (x == b.minX && b.maxX < b.minX))
      requires DrawnBefore(orig, b, p1, p2, p3, y * width + x)
      ensures DrawnBefore(orig, b, p1, p2, p3, (y + 1) * width)
    {
      forall i | y * width + x <= i < (y + 1) * width ensures !InBox(i, width, b) {
        PixelIndex(i - y * width, y, width);
      }
    }

    /** Past the last row of the box every pixel of the box has been drawn. */
    lemma BufferDone(orig: seq<Depth>, b: Box, p1: Vec3, p2: Vec3, p3: Vec3, y: nat)
      requires width >= 1 && (y > b.maxY || y == b.minY)
      requires b.minY <= y && (y > b.maxY || b.maxY < b.minY)
      requires DrawnBefore(orig, b, p1, p2, p3, y * width)
      ensures zBuffer == Painted(orig, width, b, p1, p2, p3)
    {
      forall i | 0 <= i < |orig| && InBox(i, width, b) ensures i < y * width {
        assert i == (i / width) * width + i % width;
        MulMonotone(i / width + 1, y, width);
      }
      var painted := Painted(orig, width, b, p1, p2, p3);
      forall i | 0 <= i < |orig| ensures zBuffer[i] == painted[i] {
      }
    }
  }
}
