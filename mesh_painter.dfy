/** `MeshColorTexture`: the painting component with the parity-dependent
    corner assignment. Its `GenerateTexture` gives the vertices of every
    triangle the corners of the triangle's cell in an order that depends on
    whether the triangle's first index slot is odd, and pads the texture in
    place by copying pixels one to the left. Its brush is clamped to the
    texture and is applied at five ray hits around the mouse. */
module MeshPainter {
  import opened Values
  import opened Packing
  import opened Cells
  import opened Padding
  import opened Brush
  import opened Picking

  /** The anchor of the brush for `uv` lies on the texture or on its right
      or top edge, so that the clamped block is empty or on the texture. */
  predicate AnchorOnTexture(uv: Uv, width: int, height: int)
  {
    var p := BrushAnchor(uv, width, height);
    0 <= p.x <= width && 0 <= p.y <= height
  }

  /** Every texture coordinate a ray can hit on the baked mesh, one on the
      unit square, puts the brush anchor on the texture. */
  lemma UnitSquareAnchor(uv: Uv, width: nat, height: nat)
    requires 0.0 <= uv.x <= 1.0 && 0.0 <= uv.y <= 1.0
    ensures AnchorOnTexture(uv, width, height)
  {
  }

  /** The texture after one `CastRayToPosition`: unchanged when the ray
      hits no collider, otherwise the clamped brush block at the hit's
      texture coordinate painted `c`. */
  function Stroke(s: seq<Color>, width: int, height: int, penSize: int, hit: Option<Uv>, c: Color): (r: seq<Color>)
    ensures |r| == |s|
    ensures hit.None? ==> r == s
  {
    match hit
    case None => s
    case Some(uv) =>
      var p := BrushAnchor(uv, width, height);
      PaintBlock(s, width, p.x, p.y, ClampedSpan(p.x, penSize, width), ClampedSpan(p.y, penSize, height), c)
  }

  /** The texture after one `CastRayToPosition` per hit, in order. */
  function Strokes(s: seq<Color>, width: int, height: int, penSize: int, hits: seq<Option<Uv>>, c: Color)
    : (r: seq<Color>)
    ensures |r| == |s|
  {
    if hits == [] then s
    else Stroke(Strokes(s, width, height, penSize, hits[..|hits| - 1], c), width, height, penSize,
                hits[|hits| - 1], c)
  }

  /** A stroke on the texture paints the whole pen square where it overlaps
      the texture: the clamping only cuts the square at the texture's edge. */
  lemma StrokeIsPenSquare(s: seq<Color>, width: nat, height: nat, penSize: nat, uv: Uv, c: Color)
    requires |s| == width * height && AnchorOnTexture(uv, width, height)
    ensures var p := BrushAnchor(uv, width, height);
            Stroke(s, width, height, penSize, Some(uv), c) == PaintBlock(s, width, p.x, p.y, penSize, penSize, c)
  {
    var p := BrushAnchor(uv, width, height);
    ClampedBlockIsPenSquare(s, width, height, p.x, p.y, penSize, c);
  }

  /** Two strokes of the same colour can be made in either order. */
  lemma StrokesCommute(s: seq<Color>, width: int, height: int, penSize: int, a: Option<Uv>, b: Option<Uv>, c: Color)
    ensures Stroke(Stroke(s, width, height, penSize, a, c), width, height, penSize, b, c)
         == Stroke(Stroke(s, width, height, penSize, b, c), width, height, penSize, a, c)
  {
    if a.Some? && b.Some? {
      var p, q := BrushAnchor(a.value, width, height), BrushAnchor(b.value, width, height);
      PaintBlocksCommute(s, width, p.x, p.y, ClampedSpan(p.x, penSize, width), ClampedSpan(p.y, penSize, height),
                         q.x, q.y, ClampedSpan(q.x, penSize, width), ClampedSpan(q.y, penSize, height), c);
    }
  }

  /** Repeating the same hit paints nothing new. */
  lemma StrokeIdempotent(s: seq<Color>, width: int, height: int, penSize: int, hit: Option<Uv>, c: Color)
    ensures Stroke(Stroke(s, width, height, penSize, hit, c), width, height, penSize, hit, c)
         == Stroke(s, width, height, penSize, hit, c)
  {
    if hit.Some? {
      var p := BrushAnchor(hit.value, width, height);
      PaintBlockIdempotent(s, width, p.x, p.y, ClampedSpan(p.x, penSize, width), ClampedSpan(p.y, penSize, height), c);
    }
  }

  /** The painting component. The mesh is given by its index list, its texture
      coordinates and the world positions of its vertices; `texture` holds the
      pixels of the atlas texture, `width * height` of them, row by row. */
  class MeshColorTexture {
    const resolution: nat
    const textureWidth: nat
    const penSize: nat
    /** `mesh.triangles`. */
    const triangles: seq<int>
    /** The world positions computed once in `Start`. */
    const worldVertices: seq<Vec3>
    const width: nat
    const height: nat
    const texture: array<Color>
    /** `mesh.colors`. */
    var colors: seq<Color>
    var activeColor: Color
    /** `mesh.uv`. */
    var meshUv: seq<Uv>
    var meshUvs: seq<Uv>

    /** Every vertex has a colour, a texture coordinate and a world position;
        the index list names vertices of the mesh in whole triangles; the atlas
        is sized for the triangles and the texture matches it. */
    ghost predicate Valid()
      reads this
    {
      |colors| == |worldVertices| && |meshUv| == |worldVertices| &&
      |triangles| % 3 == 0 && IndicesIn(triangles, |worldVertices|) &&
      AtlasIs(|triangles| / 3, textureWidth, resolution, width, height) &&
      texture.Length == width * height
    }

    /** `Start`: every vertex colour white, the atlas sized from the triangle
        count, then `GenerateTexture`. The pixels of the texture, loaded or
        newly created, are `texturePixels`. An integer division by a zero
        `textureWidth` raises, and a `width` or `height` of 1 makes the
        normalisation divide by zero. */
    constructor (resolution: nat, textureWidth: nat, penSize: nat, triangles: seq<int>, uv: seq<Uv>,
                 worldVertices: seq<Vec3>, texturePixels: seq<Color>)
      requires |triangles| % 3 == 0 && IndicesIn(triangles, |worldVertices|) && |uv| == |worldVertices|
      requires !(textureWidth == 0 < |triangles| / 3)
      requires var d := AtlasSize(|triangles| / 3, textureWidth, resolution).value;
               d.width != 1 && d.height != 1 && |texturePixels| == d.width * d.height
      ensures Valid()
      ensures this.resolution == resolution && this.textureWidth == textureWidth && this.penSize == penSize
      ensures this.triangles == triangles && this.worldVertices == worldVertices
      ensures Some(Dims(width, height)) == AtlasSize(|triangles| / 3, textureWidth, resolution)
      ensures fresh(texture) && texture[..] == PadAll(texturePixels, |triangles| / 3, resolution, width, height)
      ensures colors == seq(|worldVertices|, _ => White) && activeColor == Black
      ensures meshUvs == NormalizedAll(BakeUv(uv, triangles, |triangles| / 3, width, resolution, ByParity),
                                       width, height)
      ensures meshUv == meshUvs
    {
      this.resolution := resolution;
      this.textureWidth := textureWidth;
      this.penSize := penSize;
      this.triangles := triangles;
      this.worldVertices := worldVertices;
      var trianglesCount := |triangles| / 3;
      if trianglesCount <= textureWidth {
        width := resolution * trianglesCount;
        height := resolution;
      } else {
        width := textureWidth * resolution;
        height := (trianglesCount / textureWidth + 1) * resolution;
      }
      texture := new Color[|texturePixels|](i requires 0 <= i < |texturePixels| => texturePixels[i]);
      colors := seq(|worldVertices|, _ => White);
      activeColor := Black;
      meshUv := uv;
      meshUvs := [];
      new;
      assert texture[..] == texturePixels;
      GenerateTexture();
    }

    /** `texture.SetPixel(p.x - 1, p.y, texture.GetPixel(p.x, p.y))` on two
        pixels of the texture. */
    method PadPixel(p: Point)
      requires texture.Length == width * height
      requires InRect(p, width, height) && InRect(Point(p.x - 1, p.y), width, height)
      modifies texture
      ensures texture[..] == Copied(old(texture[..]), Flat(p, width), Flat(Point(p.x - 1, p.y), width))
    {
      FlatInRange(p, width, height);
      FlatInRange(Point(p.x - 1, p.y), width, height);
      texture[Flat(Point(p.x - 1, p.y), width)] := texture[Flat(p, width)];
    }

    /** Row `i` of the half-grid walk over the cell at `ud` for the triangle
        at slot `k`: steps `(i, 0)` to `(i, i)`. A corner step sets the
        coordinate of the vertex that `ro` names for it; another step may pad
        the texture. */
    method WalkRow(uv: array<Uv>, k: nat, ud: Point, ro: CornerRoles, i: nat, ghost uv0: seq<Uv>)
      requires ValidRoles(ro) && k + 2 < |triangles| && i < resolution
      requires 0 <= triangles[k + ro.bottomLeft] < uv.Length && 0 <= triangles[k + ro.topLeft] < uv.Length
      requires 0 <= triangles[k + ro.topRight] < uv.Length
      requires texture.Length == width * height
      requires 0 <= ud.x && ud.x + resolution <= width && 0 <= ud.y && ud.y + resolution <= height
      requires uv[..] == CellUvUpTo(uv0, triangles, k, ud, resolution, ro, CornersBefore(i, 0, resolution))
      modifies uv, texture
      ensures uv[..] == CellUvUpTo(uv0, triangles, k, ud, resolution, ro, CornersBefore(i + 1, 0, resolution))
      ensures texture[..] == PadRow(old(texture[..]), ud, i, i + 1, resolution, width, height)
    {
      ghost var row := texture[..];
      var j := 0;
      while j <= i
        invariant 0 <= j <= i + 1
        invariant uv[..] == CellUvUpTo(uv0, triangles, k, ud, resolution, ro, CornersBefore(i, j, resolution))
        invariant texture[..] == PadRow(row, ud, i, j, resolution, width, height)
      {
        var us := Point(j + ud.x, i + ud.y);
        if PadCopies(ud, i, j, resolution, width, height) {
          PadTarget(ud, i, j, resolution, width, height);
        }
        if i == 0 && j == 0 {
          uv[triangles[k + ro.bottomLeft]] := PointUv(us);
        } else if i == resolution - 1 && j == 0 {
          uv[triangles[k + ro.topLeft]] := PointUv(us);
        } else if i == resolution - 1 && j == resolution - 1 {
          uv[triangles[k + ro.topRight]] := PointUv(us);
        } else if i == j && us.x + 1 < width {
          PadPixel(us);
        } else if i == resolution - 1 && us.y + 1 < height {
          PadPixel(us);
        } else if j == 0 && us.x - 1 > 0 {
          PadPixel(us);
        }
        j := j + 1;
      }
    }

    /** The half-grid walk over the cell at `ud` for the triangle at slot `k`:
        its three corner steps set the corner coordinates of the vertices that
        `ro` names, and its other steps pad the texture. */
    method WalkCell(uv: array<Uv>, k: nat, ud: Point, ro: CornerRoles)
      requires ValidRoles(ro) && k + 2 < |triangles| && IndicesIn(triangles, uv.Length)
      requires texture.Length == width * height
      requires 0 <= ud.x && ud.x + resolution <= width && 0 <= ud.y && ud.y + resolution <= height
      modifies uv, texture
      ensures uv[..] == CellUv(old(uv[..]), triangles, k, ud, resolution, ro)
      ensures texture[..] == PadCell(old(texture[..]), ud, resolution, width, height, resolution)
    {
      ghost var uv0, s0 := uv[..], texture[..];
      IndexIn(triangles, uv.Length, k + ro.bottomLeft);
      IndexIn(triangles, uv.Length, k + ro.topLeft);
      IndexIn(triangles, uv.Length, k + ro.topRight);
      var i := 0;
      while i < resolution
        invariant 0 <= i <= resolution
        invariant uv[..] == CellUvUpTo(uv0, triangles, k, ud, resolution, ro, CornersBefore(i, 0, resolution))
        invariant texture[..] == PadCell(s0, ud, resolution, width, height, i)
      {
        WalkRow(uv, k, ud, ro, i, uv0);
        i := i + 1;
      }
      CellUvComplete(uv0, triangles, k, ud, resolution, ro);
    }

    /** One round of the loop over the triangles: the walk over the cell of
        triangle `t`, at the cursor, with the roles of the odd or the even
        branch, then the cursor step to the next cell. */
    method BakeTriangle(uv: array<Uv>, k: nat, ud: Point, ghost uvStart: seq<Uv>, ghost pixels: seq<Color>, ghost t: nat)
      returns (next: Point)
      requires Valid() && k == 3 * t && 3 * t + 3 <= |triangles| && ud == CursorAfter(t, resolution, width)
      requires uv.Length == |worldVertices| && uv[..] == BakeUv(uvStart, triangles, t, width, resolution, ByParity)
      requires texture[..] == PadAll(pixels, t, resolution, width, height)
      modifies uv, texture
      ensures next == CursorAfter(t + 1, resolution, width)
      ensures uv[..] == BakeUv(uvStart, triangles, t + 1, width, resolution, ByParity)
      ensures texture[..] == PadAll(pixels, t + 1, resolution, width, height)
    {
      CursorInside(t, |triangles| / 3, textureWidth, resolution);
      BakeUvStep(uvStart, triangles, t, width, resolution, ByParity);
      if k % 2 != 0 {
        WalkCell(uv, k, ud, CornerRoles(1, 2, 0));
      } else {
        WalkCell(uv, k, ud, CornerRoles(1, 0, 2));
      }
      next := Point(ud.x + resolution, ud.y);
      if next.x >= width {
        next := Point(0, next.y + resolution);
      }
    }

    /** `GenerateTexture`: the walk over every triangle with the cursor `ud`,
        padding the texture in place, then the normalisation of the
        coordinates, which become the mesh's. */
    method GenerateTexture()
      requires Valid() && width != 1 && height != 1
      modifies this`meshUv, this`meshUvs, texture
      ensures Valid()
      ensures texture[..] == PadAll(old(texture[..]), |triangles| / 3, resolution, width, height)
      ensures meshUvs == NormalizedAll(BakeUv(old(meshUv), triangles, |triangles| / 3, width, resolution, ByParity),
                                       width, height)
      ensures meshUv == meshUvs
    {
      var ud := Point(0, 0);
      var uv0 := meshUv;
      var uv := new Uv[|uv0|](i requires 0 <= i < |uv0| => uv0[i]);
      ghost var pixels := texture[..];
      ghost var n := |triangles| / 3;
      assert 3 * n == |triangles|;
      ghost var t := 0;
      var k := 0;
      while k < |triangles|
        invariant 0 <= t <= n && k == 3 * t && 3 * n == |triangles| && meshUv == uv0
        invariant ud == CursorAfter(t, resolution, width)
        invariant uv[..] == BakeUv(uv0, triangles, t, width, resolution, ByParity)
        invariant texture[..] == PadAll(pixels, t, resolution, width, height)
      {
        ud := BakeTriangle(uv, k, ud, uv0, pixels, t);
        k := k + 3;
        t := t + 1;
      }
      assert t == n;
      NormalizeUvs(uv, width, height);
      meshUvs := uv[..];
      meshUv := meshUvs;
    }

    /** `PaintTexture`: a block of the active colour, its lower-left pixel
        where the texture coordinate falls, `penSize` pixels on a side, cut
        at the right and top edges of the texture. The `color` argument is
        not used. */
    method PaintTexture(uv: Uv, color: Color)
      requires Valid() && AnchorOnTexture(uv, width, height)
      modifies texture
      ensures texture[..] == Stroke(old(texture[..]), width, height, penSize, Some(uv), activeColor)
    {
      var anchor := BrushAnchor(uv, width, height);
      var x, y := anchor.x, anchor.y;
      var w := if x + penSize < width then penSize else width - x;
      var h := if y + penSize < height then penSize else height - y;
      assert 0 <= w && 0 <= h;
      assert 0 <= h * w == w * h by {
        MulMonotone(0, h, w);
      }
      var block := FillColors(h * w, activeColor);
      SetPixels(texture, width, height, x, y, w, h, block);
      UniformBlock(texture[..], old(texture[..]), block[..], width, height, x, y, w, h, activeColor);
      BlockPaintedIsPaintBlock(texture[..], old(texture[..]), width, height, x, y, w, h, activeColor);
    }

    /** `CastRayToPosition`, given the ray's hit: the texture coordinate of
        the hit when the ray meets a collider. */
    method CastRayToPosition(hit: Option<Uv>)
      requires Valid() && (hit.Some? ==> AnchorOnTexture(hit.value, width, height))
      modifies texture
      ensures texture[..] == Stroke(old(texture[..]), width, height, penSize, hit, activeColor)
    {
      if hit.Some? {
        PaintTexture(hit.value, activeColor);
      }
    }

    /** The five `CastRayToPosition` calls at the start of `HandleInput`,
        given the hits of the rays at the mouse and `penSize` pixels right,
        left, up and down of it. */
    method PaintFan(fan: seq<Option<Uv>>)
      requires Valid() && |fan| == 5
      requires forall i :: 0 <= i < |fan| && fan[i].Some? ==> AnchorOnTexture(fan[i].value, width, height)
      modifies texture
      ensures texture[..] == Strokes(old(texture[..]), width, height, penSize, fan, activeColor)
    {
      ghost var s0 := texture[..];
      CastRayToPosition(fan[0]);
      assert texture[..] == Strokes(s0, width, height, penSize, fan[..1], activeColor) by {
        assert fan[..1][..0] == [];
      }
      CastRayToPosition(fan[1]);
      assert texture[..] == Strokes(s0, width, height, penSize, fan[..2], activeColor) by {
        assert fan[..2][..1] == fan[..1];
      }
      CastRayToPosition(fan[2]);
      assert texture[..] == Strokes(s0, width, height, penSize, fan[..3], activeColor) by {
        assert fan[..3][..2] == fan[..2];
      }
      CastRayToPosition(fan[3]);
      assert texture[..] == Strokes(s0, width, height, penSize, fan[..4], activeColor) by {
        assert fan[..4][..3] == fan[..3];
      }
      CastRayToPosition(fan[4]);
      assert fan[..5][..4] == fan[..4] && fan[..5] == fan;
    }

    /** `HandleInput` for one frame with the mouse button down, given the
        hits of the five rays of `PaintFan` and the hits of the ray at the
        mouse: paint at the five hits, then recolour the vertex nearest to
        the nearest hit point, or to the world origin when nothing was hit,
        with every vertex coinciding with it. */
    method HandleInput(fan: seq<Option<Uv>>, hits: seq<Hit>, camera: Vec3, distance: (Vec3, Vec3) -> real)
      requires Valid() && |worldVertices| > 0 && |fan| == 5
      requires forall i :: 0 <= i < |fan| && fan[i].Some? ==> AnchorOnTexture(fan[i].value, width, height)
      modifies this`colors, texture
      ensures Valid()
      ensures texture[..] == Strokes(old(texture[..]), width, height, penSize, fan, activeColor)
      ensures colors == Recoloured(old(colors), PickedIds(worldVertices, HitPoint(hits, camera, distance), distance),
                                   activeColor)
    {
      PaintFan(fan);
      var meshColors := colors;
      var hitWorldPosition, hitTriangleUV := NearestHit(hits, camera, distance);
      var minIds := PickVertices(worldVertices, hitWorldPosition, distance);
      forall k | 0 <= k < |minIds|
        ensures minIds[k] < |meshColors|
      {
        PickedIdsInRange(worldVertices, hitWorldPosition, distance);
        assert minIds[k] in minIds;
      }
      var updated := new Color[|meshColors|](i requires 0 <= i < |meshColors| => meshColors[i]);
      Recolour(updated, minIds, activeColor);
      colors := updated[..];
    }

    /** `SetActiveColor`: the brush takes the colour that `parse` reads from
        `hexColor`, and keeps its colour when `parse` fails. */
    method SetActiveColor(hexColor: string, parse: string -> Option<Color>)
      modifies this`activeColor
      ensures activeColor == if parse(hexColor).Some? then parse(hexColor).value else old(activeColor)
    {
      var outColor := parse(hexColor);
      if outColor.Some? {
        activeColor := outColor.value;
      }
    }
  }
}
