/** `ProceduralPlane`: the painting component with the fixed corner
    assignment. Its `GenerateTexture` gives the first, second and third
    vertex of every triangle the bottom-left, top-left and top-right corner
    of the triangle's cell, and writes the vertex colours of those corners,
    and their mean at the bottom-right corner, into a flat colour buffer. */
module PlanePainter {
  import opened Values
  import opened Packing
  import opened Cells
  import opened Brush
  import opened Picking

  /** The pixel `(ud.x + i, ud.y + j)` that step `(i, j) == (resolution - 1, 0)`
      writes as well: the bottom-right corner of the cell. */
  function BottomRight(o: Point, resolution: int): Point
  {
    Offset(o, resolution - 1, 0)
  }

  /** The three vertices of the triangle at slot `k` have colours. */
  predicate ColorsFor(tri: seq<int>, colors: seq<Color>, k: nat)
  {
    k + 2 < |tri| && 0 <= VertexAt(tri, k) < |colors| && 0 <= VertexAt(tri, k + 1) < |colors|
    && 0 <= VertexAt(tri, k + 2) < |colors|
  }

  /** The colour buffer after the first `c` corner steps of the walk over the
      cell of the triangle at slot `k`. The second corner step also writes the
      mean of the first and third vertex colours at the bottom-right corner. */
  function CellPixelsUpTo(s: seq<Color>, tri: seq<int>, colors: seq<Color>, k: nat, o: Point,
                          width: int, resolution: nat, c: nat): (r: seq<Color>)
    requires ColorsFor(tri, colors, k)
    ensures |r| == |s|
  {
    var c0, c1, c2 := colors[tri[k]], colors[tri[k + 1]], colors[tri[k + 2]];
    var s1 := if c >= 1 then Set(s, Flat(o, width), c0) else s;
    var s2 := if c >= 2 then Set(Set(s1, Flat(TopLeft(o, resolution), width), c1),
                                 Flat(BottomRight(o, resolution), width), Mean(c0, c2))
              else s1;
    if c >= 3 then Set(s2, Flat(TopRight(o, resolution), width), c2) else s2
  }

  /** The colour buffer after the whole walk over one cell. */
  function CellPixels(s: seq<Color>, tri: seq<int>, colors: seq<Color>, k: nat, o: Point,
                      width: int, resolution: nat): (r: seq<Color>)
    requires ColorsFor(tri, colors, k)
    ensures |r| == |s|
  {
    var c0, c1, c2 := colors[tri[k]], colors[tri[k + 1]], colors[tri[k + 2]];
    if resolution == 0 then s
    else if resolution == 1 then Set(s, Flat(o, width), c0)
    else Set(Set(Set(Set(s, Flat(o, width), c0),
                     Flat(TopLeft(o, resolution), width), c1),
                 Flat(BottomRight(o, resolution), width), Mean(c0, c2)),
             Flat(TopRight(o, resolution), width), c2)
  }

  /** The walk's corner steps, all performed, make up the whole cell. */
  lemma CellPixelsComplete(s: seq<Color>, tri: seq<int>, colors: seq<Color>, k: nat, o: Point,
                           width: int, resolution: nat)
    requires ColorsFor(tri, colors, k)
    ensures CellPixelsUpTo(s, tri, colors, k, o, width, resolution, CornersBefore(resolution, 0, resolution))
            == CellPixels(s, tri, colors, k, o, width, resolution)
  {
  }

  /** The colour buffer after the walk has painted the first `n` triangles
      of `tri` into an atlas `width` pixels wide, starting from `s0`. */
  function BakePixels(s0: seq<Color>, tri: seq<int>, colors: seq<Color>, n: nat, width: int,
                      resolution: nat): (r: seq<Color>)
    requires 3 * n <= |tri| && IndicesIn(tri, |colors|)
    ensures |r| == |s0|
  {
    if n == 0 then s0
    else
      var k := 3 * (n - 1);
      CellPixels(BakePixels(s0, tri, colors, n - 1, width, resolution), tri, colors, k,
                 CursorAfter(n - 1, resolution, width), width, resolution)
  }

  /** The buffer indices that the walk over the cell at `o` writes. */
  function CellPixelSlots(o: Point, width: int, resolution: nat): set<int>
  {
    if resolution == 0 then {}
    else if resolution == 1 then {Flat(o, width)}
    else {Flat(o, width), Flat(TopLeft(o, resolution), width),
          Flat(BottomRight(o, resolution), width), Flat(TopRight(o, resolution), width)}
  }

  /** The walk over a cell writes nothing but the cell's slots. */
  lemma CellPixelsAvoids(s: seq<Color>, tri: seq<int>, colors: seq<Color>, k: nat, o: Point,
                         width: int, resolution: nat, q: int)
    requires ColorsFor(tri, colors, k) && 0 <= q < |s| && q !in CellPixelSlots(o, width, resolution)
    ensures CellPixels(s, tri, colors, k, o, width, resolution)[q] == s[q]
  {
  }

  /** The colours of the four corners of a cell, `BottomRight` included. */
  datatype Quad = Quad(bottomLeft: Color, topLeft: Color, bottomRight: Color, topRight: Color)

  /** The corner colours of the cell at `o` in `r`; none when a corner lies
      outside the buffer. */
  function CornerColors(r: seq<Color>, o: Point, width: int, resolution: nat): Option<Quad>
  {
    var bl, tl, br, tr := Flat(o, width), Flat(TopLeft(o, resolution), width),
                          Flat(BottomRight(o, resolution), width), Flat(TopRight(o, resolution), width);
    if 0 <= bl < |r| && 0 <= tl < |r| && 0 <= br < |r| && 0 <= tr < |r|
    then Some(Quad(r[bl], r[tl], r[br], r[tr]))
    else None
  }

  /** The corner colours that the triangle at slot `k` should leave: its
      first, second and third vertex colour at the bottom-left, top-left and
      top-right corner, and the mean of the first and third at the
      bottom-right corner. */
  function TriangleQuad(tri: seq<int>, colors: seq<Color>, k: nat): Quad
    requires ColorsFor(tri, colors, k)
  {
    var c0, c1, c2 := colors[tri[k]], colors[tri[k + 1]], colors[tri[k + 2]];
    Quad(c0, c1, Mean(c0, c2), c2)
  }

  /** In `r`, the corners of the cell at `o` hold the colours of the triangle
      at slot `k`. */
  predicate PixelsOk(r: seq<Color>, tri: seq<int>, colors: seq<Color>, k: nat, o: Point,
                     width: int, resolution: nat)
  {
    ColorsFor(tri, colors, k) && CornerColors(r, o, width, resolution) == Some(TriangleQuad(tri, colors, k))
  }

  /** A cell of at least two by two pixels lying on the atlas gets its four
      corner colours. */
  lemma CellPixelsLast(s: seq<Color>, tri: seq<int>, colors: seq<Color>, k: nat, o: Point,
                       width: int, height: int, resolution: nat)
    requires ColorsFor(tri, colors, k) && resolution >= 2 && |s| == width * height
    requires 0 <= o.x && o.x + resolution <= width && 0 <= o.y && o.y + resolution <= height
    ensures PixelsOk(CellPixels(s, tri, colors, k, o, width, resolution), tri, colors, k, o, width, resolution)
  {
    var bl, tl, br, tr := o, TopLeft(o, resolution), BottomRight(o, resolution), TopRight(o, resolution);
    FlatInRange(bl, width, height);
    FlatInRange(tl, width, height);
    FlatInRange(br, width, height);
    FlatInRange(tr, width, height);
    FlatInjective(bl, tl, width);
    FlatInjective(bl, br, width);
    FlatInjective(bl, tr, width);
    FlatInjective(tl, br, width);
    FlatInjective(tl, tr, width);
    FlatInjective(br, tr, width);
  }

  /** Pixels of the cells of two different triangles have different
      buffer indices. */
  lemma CellPixelsDistinct(t: nat, t': nat, cols: nat, resolution: nat, dx: int, dy: int, dx': int, dy': int)
    requires cols > 0 && t != t'
    requires 0 <= dx < resolution && 0 <= dy < resolution && 0 <= dx' < resolution && 0 <= dy' < resolution
    ensures Flat(Offset(CellOrigin(t, cols, resolution), dx, dy), cols * resolution)
         != Flat(Offset(CellOrigin(t', cols, resolution), dx', dy'), cols * resolution)
  {
    ScaledCell(t % cols, cols, resolution);
    ScaledCell(t' % cols, cols, resolution);
    CellsDisjoint(t, t', cols, resolution, dx, dy, dx', dy');
    FlatInjective(Offset(CellOrigin(t, cols, resolution), dx, dy),
                  Offset(CellOrigin(t', cols, resolution), dx', dy'), cols * resolution);
  }

  /** A pixel of the cell of triangle `t` is not written by the walk over the
      cell of another triangle `t'`. */
  lemma PixelApart(t: nat, t': nat, cols: nat, resolution: nat, dx: int, dy: int)
    requires cols > 0 && resolution >= 2 && t != t' && 0 <= dx < resolution && 0 <= dy < resolution
    ensures Flat(Offset(CellOrigin(t, cols, resolution), dx, dy), cols * resolution)
            !in CellPixelSlots(CellOrigin(t', cols, resolution), cols * resolution, resolution)
  {
    var o' := CellOrigin(t', cols, resolution);
    CellPixelsDistinct(t, t', cols, resolution, dx, dy, 0, 0);
    CellPixelsDistinct(t, t', cols, resolution, dx, dy, 0, resolution - 1);
    CellPixelsDistinct(t, t', cols, resolution, dx, dy, resolution - 1, 0);
    CellPixelsDistinct(t, t', cols, resolution, dx, dy, resolution - 1, resolution - 1);
    assert o' == Offset(o', 0, 0);
  }

  /** No corner of the cell of triangle `t` is written by the walk over the
      cell of another triangle `t'`, wherever the cursor put the two cells. */
  lemma CornersApart(t: nat, t': nat, cols: nat, width: int, resolution: nat, o: Point, o': Point)
    requires cols > 0 && resolution >= 2 && t != t' && width == cols * resolution
    requires o == CursorAfter(t, resolution, width) && o' == CursorAfter(t', resolution, width)
    ensures Flat(o, width) !in CellPixelSlots(o', width, resolution)
    ensures Flat(TopLeft(o, resolution), width) !in CellPixelSlots(o', width, resolution)
    ensures Flat(BottomRight(o, resolution), width) !in CellPixelSlots(o', width, resolution)
    ensures Flat(TopRight(o, resolution), width) !in CellPixelSlots(o', width, resolution)
  {
    CursorIsCellOrigin(t, cols, resolution);
    CursorIsCellOrigin(t', cols, resolution);
    var o := CellOrigin(t, cols, resolution);
    PixelApart(t, t', cols, resolution, 0, 0);
    PixelApart(t, t', cols, resolution, 0, resolution - 1);
    PixelApart(t, t', cols, resolution, resolution - 1, 0);
    PixelApart(t, t', cols, resolution, resolution - 1, resolution - 1);
    assert o == Offset(o, 0, 0);
  }

  /** The walk over a cell none of whose slots is a corner of the cell at
      `o` keeps that cell's colours. */
  lemma PixelsKept(s: seq<Color>, tri: seq<int>, colors: seq<Color>, k: nat, o: Point,
                   k': nat, o': Point, width: int, resolution: nat)
    requires PixelsOk(s, tri, colors, k, o, width, resolution) && ColorsFor(tri, colors, k')
    requires Flat(o, width) !in CellPixelSlots(o', width, resolution)
    requires Flat(TopLeft(o, resolution), width) !in CellPixelSlots(o', width, resolution)
    requires Flat(BottomRight(o, resolution), width) !in CellPixelSlots(o', width, resolution)
    requires Flat(TopRight(o, resolution), width) !in CellPixelSlots(o', width, resolution)
    ensures PixelsOk(CellPixels(s, tri, colors, k', o', width, resolution), tri, colors, k, o, width, resolution)
  {
    CellPixelsAvoids(s, tri, colors, k', o', width, resolution, Flat(o, width));
    CellPixelsAvoids(s, tri, colors, k', o', width, resolution, Flat(TopLeft(o, resolution), width));
    CellPixelsAvoids(s, tri, colors, k', o', width, resolution, Flat(BottomRight(o, resolution), width));
    CellPixelsAvoids(s, tri, colors, k', o', width, resolution, Flat(TopRight(o, resolution), width));
  }

  /** In `r`, triangle `t` holds its colours at the corners of the cell where
      the cursor stood when the walk reached it. */
  predicate TrianglePainted(r: seq<Color>, tri: seq<int>, colors: seq<Color>, t: nat, width: int, resolution: nat)
  {
    PixelsOk(r, tri, colors, 3 * t, CursorAfter(t, resolution, width), width, resolution)
  }

  /** Painting triangle `t` after the first `t`. */
  lemma BakePixelsStep(s0: seq<Color>, tri: seq<int>, colors: seq<Color>, t: nat, width: int, resolution: nat)
    requires 3 * t + 3 <= |tri| && IndicesIn(tri, |colors|)
    ensures ColorsFor(tri, colors, 3 * t)
    ensures BakePixels(s0, tri, colors, t + 1, width, resolution)
         == CellPixels(BakePixels(s0, tri, colors, t, width, resolution), tri, colors, 3 * t,
                       CursorAfter(t, resolution, width), width, resolution)
  {
  }

  /** The walk over the cell of triangle `t'` keeps the colours of another
      triangle `t`. */
  lemma CellKept(s: seq<Color>, tri: seq<int>, colors: seq<Color>, t: nat, t': nat,
                 cols: nat, width: int, resolution: nat)
    requires cols > 0 && resolution >= 2 && t != t' && width == cols * resolution
    requires PixelsOk(s, tri, colors, 3 * t, CursorAfter(t, resolution, width), width, resolution)
    requires ColorsFor(tri, colors, 3 * t')
    ensures PixelsOk(CellPixels(s, tri, colors, 3 * t', CursorAfter(t', resolution, width), width, resolution),
                     tri, colors, 3 * t, CursorAfter(t, resolution, width), width, resolution)
  {
    var o, o' := CursorAfter(t, resolution, width), CursorAfter(t', resolution, width);
    CornersApart(t, t', cols, width, resolution, o, o');
    PixelsKept(s, tri, colors, 3 * t, o, 3 * t', o', width, resolution);
  }

  /** In `r`, each of the first `done` triangles holds its colours. */
  ghost predicate AllPainted(r: seq<Color>, tri: seq<int>, colors: seq<Color>, done: nat, width: int, resolution: nat)
  {
    forall t: nat {:trigger CornerColors(r, CursorAfter(t, resolution, width), width, resolution)} ::
      t < done ==> TrianglePainted(r, tri, colors, t, width, resolution)
  }

  /** Painting triangle `done` gives it its colours and keeps those of the
      triangles painted before. */
  lemma PaintStep(r: seq<Color>, tri: seq<int>, colors: seq<Color>, done: nat, n: nat,
                  textureWidth: nat, resolution: nat, width: int, height: int)
    requires 3 * n <= |tri| && done < n && IndicesIn(tri, |colors|) && resolution >= 2
    requires AtlasIs(n, textureWidth, resolution, width, height) && |r| == width * height
    requires AllPainted(r, tri, colors, done, width, resolution)
    ensures ColorsFor(tri, colors, 3 * done)
    ensures AllPainted(CellPixels(r, tri, colors, 3 * done, CursorAfter(done, resolution, width), width, resolution),
                       tri, colors, done + 1, width, resolution)
  {
    var o := CursorAfter(done, resolution, width);
    var r' := CellPixels(r, tri, colors, 3 * done, o, width, resolution);
    var cols := CellsPerRow(n, textureWidth);
    AtlasColumns(n, textureWidth, resolution, width, height);
    forall t: nat | t < done + 1
      ensures TrianglePainted(r', tri, colors, t, width, resolution)
    {
      if t == done {
        CursorInside(t, n, textureWidth, resolution);
        CellPixelsLast(r, tri, colors, 3 * done, o, width, height, resolution);
      } else {
        assert TrianglePainted(r, tri, colors, t, width, resolution);
        CellKept(r, tri, colors, t, done, cols, width, resolution);
      }
    }
  }

  /** `states[i + 1]` is `states[i]` after the walk over the cell of
      triangle `i`: the buffers that `BakePixels` passes through. */
  ghost predicate PaintChain(states: seq<seq<Color>>, tri: seq<int>, colors: seq<Color>, width: int,
                             resolution: nat)
  {
    forall i :: 0 <= i < |states| - 1 ==>
      ColorsFor(tri, colors, 3 * i) &&
      states[i + 1] == CellPixels(states[i], tri, colors, 3 * i, CursorAfter(i, resolution, width), width, resolution)
  }

  /** Along a chain of buffers, the buffer after `m` cells holds the colours
      of the first `m` triangles. */
  lemma {:induction false} ChainPainted(states: seq<seq<Color>>, tri: seq<int>, colors: seq<Color>, n: nat,
                                        textureWidth: nat, resolution: nat, width: int, height: int, m: nat)
    requires 3 * n <= |tri| && IndicesIn(tri, |colors|) && resolution >= 2
    requires AtlasIs(n, textureWidth, resolution, width, height)
    requires PaintChain(states, tri, colors, width, resolution) && |states| == n + 1 && m <= n
    requires |states[0]| == width * height
    ensures |states[m]| == width * height
    ensures AllPainted(states[m], tri, colors, m, width, resolution)
  {
    if m > 0 {
      ChainPainted(states, tri, colors, n, textureWidth, resolution, width, height, m - 1);
      PaintStep(states[m - 1], tri, colors, m - 1, n, textureWidth, resolution, width, height);
    }
  }

  /** The buffers that `BakePixels` passes through on its way to `n` painted
      triangles. */
  function BakeStates(s0: seq<Color>, tri: seq<int>, colors: seq<Color>, n: nat, width: int,
                      resolution: nat): (states: seq<seq<Color>>)
    requires 3 * n <= |tri| && IndicesIn(tri, |colors|)
    ensures |states| == n + 1
    ensures forall i :: 0 <= i <= n ==> states[i] == BakePixels(s0, tri, colors, i, width, resolution)
  {
    seq(n + 1, i requires 0 <= i <= n => BakePixels(s0, tri, colors, i, width, resolution))
  }

  /** The buffers `BakePixels` passes through form a chain. */
  lemma BakeStatesChain(s0: seq<Color>, tri: seq<int>, colors: seq<Color>, n: nat, width: int, resolution: nat)
    requires 3 * n <= |tri| && IndicesIn(tri, |colors|)
    ensures PaintChain(BakeStates(s0, tri, colors, n, width, resolution), tri, colors, width, resolution)
  {
    var states := BakeStates(s0, tri, colors, n, width, resolution);
    forall i | 0 <= i < n
      ensures ColorsFor(tri, colors, 3 * i)
      ensures states[i + 1] == CellPixels(states[i], tri, colors, 3 * i, CursorAfter(i, resolution, width), width, resolution)
    {
      BakePixelsStep(s0, tri, colors, i, width, resolution);
    }
  }

  /** With resolution at least 2, every painted triangle holds its colours
      at the corners of the cell where the cursor stood. */
  lemma BakePixelsPainted(s0: seq<Color>, tri: seq<int>, colors: seq<Color>, n: nat,
                          textureWidth: nat, resolution: nat, width: int, height: int)
    requires 3 * n <= |tri| && IndicesIn(tri, |colors|) && resolution >= 2
    requires AtlasIs(n, textureWidth, resolution, width, height) && |s0| == width * height
    ensures AllPainted(BakePixels(s0, tri, colors, n, width, resolution), tri, colors, n, width, resolution)
  {
    BakeStatesChain(s0, tri, colors, n, width, resolution);
    ChainPainted(BakeStates(s0, tri, colors, n, width, resolution), tri, colors, n, textureWidth, resolution,
                 width, height, n);
  }

  /** The same in closed form: triangle `t` holds its colours at the
      corners of cell `t` of an atlas `CellsPerRow` cells wide. */
  lemma BakePixelsCells(s0: seq<Color>, tri: seq<int>, colors: seq<Color>, n: nat,
                        textureWidth: nat, resolution: nat, width: int, height: int, t: nat)
    requires 3 * n <= |tri| && IndicesIn(tri, |colors|) && resolution >= 2 && t < n
    requires AtlasIs(n, textureWidth, resolution, width, height) && |s0| == width * height
    ensures CellsPerRow(n, textureWidth) > 0
    ensures PixelsOk(BakePixels(s0, tri, colors, n, width, resolution), tri, colors, 3 * t,
                     CellOrigin(t, CellsPerRow(n, textureWidth), resolution), width, resolution)
  {
    BakePixelsPainted(s0, tri, colors, n, textureWidth, resolution, width, height);
    AtlasColumns(n, textureWidth, resolution, width, height);
    CursorIsCellOrigin(t, CellsPerRow(n, textureWidth), resolution);
    assert TrianglePainted(BakePixels(s0, tri, colors, n, width, resolution), tri, colors, t, width, resolution);
  }

  /** Along a chain of buffers, a pixel outside the slots of the first `m`
      cells keeps its colour. */
  lemma {:induction false} ChainUntouched(states: seq<seq<Color>>, tri: seq<int>, colors: seq<Color>,
                                          width: int, resolution: nat, m: nat, q: int)
    requires PaintChain(states, tri, colors, width, resolution) && m < |states| && 0 <= q < |states[0]|
    requires forall t: nat :: t < m ==> q !in CellPixelSlots(CursorAfter(t, resolution, width), width, resolution)
    ensures |states[m]| == |states[0]| && states[m][q] == states[0][q]
  {
    if m > 0 {
      ChainUntouched(states, tri, colors, width, resolution, m - 1, q);
      CellPixelsAvoids(states[m - 1], tri, colors, 3 * (m - 1), CursorAfter(m - 1, resolution, width),
                       width, resolution, q);
    }
  }

  /** No pixel but the corner slots of the painted cells is written: a
      pixel outside every one of them keeps its colour. */
  lemma BakePixelsUntouched(s0: seq<Color>, tri: seq<int>, colors: seq<Color>, n: nat,
                            width: int, resolution: nat, q: int)
    requires 3 * n <= |tri| && IndicesIn(tri, |colors|) && 0 <= q < |s0|
    requires forall t: nat :: t < n ==> q !in CellPixelSlots(CursorAfter(t, resolution, width), width, resolution)
    ensures BakePixels(s0, tri, colors, n, width, resolution)[q] == s0[q]
  {
    BakeStatesChain(s0, tri, colors, n, width, resolution);
    ChainUntouched(BakeStates(s0, tri, colors, n, width, resolution), tri, colors, width, resolution, n, q);
  }

  /** Every slot the walk over a cell writes is a pixel of that cell. */
  lemma SlotsInCell(o: Point, width: int, resolution: nat, q: int)
    requires q in CellPixelSlots(o, width, resolution)
    ensures exists dx, dy :: 0 <= dx < resolution && 0 <= dy < resolution && q == Flat(Offset(o, dx, dy), width)
  {
    if q == Flat(o, width) {
      assert q == Flat(Offset(o, 0, 0), width);
    } else if q == Flat(TopLeft(o, resolution), width) {
      assert q == Flat(Offset(o, 0, resolution - 1), width);
    } else if q == Flat(BottomRight(o, resolution), width) {
      assert q == Flat(Offset(o, resolution - 1, 0), width);
    } else {
      assert q == Flat(Offset(o, resolution - 1, resolution - 1), width);
    }
  }

  /** A `Color[]` of `count` slots as freshly allocated: `default(Color)`
      in every slot. */
  function ClearPixels(count: nat): (s: seq<Color>)
    ensures |s| == count && forall i :: 0 <= i < count ==> s[i] == Clear
  {
    seq(count, _ => Clear)
  }

  /** The four corner pixels of a cell lying on the atlas have indices
      inside the flat buffer. */
  lemma CornersOnBuffer(o: Point, width: int, height: int, resolution: nat)
    requires resolution > 0 && 0 <= o.x && o.x + resolution <= width && 0 <= o.y && o.y + resolution <= height
    ensures 0 <= Flat(o, width) < width * height
    ensures 0 <= Flat(TopLeft(o, resolution), width) < width * height
    ensures 0 <= Flat(BottomRight(o, resolution), width) < width * height
    ensures 0 <= Flat(TopRight(o, resolution), width) < width * height
  {
    FlatInRange(o, width, height);
    FlatInRange(TopLeft(o, resolution), width, height);
    FlatInRange(BottomRight(o, resolution), width, height);
    FlatInRange(TopRight(o, resolution), width, height);
  }

  /** The painting component. The mesh is given by its index list, its texture
      coordinates and the world positions of its vertices; `texture` holds the
      pixels of the atlas texture, `width * height` of them, row by row. */
  class ProceduralPlane {
    const resolution: nat
    const textureWidth: nat
    const penSize: nat
    /** `mesh.triangles`. */
    const triangles: seq<int>
    /** The world positions computed once in `Start`. */
    const worldVertices: seq<Vec3>
    const width: nat
    const height: nat
    const texture: array<Color>
    /** `mesh.colors`. */
    var colors: seq<Color>
    var activeColor: Color
    /** `mesh.uv`. */
    var meshUv: seq<Uv>
    var meshUvs: seq<Uv>

    /** Every vertex has a colour, a texture coordinate and a world position;
        the index list names vertices of the mesh in whole triangles; the atlas
        is sized for the triangles and the texture matches it. */
    ghost predicate Valid()
      reads this
    {
      |colors| == |worldVertices| && |meshUv| == |worldVertices| &&
      |triangles| % 3 == 0 && IndicesIn(triangles, |worldVertices|) &&
      AtlasIs(|triangles| / 3, textureWidth, resolution, width, height) &&
      texture.Length == width * height
    }

    /** `Start`: every vertex colour white, the atlas sized from the triangle
        count, then `GenerateTexture`. The pixels of the texture, loaded or
        newly created, are `texturePixels`. An integer division by a zero
        `textureWidth` raises, and a `width` or `height` of 1 makes the
        normalisation divide by zero. */
    constructor (resolution: nat, textureWidth: nat, penSize: nat, triangles: seq<int>, uv: seq<Uv>,
                 worldVertices: seq<Vec3>, texturePixels: seq<Color>)
      requires |triangles| % 3 == 0 && IndicesIn(triangles, |worldVertices|) && |uv| == |worldVertices|
      requires !(textureWidth == 0 < |triangles| / 3)
      requires var d := AtlasSize(|triangles| / 3, textureWidth, resolution).value;
               d.width != 1 && d.height != 1 && |texturePixels| == d.width * d.height
      ensures Valid()
      ensures this.resolution == resolution && this.textureWidth == textureWidth && this.penSize == penSize
      ensures this.triangles == triangles && this.worldVertices == worldVertices
      ensures Some(Dims(width, height)) == AtlasSize(|triangles| / 3, textureWidth, resolution)
      ensures fresh(texture) && texture[..] == texturePixels
      ensures colors == seq(|worldVertices|, _ => White) && activeColor == Black
      ensures meshUvs == NormalizedAll(BakeUv(uv, triangles, |triangles| / 3, width, resolution, Fixed), width, height)
      ensures meshUv == meshUvs
    {
      this.resolution := resolution;
      this.textureWidth := textureWidth;
      this.penSize := penSize;
      this.triangles := triangles;
      this.worldVertices := worldVertices;
      var trianglesCount := |triangles| / 3;
      if trianglesCount <= textureWidth {
        width := resolution * trianglesCount;
        height := resolution;
      } else {
        width := textureWidth * resolution;
        height := (trianglesCount / textureWidth + 1) * resolution;
      }
      texture := new Color[|texturePixels|](i requires 0 <= i < |texturePixels| => texturePixels[i]);
      colors := seq(|worldVertices|, _ => White);
      activeColor := Black;
      meshUv := uv;
      meshUvs := [];
      new;
      var textureColors := GenerateTexture();
    }

    /** `SetPixel`: the pixel `(x, y)` of a buffer with rows `width` long. The
        index is not checked against the row, only against the buffer. */
    method SetPixel(buffer: array<Color>, x: int, y: int, color: Color)
      requires 0 <= x + y * width < buffer.Length
      modifies buffer
      ensures buffer[..] == old(buffer[..])[x + y * width := color]
    {
      buffer[x + y * width] := color;
    }

    /** The half-grid walk over the cell at `ud` for the triangle at slot `k`:
        its three corner steps set the corner coordinates of the triangle's
        vertices and write their colours, and the mean colour, into the
        colour buffer. */
    method WalkCell(uv: array<Uv>, textureColors: array<Color>, k: nat, ud: Point)
      requires IndicesIn(triangles, uv.Length) && textureColors.Length == width * height
      requires ColorsFor(triangles, colors, k)
      requires 0 <= ud.x && ud.x + resolution <= width && 0 <= ud.y && ud.y + resolution <= height
      modifies uv, textureColors
      ensures uv[..] == CellUv(old(uv[..]), triangles, k, ud, resolution, Roles(Fixed, k))
      ensures textureColors[..] == CellPixels(old(textureColors[..]), triangles, colors, k, ud, width, resolution)
    {
      ghost var uv0, s0, ro := uv[..], textureColors[..], Roles(Fixed, k);
      if resolution > 0 {
        CornersOnBuffer(ud, width, height, resolution);
      }
      var i := 0;
      while i < resolution
        invariant 0 <= i <= resolution
        invariant uv[..] == CellUvUpTo(uv0, triangles, k, ud, resolution, ro, CornersBefore(i, 0, resolution))
        invariant textureColors[..]
               == CellPixelsUpTo(s0, triangles, colors, k, ud, width, resolution, CornersBefore(i, 0, resolution))
      {
        var j := 0;
        while j <= i
          invariant 0 <= j <= i + 1
          invariant uv[..] == CellUvUpTo(uv0, triangles, k, ud, resolution, ro, CornersBefore(i, j, resolution))
          invariant textureColors[..]
                 == CellPixelsUpTo(s0, triangles, colors, k, ud, width, resolution, CornersBefore(i, j, resolution))
        {
          var us := Point(j + ud.x, i + ud.y);
          if i == 0 && j == 0 {
            SetPixel(textureColors, us.x, us.y, colors[triangles[k + 0]]);
            uv[triangles[k + 0]] := Uv(us.x as real, us.y as real);
          } else if i == resolution - 1 && j == 0 {
            SetPixel(textureColors, us.x, us.y, colors[triangles[k + 1]]);
            var meanColor := Mean(colors[triangles[k + 0]], colors[triangles[k + 2]]);
            SetPixel(textureColors, i + ud.x, j + ud.y, meanColor);
            uv[triangles[k + 1]] := Uv(us.x as real, us.y as real);
          } else if i == resolution - 1 && j == resolution - 1 {
            SetPixel(textureColors, us.x, us.y, colors[triangles[k + 2]]);
            uv[triangles[k + 2]] := Uv(us.x as real, us.y as real);
          }
          j := j + 1;
        }
        i := i + 1;
      }
      CellUvComplete(uv0, triangles, k, ud, resolution, ro);
      CellPixelsComplete(s0, triangles, colors, k, ud, width, resolution);
    }

    /** One round of the loop over the triangles: the walk over the cell of
        triangle `t`, at the cursor, then the cursor step to the next cell. */
    method BakeTriangle(uv: array<Uv>, textureColors: array<Color>, k: nat, ud: Point,
                        ghost uvStart: seq<Uv>, ghost blank: seq<Color>, ghost t: nat)
      returns (next: Point)
      requires Valid() && k == 3 * t && 3 * t + 3 <= |triangles| && ud == CursorAfter(t, resolution, width)
      requires uv.Length == |worldVertices| && uv[..] == BakeUv(uvStart, triangles, t, width, resolution, Fixed)
      requires textureColors.Length == width * height
      requires textureColors[..] == BakePixels(blank, triangles, colors, t, width, resolution)
      modifies uv, textureColors
      ensures next == CursorAfter(t + 1, resolution, width)
      ensures uv[..] == BakeUv(uvStart, triangles, t + 1, width, resolution, Fixed)
      ensures textureColors[..] == BakePixels(blank, triangles, colors, t + 1, width, resolution)
    {
      CursorInside(t, |triangles| / 3, textureWidth, resolution);
      BakePixelsStep(blank, triangles, colors, t, width, resolution);
      BakeUvStep(uvStart, triangles, t, width, resolution, Fixed);
      WalkCell(uv, textureColors, k, ud);
      next := Point(ud.x + resolution, ud.y);
      if next.x >= width {
        next := Point(0, next.y + resolution);
      }
    }

    /** The loop of `GenerateTexture` over the triangles, three indices at a
        time, with the cursor `ud` starting at the origin. */
    method BakeAll(uv: array<Uv>, textureColors: array<Color>, ghost uv0: seq<Uv>, ghost blank: seq<Color>)
      requires Valid() && uv.Length == |worldVertices| && uv[..] == uv0
      requires textureColors.Length == width * height && textureColors[..] == blank
      modifies uv, textureColors
      ensures uv[..] == BakeUv(uv0, triangles, |triangles| / 3, width, resolution, Fixed)
      ensures textureColors[..] == BakePixels(blank, triangles, colors, |triangles| / 3, width, resolution)
    {
      var ud := Point(0, 0);
      ghost var n := |triangles| / 3;
      assert 3 * n == |triangles|;
      ghost var t := 0;
      var k := 0;
      while k < |triangles|
        invariant 0 <= t <= n && k == 3 * t && 3 * n == |triangles|
        invariant ud == CursorAfter(t, resolution, width)
        invariant uv[..] == BakeUv(uv0, triangles, t, width, resolution, Fixed)
        invariant textureColors[..] == BakePixels(blank, triangles, colors, t, width, resolution)
      {
        ud := BakeTriangle(uv, textureColors, k, ud, uv0, blank, t);
        k := k + 3;
        t := t + 1;
      }
    }

    /** `GenerateTexture`: the walk over every triangle with the cursor `ud`,
        then the normalisation of the coordinates, which become the mesh's.
        The colour buffer it fills, starting from `default(Color)` in every
        pixel, is returned; the texture itself is not written. */
    method GenerateTexture() returns (textureColors: array<Color>)
      requires Valid() && width != 1 && height != 1
      modifies this`meshUv, this`meshUvs
      ensures Valid()
      ensures fresh(textureColors) && textureColors.Length == width * height
      ensures textureColors[..] == BakePixels(ClearPixels(width * height), triangles, colors, |triangles| / 3, width, resolution)
      ensures meshUvs == NormalizedAll(BakeUv(old(meshUv), triangles, |triangles| / 3, width, resolution, Fixed),
                                       width, height)
      ensures meshUv == meshUvs
    {
      var uv0 := meshUv;
      var uv := new Uv[|uv0|](i requires 0 <= i < |uv0| => uv0[i]);
      textureColors := new Color[width * height](_ => Clear);
      assert textureColors[..] == ClearPixels(width * height);
      BakeAll(uv, textureColors, uv0, textureColors[..]);
      NormalizeUvs(uv, width, height);
      meshUvs := uv[..];
      meshUv := meshUvs;
    }

    /** The block of the brush for texture coordinate `uv` lies on the
        texture. */
    predicate BrushFits(uv: Uv)
      reads this
    {
      var p := BrushAnchor(uv, width, height);
      0 <= p.x && p.x + penSize <= width && 0 <= p.y && p.y + penSize <= height
    }

    /** `PaintTexture`: a `penSize` by `penSize` block of the active colour,
        its lower-left pixel where the texture coordinate falls. The `color`
        argument is not used. The block is not clamped, so it has to lie on
        the texture. */
    method PaintTexture(uv: Uv, color: Color)
      requires Valid() && BrushFits(uv)
      modifies texture
      ensures var p := BrushAnchor(uv, width, height);
              BlockPainted(texture[..], old(texture[..]), width, height, p.x, p.y, penSize, penSize, activeColor)
    {
      var anchor := BrushAnchor(uv, width, height);
      var x, y := anchor.x, anchor.y;
      var block := FillColors(penSize * penSize, activeColor);
      SetPixels(texture, width, height, x, y, penSize, penSize, block);
      UniformBlock(texture[..], old(texture[..]), block[..], width, height, x, y, penSize, penSize, activeColor);
    }

    /** `HandleInput` for one frame with the mouse button down, given the
        ray hits: paint the texture under the nearest hit if there is one,
        then recolour the vertex nearest to the hit point, or to the world
        origin when nothing was hit, with every vertex coinciding with it. */
    method HandleInput(hits: seq<Hit>, camera: Vec3, distance: (Vec3, Vec3) -> real)
      requires Valid() && |worldVertices| > 0
      requires !(HitUv(hits, camera, distance).x < 0.0) ==> BrushFits(HitUv(hits, camera, distance))
      modifies this`colors, texture
      ensures Valid()
      ensures var uv := HitUv(hits, camera, distance);
              var p := BrushAnchor(uv, width, height);
              if uv.x < 0.0 then texture[..] == old(texture[..])
              else BlockPainted(texture[..], old(texture[..]), width, height, p.x, p.y, penSize, penSize, activeColor)
      ensures colors == Recoloured(old(colors), PickedIds(worldVertices, HitPoint(hits, camera, distance), distance),
                                   activeColor)
    {
      var meshColors := colors;
      var hitWorldPosition, hitTriangleUV := NearestHit(hits, camera, distance);
      if !(hitTriangleUV.x < 0.0) {
        PaintTexture(hitTriangleUV, activeColor);
      }
      var minIds := PickVertices(worldVertices, hitWorldPosition, distance);
      forall k | 0 <= k < |minIds|
        ensures minIds[k] < |meshColors|
      {
        PickedIdsInRange(worldVertices, hitWorldPosition, distance);
        assert minIds[k] in minIds;
      }
      var updated := new Color[|meshColors|](i requires 0 <= i < |meshColors| => meshColors[i]);
      Recolour(updated, minIds, activeColor);
      colors := updated[..];
    }

    /** `SetActiveColor`: the brush takes the colour that `parse` reads from
        `hexColor`, and keeps its colour when `parse` fails. */
    method SetActiveColor(hexColor: string, parse: string -> Option<Color>)
      modifies this`activeColor
      ensures activeColor == if parse(hexColor).Some? then parse(hexColor).value else old(activeColor)
    {
      var outColor := parse(hexColor);
      if outColor.Some? {
        activeColor := outColor.value;
      }
    }
  }
}
