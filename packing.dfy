/** Integer layout of the texture atlas shared by both painting components:
    its size, the cell of every triangle, the cursor that walks the cells,
    the flat pixel index and the final normalisation of texture coordinates. */
module Packing {
  import opened Values

  /** Width and height of the atlas in pixels. */
  datatype Dims = Dims(width: nat, height: nat)

  /** Number of cells in one row of the atlas for `n` triangles. */
  function CellsPerRow(n: nat, textureWidth: nat): (r: nat)
  {
    if n <= textureWidth then n else textureWidth
  }

  /** A row holds the smaller of the triangle count and the texture width. */
  lemma CellsPerRowIsMinimum(n: nat, textureWidth: nat)
    ensures var r := CellsPerRow(n, textureWidth);
            r <= n && r <= textureWidth && (r == n || r == textureWidth)
  {
  }

  /** Number of cell rows of the atlas for `n` triangles. */
  function RowCount(n: nat, textureWidth: nat): (r: nat)
    requires n <= textureWidth || textureWidth > 0
    ensures 1 <= r && (n <= textureWidth ==> r == 1)
    ensures n > textureWidth ==> (r - 1) * textureWidth <= n < r * textureWidth
  {
    if n <= textureWidth then 1 else n / textureWidth + 1
  }

  /** The atlas size computed by `Start` from the triangle count `n`: one row
      of `n` cells when they fit in `textureWidth` cells, otherwise rows of
      `textureWidth` cells and `n / textureWidth + 1` rows (floor plus one, so
      an exact multiple gets an extra empty row). `None` when the integer
      division by a zero `textureWidth` raises. */
  function AtlasSize(n: nat, textureWidth: nat, resolution: nat): (r: Option<Dims>)
    ensures r.None? <==> textureWidth == 0 < n
    ensures r.Some? ==> r.value.width == CellsPerRow(n, textureWidth) * resolution
    ensures r.Some? ==> r.value.height == RowCount(n, textureWidth) * resolution
    ensures r.Some? ==> r.value.width <= textureWidth * resolution
  {
    if n <= textureWidth then Some(Dims(resolution * n, resolution))
    else if textureWidth == 0 then None
    else Some(Dims(textureWidth * resolution, (n / textureWidth + 1) * resolution))
  }

  /** Lower-left pixel of the cell of triangle `t`: cells are filled row by
      row, `cols` to a row. */
  function CellOrigin(t: nat, cols: nat, resolution: nat): Point
    requires cols > 0
  {
    Point((t % cols) * resolution, (t / cols) * resolution)
  }

  /** One step of the cursor `ud` after a triangle: move one cell right and
      wrap to the start of the next row once it reaches the atlas width. */
  function Advance(ud: Point, resolution: int, width: int): (r: Point)
    ensures (r.x == ud.x + resolution && r.y == ud.y) || (r.x == 0 && r.y == ud.y + resolution)
    ensures width > 0 ==> r.x < width
  {
    if ud.x + resolution >= width then Point(0, ud.y + resolution)
    else Point(ud.x + resolution, ud.y)
  }

  /** The pixel `(dx, dy)` away from `p`. */
  function Offset(p: Point, dx: int, dy: int): Point
  {
    Point(p.x + dx, p.y + dy)
  }

  /** Index of pixel `p` in a row-major buffer whose rows are `width` long. */
  function Flat(p: Point, width: int): int
  {
    p.x + p.y * width
  }

  /** `p` lies in the `width` by `height` atlas. */
  predicate InRect(p: Point, width: int, height: int)
  {
    0 <= p.x < width && 0 <= p.y < height
  }

  lemma DivModUnique(n: int, d: int, q: int, r: int)
    requires d > 0 && 0 <= r < d && n == q * d + r
    ensures n / d == q && n % d == r
  {
    var q', r' := n / d, n % d;
    assert (q - q') * d == r' - r;
    MulAtLeastOne(q - q', d);
  }

  lemma MulAtLeastOne(x: int, d: int)
    requires d > 0
    ensures x >= 1 ==> x * d >= d
    ensures x <= -1 ==> x * d <= -d
  {
    MulMonotone(1, x, d);
    MulMonotone(x, -1, d);
  }

  lemma MulMonotone(a: int, b: int, d: int)
    requires d >= 0
    ensures a <= b ==> a * d <= b * d
  {
    assert b * d - a * d == (b - a) * d;
  }

  /** Integer division by a positive number is monotone. */
  lemma DivMonotone(m: nat, n: nat, d: nat)
    requires d > 0 && m <= n
    ensures m / d <= n / d
  {
    var q, Q := m / d, n / d;
    MulMonotone(Q + 1, q, d);
    assert (Q + 1) * d == Q * d + d;
  }

  /** The cursor step moves from the cell of triangle `t` to the cell of
      triangle `t + 1` when the atlas is `cols` cells wide. */
  lemma AdvanceToNextCell(t: nat, cols: nat, resolution: nat)
    requires cols > 0 && resolution > 0
    ensures Advance(CellOrigin(t, cols, resolution), resolution, cols * resolution)
         == CellOrigin(t + 1, cols, resolution)
  {
    var q, r := t / cols, t % cols;
    assert (r + 1) * resolution == r * resolution + resolution;
    assert (q + 1) * resolution == q * resolution + resolution;
    if r + 1 < cols {
      DivModUnique(t + 1, cols, q, r + 1);
      MulMonotone(r + 2, cols, resolution);
      assert (r + 2) * resolution == (r + 1) * resolution + resolution;
    } else {
      DivModUnique(t + 1, cols, q + 1, 0);
    }
  }

  /** Starting at the origin, the cursor stands at the cell of triangle `t`
      after `t` steps: the closed form of the cursor walk. */
  function CursorAfter(t: nat, resolution: int, width: int): (r: Point)
    ensures 0 <= resolution && 0 < width ==> 0 <= r.x < width && 0 <= r.y
  {
    if t == 0 then Point(0, 0) else Advance(CursorAfter(t - 1, resolution, width), resolution, width)
  }

  lemma {:induction false} CursorIsCellOrigin(t: nat, cols: nat, resolution: nat)
    requires cols > 0 && resolution > 0
    ensures CursorAfter(t, resolution, cols * resolution) == CellOrigin(t, cols, resolution)
  {
    if t > 0 {
      CursorIsCellOrigin(t - 1, cols, resolution);
      AdvanceToNextCell(t - 1, cols, resolution);
    }
  }

  /** Every cell of the `n` triangles lies inside the atlas that `Start`
      sizes for them. */
  lemma CellInside(t: nat, n: nat, textureWidth: nat, resolution: nat)
    requires t < n && textureWidth > 0
    ensures CellsPerRow(n, textureWidth) > 0
    ensures AtlasSize(n, textureWidth, resolution).Some?
    ensures var o := CellOrigin(t, CellsPerRow(n, textureWidth), resolution);
            var d := AtlasSize(n, textureWidth, resolution).value;
            0 <= o.x && o.x + resolution <= d.width && 0 <= o.y && o.y + resolution <= d.height
  {
    var cols := CellsPerRow(n, textureWidth);
    var rows := RowCount(n, textureWidth);
    var q, r := t / cols, t % cols;
    assert q + 1 <= rows by {
      if n <= textureWidth {
        DivModUnique(t, cols, 0, t);
      } else {
        DivMonotone(t, n, textureWidth);
      }
    }
    ScaledCell(r, cols, resolution);
    ScaledCell(q, rows, resolution);
  }

  /** With resolution 0 the cursor never leaves the origin. */
  lemma {:induction false} CursorStill(t: nat, width: int)
    requires width >= 0
    ensures CursorAfter(t, 0, width) == Point(0, 0)
  {
    if t > 0 {
      CursorStill(t - 1, width);
    }
  }

  /** Wherever the cursor stands for one of the `n` triangles, the cell in
      front of it lies inside the atlas that `Start` sizes for them. */
  lemma CursorInside(t: nat, n: nat, textureWidth: nat, resolution: nat)
    requires t < n && AtlasSize(n, textureWidth, resolution).Some?
    ensures var d := AtlasSize(n, textureWidth, resolution).value;
            var o := CursorAfter(t, resolution, d.width);
            0 <= o.x && o.x + resolution <= d.width && 0 <= o.y && o.y + resolution <= d.height
  {
    var d := AtlasSize(n, textureWidth, resolution).value;
    if resolution == 0 {
      CursorStill(t, d.width);
    } else {
      CellInside(t, n, textureWidth, resolution);
      CursorIsCellOrigin(t, CellsPerRow(n, textureWidth), resolution);
    }
  }

  /** The atlas that `Start` sizes for `n` triangles is `width` by `height`. */
  predicate AtlasIs(n: nat, textureWidth: nat, resolution: nat, width: int, height: int)
  {
    0 <= width && 0 <= height && AtlasSize(n, textureWidth, resolution) == Some(Dims(width, height))
  }

  /** The atlas for a nonempty mesh is a whole number of cells wide. */
  lemma AtlasColumns(n: nat, textureWidth: nat, resolution: nat, width: int, height: int)
    requires n > 0 && AtlasIs(n, textureWidth, resolution, width, height)
    ensures CellsPerRow(n, textureWidth) > 0 && width == CellsPerRow(n, textureWidth) * resolution
  {
  }

  /** Index `i < count` scaled by `resolution` leaves room for one cell
      within `count` cells. */
  lemma ScaledCell(i: nat, count: nat, resolution: nat)
    requires i < count
    ensures 0 <= i * resolution && i * resolution + resolution <= count * resolution
  {
    MulMonotone(i + 1, count, resolution);
    assert (i + 1) * resolution == i * resolution + resolution;
  }

  /** Cells of distinct triangles share no pixel. */
  lemma CellsDisjoint(t1: nat, t2: nat, cols: nat, resolution: nat, dx1: int, dy1: int, dx2: int, dy2: int)
    requires cols > 0 && t1 != t2
    requires 0 <= dx1 < resolution && 0 <= dy1 < resolution
    requires 0 <= dx2 < resolution && 0 <= dy2 < resolution
    ensures Offset(CellOrigin(t1, cols, resolution), dx1, dy1)
         != Offset(CellOrigin(t2, cols, resolution), dx2, dy2)
  {
    var p1 := Offset(CellOrigin(t1, cols, resolution), dx1, dy1);
    var p2 := Offset(CellOrigin(t2, cols, resolution), dx2, dy2);
    DivModUnique(p1.x, resolution, t1 % cols, dx1);
    DivModUnique(p2.x, resolution, t2 % cols, dx2);
    DivModUnique(p1.y, resolution, t1 / cols, dy1);
    DivModUnique(p2.y, resolution, t2 / cols, dy2);
    assert t1 == t1 / cols * cols + t1 % cols;
    assert t2 == t2 / cols * cols + t2 % cols;
  }

  /** With `n` an exact multiple of `textureWidth` beyond one row, the last
      row of the atlas holds no cell. */
  lemma ExactMultipleLeavesEmptyRow(n: nat, textureWidth: nat, t: nat)
    requires textureWidth > 0 && n > textureWidth && n % textureWidth == 0 && t < n
    ensures t / textureWidth < RowCount(n, textureWidth) - 1
  {
    var q := n / textureWidth;
    assert n == q * textureWidth;
    MulMonotone(q, t / textureWidth, textureWidth);
    assert t >= t / textureWidth * textureWidth;
  }

  /** Pixels of the atlas have indices inside the flat buffer. */
  lemma FlatInRange(p: Point, width: int, height: int)
    requires InRect(p, width, height)
    ensures 0 <= Flat(p, width) < width * height
  {
    MulMonotone(p.y, height - 1, width);
    assert (height - 1) * width + width == width * height;
  }

  /** Distinct pixels of rows `width` long have distinct flat indices. */
  lemma FlatInjective(p: Point, q: Point, width: int)
    requires 0 <= p.x < width && 0 <= q.x < width && p != q
    ensures Flat(p, width) != Flat(q, width)
  {
    DivModUnique(Flat(p, width), width, p.y, p.x);
    DivModUnique(Flat(q, width), width, q.y, q.x);
  }

  /** A pixel coordinate, still unnormalised, that lies on the atlas. */
  predicate InAtlas(uv: Uv, width: int, height: int)
  {
    0.0 <= uv.x <= (width - 1) as real && 0.0 <= uv.y <= (height - 1) as real
  }

  /** One step of the final loop of `GenerateTexture`: divide by `width - 1`
      and `height - 1`. */
  function Normalized(uv: Uv, width: int, height: int): (r: Uv)
    requires width != 1 && height != 1
    ensures r.x * (width - 1) as real == uv.x && r.y * (height - 1) as real == uv.y
  {
    Uv(uv.x / (width - 1) as real, uv.y / (height - 1) as real)
  }

  function NormalizedAll(uvs: seq<Uv>, width: int, height: int): (r: seq<Uv>)
    requires width != 1 && height != 1
    ensures |r| == |uvs|
  {
    seq(|uvs|, i requires 0 <= i < |uvs| => Normalized(uvs[i], width, height))
  }

  /** Every pixel coordinate on the atlas lands in the unit square. */
  lemma NormalizedInUnitSquare(uv: Uv, width: int, height: int)
    requires width > 1 && height > 1 && InAtlas(uv, width, height)
    ensures var n := Normalized(uv, width, height);
            0.0 <= n.x <= 1.0 && 0.0 <= n.y <= 1.0
  {
    var w, h := (width - 1) as real, (height - 1) as real;
    assert uv.x / w <= w / w;
    assert uv.y / h <= h / h;
  }

  /** Normalisation loses nothing: distinct pixel coordinates keep distinct
      texture coordinates. */
  lemma NormalizedInjective(u: Uv, v: Uv, width: int, height: int)
    requires width != 1 && height != 1 && u != v
    ensures Normalized(u, width, height) != Normalized(v, width, height)
  {
    var w, h := (width - 1) as real, (height - 1) as real;
    assert u.x == (u.x / w) * w;
    assert v.x == (v.x / w) * w;
    assert u.y == (u.y / h) * h;
    assert v.y == (v.y / h) * h;
  }

  /** The normalisation loop at the end of `GenerateTexture`, in place on
      the copy of the mesh's texture coordinates. */
  method NormalizeUvs(uv: array<Uv>, width: int, height: int)
    requires width != 1 && height != 1
    modifies uv
    ensures uv[..] == NormalizedAll(old(uv[..]), width, height)
  {
    var i := 0;
    while i < uv.Length
      invariant 0 <= i <= uv.Length
      invariant forall k :: 0 <= k < i ==> uv[k] == Normalized(old(uv[k]), width, height)
      invariant forall k :: i <= k < uv.Length ==> uv[k] == old(uv[k])
    {
      uv[i] := Uv(uv[i].x / (width - 1) as real, uv[i].y / (height - 1) as real);
      i := i + 1;
    }
  }

  /** Two triangles at resolution 4 with 100 cells per row give an 8 by 4
      atlas, and the second cell starts at (4, 0). */
  lemma TwoTrianglesScenario()
    ensures AtlasSize(2, 100, 4) == Some(Dims(8, 4))
    ensures CellOrigin(1, CellsPerRow(2, 100), 4) == Point(4, 0)
  {
  }
}
