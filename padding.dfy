/** The padding pass of the parity-mapped bake. At every step of the
    half-grid walk over a cell that is not one of the three corner steps,
    the pixel under the step may be copied into its left neighbour, in
    place on the texture. The copies read the texture as the earlier copies
    left it. */
module Padding {
  import opened Values
  import opened Packing
  import opened Cells

  /** `SetPixel(to, GetPixel(from))` on the flat pixel buffer. */
  function Copied(s: seq<Color>, from: int, to: int): (r: seq<Color>)
    ensures |r| == |s|
  {
    if 0 <= from < |s| then Set(s, to, s[from]) else s
  }

  /** Step `(i, j)` of the walk over the cell at `o` copies a pixel: it is
      none of the three corner steps, and it lies on the diagonal with a
      pixel to its right, or on the top row of the cell with a row above it,
      or on the left edge of the cell with its left neighbour past column 0. */
  predicate PadCopies(o: Point, i: int, j: int, resolution: int, width: int, height: int)
    ensures PadCopies(o, i, j, resolution, width, height) && 0 <= j <= i ==> 1 <= i
    ensures PadCopies(o, i, j, resolution, width, height) && j == 0 ==> o.x - 1 > 0
  {
    var x, y := j + o.x, i + o.y;
    !(i == 0 && j == 0) && !(i == resolution - 1 && j == 0) && !(i == resolution - 1 && j == resolution - 1) &&
    ((i == j && x + 1 < width) || (i == resolution - 1 && y + 1 < height) || (j == 0 && x - 1 > 0))
  }

  /** The texture after step `(i, j)`: the pixel `(j + o.x, i + o.y)` copied
      into `(j + o.x - 1, i + o.y)` when the step copies. */
  function PadStep(s: seq<Color>, o: Point, i: int, j: int, resolution: int, width: int, height: int): (r: seq<Color>)
    ensures |r| == |s|
  {
    if PadCopies(o, i, j, resolution, width, height)
    then Copied(s, Flat(Point(j + o.x, i + o.y), width), Flat(Point(j + o.x - 1, i + o.y), width))
    else s
  }

  /** The texture after steps `(i, 0)` to `(i, j - 1)` of row `i`. */
  function PadRow(s: seq<Color>, o: Point, i: int, j: nat, resolution: int, width: int, height: int): (r: seq<Color>)
    ensures |r| == |s|
  {
    if j == 0 then s
    else PadStep(PadRow(s, o, i, j - 1, resolution, width, height), o, i, j - 1, resolution, width, height)
  }

  /** The texture after the first `i` rows of the walk over the cell at `o`;
      row `i` has the `i + 1` steps `j <= i`. */
  function PadCell(s: seq<Color>, o: Point, resolution: int, width: int, height: int, i: nat): (r: seq<Color>)
    ensures |r| == |s|
  {
    if i == 0 then s
    else PadRow(PadCell(s, o, resolution, width, height, i - 1), o, i - 1, i, resolution, width, height)
  }

  /** The texture after the walk over the cells of the first `n` triangles,
      each at the cursor. */
  function PadAll(s: seq<Color>, n: nat, resolution: nat, width: int, height: int): (r: seq<Color>)
    ensures |r| == |s|
  {
    if n == 0 then s
    else PadCell(PadAll(s, n - 1, resolution, width, height), CursorAfter(n - 1, resolution, width),
                 resolution, width, height, resolution)
  }

  /** Every copy of a cell lying on the atlas reads and writes pixels of the
      atlas one row above the cell's bottom row or higher. A copy on the
      cell's left edge writes into the column left of the cell, which is
      past column 0; every other copy writes inside the cell, left of its
      last column. */
  lemma PadTarget(o: Point, i: int, j: int, resolution: nat, width: int, height: int)
    requires 0 <= j <= i < resolution && PadCopies(o, i, j, resolution, width, height)
    requires 0 <= o.x && o.x + resolution <= width && 0 <= o.y && o.y + resolution <= height
    ensures InRect(Point(j + o.x, i + o.y), width, height) && InRect(Point(j + o.x - 1, i + o.y), width, height)
    ensures 1 <= i
    ensures j == 0 ==> o.x - 1 > 0
    ensures j > 0 ==> o.x <= j + o.x - 1 <= o.x + resolution - 2
  {
  }

  /** No colour appears that the texture did not have. */
  function ColorsOf(s: seq<Color>): set<Color>
  {
    set i | 0 <= i < |s| :: s[i]
  }

  lemma CopiedColors(s: seq<Color>, from: int, to: int)
    ensures ColorsOf(Copied(s, from, to)) <= ColorsOf(s)
  {
    var r := Copied(s, from, to);
    forall c | c in ColorsOf(r)
      ensures c in ColorsOf(s)
    {
      var q :| 0 <= q < |r| && r[q] == c;
      if 0 <= from < |s| && q == to {
        assert s[from] == c;
      } else {
        assert s[q] == c;
      }
    }
  }

  lemma {:induction false} PadRowColors(s: seq<Color>, o: Point, i: int, j: nat, resolution: int, width: int, height: int)
    ensures ColorsOf(PadRow(s, o, i, j, resolution, width, height)) <= ColorsOf(s)
  {
    if j > 0 {
      var r := PadRow(s, o, i, j - 1, resolution, width, height);
      PadRowColors(s, o, i, j - 1, resolution, width, height);
      CopiedColors(r, Flat(Point(j - 1 + o.x, i + o.y), width), Flat(Point(j - 1 + o.x - 1, i + o.y), width));
    }
  }

  lemma {:induction false} PadCellColors(s: seq<Color>, o: Point, resolution: int, width: int, height: int, i: nat)
    ensures ColorsOf(PadCell(s, o, resolution, width, height, i)) <= ColorsOf(s)
  {
    if i > 0 {
      PadCellColors(s, o, resolution, width, height, i - 1);
      PadRowColors(PadCell(s, o, resolution, width, height, i - 1), o, i - 1, i, resolution, width, height);
    }
  }

  /** The padding pass only copies: every colour of the padded texture is a
      colour the texture had before. */
  lemma {:induction false} PadAllColors(s: seq<Color>, n: nat, resolution: nat, width: int, height: int)
    ensures ColorsOf(PadAll(s, n, resolution, width, height)) <= ColorsOf(s)
  {
    if n > 0 {
      PadAllColors(s, n - 1, resolution, width, height);
      PadCellColors(PadAll(s, n - 1, resolution, width, height), CursorAfter(n - 1, resolution, width),
                    resolution, width, height, resolution);
    }
  }

  /** `p` is in the last column of the atlas or in the bottom row of a row
      of cells of `resolution` pixels. */
  predicate Unpadded(p: Point, resolution: nat, width: int)
    requires resolution > 0
  {
    p.x == width - 1 || p.y % resolution == 0
  }

  /** A row above the bottom row of a cell whose bottom row is a multiple
      of `resolution` is not a multiple of `resolution`. */
  lemma RowAboveCellBottom(oy: int, resolution: nat, i: int)
    requires 1 <= i < resolution && oy % resolution == 0
    ensures (oy + i) % resolution != 0
  {
    DivModUnique(oy, resolution, oy / resolution, 0);
    DivModUnique(oy + i, resolution, oy / resolution, i);
  }

  /** A copy of a cell whose bottom row is the bottom row of a row of cells
      does not write an `Unpadded` pixel. */
  lemma PadStepKeeps(s: seq<Color>, o: Point, i: int, j: int, resolution: nat, width: int, height: int, p: Point)
    requires 0 <= j <= i < resolution && o.y % resolution == 0
    requires 0 <= o.x && o.x + resolution <= width && 0 <= o.y && o.y + resolution <= height
    requires InRect(p, width, height) && Unpadded(p, resolution, width) && |s| == width * height
    ensures 0 <= Flat(p, width) < |s|
    ensures PadStep(s, o, i, j, resolution, width, height)[Flat(p, width)] == s[Flat(p, width)]
  {
    FlatInRange(p, width, height);
    if PadCopies(o, i, j, resolution, width, height) {
      var target := Point(j + o.x - 1, i + o.y);
      PadTarget(o, i, j, resolution, width, height);
      RowAboveCellBottom(o.y, resolution, i);
      assert p.x != target.x || p.y != target.y;
      FlatInjective(p, target, width);
    }
  }

  lemma {:induction false} PadRowKeeps(s: seq<Color>, o: Point, i: int, j: nat, resolution: nat, width: int, height: int,
                                       p: Point)
    requires j <= i + 1 && 0 <= i < resolution && o.y % resolution == 0
    requires 0 <= o.x && o.x + resolution <= width && 0 <= o.y && o.y + resolution <= height
    requires InRect(p, width, height) && Unpadded(p, resolution, width) && |s| == width * height
    ensures 0 <= Flat(p, width) < |s|
    ensures PadRow(s, o, i, j, resolution, width, height)[Flat(p, width)] == s[Flat(p, width)]
  {
    FlatInRange(p, width, height);
    if j > 0 {
      PadRowKeeps(s, o, i, j - 1, resolution, width, height, p);
      PadStepKeeps(PadRow(s, o, i, j - 1, resolution, width, height), o, i, j - 1, resolution, width, height, p);
    }
  }

  lemma {:induction false} PadCellKeeps(s: seq<Color>, o: Point, resolution: nat, width: int, height: int, i: nat,
                                        p: Point)
    requires 0 < resolution && i <= resolution && o.y % resolution == 0
    requires 0 <= o.x && o.x + resolution <= width && 0 <= o.y && o.y + resolution <= height
    requires InRect(p, width, height) && Unpadded(p, resolution, width) && |s| == width * height
    ensures 0 <= Flat(p, width) < |s|
    ensures PadCell(s, o, resolution, width, height, i)[Flat(p, width)] == s[Flat(p, width)]
  {
    FlatInRange(p, width, height);
    if i > 0 {
      PadCellKeeps(s, o, resolution, width, height, i - 1, p);
      PadRowKeeps(PadCell(s, o, resolution, width, height, i - 1), o, i - 1, i, resolution, width, height, p);
    }
  }

  /** The padding pass never writes the last column of the atlas nor the
      bottom row of any cell, where the bottom-left and bottom-right corners
      lie. */
  lemma {:induction false} PadAllKeeps(s: seq<Color>, n: nat, textureWidth: nat, resolution: nat, width: int,
                                       height: int, done: nat, p: Point)
    requires resolution > 0 && done <= n && AtlasIs(n, textureWidth, resolution, width, height)
    requires InRect(p, width, height) && Unpadded(p, resolution, width) && |s| == width * height
    ensures 0 <= Flat(p, width) < |s|
    ensures PadAll(s, done, resolution, width, height)[Flat(p, width)] == s[Flat(p, width)]
  {
    FlatInRange(p, width, height);
    if done > 0 {
      var t := done - 1;
      var cols := CellsPerRow(n, textureWidth);
      var o := CursorAfter(t, resolution, width);
      PadAllKeeps(s, n, textureWidth, resolution, width, height, t, p);
      AtlasColumns(n, textureWidth, resolution, width, height);
      CursorInside(t, n, textureWidth, resolution);
      CursorIsCellOrigin(t, cols, resolution);
      DivModUnique(o.y, resolution, t / cols, 0);
      PadCellKeeps(PadAll(s, t, resolution, width, height), o, resolution, width, height, resolution, p);
    }
  }
}
