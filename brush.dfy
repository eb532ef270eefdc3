/** The brush of both painting components: a block of the active colour
    written into the texture, anchored at its lower-left pixel. The texture
    is a flat row-major buffer of `width * height` pixels, as `GetPixels`
    returns it. */
module Brush {
  import opened Values
  import opened Packing

  /** `p` lies in the `w` by `h` block whose lower-left pixel is `(x, y)`. */
  predicate InBlock(p: Point, x: int, y: int, w: int, h: int)
  {
    x <= p.x < x + w && y <= p.y < y + h
  }

  /** The C# cast `(int)r`: truncation toward zero. */
  function Truncate(r: real): (n: int)
    ensures 0.0 <= r ==> 0 <= n && n as real <= r < n as real + 1.0
    ensures r < 0.0 ==> n <= 0 && n as real - 1.0 < r <= n as real
  {
    if r >= 0.0 then r.Floor else -((-r).Floor)
  }

  /** The first two lines of `PaintTexture`: the texture coordinate scaled to
      the texture and cast to a pixel. A coordinate on the unit square gives a
      pixel on the texture or just past its right or top edge. */
  function BrushAnchor(uv: Uv, width: int, height: int): (p: Point)
    ensures 0.0 <= uv.x <= 1.0 && 0 <= width ==> 0 <= p.x <= width
    ensures 0.0 <= uv.y <= 1.0 && 0 <= height ==> 0 <= p.y <= height
  {
    ScaledOnSide(width, uv.x);
    ScaledOnSide(height, uv.y);
    Point(Truncate(width as real * uv.x), Truncate(height as real * uv.y))
  }

  /** A coordinate in `[0, 1]` scaled to a side `size` pixels long and cast
      gives a pixel from `0` to `size`. */
  lemma ScaledOnSide(size: int, u: real)
    ensures 0.0 <= u <= 1.0 && 0 <= size ==> 0 <= Truncate(size as real * u) <= size
  {
    if 0.0 <= u <= 1.0 && 0 <= size {
      var r := size as real * u;
      assert 0.0 <= r <= size as real by {
        assert r <= size as real * 1.0;
      }
    }
  }

  /** The clamped extent of the brush from `x` along a side `size` pixels
      long: the pen size while the block ends before the edge, otherwise
      what remains up to the edge. */
  function ClampedSpan(x: int, penSize: int, size: int): (w: int)
    ensures w == penSize || x + w == size
    ensures x + penSize < size ==> w == penSize
    ensures x + penSize >= size ==> x + w == size
    ensures 0 <= x <= size && 0 <= penSize ==> 0 <= w <= penSize && x + w <= size
  {
    if x + penSize < size then penSize else size - x
  }

  /** The colour buffer `new Color[n]` that `PaintTexture` fills with the
      active colour. */
  method FillColors(n: nat, c: Color) returns (colors: array<Color>)
    ensures fresh(colors) && colors.Length == n
    ensures forall i :: 0 <= i < n ==> colors[i] == c
  {
    colors := new Color[n](_ => Clear);
    var i := 0;
    while i < n
      invariant 0 <= i <= n
      invariant forall k :: 0 <= k < i ==> colors[k] == c
    {
      colors[i] := c;
      i := i + 1;
    }
  }

  /** Index of pixel `p` in the colour buffer of the block at `(x, y)` whose
      rows are `w` long. */
  function BlockIndex(p: Point, x: int, y: int, w: int): int
  {
    (p.x - x) + (p.y - y) * w
  }

  /** In `s`, the first `j` rows of the block and the first `i` pixels of
      row `j` hold the block's colours; every other pixel holds its colour
      in `s0`. */
  ghost predicate PaintedUpTo(s: seq<Color>, s0: seq<Color>, block: seq<Color>, width: int, height: int,
                        x: int, y: int, w: int, j: int, i: int)
  {
    forall p :: InRect(p, width, height) ==>
      0 <= Flat(p, width) < |s| && 0 <= Flat(p, width) < |s0| &&
      var inside := InBlock(p, x, y, w, j) || (p.y == y + j && x <= p.x < x + i);
      (inside ==> 0 <= BlockIndex(p, x, y, w) < |block| && s[Flat(p, width)] == block[BlockIndex(p, x, y, w)]) &&
      (!inside ==> s[Flat(p, width)] == s0[Flat(p, width)])
  }

  lemma PaintedStart(s: seq<Color>, block: seq<Color>, width: nat, height: nat, x: int, y: int, w: nat)
    requires |s| == width * height
    ensures PaintedUpTo(s, s, block, width, height, x, y, w, 0, 0)
  {
    forall p | InRect(p, width, height)
      ensures 0 <= Flat(p, width) < |s|
    {
      FlatInRange(p, width, height);
    }
  }

  /** Writing pixel `i` of row `j` extends the painted part by one pixel. */
  lemma PaintedStep(s: seq<Color>, s0: seq<Color>, block: seq<Color>, width: nat, height: nat,
                    x: int, y: int, w: nat, h: nat, j: nat, i: nat)
    requires PaintedUpTo(s, s0, block, width, height, x, y, w, j, i)
    requires |s| == width * height && |block| == w * h && j < h && i < w
    requires 0 <= x && x + w <= width && 0 <= y && y + h <= height
    ensures 0 <= Flat(Point(x + i, y + j), width) < |s| && 0 <= i + j * w < |block|
    ensures PaintedUpTo(s[Flat(Point(x + i, y + j), width) := block[i + j * w]], s0, block,
                        width, height, x, y, w, j, i + 1)
  {
    var q := Point(x + i, y + j);
    FlatInRange(q, width, height);
    FlatInRange(Point(i, j), w, h);
    var s' := s[Flat(q, width) := block[i + j * w]];
    forall p | InRect(p, width, height)
      ensures 0 <= Flat(p, width) < |s'|
      ensures p != q ==> s'[Flat(p, width)] == s[Flat(p, width)]
    {
      if p != q {
        FlatInjective(p, q, width);
      }
    }
  }

  /** A finished row is the start of the next one. */
  lemma PaintedRow(s: seq<Color>, s0: seq<Color>, block: seq<Color>, width: int, height: int,
                   x: int, y: int, w: int, j: nat)
    requires PaintedUpTo(s, s0, block, width, height, x, y, w, j, w)
    ensures PaintedUpTo(s, s0, block, width, height, x, y, w, j + 1, 0)
  {
  }

  /** `Texture2D.SetPixels(x, y, w, h, block)`: pixel `(x + i, y + j)` of the
      block gets `block[i + j * w]`, every other pixel keeps its colour. The
      block has to lie on the texture. */
  method SetPixels(texture: array<Color>, width: nat, height: nat,
                   x: int, y: int, w: nat, h: nat, block: array<Color>)
    requires texture != block && texture.Length == width * height && block.Length == w * h
    requires 0 <= x && x + w <= width && 0 <= y && y + h <= height
    modifies texture
    ensures PaintedUpTo(texture[..], old(texture[..]), block[..], width, height, x, y, w, h, 0)
  {
    PaintedStart(texture[..], block[..], width, height, x, y, w);
    var j := 0;
    while j < h
      invariant 0 <= j <= h
      invariant PaintedUpTo(texture[..], old(texture[..]), block[..], width, height, x, y, w, j, 0)
    {
      var i := 0;
      while i < w
        invariant 0 <= i <= w
        invariant PaintedUpTo(texture[..], old(texture[..]), block[..], width, height, x, y, w, j, i)
      {
        PaintedStep(texture[..], old(texture[..]), block[..], width, height, x, y, w, h, j, i);
        texture[Flat(Point(x + i, y + j), width)] := block[i + j * w];
        i := i + 1;
      }
      PaintedRow(texture[..], old(texture[..]), block[..], width, height, x, y, w, j);
      j := j + 1;
    }
  }

  /** In `s`, pixel `p` of the texture has colour `c` when it lies in the
      block at `(x, y)` and its colour in `s0` otherwise. */
  ghost predicate BlockPainted(s: seq<Color>, s0: seq<Color>, width: int, height: int,
                               x: int, y: int, w: int, h: int, c: Color)
  {
    forall p :: InRect(p, width, height) ==>
      0 <= Flat(p, width) < |s| && 0 <= Flat(p, width) < |s0| &&
      s[Flat(p, width)] == if InBlock(p, x, y, w, h) then c else s0[Flat(p, width)]
  }

  /** Setting a block from a buffer of one colour paints the block in that
      colour and leaves the rest of the texture alone. */
  lemma UniformBlock(s: seq<Color>, s0: seq<Color>, block: seq<Color>, width: int, height: int,
                     x: int, y: int, w: int, h: int, c: Color)
    requires PaintedUpTo(s, s0, block, width, height, x, y, w, h, 0)
    requires forall k :: 0 <= k < |block| ==> block[k] == c
    ensures BlockPainted(s, s0, width, height, x, y, w, h, c)
  {
  }

  /** The pixel at flat index `q` of a buffer whose rows are `width` long. */
  function PixelAt(q: int, width: int): Point
    requires width > 0
  {
    Point(q % width, q / width)
  }

  /** Every index of a `width * height` buffer is the flat index of one
      pixel of the texture. */
  lemma PixelAtInRect(q: int, width: int, height: int)
    requires width > 0 && 0 <= q < width * height
    ensures InRect(PixelAt(q, width), width, height) && Flat(PixelAt(q, width), width) == q
  {
    var p := PixelAt(q, width);
    if p.y >= height {
      MulMonotone(height, p.y, width);
      assert false;
    }
  }

  /** The texture `s` with the `w` by `h` block at `(x, y)` painted `c`. */
  function PaintBlock(s: seq<Color>, width: int, x: int, y: int, w: int, h: int, c: Color): (r: seq<Color>)
    ensures |r| == |s|
  {
    seq(|s|, q requires 0 <= q < |s| =>
      if width > 0 && InBlock(PixelAt(q, width), x, y, w, h) then c else s[q])
  }

  /** The pixel-wise description of a painted block and the painted buffer
      say the same. */
  lemma BlockPaintedIsPaintBlock(s: seq<Color>, s0: seq<Color>, width: nat, height: nat,
                                 x: int, y: int, w: int, h: int, c: Color)
    requires |s| == width * height && |s0| == width * height
    ensures BlockPainted(s, s0, width, height, x, y, w, h, c) <==> s == PaintBlock(s0, width, x, y, w, h, c)
  {
    var r := PaintBlock(s0, width, x, y, w, h, c);
    if BlockPainted(s, s0, width, height, x, y, w, h, c) {
      forall q | 0 <= q < |s|
        ensures s[q] == r[q]
      {
        PixelAtInRect(q, width, height);
      }
    }
    if s == r {
      forall p | InRect(p, width, height)
        ensures 0 <= Flat(p, width) < |s| && 0 <= Flat(p, width) < |s0|
        ensures s[Flat(p, width)] == if InBlock(p, x, y, w, h) then c else s0[Flat(p, width)]
      {
        FlatInRange(p, width, height);
        DivModUnique(Flat(p, width), width, p.y, p.x);
      }
    }
  }

  /** The clamped block of `ClampedSpan` sides paints what the whole
      `penSize` square would paint where it overlaps the texture. */
  lemma ClampedBlockIsPenSquare(s: seq<Color>, width: nat, height: nat, x: int, y: int, penSize: nat, c: Color)
    requires |s| == width * height && 0 <= x <= width && 0 <= y <= height
    ensures PaintBlock(s, width, x, y, ClampedSpan(x, penSize, width), ClampedSpan(y, penSize, height), c)
            == PaintBlock(s, width, x, y, penSize, penSize, c)
  {
    var w, h := ClampedSpan(x, penSize, width), ClampedSpan(y, penSize, height);
    forall q | 0 <= q < |s|
      ensures PaintBlock(s, width, x, y, w, h, c)[q] == PaintBlock(s, width, x, y, penSize, penSize, c)[q]
    {
      PixelAtInRect(q, width, height);
    }
  }

  /** Painting the same block twice is painting it once. */
  lemma PaintBlockIdempotent(s: seq<Color>, width: int, x: int, y: int, w: int, h: int, c: Color)
    ensures PaintBlock(PaintBlock(s, width, x, y, w, h, c), width, x, y, w, h, c)
            == PaintBlock(s, width, x, y, w, h, c)
  {
  }

  /** Two blocks of one colour can be painted in either order. */
  lemma PaintBlocksCommute(s: seq<Color>, width: int, x1: int, y1: int, w1: int, h1: int,
                           x2: int, y2: int, w2: int, h2: int, c: Color)
    ensures PaintBlock(PaintBlock(s, width, x1, y1, w1, h1, c), width, x2, y2, w2, h2, c)
            == PaintBlock(PaintBlock(s, width, x2, y2, w2, h2, c), width, x1, y1, w1, h1, c)
  {
  }
}
