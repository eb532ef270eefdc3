/** The texture coordinates that the bake loops give the three vertices of
    every triangle. Both painting components walk the half grid
    `0 <= j <= i < resolution` of each cell and stop at the same three corner
    steps; they differ in which vertex of the triangle receives which corner. */
module Cells {
  import opened Values
  import opened Packing

  /** Which vertex of a triangle (0, 1 or 2, counted from the triangle's first
      index slot) receives the bottom-left, the top-left and the top-right
      corner of the triangle's cell. */
  datatype CornerRoles = CornerRoles(bottomLeft: nat, topLeft: nat, topRight: nat)

  /** The three roles go to three different vertices of the triangle. */
  predicate ValidRoles(r: CornerRoles)
  {
    r.bottomLeft < 3 && r.topLeft < 3 && r.topRight < 3 &&
    r.bottomLeft != r.topLeft && r.bottomLeft != r.topRight && r.topLeft != r.topRight
  }

  /** Step `(i, j) == (resolution - 1, 0)` visits this pixel. */
  function TopLeft(o: Point, resolution: int): Point
  {
    Offset(o, 0, resolution - 1)
  }

  /** Step `(i, j) == (resolution - 1, resolution - 1)` visits this pixel. */
  function TopRight(o: Point, resolution: int): Point
  {
    Offset(o, resolution - 1, resolution - 1)
  }

  /** How many corner steps the half-grid walk has performed before step
      `(i, j)`. The else-if chain tests `(0, 0)` first, so with resolution 1
      the other two corners are never reached. */
  function CornersBefore(i: int, j: int, resolution: int): nat
  {
    (if i > 0 || j > 0 then 1 else 0)
    + (if resolution >= 2 && (i > resolution - 1 || (i == resolution - 1 && j > 0)) then 1 else 0)
    + (if resolution >= 2 && (i > resolution - 1 || (i == resolution - 1 && j > resolution - 1)) then 1 else 0)
  }

  /** `s[i] = v` when `i` is a slot of `s`. */
  function Set<T>(s: seq<T>, i: int, v: T): (r: seq<T>)
    ensures |r| == |s|
  {
    if 0 <= i < |s| then s[i := v] else s
  }

  /** The coordinates of one cell's triangle, starting at index slot `k`,
      after the first `c` corner steps of the walk. */
  function CellUvUpTo(s: seq<Uv>, tri: seq<int>, k: nat, o: Point, resolution: nat, ro: CornerRoles, c: nat): (r: seq<Uv>)
    requires k + 2 < |tri| && ValidRoles(ro)
    ensures |r| == |s|
  {
    var s1 := if c >= 1 then Set(s, tri[k + ro.bottomLeft], PointUv(o)) else s;
    var s2 := if c >= 2 then Set(s1, tri[k + ro.topLeft], PointUv(TopLeft(o, resolution))) else s1;
    if c >= 3 then Set(s2, tri[k + ro.topRight], PointUv(TopRight(o, resolution))) else s2
  }

  /** The coordinates after the whole walk over one cell: at resolution 1
      the three corners are one pixel and only the first branch is taken. */
  function CellUv(s: seq<Uv>, tri: seq<int>, k: nat, o: Point, resolution: nat, ro: CornerRoles): (r: seq<Uv>)
    requires k + 2 < |tri| && ValidRoles(ro)
    ensures |r| == |s|
  {
    if resolution == 0 then s
    else if resolution == 1 then Set(s, tri[k + ro.bottomLeft], PointUv(o))
    else Set(Set(Set(s, tri[k + ro.bottomLeft], PointUv(o)),
                 tri[k + ro.topLeft], PointUv(TopLeft(o, resolution))),
             tri[k + ro.topRight], PointUv(TopRight(o, resolution)))
  }

  /** The walk's corner steps, all performed, make up the whole cell. */
  lemma CellUvComplete(s: seq<Uv>, tri: seq<int>, k: nat, o: Point, resolution: nat, ro: CornerRoles)
    requires k + 2 < |tri| && ValidRoles(ro)
    ensures CellUvUpTo(s, tri, k, o, resolution, ro, CornersBefore(resolution, 0, resolution))
            == CellUv(s, tri, k, o, resolution, ro)
  {
  }

  /** The two corner assignments of the painting components: one fixed for
      every triangle, and one that depends on whether the triangle's first
      index slot is odd. */
  datatype Mapping = Fixed | ByParity

  /** The roles that mapping `m` gives the triangle starting at slot `k`. */
  function Roles(m: Mapping, k: nat): (ro: CornerRoles)
    ensures ValidRoles(ro)
    ensures m.Fixed? ==> ro == CornerRoles(0, 1, 2)
    ensures m.ByParity? ==> ro.bottomLeft == 1
  {
    match m
    case Fixed => CornerRoles(0, 1, 2)
    case ByParity => if k % 2 != 0 then CornerRoles(1, 2, 0) else CornerRoles(1, 0, 2)
  }

  /** The texture coordinates after the walk has baked the first `n`
      triangles of `tri` into an atlas `width` pixels wide, starting from
      `uv0`; the cell of each triangle is where the cursor stands. */
  function BakeUv(uv0: seq<Uv>, tri: seq<int>, n: nat, width: int, resolution: nat, m: Mapping): (r: seq<Uv>)
    requires 3 * n <= |tri|
    ensures |r| == |uv0|
  {
    if n == 0 then uv0
    else CellUv(BakeUv(uv0, tri, n - 1, width, resolution, m), tri, 3 * (n - 1),
                CursorAfter(n - 1, resolution, width), resolution, Roles(m, 3 * (n - 1)))
  }

  /** The vertex that index slot `a` names. */
  function VertexAt(tri: seq<int>, a: int): int
    requires 0 <= a < |tri|
  {
    tri[a]
  }

  /** No vertex is used by two index slots, as after duplication. */
  predicate Injective(tri: seq<int>)
  {
    forall a, b :: 0 <= a < |tri| && 0 <= b < |tri| && a != b ==> VertexAt(tri, a) != VertexAt(tri, b)
  }

  /** Every index slot names a vertex of a mesh with `count` vertices. */
  predicate IndicesIn(tri: seq<int>, count: int)
  {
    forall a :: 0 <= a < |tri| ==> 0 <= VertexAt(tri, a) < count
  }

  /** The vertices that roles `ro` pick from the triangle at slot `k` are
      three different vertices of a mesh with `count` vertices. */
  predicate CornerVerticesOk(tri: seq<int>, k: nat, ro: CornerRoles, count: int)
  {
    k + 2 < |tri| && ValidRoles(ro) &&
    var a, b, c := tri[k + ro.bottomLeft], tri[k + ro.topLeft], tri[k + ro.topRight];
    0 <= a < count && 0 <= b < count && 0 <= c < count && a != b && a != c && b != c
  }

  /** Slot `a` of an injective index list names a vertex no other slot names. */
  lemma InjectiveAt(tri: seq<int>, a: int, b: int)
    requires Injective(tri) && 0 <= a < |tri| && 0 <= b < |tri| && a != b
    ensures tri[a] != tri[b]
  {
    assert VertexAt(tri, a) != VertexAt(tri, b);
  }

  /** Slot `a` of an index list in range names a vertex of the mesh. */
  lemma IndexIn(tri: seq<int>, count: int, a: int)
    requires IndicesIn(tri, count) && 0 <= a < |tri|
    ensures 0 <= tri[a] < count
  {
    assert 0 <= VertexAt(tri, a) < count;
  }

  /** An injective index list in range makes every triangle proper. */
  lemma CornerVerticesFrom(tri: seq<int>, k: nat, ro: CornerRoles, count: int)
    requires Injective(tri) && IndicesIn(tri, count) && k + 2 < |tri| && ValidRoles(ro)
    ensures CornerVerticesOk(tri, k, ro, count)
  {
    assert 0 <= VertexAt(tri, k + ro.bottomLeft) < count;
    assert 0 <= VertexAt(tri, k + ro.topLeft) < count;
    assert 0 <= VertexAt(tri, k + ro.topRight) < count;
    InjectiveAt(tri, k + ro.bottomLeft, k + ro.topLeft);
    InjectiveAt(tri, k + ro.bottomLeft, k + ro.topRight);
    InjectiveAt(tri, k + ro.topLeft, k + ro.topRight);
  }

  /** The vertex at slot `a` is none of the three that roles `ro'` pick from
      the triangle at slot `k'`, when `a` lies outside that triangle. */
  lemma InjectiveApart(tri: seq<int>, k': nat, ro': CornerRoles, a: int)
    requires Injective(tri) && k' + 2 < |tri| && ValidRoles(ro') && 0 <= a < |tri| && (a < k' || a > k' + 2)
    ensures tri[a] != tri[k' + ro'.bottomLeft] && tri[a] != tri[k' + ro'.topLeft] && tri[a] != tri[k' + ro'.topRight]
  {
    InjectiveAt(tri, a, k' + ro'.bottomLeft);
    InjectiveAt(tri, a, k' + ro'.topLeft);
    InjectiveAt(tri, a, k' + ro'.topRight);
  }

  /** A vertex that is none of the cell's three keeps its coordinate. */
  lemma CellUvAvoids(s: seq<Uv>, tri: seq<int>, k: nat, o: Point, resolution: nat, ro: CornerRoles, v: int)
    requires k + 2 < |tri| && ValidRoles(ro) && 0 <= v < |s|
    requires v != tri[k + ro.bottomLeft] && v != tri[k + ro.topLeft] && v != tri[k + ro.topRight]
    ensures CellUv(s, tri, k, o, resolution, ro)[v] == s[v]
  {
  }

  /** In `r`, the vertices of the triangle at slot `k` hold the three corners
      of the cell at `o`. */
  predicate CornersOk(r: seq<Uv>, tri: seq<int>, k: nat, o: Point, resolution: nat, ro: CornerRoles)
  {
    k + 2 < |tri| && ValidRoles(ro) &&
    var a, b, c := tri[k + ro.bottomLeft], tri[k + ro.topLeft], tri[k + ro.topRight];
    0 <= a < |r| && 0 <= b < |r| && 0 <= c < |r|
    && r[a] == PointUv(o) && r[b] == PointUv(TopLeft(o, resolution)) && r[c] == PointUv(TopRight(o, resolution))
  }

  /** The cell of a proper triangle gives its three vertices their corners. */
  lemma CornersLast(s: seq<Uv>, tri: seq<int>, k: nat, o: Point, resolution: nat, ro: CornerRoles)
    requires resolution >= 2 && CornerVerticesOk(tri, k, ro, |s|)
    ensures CornersOk(CellUv(s, tri, k, o, resolution, ro), tri, k, o, resolution, ro)
  {
  }

  /** A later cell leaves the corners of an earlier triangle alone. */
  lemma CornersKept(s: seq<Uv>, tri: seq<int>, k: nat, o: Point, ro: CornerRoles,
                    k': nat, o': Point, ro': CornerRoles, resolution: nat)
    requires k + 2 < k' && k' + 2 < |tri| && ValidRoles(ro') && Injective(tri) && resolution >= 2
    requires CornersOk(s, tri, k, o, resolution, ro)
    ensures CornersOk(CellUv(s, tri, k', o', resolution, ro'), tri, k, o, resolution, ro)
  {
    InjectiveApart(tri, k', ro', k + ro.bottomLeft);
    InjectiveApart(tri, k', ro', k + ro.topLeft);
    InjectiveApart(tri, k', ro', k + ro.topRight);
    CellUvAvoids(s, tri, k', o', resolution, ro', tri[k + ro.bottomLeft]);
    CellUvAvoids(s, tri, k', o', resolution, ro', tri[k + ro.topLeft]);
    CellUvAvoids(s, tri, k', o', resolution, ro', tri[k + ro.topRight]);
  }

  /** In `r`, triangle `t` holds the corners of the cell where the cursor
      stood when the walk reached it. */
  predicate TriangleBaked(r: seq<Uv>, tri: seq<int>, t: nat, width: int, resolution: nat, m: Mapping)
  {
    CornersOk(r, tri, 3 * t, CursorAfter(t, resolution, width), resolution, Roles(m, 3 * t))
  }

  /** Baking triangle `t` after the first `t`. */
  lemma BakeUvStep(uv0: seq<Uv>, tri: seq<int>, t: nat, width: int, resolution: nat, m: Mapping)
    requires 3 * t + 3 <= |tri|
    ensures BakeUv(uv0, tri, t + 1, width, resolution, m)
         == CellUv(BakeUv(uv0, tri, t, width, resolution, m), tri, 3 * t,
                   CursorAfter(t, resolution, width), resolution, Roles(m, 3 * t))
  {
  }

  /** The last baked triangle holds its corners. */
  lemma BakeUvLastCorners(uv0: seq<Uv>, tri: seq<int>, t: nat, width: int, resolution: nat, m: Mapping)
    requires 3 * t + 3 <= |tri| && resolution >= 2
    requires Injective(tri) && IndicesIn(tri, |uv0|)
    ensures TriangleBaked(BakeUv(uv0, tri, t + 1, width, resolution, m), tri, t, width, resolution, m)
  {
    BakeUvStep(uv0, tri, t, width, resolution, m);
    CornerVerticesFrom(tri, 3 * t, Roles(m, 3 * t), |uv0|);
    CornersLast(BakeUv(uv0, tri, t, width, resolution, m), tri, 3 * t, CursorAfter(t, resolution, width),
                resolution, Roles(m, 3 * t));
  }

  /** Baking one more triangle keeps the corners of an earlier one whose
      vertices the new triangle does not use. */
  lemma BakeUvKeepsCorners(uv0: seq<Uv>, tri: seq<int>, n: nat, width: int, resolution: nat, m: Mapping, t: nat)
    requires 3 * n <= |tri| && t + 1 < n && Injective(tri) && resolution >= 2
    requires TriangleBaked(BakeUv(uv0, tri, n - 1, width, resolution, m), tri, t, width, resolution, m)
    ensures TriangleBaked(BakeUv(uv0, tri, n, width, resolution, m), tri, t, width, resolution, m)
  {
    CornersKept(BakeUv(uv0, tri, n - 1, width, resolution, m), tri, 3 * t, CursorAfter(t, resolution, width),
                Roles(m, 3 * t), 3 * (n - 1), CursorAfter(n - 1, resolution, width), Roles(m, 3 * (n - 1)),
                resolution);
  }

  /** With unshared vertices and resolution at least 2, the vertices of
      every triangle end up with the pixel positions of the corners of the
      cell where the cursor stood, as the roles assign them. */
  lemma {:induction false} BakeUvCursorCorners(uv0: seq<Uv>, tri: seq<int>, n: nat, width: int, resolution: nat,
                                               m: Mapping, t: nat)
    requires 3 * n <= |tri| && resolution >= 2
    requires Injective(tri) && IndicesIn(tri, |uv0|) && t < n
    ensures TriangleBaked(BakeUv(uv0, tri, n, width, resolution, m), tri, t, width, resolution, m)
    decreases n, 1
  {
    if t + 1 == n {
      BakeUvLastCorners(uv0, tri, t, width, resolution, m);
    } else {
      BakeUvLaterCorners(uv0, tri, n, width, resolution, m, t);
    }
  }

  /** The inductive step of `BakeUvCursorCorners`. */
  lemma {:induction false} BakeUvLaterCorners(uv0: seq<Uv>, tri: seq<int>, n: nat, width: int, resolution: nat,
                                              m: Mapping, t: nat)
    requires 3 * n <= |tri| && resolution >= 2
    requires Injective(tri) && IndicesIn(tri, |uv0|) && t + 1 < n
    ensures TriangleBaked(BakeUv(uv0, tri, n, width, resolution, m), tri, t, width, resolution, m)
    decreases n, 0
  {
    BakeUvCursorCorners(uv0, tri, n - 1, width, resolution, m, t);
    BakeUvKeepsCorners(uv0, tri, n, width, resolution, m, t);
  }

  /** The same with the cell located in closed form: for an atlas `cols`
      cells wide, triangle `t` gets the corners of cell `t`. */
  lemma BakeUvCorners(uv0: seq<Uv>, tri: seq<int>, n: nat, cols: nat, resolution: nat, m: Mapping, t: nat)
    requires 3 * n <= |tri| && cols > 0 && resolution >= 2
    requires Injective(tri) && IndicesIn(tri, |uv0|) && t < n
    ensures CornersOk(BakeUv(uv0, tri, n, cols * resolution, resolution, m), tri, 3 * t,
                      CellOrigin(t, cols, resolution), resolution, Roles(m, 3 * t))
  {
    BakeUvCursorCorners(uv0, tri, n, cols * resolution, resolution, m, t);
    CursorIsCellOrigin(t, cols, resolution);
  }

  /** In `r`, the bottom-left vertex of the triangle at slot `k` holds the
      cell origin `o` and the other two vertices hold what they held in `uv0`. */
  predicate SingleOk(r: seq<Uv>, uv0: seq<Uv>, tri: seq<int>, k: nat, o: Point, ro: CornerRoles)
  {
    k + 2 < |tri| && ValidRoles(ro) &&
    var a, b, c := tri[k + ro.bottomLeft], tri[k + ro.topLeft], tri[k + ro.topRight];
    0 <= a < |r| && 0 <= b < |uv0| && b < |r| && 0 <= c < |uv0| && c < |r|
    && r[a] == PointUv(o) && r[b] == uv0[b] && r[c] == uv0[c]
  }

  /** At resolution 1, a vertex used by a later slot only is never written
      by the earlier triangles. */
  lemma {:induction false} BakeUvUnwritten(uv0: seq<Uv>, tri: seq<int>, n: nat, width: int, m: Mapping, a: nat)
    requires 3 * n <= a < |tri| && 0 <= tri[a] < |uv0|
    requires Injective(tri)
    ensures BakeUv(uv0, tri, n, width, 1, m)[tri[a]] == uv0[tri[a]]
    decreases n
  {
    if n > 0 {
      var s := BakeUv(uv0, tri, n - 1, width, 1, m);
      BakeUvUnwritten(uv0, tri, n - 1, width, m, a);
      InjectiveApart(tri, 3 * (n - 1), Roles(m, 3 * (n - 1)), a);
      CellUvAvoids(s, tri, 3 * (n - 1), CursorAfter(n - 1, 1, width), 1, Roles(m, 3 * (n - 1)), tri[a]);
    }
  }

  /** The cell of a proper triangle at resolution 1 sets only its
      bottom-left vertex. */
  lemma SingleCell(s: seq<Uv>, uv0: seq<Uv>, tri: seq<int>, k: nat, o: Point, ro: CornerRoles)
    requires CornerVerticesOk(tri, k, ro, |s|) && |s| == |uv0|
    requires s[tri[k + ro.topLeft]] == uv0[tri[k + ro.topLeft]]
    requires s[tri[k + ro.topRight]] == uv0[tri[k + ro.topRight]]
    ensures SingleOk(CellUv(s, tri, k, o, 1, ro), uv0, tri, k, o, ro)
  {
  }

  /** A later cell at resolution 1 leaves an earlier triangle alone. */
  lemma SingleKept(s: seq<Uv>, uv0: seq<Uv>, tri: seq<int>, k: nat, o: Point, ro: CornerRoles,
                   k': nat, o': Point, ro': CornerRoles)
    requires k + 2 < k' && k' + 2 < |tri| && ValidRoles(ro') && Injective(tri)
    requires SingleOk(s, uv0, tri, k, o, ro)
    ensures SingleOk(CellUv(s, tri, k', o', 1, ro'), uv0, tri, k, o, ro)
  {
    InjectiveApart(tri, k', ro', k + ro.bottomLeft);
    InjectiveApart(tri, k', ro', k + ro.topLeft);
    InjectiveApart(tri, k', ro', k + ro.topRight);
  }

  /** With unshared vertices and resolution 1, only the bottom-left vertex
      of every triangle gets a position, the cursor's; the other two keep
      theirs. */
  lemma {:induction false} BakeUvSinglePixel(uv0: seq<Uv>, tri: seq<int>, n: nat, width: int, m: Mapping, t: nat)
    requires 3 * n <= |tri|
    requires Injective(tri) && IndicesIn(tri, |uv0|) && t < n
    ensures SingleOk(BakeUv(uv0, tri, n, width, 1, m), uv0, tri, 3 * t, CursorAfter(t, 1, width), Roles(m, 3 * t))
    decreases n
  {
    var s := BakeUv(uv0, tri, n - 1, width, 1, m);
    var k := 3 * t;
    var ro := Roles(m, k);
    if t == n - 1 {
      CornerVerticesFrom(tri, k, ro, |uv0|);
      BakeUvUnwritten(uv0, tri, n - 1, width, m, k + ro.topLeft);
      BakeUvUnwritten(uv0, tri, n - 1, width, m, k + ro.topRight);
      SingleCell(s, uv0, tri, k, CursorAfter(t, 1, width), ro);
    } else {
      BakeUvSinglePixel(uv0, tri, n - 1, width, m, t);
      SingleKept(s, uv0, tri, k, CursorAfter(t, 1, width), ro,
                 3 * (n - 1), CursorAfter(n - 1, 1, width), Roles(m, 3 * (n - 1)));
    }
  }

  /** A cell lying inside a `width` by `height` atlas writes only coordinates
      on it. */
  lemma CellUvInAtlas(s: seq<Uv>, tri: seq<int>, k: nat, o: Point, resolution: nat, ro: CornerRoles,
                      width: int, height: int, p: int)
    requires k + 2 < |tri| && ValidRoles(ro) && 0 <= p < |s|
    requires 0 <= o.x && o.x + resolution <= width && 0 <= o.y && o.y + resolution <= height
    ensures var r := CellUv(s, tri, k, o, resolution, ro);
            r[p] == s[p] || InAtlas(r[p], width, height)
  {
  }

  /** Every texture coordinate after baking the first `done` of `n` triangles
      either is the one the mesh had or is a pixel position on the atlas sized
      for the `n` triangles. */
  lemma {:induction false} BakeUvInAtlas(uv0: seq<Uv>, tri: seq<int>, n: nat, done: nat, textureWidth: nat,
                                         resolution: nat, m: Mapping, p: int)
    requires 3 * n <= |tri| && done <= n && textureWidth > 0 && resolution > 0 && 0 <= p < |uv0|
    ensures AtlasSize(n, textureWidth, resolution).Some?
    ensures var d := AtlasSize(n, textureWidth, resolution).value;
            var r := BakeUv(uv0, tri, done, d.width, resolution, m);
            r[p] == uv0[p] || InAtlas(r[p], d.width, d.height)
    decreases done
  {
    if done > 0 {
      var cols := CellsPerRow(n, textureWidth);
      CellInside(done - 1, n, textureWidth, resolution);
      var d := AtlasSize(n, textureWidth, resolution).value;
      BakeUvInAtlas(uv0, tri, n, done - 1, textureWidth, resolution, m, p);
      CursorIsCellOrigin(done - 1, cols, resolution);
      CellUvInAtlas(BakeUv(uv0, tri, done - 1, d.width, resolution, m), tri, 3 * (done - 1),
                    CursorAfter(done - 1, resolution, d.width), resolution, Roles(m, 3 * (done - 1)),
                    d.width, d.height, p);
    }
  }
}
