/** The mesh builder: `DuplicateVerticesOfMesh` gives every index slot of a
    mesh its own copy of the vertex it names, and `GeneratePlane` lays a
    grid of vertices, splits each grid square into two triangles and
    flattens the result the same way. */
module MeshGenerator {
  import opened Values
  import opened Packing
  import opened Cells

  /** The parts of a Unity `Mesh` the builder sets. */
  datatype Mesh = Mesh(vertices: seq<Vec3>, normals: seq<Vec3>, triangles: seq<int>, uv: seq<Uv>)

  /** The index list `0, 1, ..., n - 1`. */
  function Identity(n: nat): (r: seq<int>)
    ensures |r| == n && forall k :: 0 <= k < n ==> r[k] == k
  {
    seq(n, k => k)
  }

  /** `new Vector2[n]`. */
  function ZeroUvs(n: nat): (r: seq<Uv>)
    ensures |r| == n && forall k :: 0 <= k < n ==> r[k] == ZeroUv
  {
    seq(n, _ => ZeroUv)
  }

  /** The element of `s` that each slot of `idx` names, slot by slot. */
  function Gather<T>(s: seq<T>, idx: seq<int>): (r: seq<T>)
    requires IndicesIn(idx, |s|)
    ensures |r| == |idx|
  {
    seq(|idx|, k requires 0 <= k < |idx| => s[VertexAt(idx, k)])
  }

  /** Every prefix of an index list in range is in range. */
  lemma IndicesInPrefixes(idx: seq<int>, count: int)
    requires IndicesIn(idx, count)
    ensures forall i :: 0 <= i <= |idx| ==> IndicesIn(idx[..i], count)
  {
    forall i, a | 0 <= i <= |idx| && 0 <= a < i
      ensures 0 <= VertexAt(idx[..i], a) < count
    {
      assert VertexAt(idx[..i], a) == VertexAt(idx, a);
    }
  }

  /** The identity index list names every vertex once. */
  lemma IdentityUnshared(n: nat)
    ensures Injective(Identity(n)) && IndicesIn(Identity(n), n)
  {
    var r := Identity(n);
    assert forall a :: 0 <= a < n ==> VertexAt(r, a) == a;
  }

  /** ---- DuplicateVerticesOfMesh ---- */

  /** The mesh that `DuplicateVerticesOfMesh` builds from `mesh`: slot `i`
      gets its own copy of the vertex and normal that `mesh.triangles[i]`
      names, the index list becomes the identity and the texture
      coordinates are zero. */
  function Duplicated(mesh: Mesh): (r: Mesh)
    requires IndicesIn(mesh.triangles, |mesh.vertices|) && IndicesIn(mesh.triangles, |mesh.normals|)
    ensures |r.vertices| == |r.normals| == |r.triangles| == |r.uv| == |mesh.triangles|
  {
    var n := |mesh.triangles|;
    Mesh(Gather(mesh.vertices, mesh.triangles), Gather(mesh.normals, mesh.triangles), Identity(n), ZeroUvs(n))
  }

  /** `DuplicateVerticesOfMesh`: the loop over the index slots appends the
      vertex and the normal each slot names and rewrites the copied index
      array to the identity in place. */
  method DuplicateVerticesOfMesh(mesh: Mesh) returns (newMesh: Mesh)
    requires IndicesIn(mesh.triangles, |mesh.vertices|) && IndicesIn(mesh.triangles, |mesh.normals|)
    ensures newMesh == Duplicated(mesh)
  {
    var vertices: seq<Vec3> := [];
    var triangles := new int[|mesh.triangles|](k requires 0 <= k < |mesh.triangles| => mesh.triangles[k]);
    var normal: seq<Vec3> := [];
    IndicesInPrefixes(mesh.triangles, |mesh.vertices|);
    IndicesInPrefixes(mesh.triangles, |mesh.normals|);
    var i := 0;
    while i < |mesh.triangles|
      invariant 0 <= i <= |mesh.triangles| == triangles.Length
      invariant vertices == Gather(mesh.vertices, mesh.triangles[..i])
      invariant normal == Gather(mesh.normals, mesh.triangles[..i])
      invariant triangles[..i] == Identity(i)
    {
      var index := mesh.triangles[i];
      IndexIn(mesh.triangles, |mesh.vertices|, i);
      IndexIn(mesh.triangles, |mesh.normals|, i);
      vertices := vertices + [mesh.vertices[index]];
      normal := normal + [mesh.normals[index]];
      triangles[i] := i;
      i := i + 1;
    }
    assert mesh.triangles[..i] == mesh.triangles;
    var uv := new Uv[|vertices|](_ => ZeroUv);
    newMesh := Mesh(vertices, normal, triangles[..], uv[..]);
  }

  /** The duplicated mesh has the shape of the original: every index slot
      still names a vertex at the position and with the normal it named
      before. No vertex is shared, which is what the bake needs. */
  lemma DuplicatedKeepsShape(mesh: Mesh)
    requires IndicesIn(mesh.triangles, |mesh.vertices|) && IndicesIn(mesh.triangles, |mesh.normals|)
    ensures var r := Duplicated(mesh);
            Injective(r.triangles) && IndicesIn(r.triangles, |r.vertices|) &&
            forall k :: 0 <= k < |r.triangles| ==>
              0 <= mesh.triangles[k] < |mesh.vertices| && 0 <= mesh.triangles[k] < |mesh.normals| &&
              r.vertices[r.triangles[k]] == mesh.vertices[mesh.triangles[k]] &&
              r.normals[r.triangles[k]] == mesh.normals[mesh.triangles[k]]
  {
    var r := Duplicated(mesh);
    IdentityUnshared(|mesh.triangles|);
    forall k | 0 <= k < |r.triangles|
      ensures 0 <= mesh.triangles[k] < |mesh.vertices| && 0 <= mesh.triangles[k] < |mesh.normals|
    {
      IndexIn(mesh.triangles, |mesh.vertices|, k);
      IndexIn(mesh.triangles, |mesh.normals|, k);
    }
  }

  /** Duplicating a duplicated mesh changes nothing but its texture
      coordinates, which are zero anyway. */
  lemma DuplicatedIdempotent(mesh: Mesh)
    requires IndicesIn(mesh.triangles, |mesh.vertices|) && IndicesIn(mesh.triangles, |mesh.normals|)
    ensures var r := Duplicated(mesh);
            IndicesIn(r.triangles, |r.vertices|) && IndicesIn(r.triangles, |r.normals|) &&
            Duplicated(r) == r
  {
    var r := Duplicated(mesh);
    IdentityUnshared(|mesh.triangles|);
    assert Gather(r.vertices, r.triangles) == r.vertices;
    assert Gather(r.normals, r.triangles) == r.normals;
  }

  /** ---- GeneratePlane ---- */

  /** `new Vector3(j, i)`. */
  function GridPoint(j: int, i: int): Vec3
  {
    Vec3(j as real, i as real, 0.0)
  }

  /** The largest slot the first loop of `GeneratePlane` writes,
      `(height - 1) + (width - 1) * width`, lies in the `width * height`
      array (or the loop writes nothing); otherwise the write raises. */
  predicate InitFits(width: nat, height: nat)
  {
    width == 0 || height == 0 || (height - 1) + (width - 1) * width < width * height
  }

  /** The first loop runs without an index error exactly when the grid is
      no wider than it is tall, or has no rows. */
  lemma InitFitsIff(width: nat, height: nat)
    ensures InitFits(width, height) <==> width <= height || height == 0
  {
    if width >= 1 && height >= 1 {
      var d := height - width;
      assert (height - 1) + (width - 1) * width - width * height == (d - 1) - width * d;
      if d >= 0 {
        MulMonotone(1, width, d);
      } else {
        MulMonotone(width, 1, -d);
        if width >= 2 {
          MulMonotone(2, width, -d);
        }
      }
    }
  }

  /** Slot `j + i * width` of the first loop's step `(i, j)` lies in the array. */
  lemma InitSlotInRange(width: nat, height: nat, i: nat, j: nat)
    requires InitFits(width, height) && i < width && j < height
    ensures j + i * width < width * height
  {
    MulMonotone(i, width - 1, width);
  }

  /** The array after steps `(i, 0)` to `(i, j - 1)` of the first loop. */
  function InitRow(s: seq<Vec3>, width: int, i: int, j: nat): (r: seq<Vec3>)
    ensures |r| == |s|
  {
    if j == 0 then s else Set(InitRow(s, width, i, j - 1), (j - 1) + i * width, GridPoint(j - 1, i))
  }

  /** The array after the first `i` rounds of the outer loop, starting from
      `new Vector3[width * height]`. */
  function InitGrid(width: nat, height: nat, i: nat): (r: seq<Vec3>)
    ensures |r| == width * height
  {
    if i == 0 then seq(width * height, _ => Origin3)
    else InitRow(InitGrid(width, height, i - 1), width, i - 1, height)
  }

  /** `vertices_init` after the first loop. */
  function GridInit(width: nat, height: nat): (r: seq<Vec3>)
    ensures |r| == width * height
  {
    InitGrid(width, height, width)
  }

  /** A row of the first loop leaves every slot before or after its run. */
  lemma {:induction false} InitRowKeeps(s: seq<Vec3>, width: int, i: int, j: nat, q: int)
    requires 0 <= q < |s| && (q < i * width || q >= i * width + j)
    ensures InitRow(s, width, i, j)[q] == s[q]
  {
    if j > 0 {
      InitRowKeeps(s, width, i, j - 1, q);
    }
  }

  /** A row of the first loop writes its run of slots with the grid points
      of its row. */
  lemma {:induction false} InitRowWrites(s: seq<Vec3>, width: int, i: int, j: nat, q: int)
    requires 0 <= q < |s| && i * width <= q < i * width + j
    ensures InitRow(s, width, i, j)[q] == GridPoint(q - i * width, i)
  {
    if q == (j - 1) + i * width {
    } else {
      InitRowWrites(s, width, i, j - 1, q);
    }
  }

  /** On a square grid the rows of the first loop tile the array: after `r`
      rows, slot `q` holds the grid point of column `q % width`, row
      `q / width`, when it is in one of them, and zero otherwise. */
  lemma {:induction false} SquareInitGrid(width: nat, r: nat, q: nat)
    requires r <= width && q < width * width
    ensures q < r * width ==> InitGrid(width, width, r)[q] == GridPoint(q % width, q / width)
    ensures r * width <= q ==> InitGrid(width, width, r)[q] == Origin3
  {
    if r > 0 {
      var prev := InitGrid(width, width, r - 1);
      var lo := (r - 1) * width;
      NextMultiple(r - 1, width);
      if lo <= q < lo + width {
        SquareRowPoint(prev, width, r - 1, q);
      } else {
        InitRowKeeps(prev, width, r - 1, width, q);
        SquareInitGrid(width, r - 1, q);
      }
    }
  }

  lemma NextMultiple(a: int, b: int)
    ensures (a + 1) * b == a * b + b
  {
  }

  /** Row `i` of a square grid writes slot `q` of its run with the grid
      point of column `q % width`, row `q / width`. */
  lemma SquareRowPoint(s: seq<Vec3>, width: nat, i: nat, q: nat)
    requires i * width <= q < i * width + width && q < |s|
    ensures InitRow(s, width, i, width)[q] == GridPoint(q % width, q / width)
  {
    InitRowWrites(s, width, i, width, q);
    DivModUnique(q, width, i, q - i * width);
  }

  /** On a square grid every slot `j + i * width` holds the grid point
      `(j, i)`. */
  lemma SquareGridPoints(width: nat, i: nat, j: nat)
    requires i < width && j < width
    ensures j + i * width < width * width && GridInit(width, width)[j + i * width] == GridPoint(j, i)
  {
    InitSlotInRange(width, width, i, j);
    MulMonotone(i + 1, width, width);
    SquareInitGrid(width, width, j + i * width);
    DivModUnique(j + i * width, width, i, j);
  }

  /** On a grid narrower than it is tall the rows of the first loop
      overlap: the grid point `(width, 0)` is written to slot `width` and
      then overwritten by the grid point `(0, 1)`, so it is lost. */
  lemma GridCollision(width: nat, height: nat)
    requires 2 <= width < height
    ensures InitGrid(width, height, 1)[width] == GridPoint(width, 0)
    ensures GridInit(width, height)[width] == GridPoint(0, 1)
  {
    MulMonotone(2, height, width);
    InitRowWrites(InitGrid(width, height, 0), width, 0, height, width);
    GridCollisionAfter(width, height, width);
  }

  lemma {:induction false} GridCollisionAfter(width: nat, height: nat, r: nat)
    requires 2 <= width < height && 2 <= r <= width
    ensures InitGrid(width, height, r)[width] == GridPoint(0, 1)
  {
    MulMonotone(2, height, width);
    if r == 2 {
      InitRowWrites(InitGrid(width, height, 1), width, 1, height, width);
    } else {
      MulMonotone(2, r - 1, width);
      InitRowKeeps(InitGrid(width, height, r - 1), width, r - 1, height, width);
      GridCollisionAfter(width, height, r - 1);
    }
  }

  /** The six indices the grid square with top-right corner `(j, i)` adds:
      the triangles `(v0, v1, v2)` and `(v2, v1, v3)`. */
  function Quad(width: int, i: int, j: int): (r: seq<int>)
    ensures |r| == 6
  {
    var v0 := (j - 1) + (i - 1) * width;
    var v1 := (j - 1) + i * width;
    var v2 := j + (i - 1) * width;
    var v3 := j + i * width;
    [v0, v1, v2, v2, v1, v3]
  }

  /** The indices added by the squares `(1, i)` to `(j - 1, i)` of row `i`. */
  function RowQuads(width: int, i: int, j: nat): (r: seq<int>)
    ensures |r| == if j <= 1 then 0 else 6 * (j - 1)
  {
    if j <= 1 then [] else RowQuads(width, i, j - 1) + Quad(width, i, j - 1)
  }

  /** The indices added by rows `1` to `i - 1` of the second loop. */
  function GridQuads(width: int, height: nat, i: nat): seq<int>
  {
    if i <= 1 then [] else GridQuads(width, height, i - 1) + RowQuads(width, i - 1, height)
  }

  /** The index list of the plane before flattening. */
  function PlaneIndices(width: nat, height: nat): seq<int>
  {
    GridQuads(width, height, width)
  }

  lemma {:induction false} GridQuadsLength(width: int, height: nat, i: nat)
    ensures |GridQuads(width, height, i)| == if i <= 1 || height <= 1 then 0 else (i - 1) * (6 * (height - 1))
  {
    if i > 1 {
      GridQuadsLength(width, height, i - 1);
      if height > 1 {
        var row := 6 * (height - 1);
        assert (i - 1) * row == (i - 2) * row + row;
      }
    }
  }

  /** The plane has `6 * (width - 1) * (height - 1)` index slots: two
      triangles per grid square. */
  lemma PlaneIndexCount(width: nat, height: nat)
    ensures |PlaneIndices(width, height)| == if width <= 1 || height <= 1 then 0 else 6 * (width - 1) * (height - 1)
  {
    GridQuadsLength(width, height, width);
    if width > 1 && height > 1 {
      assert (width - 1) * (6 * (height - 1)) == 6 * (width - 1) * (height - 1);
    }
  }

  lemma {:induction false} RowQuadsSlot(width: int, i: int, j: nat, j': int, k: int)
    requires 1 <= j' < j && 0 <= k < 6
    ensures 6 * (j' - 1) + k < |RowQuads(width, i, j)|
    ensures RowQuads(width, i, j)[6 * (j' - 1) + k] == Quad(width, i, j')[k]
  {
    if j' < j - 1 {
      RowQuadsSlot(width, i, j - 1, j', k);
    }
  }

  /** The first index slot of square `(j, i)` in the index list: after the
      squares of the rows below and those left of it in its row. */
  function QuadSlot(width: int, height: nat, i: nat, j: int): int
  {
    |GridQuads(width, height, i)| + 6 * (j - 1)
  }

  /** Square `(j, i)` starts at slot `6 * ((i - 1) * (height - 1) + (j - 1))`. */
  lemma QuadSlotClosedForm(width: int, height: nat, i: nat, j: int)
    requires 1 <= i && 1 <= j < height
    ensures QuadSlot(width, height, i, j) == 6 * ((i - 1) * (height - 1) + (j - 1))
  {
    GridQuadsLength(width, height, i);
    if i == 1 {
    } else {
      assert (i - 1) * (6 * (height - 1)) == 6 * ((i - 1) * (height - 1));
    }
  }

  /** Square `(j', i')` adds its six indices at `QuadSlot(width, height, i', j')`,
      in the order of the two triangles. */
  lemma {:induction false} GridQuadsSlot(width: int, height: nat, i: nat, i': nat, j': int, k: int)
    requires 1 <= i' < i && 1 <= j' < height && 0 <= k < 6
    ensures 0 <= QuadSlot(width, height, i', j') + k < |GridQuads(width, height, i)|
    ensures GridQuads(width, height, i)[QuadSlot(width, height, i', j') + k] == Quad(width, i', j')[k]
  {
    var before, row := GridQuads(width, height, i - 1), RowQuads(width, i - 1, height);
    var slot := QuadSlot(width, height, i', j') + k;
    assert GridQuads(width, height, i) == before + row;
    if i' < i - 1 {
      GridQuadsSlot(width, height, i - 1, i', j', k);
      assert (before + row)[slot] == before[slot];
    } else {
      RowQuadsSlot(width, i - 1, height, j', k);
      var r := 6 * (j' - 1) + k;
      assert slot == |before| + r;
      assert (before + row)[|before| + r] == row[r];
    }
  }

  /** Every index of the plane lies between 0 and the largest slot of the
      first loop. */
  lemma {:induction false} GridQuadsBounded(width: nat, height: nat, i: nat)
    requires i <= width
    ensures forall x :: x in GridQuads(width, height, i) ==> 0 <= x <= (height - 1) + (width - 1) * width
  {
    if i > 1 {
      GridQuadsBounded(width, height, i - 1);
      RowQuadsBounded(width, height, i - 1, height);
    }
  }

  lemma {:induction false} RowQuadsBounded(width: nat, height: nat, i: nat, j: nat)
    requires 1 <= i < width && j <= height
    ensures forall x :: x in RowQuads(width, i, j) ==> 0 <= x <= (height - 1) + (width - 1) * width
  {
    if j > 1 {
      RowQuadsBounded(width, height, i, j - 1);
      MulMonotone(i, width - 1, width);
      MulMonotone(i - 1, i, width);
      MulMonotone(0, i - 1, width);
    }
  }

  /** With the first loop in range, every index of the plane names a slot
      of `vertices_init`, so the flattening loop reads in range. */
  lemma PlaneIndicesInRange(width: nat, height: nat)
    requires InitFits(width, height)
    ensures IndicesIn(PlaneIndices(width, height), width * height)
  {
    var t := PlaneIndices(width, height);
    GridQuadsBounded(width, height, width);
    GridQuadsLength(width, height, width);
    forall a | 0 <= a < |t|
      ensures 0 <= VertexAt(t, a) < width * height
    {
      assert t[a] in t;
    }
  }

  /** The mesh `GeneratePlane` returns: one vertex per index slot, the
      position `vertices_init` holds at the slot's index, the identity index
      list and zero texture coordinates. */
  function PlaneMesh(width: nat, height: nat): (r: Mesh)
    requires InitFits(width, height)
    ensures |r.vertices| == |r.triangles| == |r.uv| == |PlaneIndices(width, height)|
  {
    var t := PlaneIndices(width, height);
    PlaneIndicesInRange(width, height);
    Mesh(Gather(GridInit(width, height), t), [], Identity(|t|), ZeroUvs(|t|))
  }

  /** `GeneratePlane`: the loop filling `vertices_init`, the loop adding two
      triangles per grid square, then the flattening loop, which appends the
      vertex each slot names and rewrites the index list to the identity in
      place. Mesh normals are not set. */
  method GeneratePlane(width: nat, height: nat) returns (mesh: Mesh)
    requires InitFits(width, height)
    ensures mesh == PlaneMesh(width, height)
  {
    var verticesInit := FillGrid(width, height);
    var triangles := GridTriangles(width, height);
    PlaneIndicesInRange(width, height);
    IndicesInPrefixes(triangles, |verticesInit|);
    var vertices: seq<Vec3> := [];
    var tri := new int[|triangles|](k requires 0 <= k < |triangles| => triangles[k]);
    var i := 0;
    while i < tri.Length
      invariant 0 <= i <= tri.Length == |triangles|
      invariant vertices == Gather(verticesInit, triangles[..i])
      invariant tri[..i] == Identity(i) && tri[i..] == triangles[i..]
    {
      assert tri[i] == triangles[i];
      IndexIn(triangles, |verticesInit|, i);
      vertices := vertices + [verticesInit[tri[i]]];
      tri[i] := i;
      i := i + 1;
    }
    assert triangles[..i] == triangles;
    var uv := new Uv[|vertices|](_ => ZeroUv);
    mesh := Mesh(vertices, [], tri[..], uv[..]);
  }

  /** The first loop of `GeneratePlane`: `vertices_init[j + i * width]` gets
      the grid point `(j, i)` for `i < width`, `j < height`. */
  method FillGrid(width: nat, height: nat) returns (verticesInit: seq<Vec3>)
    requires InitFits(width, height)
    ensures verticesInit == GridInit(width, height)
  {
    var a := new Vec3[width * height](_ => Origin3);
    assert a[..] == InitGrid(width, height, 0);
    var i := 0;
    while i < width
      invariant 0 <= i <= width && a.Length == width * height
      invariant a[..] == InitGrid(width, height, i)
    {
      FillRow(a, width, height, i);
      i := i + 1;
    }
    verticesInit := a[..];
  }

  /** Round `i` of the first loop: the inner loop over `j < height`. */
  method FillRow(a: array<Vec3>, width: nat, height: nat, i: nat)
    requires InitFits(width, height) && i < width && a.Length == width * height
    modifies a
    ensures a[..] == InitRow(old(a[..]), width, i, height)
  {
    var j := 0;
    while j < height
      invariant 0 <= j <= height
      invariant a[..] == InitRow(old(a[..]), width, i, j)
    {
      InitSlotInRange(width, height, i, j);
      a[j + i * width] := GridPoint(j, i);
      j := j + 1;
    }
  }

  /** The second loop of `GeneratePlane`: for every grid square, its two
      triangles. */
  method GridTriangles(width: nat, height: nat) returns (triangles: seq<int>)
    ensures triangles == PlaneIndices(width, height)
  {
    triangles := [];
    var i := 1;
    while i < width
      invariant 1 <= i <= if width <= 1 then 1 else width
      invariant triangles == GridQuads(width, height, i)
    {
      var j := 1;
      while j < height
        invariant 1 <= j <= if height <= 1 then 1 else height
        invariant triangles == GridQuads(width, height, i) + RowQuads(width, i, j)
      {
        var v0, v1, v2, v3;
        v0 := (j - 1) + (i - 1) * width;
        v1 := (j - 1) + i * width;
        v2 := j + (i - 1) * width;
        v3 := j + i * width;
        triangles := triangles + [v0];
        triangles := triangles + [v1];
        triangles := triangles + [v2];
        triangles := triangles + [v2];
        triangles := triangles + [v1];
        triangles := triangles + [v3];
        j := j + 1;
      }
      assert RowQuads(width, i, j) == RowQuads(width, i, height);
      i := i + 1;
    }
    assert GridQuads(width, height, i) == GridQuads(width, height, width);
  }

  /** On a square grid the vertex at slot `QuadSlot(width, width, i, j) + k` of
      the plane is the grid point that index `k` of square `(j, i)` names. */
  lemma SquareQuadCorner(width: nat, i: nat, j: nat, k: nat, ci: nat, cj: nat)
    requires 1 <= i < width && 1 <= j < width && k < 6 && ci < width && cj < width
    requires Quad(width, i, j)[k] == cj + ci * width
    ensures var m := PlaneMesh(width, width);
            0 <= QuadSlot(width, width, i, j) + k < |m.vertices| &&
            m.vertices[QuadSlot(width, width, i, j) + k] == GridPoint(cj, ci)
  {
    var t := PlaneIndices(width, width);
    var a := QuadSlot(width, width, i, j) + k;
    PlaneIndicesInRange(width, width);
    GridQuadsSlot(width, width, width, i, j, k);
    SquareGridPoints(width, ci, cj);
    assert PlaneMesh(width, width).vertices[a] == GridInit(width, width)[VertexAt(t, a)];
  }

  /** On a square grid the two triangles of grid square `(j, i)` join the
      grid points `(j - 1, i - 1)`, `(j - 1, i)`, `(j, i - 1)` and
      `(j, i - 1)`, `(j - 1, i)`, `(j, i)`, each through a vertex of its
      own. */
  lemma SquarePlaneQuad(width: nat, i: nat, j: nat)
    requires 1 <= i < width && 1 <= j < width
    ensures var m := PlaneMesh(width, width);
            var s := QuadSlot(width, width, i, j);
            0 <= s && s + 6 <= |m.vertices| && Injective(m.triangles) &&
            m.vertices[s] == GridPoint(j - 1, i - 1) && m.vertices[s + 1] == GridPoint(j - 1, i) &&
            m.vertices[s + 2] == GridPoint(j, i - 1) && m.vertices[s + 3] == GridPoint(j, i - 1) &&
            m.vertices[s + 4] == GridPoint(j - 1, i) && m.vertices[s + 5] == GridPoint(j, i)
  {
    IdentityUnshared(|PlaneIndices(width, width)|);
    SquareQuadCorner(width, i, j, 0, i - 1, j - 1);
    SquareQuadCorner(width, i, j, 1, i, j - 1);
    SquareQuadCorner(width, i, j, 2, i - 1, j);
    SquareQuadCorner(width, i, j, 3, i - 1, j);
    SquareQuadCorner(width, i, j, 4, i, j - 1);
    SquareQuadCorner(width, i, j, 5, i, j);
  }
}
