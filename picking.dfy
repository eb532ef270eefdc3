/** The picking rule of `HandleInput`, shared by both painting components.
    The nearest ray hit gives a world position. The vertex nearest to that
    position wins, unless it is more than one unit away; the winner and
    every vertex that coincides with it get the active colour. Unity's
    `Vector3.Distance` is the parameter `distance`. */
module Picking {
  import opened Values

  /** `float.Epsilon`, the smallest positive single-precision value. */
  const FloatEpsilon: real := 1.401298464324817e-45

  /** What `Physics.RaycastAll` reports for one hit: the hit point, the
      position of the object hit and the texture coordinate under the hit. */
  datatype Hit = Hit(point: Vec3, objectPosition: Vec3, textureCoord: Uv)

  /** `m` is the lowest index below `n` at which `d[..n]` is smallest. */
  predicate IsFirstMinimumUpTo(d: seq<real>, n: int, m: int)
  {
    0 <= m < n <= |d| &&
    (forall i :: 0 <= i < n ==> d[m] <= d[i]) &&
    (forall i :: 0 <= i < m ==> d[m] < d[i])
  }

  /** The index a scan over `d[..n]` keeps when it replaces its candidate
      only on a strictly smaller value. */
  function FirstMin(d: seq<real>, n: nat): (m: nat)
    requires 0 < n <= |d|
    ensures IsFirstMinimumUpTo(d, n, m)
  {
    if n == 1 then 0
    else
      var m := FirstMin(d, n - 1);
      if d[n - 1] < d[m] then n - 1 else m
  }

  /** The distance from every vertex to `target`. */
  function Distances(world: seq<Vec3>, target: Vec3, distance: (Vec3, Vec3) -> real): (d: seq<real>)
    ensures |d| == |world|
    ensures forall i :: 0 <= i < |world| ==> d[i] == distance(world[i], target)
  {
    seq(|world|, i requires 0 <= i < |world| => distance(world[i], target))
  }

  /** The distance from the camera to the object of every hit. */
  function CameraDistances(hits: seq<Hit>, camera: Vec3, distance: (Vec3, Vec3) -> real): (d: seq<real>)
    ensures |d| == |hits|
    ensures forall i :: 0 <= i < |hits| ==> d[i] == distance(camera, hits[i].objectPosition)
  {
    seq(|hits|, i requires 0 <= i < |hits| => distance(camera, hits[i].objectPosition))
  }

  /** The hit that the scan over the hits keeps: the first one whose object
      is nearest to the camera; none when nothing was hit. */
  function ChosenHit(hits: seq<Hit>, camera: Vec3, distance: (Vec3, Vec3) -> real): (r: Option<Hit>)
    ensures r.None? <==> |hits| == 0
  {
    if |hits| == 0 then None
    else Some(hits[FirstMin(CameraDistances(hits, camera, distance), |hits|)])
  }

  /** `hitWorldPosition` after the scan: `Vector3.zero` when nothing was hit. */
  function HitPoint(hits: seq<Hit>, camera: Vec3, distance: (Vec3, Vec3) -> real): (p: Vec3)
    ensures |hits| == 0 ==> p == Origin3
    ensures |hits| > 0 ==> exists i :: 0 <= i < |hits| && p == hits[i].point
  {
    match ChosenHit(hits, camera, distance)
    case None => Origin3
    case Some(h) => h.point
  }

  /** `hitTriangleUV` after the scan: `Vector2.left` when nothing was hit. */
  function HitUv(hits: seq<Hit>, camera: Vec3, distance: (Vec3, Vec3) -> real): (uv: Uv)
    ensures |hits| == 0 ==> uv == LeftUv
    ensures |hits| > 0 ==> exists i :: 0 <= i < |hits| && uv == hits[i].textureCoord
  {
    match ChosenHit(hits, camera, distance)
    case None => LeftUv
    case Some(h) => h.textureCoord
  }

  /** The loop over the hits, with `minDist` starting at positive infinity
      (`None` here): every real distance is below it. */
  method NearestHit(hits: seq<Hit>, camera: Vec3, distance: (Vec3, Vec3) -> real)
    returns (hitWorldPosition: Vec3, hitTriangleUV: Uv)
    ensures hitWorldPosition == HitPoint(hits, camera, distance)
    ensures hitTriangleUV == HitUv(hits, camera, distance)
  {
    ghost var d := CameraDistances(hits, camera, distance);
    hitWorldPosition := Origin3;
    hitTriangleUV := LeftUv;
    var minDist: Option<real> := None;
    ghost var best := 0;
    var i := 0;
    while i < |hits|
      invariant 0 <= i <= |hits|
      invariant minDist.None? <==> i == 0
      invariant i == 0 ==> hitWorldPosition == Origin3 && hitTriangleUV == LeftUv
      invariant i > 0 ==> best == FirstMin(d, i) && minDist == Some(d[best])
                          && hitWorldPosition == hits[best].point && hitTriangleUV == hits[best].textureCoord
    {
      var newDist := distance(camera, hits[i].objectPosition);
      if minDist.None? || newDist < minDist.value {
        minDist := Some(newDist);
        hitWorldPosition := hits[i].point;
        hitTriangleUV := hits[i].textureCoord;
        best := i;
      }
      i := i + 1;
    }
  }

  /** The vertices coinciding with vertex `m` among the first `n`, in
      increasing order: those within `float.Epsilon` of it. */
  function CoincidentUpTo(world: seq<Vec3>, m: nat, distance: (Vec3, Vec3) -> real, n: nat): (r: seq<nat>)
    requires m < |world| && n <= |world|
    ensures forall v: int :: v in r <==> 0 <= v < n && distance(world[v], world[m]) <= FloatEpsilon
    ensures forall a, b :: 0 <= a < b < |r| ==> r[a] < r[b]
  {
    if n == 0 then []
    else
      var r := CoincidentUpTo(world, m, distance, n - 1);
      assert forall a :: 0 <= a < |r| ==> r[a] in r;
      if distance(world[n - 1], world[m]) <= FloatEpsilon then r + [n - 1] else r
  }

  /** `minIds` at the end of the picking: nothing when the nearest vertex is
      more than one unit from `target`, otherwise the nearest vertex (the
      first of several equally near) followed by every vertex coinciding
      with it. */
  function PickedIds(world: seq<Vec3>, target: Vec3, distance: (Vec3, Vec3) -> real): (r: seq<nat>)
    requires |world| > 0
    ensures var d := Distances(world, target, distance);
            r != [] <==> exists i :: 0 <= i < |world| && d[i] <= 1.0
    ensures forall a :: 0 <= a < |r| ==> r[a] < |world|
  {
    var d := Distances(world, target, distance);
    var m := FirstMin(d, |world|);
    if d[m] > 1.0 then []
    else
      var c := CoincidentUpTo(world, m, distance, |world|);
      assert forall a :: 0 <= a < |c| ==> c[a] in c;
      [m] + c
  }

  /** A vertex is picked exactly when the nearest vertex is within one unit
      of `target` and the vertex is that nearest vertex or coincides with it. */
  lemma PickedIdsMembers(world: seq<Vec3>, target: Vec3, distance: (Vec3, Vec3) -> real, v: nat)
    requires |world| > 0
    ensures var d := Distances(world, target, distance);
            var m := FirstMin(d, |world|);
            IsFirstMinimumUpTo(d, |world|, m) &&
            (v in PickedIds(world, target, distance)
             <==> d[m] <= 1.0 && (v == m || (v < |world| && distance(world[v], world[m]) <= FloatEpsilon)))
  {
  }

  /** Every picked vertex is a vertex of the mesh. */
  lemma PickedIdsInRange(world: seq<Vec3>, target: Vec3, distance: (Vec3, Vec3) -> real)
    requires |world| > 0
    ensures forall v :: v in PickedIds(world, target, distance) ==> v < |world|
  {
  }

  /** The scan for the vertex nearest to `target`: it starts at vertex 0 and
      moves on only to a strictly nearer vertex. */
  method NearestVertex(world: seq<Vec3>, target: Vec3, distance: (Vec3, Vec3) -> real)
    returns (minId: nat, minDist: real)
    requires |world| > 0
    ensures var d := Distances(world, target, distance);
            minId == FirstMin(d, |world|) && minDist == d[minId]
  {
    ghost var d := Distances(world, target, distance);
    minDist := distance(world[0], target);
    minId := 0;
    var i := 1;
    while i < |world|
      invariant 1 <= i <= |world|
      invariant minId == FirstMin(d, i) && minDist == d[minId]
    {
      var newDist := distance(world[i], target);
      if newDist < minDist {
        minDist := newDist;
        minId := i;
      }
      i := i + 1;
    }
  }

  /** The vertex part of `HandleInput` up to the recolouring: the scan for
      the nearest vertex, the early return when it is more than one unit
      away, and the collection of the vertices coinciding with it. */
  method PickVertices(world: seq<Vec3>, target: Vec3, distance: (Vec3, Vec3) -> real)
    returns (minIds: seq<nat>)
    requires |world| > 0
    ensures minIds == PickedIds(world, target, distance)
  {
    var minId, minDist := NearestVertex(world, target, distance);
    if minDist > 1.0 {
      return [];
    }
    minIds := [minId];
    var i := 0;
    while i < |world|
      invariant 0 <= i <= |world|
      invariant minIds == [minId] + CoincidentUpTo(world, minId, distance, i)
    {
      var newDist := distance(world[i], world[minId]);
      if newDist <= FloatEpsilon {
        minIds := minIds + [i];
      }
      i := i + 1;
    }
  }

  /** The vertex colours after every listed vertex has been set to `c`. */
  function Recoloured(colors: seq<Color>, ids: seq<nat>, c: Color): (r: seq<Color>)
    ensures |r| == |colors|
  {
    seq(|colors|, v requires 0 <= v < |colors| => if v in ids then c else colors[v])
  }

  /** Listing a vertex twice, as the winner is when it also passes the
      coincidence test, changes nothing. */
  lemma RecolouredRepeat(colors: seq<Color>, ids: seq<nat>, c: Color, m: nat)
    requires m in ids
    ensures Recoloured(colors, [m] + ids, c) == Recoloured(colors, ids, c)
  {
    assert forall v :: v in [m] + ids <==> v in ids;
  }

  /** Recolouring with the same colour twice is recolouring once. */
  lemma RecolouredIdempotent(colors: seq<Color>, ids: seq<nat>, c: Color)
    ensures Recoloured(Recoloured(colors, ids, c), ids, c) == Recoloured(colors, ids, c)
  {
  }

  /** The final loop of `HandleInput`: `colors[id] = activeColor` for every
      listed vertex. */
  method Recolour(colors: array<Color>, ids: seq<nat>, c: Color)
    requires forall k :: 0 <= k < |ids| ==> ids[k] < colors.Length
    modifies colors
    ensures colors[..] == Recoloured(old(colors[..]), ids, c)
  {
    var k := 0;
    while k < |ids|
      invariant 0 <= k <= |ids|
      invariant colors[..] == Recoloured(old(colors[..]), ids[..k], c)
    {
      assert forall v :: v in ids[..k + 1] <==> v in ids[..k] || v == ids[k] by {
        assert ids[..k + 1] == ids[..k] + [ids[k]];
      }
      colors[ids[k]] := c;
      k := k + 1;
    }
    assert ids[..k] == ids;
  }
}
