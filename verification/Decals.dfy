/**
 Decals: the polygons near a mark on a wall are clipped to a box of six planes, collected as
 triangle fans, and given texture coordinates.
 */
module Decals {
  import opened Vectors

  const MAX_DECAL_VERTICES := 128
  const MAX_DECAL_TRIANGLES := 64
  const CLIP_VERTICES := 64

  /** How far `v` lies in front of the plane. */
  function Distance(p: Plane, v: Vec): real { Dot(p.normal, v) - p.dist }

  predicate Negative(p: Plane, v: Vec) { Distance(p, v) < 0.0 }

  // ----- Clipping against one plane --------------------------------------------------------------

  /** The point where the edge from `v1`, in front, to `v2`, behind, meets the plane. */
  function Crossing(p: Plane, v1: Vec, v2: Vec): Vec
    requires !Negative(p, v1) && Negative(p, v2)
  {
    DotSub(p.normal, v1, v2);
    var t := Distance(p, v1) / Dot(p.normal, Sub(v1, v2));
    MultiplyAdd(Scale(v1, 1.0 - t), t, v2)
  }

  /** The crossing lies on the plane, and on the right side of any plane its end points are on. */
  lemma CrossingIs(p: Plane, v1: Vec, v2: Vec, q: Plane)
    requires !Negative(p, v1) && Negative(p, v2)
    ensures Distance(p, Crossing(p, v1, v2)) == 0.0
    ensures !Negative(q, v1) && !Negative(q, v2) ==> !Negative(q, Crossing(p, v1, v2))
  {
    var a, b := Distance(p, v1), Distance(p, v2);
    DotSub(p.normal, v1, v2);
    assert Dot(p.normal, Sub(v1, v2)) == a - b;
    var t := a / (a - b);
    FractionBetween(a, b);
    FractionBalances(t, a, b);
    assert Crossing(p, v1, v2) == MultiplyAdd(Scale(v1, 1.0 - t), t, v2);
    DotLinear(p.normal, v1, t, v2);
    DotLinear(q.normal, v1, t, v2);
    Combine(t, Dot(p.normal, v1), Dot(p.normal, v2), p.dist);
    Combine(t, Dot(q.normal, v1), Dot(q.normal, v2), q.dist);
    if !Negative(q, v1) && !Negative(q, v2) {
      Nonnegative(1.0 - t, Distance(q, v1));
      Nonnegative(t, Distance(q, v2));
    }
  }

  lemma Combine(t: real, x: real, y: real, d: real)
    ensures (1.0 - t) * x + t * y - d == (1.0 - t) * (x - d) + t * (y - d)
  {
  }

  function Previous(n: nat, b: nat): nat
    requires b < n
  {
    if b != 0 then b - 1 else n - 1
  }

  /** What vertex `b` of a polygon, coming from its predecessor `c`, adds to the clipped polygon. */
  function Contribution(p: Plane, c: Vec, b: Vec): seq<Vec> {
    if Negative(p, b) then
      if !Negative(p, c) then [Crossing(p, c, b)] else []
    else if Negative(p, c) then [Crossing(p, b, c), b]
    else [b]
  }

  /** The clipped polygon, from the first `n` vertices. */
  function ClippedUpTo(p: Plane, vs: seq<Vec>, n: nat): seq<Vec>
    requires n <= |vs|
  {
    if n == 0 then [] else ClippedUpTo(p, vs, n - 1) + Contribution(p, vs[Previous(|vs|, n - 1)], vs[n - 1])
  }

  function Clipped(p: Plane, vs: seq<Vec>): seq<Vec> { ClippedUpTo(p, vs, |vs|) }

  ghost predicate InFront(p: Plane, vs: seq<Vec>) {
    forall i :: 0 <= i < |vs| ==> !Negative(p, vs[i])
  }

  /** Every vertex of the clipped polygon is in front of the plane, and of every plane the polygon was in front of. */
  lemma {:induction false} ClippedInFront(p: Plane, vs: seq<Vec>, n: nat, q: Plane)
    requires n <= |vs|
    ensures InFront(p, ClippedUpTo(p, vs, n))
    ensures InFront(q, vs) ==> InFront(q, ClippedUpTo(p, vs, n))
  {
    if n > 0 {
      ClippedInFront(p, vs, n - 1, q);
      var c, b := vs[Previous(|vs|, n - 1)], vs[n - 1];
      if Negative(p, b) && !Negative(p, c) { CrossingIs(p, c, b, q); }
      if !Negative(p, b) && Negative(p, c) { CrossingIs(p, b, c, q); }
    }
  }

  /** Vertices in front of the plane survive, and if all are, nothing changes. */
  lemma ClippedKeeps(p: Plane, vs: seq<Vec>, n: nat, i: nat)
    requires i < n <= |vs|
    ensures !Negative(p, vs[i]) ==> vs[i] in ClippedUpTo(p, vs, n)
    ensures InFront(p, vs) ==> ClippedUpTo(p, vs, n) == vs[..n]
  {
    hide ClippedUpTo, InFront, Negative;
    if !Negative(p, vs[i]) { FrontVertexStays(p, vs, n, i); }
    if InFront(p, vs) { NothingClipped(p, vs, n); }
  }

  lemma {:induction false} FrontVertexStays(p: Plane, vs: seq<Vec>, n: nat, i: nat)
    requires i < n <= |vs| && !Negative(p, vs[i])
    ensures vs[i] in ClippedUpTo(p, vs, n)
  {
    hide Crossing, Negative;
    var rest := ClippedUpTo(p, vs, n - 1);
    var added := Contribution(p, vs[Previous(|vs|, n - 1)], vs[n - 1]);
    if i == n - 1 {
      assert added[|added| - 1] == vs[i];
    } else {
      FrontVertexStays(p, vs, n - 1, i);
    }
    assert forall v :: v in rest || v in added ==> v in rest + added;
  }

  lemma {:induction false} NothingClipped(p: Plane, vs: seq<Vec>, n: nat)
    requires n <= |vs| && InFront(p, vs)
    ensures ClippedUpTo(p, vs, n) == vs[..n]
  {
    hide Crossing, Negative;
    if n > 0 { NothingClipped(p, vs, n - 1); }
  }

  /** Going round a polygon: 2 b stands for the edge to vertex `b`, 2 b + 1 for the vertex. */
  ghost predicate Kept(p: Plane, vs: seq<Vec>, m: nat)
    requires m / 2 < |vs|
  {
    var b := vs[m / 2];
    if m % 2 == 1 then !Negative(p, b) else Negative(p, b) != Negative(p, vs[Previous(|vs|, m / 2)])
  }

  ghost function Along(a: Vec, b: Vec, t: real): Vec { MultiplyAdd(Scale(a, 1.0 - t), t, b) }

  ghost predicate Between(a: Vec, b: Vec, v: Vec) {
    exists t: real :: 0.0 <= t <= 1.0 && v == Along(a, b, t)
  }

  /** What is kept of a vertex is the vertex, and of an edge the point where it meets the plane. */
  ghost predicate KeptAs(p: Plane, vs: seq<Vec>, m: nat, v: Vec)
    requires m / 2 < |vs|
  {
    var b, c := vs[m / 2], vs[Previous(|vs|, m / 2)];
    if m % 2 == 1 then v == b else Distance(p, v) == 0.0 && (Between(b, c, v) || Between(c, b, v))
  }

  /** The polygon `r` is made of the vertices and edges `marks`, in their order. */
  ghost predicate MadeOf(p: Plane, vs: seq<Vec>, marks: seq<nat>, r: seq<Vec>) {
    && |r| == |marks|
    && (forall i, j :: 0 <= i < j < |marks| ==> marks[i] < marks[j])
    && (forall i :: 0 <= i < |marks| ==> marks[i] / 2 < |vs| && KeptAs(p, vs, marks[i], r[i]))
  }

  ghost predicate AllKept(p: Plane, vs: seq<Vec>, marks: seq<nat>, n: nat)
    requires n <= |vs|
  {
    forall m: nat :: m in marks <==> m < 2 * n && Kept(p, vs, m)
  }

  lemma CrossingBetween(p: Plane, v1: Vec, v2: Vec)
    requires !Negative(p, v1) && Negative(p, v2)
    ensures Between(v1, v2, Crossing(p, v1, v2)) && Distance(p, Crossing(p, v1, v2)) == 0.0
  {
    var a, b := Distance(p, v1), Distance(p, v2);
    DotSub(p.normal, v1, v2);
    FractionBetween(a, b);
    CrossingIs(p, v1, v2, p);
    assert Crossing(p, v1, v2) == Along(v1, v2, a / (a - b));
  }

  ghost function MarksOf(p: Plane, vs: seq<Vec>, b: nat): seq<nat>
    requires b < |vs|
  {
    (if Kept(p, vs, 2 * b) then [2 * b] else []) + if Kept(p, vs, 2 * b + 1) then [2 * b + 1] else []
  }

  lemma OneVertex(p: Plane, vs: seq<Vec>, b: nat)
    requires b < |vs|
    ensures MadeOf(p, vs, MarksOf(p, vs, b), Contribution(p, vs[Previous(|vs|, b)], vs[b]))
  {
    hide Between, Crossing, Distance, Negative;
    var v, c := vs[b], vs[Previous(|vs|, b)];
    assert (2 * b) / 2 == (2 * b + 1) / 2 == b && (2 * b) % 2 == 0 && (2 * b + 1) % 2 == 1;
    if Negative(p, v) && !Negative(p, c) { CrossingBetween(p, c, v); }
    if !Negative(p, v) && Negative(p, c) { CrossingBetween(p, v, c); }
  }

  lemma {:induction false} MarksUpTo(p: Plane, vs: seq<Vec>, n: nat) returns (marks: seq<nat>)
    requires n <= |vs|
    ensures AllKept(p, vs, marks, n) && MadeOf(p, vs, marks, ClippedUpTo(p, vs, n))
  {
    hide Contribution, KeptAs, Kept, MadeOf, AllKept, MarksOf;
    marks := [];
    if n > 0 {
      var rest := MarksUpTo(p, vs, n - 1);
      OneVertex(p, vs, n - 1);
      var last := MarksOf(p, vs, n - 1);
      marks := rest + last;
      MarksAre(p, vs, rest, n - 1);
      MadeTogether(p, vs, rest, last, ClippedUpTo(p, vs, n - 1), Contribution(p, vs[Previous(|vs|, n - 1)], vs[n - 1]));
    } else {
      NothingMade(p, vs);
    }
  }

  lemma NothingMade(p: Plane, vs: seq<Vec>)
    ensures AllKept(p, vs, [], 0) && MadeOf(p, vs, [], [])
  {
  }

  lemma MarksAre(p: Plane, vs: seq<Vec>, rest: seq<nat>, b: nat)
    requires b < |vs| && AllKept(p, vs, rest, b)
    ensures AllKept(p, vs, rest + MarksOf(p, vs, b), b + 1)
    ensures forall x, y :: x in rest && y in MarksOf(p, vs, b) ==> x < y
  {
    hide Kept;
    forall m: nat ensures m in rest + MarksOf(p, vs, b) <==> m < 2 * (b + 1) && Kept(p, vs, m) {
      assert m in rest + MarksOf(p, vs, b) <==> m in rest || m in MarksOf(p, vs, b);
    }
  }

  lemma MadeTogether(p: Plane, vs: seq<Vec>, a: seq<nat>, b: seq<nat>, r: seq<Vec>, s: seq<Vec>)
    requires MadeOf(p, vs, a, r) && MadeOf(p, vs, b, s) && forall x, y :: x in a && y in b ==> x < y
    ensures MadeOf(p, vs, a + b, r + s)
  {
    hide KeptAs;
    forall i, j | 0 <= i < j < |a + b| ensures (a + b)[i] < (a + b)[j] {
      assert i < |a| <= j ==> a[i] in a && b[j - |a|] in b;
    }
  }

  /**
   A polygon runs through the vertices of another in front of the plane, and the points where its edges cross the
   plane: all of these, once each, in the order of the other polygon.
   */
  ghost predicate RunsThrough(p: Plane, vs: seq<Vec>, r: seq<Vec>) {
    exists marks :: AllKept(p, vs, marks, |vs|) && MadeOf(p, vs, marks, r)
  }

  lemma ClippedRunsThrough(p: Plane, vs: seq<Vec>)
    ensures RunsThrough(p, vs, Clipped(p, vs))
  {
    var marks := MarksUpTo(p, vs, |vs|);
  }

  // ----- Clipping against the box ---------------------------------------------------------------

  /** The planes of a decal, in the order they are clipped against. */
  datatype Box = Box(left: Plane, right: Plane, bottom: Plane, top: Plane, back: Plane, front: Plane)

  function Planes(box: Box): seq<Plane> { [box.left, box.right, box.bottom, box.top, box.back, box.front] }

  /** Clip against the first `n` of a list of planes, one after the other. */
  function ClippedByAll(ps: seq<Plane>, n: nat, vs: seq<Vec>): seq<Vec>
    requires n <= |ps|
  {
    if n == 0 then vs else Clipped(ps[n - 1], ClippedByAll(ps, n - 1, vs))
  }

  /** Later clips never undo earlier ones: the result is in front of all the planes. */
  lemma {:induction false} AllInFront(ps: seq<Plane>, n: nat, vs: seq<Vec>, k: nat)
    requires k < n <= |ps|
    ensures InFront(ps[k], ClippedByAll(ps, n, vs))
  {
    var before := ClippedByAll(ps, n - 1, vs);
    ClippedInFront(ps[n - 1], before, |before|, ps[k]);
    if k < n - 1 { AllInFront(ps, n - 1, vs, k); }
  }

  /** A vertex in front of all the planes is still there. */
  lemma {:induction false} InsideSurvives(ps: seq<Plane>, n: nat, vs: seq<Vec>, v: Vec)
    requires n <= |ps| && v in vs && forall k :: 0 <= k < n ==> !Negative(ps[k], v)
    ensures v in ClippedByAll(ps, n, vs)
  {
    if n > 0 {
      InsideSurvives(ps, n - 1, vs, v);
      var before := ClippedByAll(ps, n - 1, vs);
      var i :| 0 <= i < |before| && before[i] == v;
      ClippedKeeps(ps[n - 1], before, |before|, i);
    }
  }

  lemma ClippedEmpty(p: Plane)
    ensures Clipped(p, []) == []
  {
  }

  lemma {:induction false} AllNegativeIsEmpty(p: Plane, vs: seq<Vec>, n: nat)
    requires n <= |vs| && forall i :: 0 <= i < |vs| ==> Negative(p, vs[i])
    ensures ClippedUpTo(p, vs, n) == []
  {
    if n > 0 { AllNegativeIsEmpty(p, vs, n - 1); }
  }

  // ----- Planes and texture coordinates ---------------------------------------------------------

  /** The frame of a decal: its centre, its axes, and its size along them. */
  datatype Frame = Frame(center: Vec, tangent: Vec, binormal: Vec, normal: Vec, width: real, height: real, depth: real)

  function BoxOf(f: Frame): Box {
    var dt, db, dn := Dot(f.center, f.tangent), Dot(f.center, f.binormal), Dot(f.center, f.normal);
    Box(Plane(f.tangent, -(f.width * 0.5 - dt)), Plane(Negate(f.tangent), -(f.width * 0.5 + dt)),
        Plane(f.binormal, -(f.height * 0.5 - db)), Plane(Negate(f.binormal), -(f.height * 0.5 + db)),
        Plane(f.normal, -(f.depth - dn)), Plane(Negate(f.normal), -(f.depth + dn)))
  }

  function TexCoord(f: Frame, v: Vec): (real, real)
    requires f.width > 0.0 && f.height > 0.0
  {
    var d := Sub(v, f.center);
    (Dot(d, f.tangent) * (1.0 / f.width) + 0.5, Dot(d, f.binormal) * (1.0 / f.height) + 0.5)
  }

  /** Between the two planes across an axis is exactly where the texture coordinate is between 0 and 1. */
  lemma UnitInterval(center: Vec, axis: Vec, size: real, v: Vec)
    requires size > 0.0
    ensures var d := Dot(center, axis);
      (!Negative(Plane(axis, -(size * 0.5 - d)), v) && !Negative(Plane(Negate(axis), -(size * 0.5 + d)), v))
      <==> 0.0 <= Dot(Sub(v, center), axis) * (1.0 / size) + 0.5 <= 1.0
  {
    var d, x := Dot(center, axis), Dot(axis, v);
    DotNegate(axis, v);
    assert Dot(Sub(v, center), axis) == x - d;
    Normalised(x - d, size);
  }

  lemma Normalised(x: real, size: real)
    requires size > 0.0
    ensures 0.0 <= x * (1.0 / size) + 0.5 <= 1.0 <==> -(size * 0.5) <= x <= size * 0.5
  {
    var s := x * (1.0 / size);
    assert s * size == x;
    assert s >= -0.5 ==> s * size >= -0.5 * size;
    assert s < -0.5 ==> s * size < -0.5 * size;
    assert s <= 0.5 ==> s * size <= 0.5 * size;
    assert s > 0.5 ==> s * size > 0.5 * size;
  }

  /** Vertices inside the box, and of vertices between the depth planes only those, have coordinates in [0, 1]. */
  lemma InBoxMeansTextured(f: Frame, v: Vec)
    requires f.width > 0.0 && f.height > 0.0
    ensures var box := BoxOf(f); var (s, t) := TexCoord(f, v);
      (!Negative(box.left, v) && !Negative(box.right, v) && !Negative(box.bottom, v) && !Negative(box.top, v))
      <==> 0.0 <= s <= 1.0 && 0.0 <= t <= 1.0
  {
    UnitInterval(f.center, f.tangent, f.width, v);
    UnitInterval(f.center, f.binormal, f.height, v);
  }

  /** The depth planes enclose what is no further than the depth from the centre, along the normal. */
  lemma InDepth(f: Frame, v: Vec)
    ensures var box := BoxOf(f);
      (!Negative(box.back, v) && !Negative(box.front, v)) <==> -f.depth <= Dot(Sub(v, f.center), f.normal) <= f.depth
  {
    var d, x := Dot(f.center, f.normal), Dot(f.normal, v);
    DotNegate(f.normal, v);
    assert Dot(Sub(v, f.center), f.normal) == x - d;
  }

  // ----- The clipper as it runs -------------------------------------------------------------------

  /** Clip `vertex[..vertexCount]` into `newVertex`; false where the original would write past its end. */
  method ClipPolygonAgainstPlane(plane: Plane, vertexCount: nat, vertex: array<Vec>, newVertex: array<Vec>)
      returns (fits: bool, count: nat)
    requires vertex != newVertex && vertex.Length == newVertex.Length == CLIP_VERTICES && vertexCount <= CLIP_VERTICES
    modifies newVertex
    ensures fits == (|Clipped(plane, vertex[..vertexCount])| <= CLIP_VERTICES)
    ensures fits ==> count <= CLIP_VERTICES && newVertex[..count] == Clipped(plane, vertex[..vertexCount])
    ensures fits ==> RunsThrough(plane, vertex[..vertexCount], newVertex[..count])
  {
    ghost var vs := vertex[..vertexCount];
    ClippedRunsThrough(plane, vs);
    // classify vertices
    var negative := new bool[vertexCount];
    var negativeCount := 0;
    for a := 0 to vertexCount
      invariant negativeCount <= a && (negativeCount == a <==> forall i :: 0 <= i < a ==> Negative(plane, vs[i]))
      invariant forall i :: 0 <= i < a ==> negative[i] == Negative(plane, vs[i])
    {
      negative[a] := Negative(plane, vertex[a]);
      if negative[a] { negativeCount := negativeCount + 1; }
    }
    count, fits := 0, true;
    // discard the polygon if it is completely culled
    if negativeCount == vertexCount {
      AllNegativeIsEmpty(plane, vs, vertexCount);
      return;
    }
    for b := 0 to vertexCount
      invariant count <= CLIP_VERTICES && newVertex[..count] == ClippedUpTo(plane, vs, b)
      invariant vertex[..vertexCount] == vs && forall i :: 0 <= i < vertexCount ==>
        negative[i] == Negative(plane, vs[i])
    {
      var c := if b != 0 then b - 1 else vertexCount - 1;
      var added := if negative[b] then
                     if !negative[c] then [Crossing(plane, vertex[c], vertex[b])] else []
                   else if negative[c] then [Crossing(plane, vertex[b], vertex[c]), vertex[b]]
                   else [vertex[b]];
      assert added == Contribution(plane, vs[Previous(|vs|, b)], vs[b]);
      if count + |added| > CLIP_VERTICES {
        PrefixNoLonger(plane, vs, b + 1, vertexCount);
        return false, count;
      }
      count := Append(newVertex, count, added);
    }
  }

  method Append(newVertex: array<Vec>, count: nat, added: seq<Vec>) returns (count': nat)
    requires count + |added| <= newVertex.Length
    modifies newVertex
    ensures count' == count + |added| && newVertex[..count'] == old(newVertex[..count]) + added
  {
    for i := 0 to |added|
      invariant newVertex[..count + i] == old(newVertex[..count]) + added[..i]
    {
      newVertex[count + i] := added[i];
    }
    count' := count + |added|;
  }

  lemma {:induction false} PrefixNoLonger(p: Plane, vs: seq<Vec>, m: nat, n: nat)
    requires m <= n <= |vs|
    ensures |ClippedUpTo(p, vs, m)| <= |ClippedUpTo(p, vs, n)|
  {
    if m < n { PrefixNoLonger(p, vs, m, n - 1); }
  }

  /** The first `n` planes of the box leave no more vertices than the buffers hold. */
  ghost predicate FitsBuffers(box: Box, n: nat, vs: seq<Vec>)
    requires n <= 6
  {
    forall k :: 0 <= k <= n ==> |ClippedByAll(Planes(box), k, vs)| <= CLIP_VERTICES
  }

  /** The surface fits the buffers before it is clipped and, if it is clipped, all the way. */
  ghost predicate SurfaceFits(box: Box, s: Surface) {
    |s.verts| <= CLIP_VERTICES && (s.facing ==> FitsBuffers(box, 6, s.verts))
  }

  /** Clip against plane `n` of the box what the planes before it left in `src`. */
  method ClipNext(box: Box, n: nat, count: nat, src: array<Vec>, dst: array<Vec>, ghost vs: seq<Vec>)
      returns (more: bool, fits: bool, count': nat)
    requires n < 6 && src != dst && src.Length == dst.Length == CLIP_VERTICES && count <= CLIP_VERTICES
    requires src[..count] == ClippedByAll(Planes(box), n, vs) && FitsBuffers(box, n, vs)
    modifies dst
    ensures fits ==> count' <= CLIP_VERTICES && FitsBuffers(box, n + 1, vs)
    ensures fits ==> dst[..count'] == ClippedByAll(Planes(box), n + 1, vs)
    ensures more == (fits && count' != 0)
    ensures !fits ==> !FitsBuffers(box, 6, vs)
    ensures fits && !more ==> FitsBuffers(box, 6, vs) && ClippedByAll(Planes(box), 6, vs) == []
  {
    hide Clipped;
    fits, count' := ClipPolygonAgainstPlane(Planes(box)[n], count, src, dst);
    more := fits && count' != 0;
    ghost var next := ClippedByAll(Planes(box), n + 1, vs);
    if fits && !more { StaysEmpty(Planes(box), n + 1, 6, vs); }
  }

  /** Clip against the six planes in turn, going back and forth between two buffers. */
  method ClipPolygon(box: Box, vertexCount: nat, vertices: array<Vec>) returns (fits: bool, count: nat)
    requires vertices.Length == CLIP_VERTICES && vertexCount <= CLIP_VERTICES
    modifies vertices
    ensures fits == FitsBuffers(box, 6, old(vertices[..vertexCount]))
    ensures fits ==> count <= CLIP_VERTICES
    ensures fits ==> if count > 0 then vertices[..count] == ClippedByAll(Planes(box), 6, old(vertices[..vertexCount]))
                     else ClippedByAll(Planes(box), 6, old(vertices[..vertexCount])) == []
  {
    ghost var vs := vertices[..vertexCount];
    var tempVertex := new Vec[CLIP_VERTICES](_ => Vec(0.0, 0.0, 0.0));
    assert vertices[..vertexCount] == ClippedByAll(Planes(box), 0, vs);
    var more;
    assert FitsBuffers(box, 0, vs) by { StartFits(box, vs); }
    more, fits, count := ClipNext(box, 0, vertexCount, vertices, tempVertex, vs);
    if !more { return; }
    more, fits, count := ClipNext(box, 1, count, tempVertex, vertices, vs);
    if !more { return; }
    more, fits, count := ClipNext(box, 2, count, vertices, tempVertex, vs);
    if !more { return; }
    more, fits, count := ClipNext(box, 3, count, tempVertex, vertices, vs);
    if !more { return; }
    more, fits, count := ClipNext(box, 4, count, vertices, tempVertex, vs);
    if !more { return; }
    more, fits, count := ClipNext(box, 5, count, tempVertex, vertices, vs);
  }

  lemma StartFits(box: Box, vs: seq<Vec>)
    requires |vs| <= CLIP_VERTICES
    ensures FitsBuffers(box, 0, vs)
  {
  }

  lemma {:induction false} StaysEmpty(ps: seq<Plane>, m: nat, n: nat, vs: seq<Vec>)
    requires m <= n <= |ps| && ClippedByAll(ps, m, vs) == []
    ensures forall k :: m <= k <= n ==> ClippedByAll(ps, k, vs) == []
  {
    if m < n {
      StaysEmpty(ps, m, n - 1, vs);
      ClippedEmpty(ps[n - 1]);
    }
  }

  predicate Room(vertcount: nat, vertexCount: nat, triangleCount: nat) {
    vertexCount + vertcount < MAX_DECAL_VERTICES && triangleCount + vertcount - 2 < MAX_DECAL_TRIANGLES
  }

  /** The vertices collected from a list of surfaces, up to the first that finds no room. */
  ghost function Collected(box: Box, surfaces: seq<Surface>, vertexCount: nat, triangleCount: nat): seq<Vec>
    decreases |surfaces|
  {
    if surfaces == [] then []
    else
      var v := if surfaces[0].facing then ClippedByAll(Planes(box), 6, surfaces[0].verts) else [];
      if v != [] && !Room(|v|, vertexCount, triangleCount) then []
      else v + Collected(box, surfaces[1..], vertexCount + |v|, triangleCount + (if |v| < 2 then 0 else |v| - 2))
  }

  lemma CollectedFrom(box: Box, surfaces: seq<Surface>, c: nat, vertexCount: nat, triangleCount: nat)
    requires c <= |surfaces|
    ensures c == |surfaces| ==> Collected(box, surfaces[c..], vertexCount, triangleCount) == []
    ensures c < |surfaces| ==>
      var v := if surfaces[c].facing then ClippedByAll(Planes(box), 6, surfaces[c].verts) else [];
      Collected(box, surfaces[c..], vertexCount, triangleCount) ==
        if v != [] && !Room(|v|, vertexCount, triangleCount) then []
        else v + Collected(box, surfaces[c + 1..], vertexCount + |v|, triangleCount + (if |v| < 2 then 0 else |v| - 2))
  {
    hide ClippedByAll, Room, Planes;
    if c < |surfaces| { assert surfaces[c..][0] == surfaces[c] && surfaces[c..][1..] == surfaces[c + 1..]; }
  }

  class Decal {
    const frame: Frame
    const vertexArray: array<Vec>
    const texcoordArray: array<(real, real)>
    const triangleArray: array<(nat, nat, nat)>
    var vertexCount: nat
    var triangleCount: nat

    /** Every vertex lies in the box, and every triangle names vertices that exist. */
    ghost predicate Valid()
      reads this, vertexArray, triangleArray
    {
      && frame.width > 0.0 && frame.height > 0.0
      && vertexArray.Length == texcoordArray.Length == MAX_DECAL_VERTICES && triangleArray.Length == MAX_DECAL_TRIANGLES
      && vertexCount <= MAX_DECAL_VERTICES && triangleCount <= MAX_DECAL_TRIANGLES
      && (forall a, k :: 0 <= a < vertexCount && 0 <= k < 6 ==> !Negative(Planes(BoxOf(frame))[k], vertexArray[a]))
      && (forall i :: 0 <= i < triangleCount ==>
            triangleArray[i].0 < vertexCount && triangleArray[i].1 < vertexCount && triangleArray[i].2 < vertexCount)
    }

    constructor (frame: Frame)
      requires frame.width > 0.0 && frame.height > 0.0
      ensures Valid() && vertexCount == triangleCount == 0 && this.frame == frame
      ensures fresh(vertexArray) && fresh(texcoordArray) && fresh(triangleArray)
    {
      this.frame := frame;
      vertexArray := new Vec[MAX_DECAL_VERTICES](_ => Vec(0.0, 0.0, 0.0));
      texcoordArray := new (real, real)[MAX_DECAL_VERTICES](_ => (0.0, 0.0));
      triangleArray := new (nat, nat, nat)[MAX_DECAL_TRIANGLES](_ => (0, 0, 0));
      vertexCount, triangleCount := 0, 0;
    }

    /** Add a clipped polygon as a triangle fan, unless it would not fit. */
    method AddPolygon(vertcount: nat, vertices: array<Vec>) returns (ok: bool)
      requires Valid() && vertcount <= vertices.Length && vertices != vertexArray && vertcount >= 1
      requires forall a, k :: 0 <= a < vertcount && 0 <= k < 6 ==> !Negative(Planes(BoxOf(frame))[k], vertices[a])
      modifies this, vertexArray, triangleArray
      ensures Valid()
      ensures ok == Room(vertcount, old(vertexCount), old(triangleCount))
      ensures ok <==> old(vertexCount) + vertcount < 128 && old(triangleCount) + vertcount - 2 < 64
      ensures !ok ==> unchanged(this) && unchanged(vertexArray)
      ensures ok ==> vertexArray[..vertexCount] == old(vertexArray[..vertexCount]) + vertices[..vertcount]
      ensures ok ==> triangleCount == old(triangleCount) + (if vertcount >= 2 then vertcount - 2 else 0)
      ensures ok ==> forall i :: old(triangleCount) <= i < triangleCount ==>
        var k := old(vertexCount) + (i - old(triangleCount));
        triangleArray[i] == (old(vertexCount), k + 1, k + 2)
      ensures forall i :: 0 <= i < old(triangleCount) ==> triangleArray[i] == old(triangleArray[i])
    {
      hide Negative, BoxOf;
      var count := vertexCount;
      if count + vertcount >= MAX_DECAL_VERTICES { return false; }
      if triangleCount + vertcount - 2 >= MAX_DECAL_TRIANGLES { return false; }
      AddFan(count, vertcount);
      AddVertices(count, vertcount, vertices);
      vertexCount := count + vertcount;
      forall i, k | 0 <= i < vertexCount && 0 <= k < 6 ensures !Negative(Planes(BoxOf(frame))[k], vertexArray[i]) {
        assert vertexArray[i] == vertexArray[..vertexCount][i];
        if i >= count { assert vertexArray[i] == vertices[i - count]; }
      }
      return true;
    }

    /** The triangles of a fan over `vertcount` vertices numbered from `count` on. */
    method AddFan(count: nat, vertcount: nat)
      requires triangleCount + vertcount - 2 < triangleArray.Length
      modifies `triangleCount, triangleArray
      ensures triangleCount == old(triangleCount) + (if vertcount >= 2 then vertcount - 2 else 0)
      ensures forall i :: 0 <= i < old(triangleCount) && i < triangleArray.Length ==>
        triangleArray[i] == old(triangleArray[i])
      ensures forall i :: old(triangleCount) <= i < triangleCount ==>
        triangleArray[i] == (count, count + (i - old(triangleCount)) + 1, count + (i - old(triangleCount)) + 2)
    {
      var a := 2;
      while a < vertcount
        invariant 2 <= a && (a <= vertcount || a == 2) && triangleCount == old(triangleCount) + a - 2
        invariant forall i :: 0 <= i < old(triangleCount) && i < triangleArray.Length ==>
          triangleArray[i] == old(triangleArray[i])
        invariant forall i :: old(triangleCount) <= i < triangleCount ==>
          triangleArray[i] == (count, count + (i - old(triangleCount)) + 1, count + (i - old(triangleCount)) + 2)
      {
        triangleArray[triangleCount] := (count, count + a - 1, count + a);
        triangleCount := triangleCount + 1;
        a := a + 1;
      }
    }

    method AddVertices(count: nat, vertcount: nat, vertices: array<Vec>)
      requires count + vertcount <= vertexArray.Length && vertcount <= vertices.Length && vertices != vertexArray
      modifies vertexArray
      ensures vertexArray[..count + vertcount] == old(vertexArray[..count]) + vertices[..vertcount]
    {
      for b := 0 to vertcount
        invariant vertexArray[..count + b] == old(vertexArray[..count]) + vertices[..b]
      {
        vertexArray[count + b] := vertices[b];
      }
    }

    /** Clip the polygons of a leaf that face the decal, and collect them until one does not fit. */
    method ClipLeaf(surfaces: seq<Surface>) returns (fits: bool)
      requires Valid()
      modifies this, vertexArray, triangleArray
      ensures Valid()
      ensures fits ==> vertexArray[..vertexCount] == old(vertexArray[..vertexCount])
                       + Collected(BoxOf(frame), surfaces, old(vertexCount), old(triangleCount))
      ensures !fits ==> exists c :: 0 <= c < |surfaces| && !SurfaceFits(BoxOf(frame), surfaces[c])
    {
      hide FitsBuffers, ClippedByAll, Collected, BoxOf, Negative;
      fits := true;
      assert surfaces[0..] == surfaces;
      ghost var goal := vertexArray[..vertexCount] + Collected(BoxOf(frame), surfaces, vertexCount, triangleCount);
      for c := 0 to |surfaces|
        invariant Valid() && fits
        invariant goal == vertexArray[..vertexCount]
          + Collected(BoxOf(frame), surfaces[c..], vertexCount, triangleCount)
      {
        CollectedFrom(BoxOf(frame), surfaces, c, vertexCount, triangleCount);
        if |surfaces[c].verts| > CLIP_VERTICES { return false; }
        if surfaces[c].facing {
          var full;
          fits, full := ClipSurface(surfaces[c].verts);
          if !fits { return; }
          if full {
            assert goal == vertexArray[..vertexCount] + [];
            break;
          }
        }
      }
      CollectedFrom(BoxOf(frame), surfaces, |surfaces|, vertexCount, triangleCount);
    }

    /** One polygon: clip it and, if anything is left of it, add it; `full` if there is no room for it. */
    method ClipSurface(verts: seq<Vec>) returns (fits: bool, full: bool)
      requires Valid() && |verts| <= CLIP_VERTICES
      modifies this, vertexArray, triangleArray
      ensures Valid() && fits == FitsBuffers(BoxOf(frame), 6, verts)
      ensures fits ==> var v := ClippedByAll(Planes(BoxOf(frame)), 6, verts);
        && full == (v != [] && !Room(|v|, old(vertexCount), old(triangleCount)))
        && vertexArray[..vertexCount] == old(vertexArray[..vertexCount]) + (if full then [] else v)
        && triangleCount == old(triangleCount) + (if full || |v| < 2 then 0 else |v| - 2)
    {
      hide FitsBuffers, ClippedByAll;
      full := false;
      var newVertex := new Vec[CLIP_VERTICES](_ => Vec(0.0, 0.0, 0.0));
      var n := Append(newVertex, 0, verts);
      assert newVertex[..n] == verts;
      var count;
      fits, count := ClipPolygon(BoxOf(frame), n, newVertex);
      if fits && count != 0 {
        InBox(verts, newVertex, count);
        var ok := AddPolygon(count, newVertex);
        full := !ok;
      }
    }

    lemma InBox(vs: seq<Vec>, newVertex: array<Vec>, count: nat)
      requires count <= newVertex.Length && newVertex[..count] == ClippedByAll(Planes(BoxOf(frame)), 6, vs)
      ensures forall a, k :: 0 <= a < count && 0 <= k < 6 ==> !Negative(Planes(BoxOf(frame))[k], newVertex[a])
    {
      forall a, k | 0 <= a < count && 0 <= k < 6 ensures !Negative(Planes(BoxOf(frame))[k], newVertex[a]) {
        AllInFront(Planes(BoxOf(frame)), 6, vs, k);
        assert newVertex[a] == newVertex[..count][a];
      }
    }

    /** Give every vertex its texture coordinates: they all lie in the unit square. */
    method AssignTexCoords()
      requires Valid()
      modifies texcoordArray
      ensures forall a :: 0 <= a < vertexCount ==> texcoordArray[a] == TexCoord(frame, vertexArray[a])
      ensures forall a :: 0 <= a < vertexCount ==>
        0.0 <= texcoordArray[a].0 <= 1.0 && 0.0 <= texcoordArray[a].1 <= 1.0
    {
      for a := 0 to vertexCount
        invariant forall i :: 0 <= i < a ==> texcoordArray[i] == TexCoord(frame, vertexArray[i])
        invariant forall i :: 0 <= i < a ==> 0.0 <= texcoordArray[i].0 <= 1.0 && 0.0 <= texcoordArray[i].1 <= 1.0
      {
        var v := vertexArray[a];
        texcoordArray[a] := TexCoord(frame, v);
        assert forall k :: 0 <= k < 6 ==> !Negative(Planes(BoxOf(frame))[k], v);
        assert Planes(BoxOf(frame))[0] == BoxOf(frame).left && Planes(BoxOf(frame))[1] == BoxOf(frame).right;
        assert Planes(BoxOf(frame))[2] == BoxOf(frame).bottom && Planes(BoxOf(frame))[3] == BoxOf(frame).top;
        InBoxMeansTextured(frame, v);
      }
    }
  }

  /** A polygon of the world near the decal, and whether it faces it. */
  datatype Surface = Surface(facing: bool, verts: seq<Vec>)
}
