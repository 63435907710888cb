/**
 Cutting water and sky polygons into pieces along multiples of the subdivision size.
 */
module Subdivide {
  import opened Vectors

  const FAR := 9999.0     // the range BoundPoly starts from
  const MAX_VERTS := 60

  type Axis = i: int | 0 <= i < 3

  function Coord(v: Vec, i: Axis): real { if i == 0 then v.x else if i == 1 then v.y else v.z }

  // ----- Bounds --------------------------------------------------------------------------------------

  function Min(a: real, b: real): real { if a < b then a else b }

  function Max(a: real, b: real): real { if a > b then a else b }

  /** The bounds as BoundPoly finds them: never above 9999 from below, never below -9999 from above. */
  function Lower(vs: seq<Vec>, i: Axis): (m: real)
    ensures m <= FAR && forall j :: 0 <= j < |vs| ==> m <= Coord(vs[j], i)
  {
    if vs == [] then FAR else Min(Lower(vs[..|vs| - 1], i), Coord(vs[|vs| - 1], i))
  }

  function Upper(vs: seq<Vec>, i: Axis): (m: real)
    ensures m >= -FAR && forall j :: 0 <= j < |vs| ==> Coord(vs[j], i) <= m
  {
    if vs == [] then -FAR else Max(Upper(vs[..|vs| - 1], i), Coord(vs[|vs| - 1], i))
  }

  lemma {:induction false} BoundsAreTight(vs: seq<Vec>, i: Axis, lo: real, hi: real)
    requires lo <= FAR && hi >= -FAR && forall j :: 0 <= j < |vs| ==> lo <= Coord(vs[j], i) <= hi
    ensures lo <= Lower(vs, i) && Upper(vs, i) <= hi
  {
    if vs != [] { BoundsAreTight(vs[..|vs| - 1], i, lo, hi); }
  }

  ghost predicate InRange(vs: seq<Vec>) {
    Within(vs, 0, -FAR, FAR) && Within(vs, 1, -FAR, FAR) && Within(vs, 2, -FAR, FAR)
  }

  ghost predicate Within(vs: seq<Vec>, i: Axis, lo: real, hi: real) {
    forall j :: 0 <= j < |vs| ==> lo <= Coord(vs[j], i) <= hi
  }

  function Extent(vs: seq<Vec>, i: Axis): real { Upper(vs, i) - Lower(vs, i) }

  /** The lowest and highest coordinates there really are. */
  ghost function Lowest(vs: seq<Vec>, i: Axis): (m: real)
    ensures forall j :: 0 <= j < |vs| ==> m <= Coord(vs[j], i)
  {
    if vs == [] then 0.0 else if |vs| == 1 then Coord(vs[0], i)
    else Min(Lowest(vs[..|vs| - 1], i), Coord(vs[|vs| - 1], i))
  }

  ghost function Highest(vs: seq<Vec>, i: Axis): (m: real)
    ensures forall j :: 0 <= j < |vs| ==> Coord(vs[j], i) <= m
  {
    if vs == [] then 0.0 else if |vs| == 1 then Coord(vs[0], i)
    else Max(Highest(vs[..|vs| - 1], i), Coord(vs[|vs| - 1], i))
  }

  lemma {:induction false} LengthIsTight(vs: seq<Vec>, i: Axis, lo: real, hi: real)
    requires lo <= hi && Within(vs, i, lo, hi)
    ensures vs != [] ==> lo <= Lowest(vs, i) && Highest(vs, i) <= hi
    ensures Length(vs, i) <= hi - lo
  {
    if |vs| > 1 { LengthIsTight(vs[..|vs| - 1], i, lo, hi); }
  }

  ghost function Length(vs: seq<Vec>, i: Axis): real { Highest(vs, i) - Lowest(vs, i) }

  lemma {:induction false} BoundsAreClamped(vs: seq<Vec>, i: Axis)
    requires vs != []
    ensures Lower(vs, i) == Min(FAR, Lowest(vs, i)) && Upper(vs, i) == Max(-FAR, Highest(vs, i))
    ensures Lowest(vs, i) <= Highest(vs, i)
  {
    if |vs| > 1 { BoundsAreClamped(vs[..|vs| - 1], i); } else { assert vs[..|vs| - 1] == []; }
  }

  // ----- Where to cut ----------------------------------------------------------------------------------

  /** The multiple of `size` nearest to the middle of the polygon. */
  function CutLine(vs: seq<Vec>, i: Axis, size: real): real
    requires size > 0.0
  {
    Nearest((Lower(vs, i) + Upper(vs, i)) * 0.5, size)
  }

  /** The multiple of `size` nearest to `x`. */
  function Multiple(size: real, n: int): real { size * (n as real) }

  function Nearest(x: real, size: real): real
    requires size > 0.0
  {
    Multiple(size, (x / size + 0.5).Floor)
  }

  lemma CutLineNearMiddle(vs: seq<Vec>, i: Axis, size: real)
    requires size > 0.0
    ensures var mid := (Lower(vs, i) + Upper(vs, i)) * 0.5;
      mid - size * 0.5 <= CutLine(vs, i, size) <= mid + size * 0.5
  {
    hide Lower, Upper;
    NearestMultiple((Lower(vs, i) + Upper(vs, i)) * 0.5, size);
  }

  lemma NearestMultiple(mid: real, size: real)
    requires size > 0.0
    ensures mid - size * 0.5 <= Nearest(mid, size) <= mid + size * 0.5
  {
    var q := mid / size;
    var n := (q + 0.5).Floor as real;
    assert q - 0.5 <= n <= q + 0.5;
    Nonnegative(size, n - (q - 0.5));
    Nonnegative(size, q + 0.5 - n);
    assert q * size == mid;
    assert size * (n - (q - 0.5)) == size * n - mid + size * 0.5;
    assert size * (q + 0.5 - n) == mid + size * 0.5 - size * n;
  }

  /** A cut has to leave at least 8 units on both sides. */
  predicate WideEnough(lo: real, hi: real, size: real)
    requires size > 0.0
  {
    var m := Nearest((lo + hi) * 0.5, size);
    hi - m >= 8.0 && m - lo >= 8.0
  }

  predicate WorthCutting(vs: seq<Vec>, i: Axis, size: real)
    requires size > 0.0
  {
    WideEnough(Lower(vs, i), Upper(vs, i), size)
  }

  /** What is wide enough stays so when it grows. */
  lemma WiderIsEnough(lo: real, hi: real, size: real, lo': real, hi': real)
    requires size > 0.0 && WideEnough(lo, hi, size) && lo' <= lo && hi <= hi'
    ensures WideEnough(lo', hi', size)
  {
    hide Nearest;
    var mid, mid' := (lo + hi) * 0.5, (lo' + hi') * 0.5;
    NearestMultiple(mid, size);
    NearestMultiple(mid', size);
    MultiplesApart(mid, mid', size);
  }

  lemma MultiplesApart(x: real, y: real, size: real)
    requires size > 0.0
    ensures Nearest(x, size) < Nearest(y, size) ==> Nearest(x, size) + size <= Nearest(y, size)
    ensures Nearest(y, size) < Nearest(x, size) ==> Nearest(y, size) + size <= Nearest(x, size)
  {
    hide Multiple;
    var n, k := (x / size + 0.5).Floor, (y / size + 0.5).Floor;
    if n < k { MultiplesGrow(size, n, k); } else if k < n { MultiplesGrow(size, k, n); }
  }

  lemma MultiplesGrow(size: real, n: int, k: int)
    requires size > 0.0 && n < k
    ensures Multiple(size, n) + size <= Multiple(size, k)
  {
    Nonnegative(size, (k - n - 1) as real);
    assert size * ((k - n - 1) as real) == size * (k as real) - size * (n as real) - size;
  }

  /** An axis that is not cut is short. */
  lemma UncutIsShort(vs: seq<Vec>, i: Axis, size: real)
    requires size > 0.0 && !WorthCutting(vs, i, size)
    ensures Extent(vs, i) < size + 16.0
  {
    CutLineNearMiddle(vs, i, size);
  }

  // ----- One cut ------------------------------------------------------------------------------------------

  function Dist(v: Vec, i: Axis, m: real): real { Coord(v, i) - m }

  /** The point where an edge that changes sides meets the plane. */
  function ClipPoint(v: Vec, w: Vec, i: Axis, m: real): Vec
    requires Dist(v, i, m) - Dist(w, i, m) != 0.0
  {
    MultiplyAdd(v, Dist(v, i, m) / (Dist(v, i, m) - Dist(w, i, m)), Sub(w, v))
  }

  predicate ChangesSides(v: Vec, w: Vec, i: Axis, m: real) {
    var d, e := Dist(v, i, m), Dist(w, i, m);
    d != 0.0 && e != 0.0 && (d > 0.0) != (e > 0.0)
  }

  /** What an edge from `v` to `w` adds to the front and to the back piece. */
  function FrontPart(v: Vec, w: Vec, i: Axis, m: real): seq<Vec> {
    (if Dist(v, i, m) >= 0.0 then [v] else []) + (if ChangesSides(v, w, i, m) then [ClipPoint(v, w, i, m)] else [])
  }

  function BackPart(v: Vec, w: Vec, i: Axis, m: real): seq<Vec> {
    (if Dist(v, i, m) <= 0.0 then [v] else []) + (if ChangesSides(v, w, i, m) then [ClipPoint(v, w, i, m)] else [])
  }

  function Next(vs: seq<Vec>, j: nat): Vec
    requires j < |vs|
  {
    if j + 1 < |vs| then vs[j + 1] else vs[0]
  }

  function Front(vs: seq<Vec>, i: Axis, m: real, n: nat): seq<Vec>
    requires n <= |vs|
  {
    if n == 0 then [] else Front(vs, i, m, n - 1) + FrontPart(vs[n - 1], Next(vs, n - 1), i, m)
  }

  function Back(vs: seq<Vec>, i: Axis, m: real, n: nat): seq<Vec>
    requires n <= |vs|
  {
    if n == 0 then [] else Back(vs, i, m, n - 1) + BackPart(vs[n - 1], Next(vs, n - 1), i, m)
  }

  /** The clip point lies on the plane and, in any direction, between the ends of the edge. */
  lemma ClipPointIs(v: Vec, w: Vec, i: Axis, m: real, n: Vec, bound: real)
    requires ChangesSides(v, w, i, m)
    ensures Dist(ClipPoint(v, w, i, m), i, m) == 0.0
    ensures Dot(n, v) >= bound && Dot(n, w) >= bound ==> Dot(n, ClipPoint(v, w, i, m)) >= bound
  {
    hide Dist, Dot, MultiplyAdd, Sub;
    var d, e := Dist(v, i, m), Dist(w, i, m);
    var t := d / (d - e);
    FractionBetween(d, e);
    FractionBalances(t, d, e);
    DistAlong(v, w, i, m, t);
    Along(n, v, w, t);
    if Dot(n, v) >= bound && Dot(n, w) >= bound { Convex(Dot(n, v), Dot(n, w), t, bound); }
  }

  lemma DistAlong(v: Vec, w: Vec, i: Axis, m: real, t: real)
    ensures Dist(MultiplyAdd(v, t, Sub(w, v)), i, m) == Dist(v, i, m) + t * (Dist(w, i, m) - Dist(v, i, m))
  {
  }

  lemma Along(n: Vec, v: Vec, w: Vec, t: real)
    ensures Dot(n, MultiplyAdd(v, t, Sub(w, v))) == Dot(n, v) + t * (Dot(n, w) - Dot(n, v))
  {
    assert n.x * (v.x + t * (w.x - v.x)) == n.x * v.x + t * (n.x * w.x - n.x * v.x);
    assert n.y * (v.y + t * (w.y - v.y)) == n.y * v.y + t * (n.y * w.y - n.y * v.y);
    assert n.z * (v.z + t * (w.z - v.z)) == n.z * v.z + t * (n.z * w.z - n.z * v.z);
    Distribute3(t, n.x * w.x - n.x * v.x, n.y * w.y - n.y * v.y, n.z * w.z - n.z * v.z);
  }

  lemma Convex(a: real, b: real, t: real, bound: real)
    requires a >= bound && b >= bound && 0.0 <= t <= 1.0
    ensures a + t * (b - a) >= bound
  {
    Nonnegative(1.0 - t, a - bound);
    Nonnegative(t, b - bound);
    assert a + t * (b - a) - bound == (1.0 - t) * (a - bound) + t * (b - bound);
  }

  ghost predicate Beyond(n: Vec, bound: real, vs: seq<Vec>) {
    forall j :: 0 <= j < |vs| ==> Dot(n, vs[j]) >= bound
  }

  /** Both pieces stay in every half-space the polygon is in, each on its side of the cut. */
  lemma {:induction false} PiecesInHalfSpace(vs: seq<Vec>, i: Axis, m: real, k: nat, n: Vec, bound: real)
    requires k <= |vs| && Beyond(n, bound, vs)
    ensures Beyond(n, bound, Front(vs, i, m, k)) && Beyond(n, bound, Back(vs, i, m, k))
    ensures forall j :: 0 <= j < |Front(vs, i, m, k)| ==> Dist(Front(vs, i, m, k)[j], i, m) >= 0.0
    ensures forall j :: 0 <= j < |Back(vs, i, m, k)| ==> Dist(Back(vs, i, m, k)[j], i, m) <= 0.0
  {
    hide Dot, ClipPoint, Dist;
    if k > 0 {
      PiecesInHalfSpace(vs, i, m, k - 1, n, bound);
      PartsInHalfSpace(vs[k - 1], Next(vs, k - 1), i, m, n, bound);
    }
  }

  lemma PartsInHalfSpace(v: Vec, w: Vec, i: Axis, m: real, n: Vec, bound: real)
    requires Dot(n, v) >= bound && Dot(n, w) >= bound
    ensures Beyond(n, bound, FrontPart(v, w, i, m)) && Beyond(n, bound, BackPart(v, w, i, m))
    ensures forall j :: 0 <= j < |FrontPart(v, w, i, m)| ==> Dist(FrontPart(v, w, i, m)[j], i, m) >= 0.0
    ensures forall j :: 0 <= j < |BackPart(v, w, i, m)| ==> Dist(BackPart(v, w, i, m)[j], i, m) <= 0.0
  {
    if ChangesSides(v, w, i, m) { ClipPointIs(v, w, i, m, n, bound); }
  }

  /** Every vertex goes to a piece. */
  lemma VertexGoesSomewhere(vs: seq<Vec>, i: Axis, m: real, k: nat, j: nat)
    requires j < k <= |vs|
    ensures vs[j] in Front(vs, i, m, k) || vs[j] in Back(vs, i, m, k)
  {
    hide Front, Back;
    if Coord(vs[j], i) >= m { GoesToFront(vs, i, m, k, j); } else { GoesToBack(vs, i, m, k, j); }
  }

  function Unit(i: Axis): Vec {
    Vec(if i == 0 then 1.0 else 0.0, if i == 1 then 1.0 else 0.0, if i == 2 then 1.0 else 0.0)
  }

  lemma UnitDot(v: Vec, i: Axis)
    ensures Dot(Unit(i), v) == Coord(v, i) && Dot(Negate(Unit(i)), v) == -Coord(v, i)
  {
  }

  /** On every axis the pieces stay within the bounds of the polygon. */
  lemma PiecesWithin(vs: seq<Vec>, i: Axis, m: real, a: Axis, lo: real, hi: real)
    requires Within(vs, a, lo, hi)
    ensures Within(Front(vs, i, m, |vs|), a, lo, hi) && Within(Back(vs, i, m, |vs|), a, lo, hi)
  {
    hide Dot;
    forall v: Vec ensures Dot(Unit(a), v) == Coord(v, a) && Dot(Negate(Unit(a)), v) == -Coord(v, a) { UnitDot(v, a); }
    PiecesInHalfSpace(vs, i, m, |vs|, Unit(a), lo);
    PiecesInHalfSpace(vs, i, m, |vs|, Negate(Unit(a)), -hi);
  }

  ghost function TotalLength(vs: seq<Vec>): real { Length(vs, 0) + Length(vs, 1) + Length(vs, 2) }

  /**
   Cuts along an axis come to an end: neither what lies above 9999 nor what lies below -9999 is
   wide enough to be cut when it is measured from there.
   */
  predicate Settles(vs: seq<Vec>, i: Axis, size: real)
    requires size > 0.0
  {
    !WideEnough(FAR, Upper(vs, i), size) && !WideEnough(Lower(vs, i), -FAR, size)
  }

  predicate AllSettle(vs: seq<Vec>, size: real)
    requires size > 0.0
  {
    Settles(vs, 0, size) && Settles(vs, 1, size) && Settles(vs, 2, size)
  }

  /** Within 9999 of the origin on all axes everything settles. */
  lemma InRangeSettles(vs: seq<Vec>, size: real)
    requires size > 0.0 && InRange(vs)
    ensures AllSettle(vs, size)
  {
    hide Nearest, Lower, Upper;
    BoundsAreTight(vs, 0, -FAR, FAR);
    BoundsAreTight(vs, 1, -FAR, FAR);
    BoundsAreTight(vs, 2, -FAR, FAR);
  }

  /** Where a settling polygon is cut its bounds are true. */
  lemma CutBoundsAreTrue(vs: seq<Vec>, i: Axis, size: real)
    requires size > 0.0 && Settles(vs, i, size) && WorthCutting(vs, i, size)
    ensures vs != [] && Lower(vs, i) == Lowest(vs, i) && Upper(vs, i) == Highest(vs, i)
  {
    assert vs != [];
    BoundsAreClamped(vs, i);
  }

  /** A cut shortens both pieces by at least 8 along its axis, and lengthens them along none. */
  lemma CutShortens(vs: seq<Vec>, i: Axis, size: real, a: Axis)
    requires size > 0.0 && Settles(vs, i, size) && WorthCutting(vs, i, size)
    ensures var m := CutLine(vs, i, size); var d := if a == i then 8.0 else 0.0;
      Length(Front(vs, i, m, |vs|), a) <= Length(vs, a) - d && Length(Back(vs, i, m, |vs|), a) <= Length(vs, a) - d
  {
    hide Front, Back, Lower, Upper, Lowest, Highest, Nearest;
    var m := CutLine(vs, i, size);
    CutBoundsAreTrue(vs, i, size);
    BoundsAreClamped(vs, a);
    var lo, hi := Lowest(vs, a), Highest(vs, a);
    var f, b := Front(vs, i, m, |vs|), Back(vs, i, m, |vs|);
    PiecesWithin(vs, i, m, a, lo, hi);
    SidesOfCut(vs, i, m);
    LengthIsTight(f, a, if a == i then m else lo, hi);
    LengthIsTight(b, a, lo, if a == i then m else hi);
  }

  /** The pieces of a settling polygon settle. */
  lemma PiecesSettle(vs: seq<Vec>, i: Axis, m: real, a: Axis, size: real)
    requires size > 0.0 && Settles(vs, a, size)
    ensures Settles(Front(vs, i, m, |vs|), a, size) && Settles(Back(vs, i, m, |vs|), a, size)
  {
    hide Front, Back, WideEnough, Lower, Upper;
    var lo, hi := Lower(vs, a), Upper(vs, a);
    PiecesWithin(vs, i, m, a, lo, hi);
    SettlesWithin(vs, Front(vs, i, m, |vs|), a, size);
    SettlesWithin(vs, Back(vs, i, m, |vs|), a, size);
  }

  lemma SettlesWithin(vs: seq<Vec>, p: seq<Vec>, a: Axis, size: real)
    requires size > 0.0 && Settles(vs, a, size) && Within(p, a, Lower(vs, a), Upper(vs, a))
    ensures Settles(p, a, size)
  {
    hide WideEnough, Lower, Upper;
    BoundsAreTight(p, a, Lower(vs, a), Upper(vs, a));
    if WideEnough(FAR, Upper(p, a), size) { WiderIsEnough(FAR, Upper(p, a), size, FAR, Upper(vs, a)); }
    if WideEnough(Lower(p, a), -FAR, size) { WiderIsEnough(Lower(p, a), -FAR, size, Lower(vs, a), -FAR); }
  }

  lemma SidesOfCut(vs: seq<Vec>, i: Axis, m: real)
    ensures forall j :: 0 <= j < |Front(vs, i, m, |vs|)| ==> Coord(Front(vs, i, m, |vs|)[j], i) >= m
    ensures forall j :: 0 <= j < |Back(vs, i, m, |vs|)| ==> Coord(Back(vs, i, m, |vs|)[j], i) <= m
  {
    forall v: Vec ensures Dot(Vec(0.0, 0.0, 0.0), v) == 0.0 { }
    PiecesInHalfSpace(vs, i, m, |vs|, Vec(0.0, 0.0, 0.0), 0.0);
  }

  // ----- The whole subdivision ---------------------------------------------------------------------

  datatype Result = TooManyVertices | Pieces(polys: seq<seq<Vec>>)

  /** The first axis worth cutting along, or 3. */
  function CutAxis(vs: seq<Vec>, size: real): (a: nat)
    requires size > 0.0
    ensures a <= 3 && (a < 3 ==> WorthCutting(vs, a, size))
    ensures forall i: Axis :: i < a ==> !WorthCutting(vs, i, size)
  {
    if WorthCutting(vs, 0, size) then 0 else if WorthCutting(vs, 1, size) then 1
    else if WorthCutting(vs, 2, size) then 2 else 3
  }

  lemma CutDecreases(vs: seq<Vec>, i: Axis, size: real)
    requires size > 0.0 && AllSettle(vs, size) && WorthCutting(vs, i, size)
    ensures var m := CutLine(vs, i, size);
      && AllSettle(Front(vs, i, m, |vs|), size) && AllSettle(Back(vs, i, m, |vs|), size)
      && TotalLength(Front(vs, i, m, |vs|)) <= TotalLength(vs) - 8.0
      && TotalLength(Back(vs, i, m, |vs|)) <= TotalLength(vs) - 8.0
      && TotalLength(vs) >= 0.0 && vs != []
  {
    hide Length, WorthCutting, CutLine, Settles;
    var m := CutLine(vs, i, size);
    CutShortens(vs, i, size, 0);
    CutShortens(vs, i, size, 1);
    CutShortens(vs, i, size, 2);
    PiecesSettle(vs, i, m, 0, size);
    PiecesSettle(vs, i, m, 1, size);
    PiecesSettle(vs, i, m, 2, size);
    NonemptyLength(vs, i, size);
  }

  lemma NonemptyLength(vs: seq<Vec>, i: Axis, size: real)
    requires size > 0.0 && WorthCutting(vs, i, size)
    ensures TotalLength(vs) >= 0.0 && vs != []
  {
    assert vs != [];
    BoundsAreClamped(vs, 0);
    BoundsAreClamped(vs, 1);
    BoundsAreClamped(vs, 2);
  }

  /** The list of pieces, newest first: those of the back, then those of the front. */
  ghost function Subdivided(vs: seq<Vec>, size: real): (r: Result)
    requires size > 0.0 && AllSettle(vs, size)
    decreases TotalLength(vs)
  {
    if |vs| > MAX_VERTS then TooManyVertices
    else
      var i := CutAxis(vs, size);
      if i == 3 then Pieces([vs])
      else
        var m := CutLine(vs, i, size);
        CutDecreases(vs, i, size);
        var f := Subdivided(Front(vs, i, m, |vs|), size);
        var b := Subdivided(Back(vs, i, m, |vs|), size);
        if f.TooManyVertices? || b.TooManyVertices? then TooManyVertices else Pieces(b.polys + f.polys)
  }

  /** Every piece is short on every axis. */
  lemma {:induction false} PiecesAreShort(vs: seq<Vec>, size: real, k: nat, a: Axis)
    requires size > 0.0 && AllSettle(vs, size) && Subdivided(vs, size).Pieces? && k < |Subdivided(vs, size).polys|
    ensures Length(Subdivided(vs, size).polys[k], a) <= Max(0.0, Extent(Subdivided(vs, size).polys[k], a)) < size + 16.0
    decreases TotalLength(vs)
  {
    hide Extent, WorthCutting, CutLine, Front, Back, Length, Settles;
    var i := CutAxis(vs, size);
    if i == 3 {
      UncutIsShort(vs, a, size);
      LengthWithinExtent(vs, a);
    } else {
      var m := CutLine(vs, i, size);
      CutDecreases(vs, i, size);
      var b := Subdivided(Back(vs, i, m, |vs|), size);
      if k < |b.polys| {
        PiecesAreShort(Back(vs, i, m, |vs|), size, k, a);
      } else {
        PiecesAreShort(Front(vs, i, m, |vs|), size, k - |b.polys|, a);
      }
    }
  }

  lemma LengthWithinExtent(vs: seq<Vec>, a: Axis)
    ensures Length(vs, a) <= Max(0.0, Extent(vs, a))
  {
    if vs != [] { BoundsAreClamped(vs, a); }
  }

  /** No piece leaves the convex hull of the polygon: it stays in every half-space that holds the polygon. */
  lemma {:induction false} PiecesInHull(vs: seq<Vec>, size: real, k: nat, n: Vec, bound: real)
    requires size > 0.0 && AllSettle(vs, size) && Subdivided(vs, size).Pieces? && k < |Subdivided(vs, size).polys|
    requires Beyond(n, bound, vs)
    ensures Beyond(n, bound, Subdivided(vs, size).polys[k])
    decreases TotalLength(vs)
  {
    hide Extent, WorthCutting, CutLine, Front, Back, Beyond;
    var i := CutAxis(vs, size);
    if i < 3 {
      var m := CutLine(vs, i, size);
      CutDecreases(vs, i, size);
      PiecesInHalfSpace(vs, i, m, |vs|, n, bound);
      var b := Subdivided(Back(vs, i, m, |vs|), size);
      if k < |b.polys| {
        PiecesInHull(Back(vs, i, m, |vs|), size, k, n, bound);
      } else {
        PiecesInHull(Front(vs, i, m, |vs|), size, k - |b.polys|, n, bound);
      }
    }
  }

  /** Every vertex of the polygon is a vertex of some piece. */
  lemma {:induction false} VerticesSurvive(vs: seq<Vec>, size: real, v: Vec) returns (k: nat)
    requires size > 0.0 && AllSettle(vs, size) && Subdivided(vs, size).Pieces? && v in vs
    ensures k < |Subdivided(vs, size).polys| && v in Subdivided(vs, size).polys[k]
    decreases TotalLength(vs)
  {
    hide Extent, WorthCutting, CutLine, Front, Back;
    var i := CutAxis(vs, size);
    if i == 3 {
      k := 0;
    } else {
      var m := CutLine(vs, i, size);
      CutDecreases(vs, i, size);
      var j :| 0 <= j < |vs| && vs[j] == v;
      VertexGoesSomewhere(vs, i, m, |vs|, j);
      if v in Back(vs, i, m, |vs|) {
        k := VerticesSurvive(Back(vs, i, m, |vs|), size, v);
      } else {
        k := VerticesSurvive(Front(vs, i, m, |vs|), size, v);
        k := |Subdivided(Back(vs, i, m, |vs|), size).polys| + k;
      }
    }
  }

  // ----- When it ends ------------------------------------------------------------------------------

  /** The subdivision followed to a depth: the front first, as the program does. */
  datatype Outcome = Failed | Done(polys: seq<seq<Vec>>) | TooDeep

  ghost function SubdividedTo(vs: seq<Vec>, size: real, depth: nat): Outcome
    requires size > 0.0
    decreases depth
  {
    if |vs| > MAX_VERTS then Failed
    else
      var i := CutAxis(vs, size);
      if i == 3 then Done([vs])
      else if depth == 0 then TooDeep
      else
        var m := CutLine(vs, i, size);
        var f := SubdividedTo(Front(vs, i, m, |vs|), size, depth - 1);
        var b := SubdividedTo(Back(vs, i, m, |vs|), size, depth - 1);
        if !f.Done? then f else if !b.Done? then b else Done(b.polys + f.polys)
  }

  /** The vertex a bound beyond the range comes from stays in some piece, which therefore is cut again. */
  lemma {:induction false} UnsettledNeverDone(vs: seq<Vec>, a: Axis, size: real, depth: nat)
    requires size > 0.0 && !Settles(vs, a, size)
    ensures !SubdividedTo(vs, size, depth).Done?
    decreases depth
  {
    hide Front, Back, Lower, Upper, Settles, WideEnough, CutLine;
    UnsettledIsCut(vs, a, size);
    var i := CutAxis(vs, size);
    if |vs| <= MAX_VERTS && depth > 0 {
      var m := CutLine(vs, i, size);
      if !Settles(Front(vs, i, m, |vs|), a, size) {
        UnsettledNeverDone(Front(vs, i, m, |vs|), a, size, depth - 1);
      } else {
        UnsettledPiece(vs, a, size, i, m);
        UnsettledNeverDone(Back(vs, i, m, |vs|), a, size, depth - 1);
      }
    }
  }

  lemma UnsettledIsCut(vs: seq<Vec>, a: Axis, size: real)
    requires size > 0.0 && !Settles(vs, a, size)
    ensures CutAxis(vs, size) < 3
  {
    hide WideEnough, Lower, Upper;
    if WideEnough(FAR, Upper(vs, a), size) {
      WiderIsEnough(FAR, Upper(vs, a), size, Lower(vs, a), Upper(vs, a));
    } else {
      WiderIsEnough(Lower(vs, a), -FAR, size, Lower(vs, a), Upper(vs, a));
    }
    assert WorthCutting(vs, a, size);
    assert a == 0 || a == 1 || a == 2;
  }

  lemma UnsettledPiece(vs: seq<Vec>, a: Axis, size: real, i: Axis, m: real)
    requires size > 0.0 && !Settles(vs, a, size)
    ensures !Settles(Front(vs, i, m, |vs|), a, size) || !Settles(Back(vs, i, m, |vs|), a, size)
  {
    hide Front, Back, Lower, Upper, WideEnough;
    var f, b := Front(vs, i, m, |vs|), Back(vs, i, m, |vs|);
    if WideEnough(FAR, Upper(vs, a), size) {
      BeyondIsWide(FAR, Upper(vs, a), size);
      var j := UpperAttained(vs, a);
      VertexGoesSomewhere(vs, i, m, |vs|, j);
      if vs[j] in f { UpperAtLeast(f, a, vs[j]); WiderIsEnough(FAR, Upper(vs, a), size, FAR, Upper(f, a)); }
      else { UpperAtLeast(b, a, vs[j]); WiderIsEnough(FAR, Upper(vs, a), size, FAR, Upper(b, a)); }
    } else {
      BeyondIsWide(Lower(vs, a), -FAR, size);
      var j := LowerAttained(vs, a);
      VertexGoesSomewhere(vs, i, m, |vs|, j);
      if vs[j] in f { LowerAtMost(f, a, vs[j]); WiderIsEnough(Lower(vs, a), -FAR, size, Lower(f, a), -FAR); }
      else { LowerAtMost(b, a, vs[j]); WiderIsEnough(Lower(vs, a), -FAR, size, Lower(b, a), -FAR); }
    }
  }

  lemma BeyondIsWide(lo: real, hi: real, size: real)
    requires size > 0.0 && WideEnough(lo, hi, size)
    ensures lo + 16.0 <= hi
  {
  }

  lemma {:induction false} UpperAttained(vs: seq<Vec>, a: Axis) returns (j: nat)
    requires Upper(vs, a) > -FAR
    ensures j < |vs| && Coord(vs[j], a) == Upper(vs, a)
  {
    j := |vs| - 1;
    if Coord(vs[j], a) != Upper(vs, a) { j := UpperAttained(vs[..|vs| - 1], a); }
  }

  lemma {:induction false} LowerAttained(vs: seq<Vec>, a: Axis) returns (j: nat)
    requires Lower(vs, a) < FAR
    ensures j < |vs| && Coord(vs[j], a) == Lower(vs, a)
  {
    j := |vs| - 1;
    if Coord(vs[j], a) != Lower(vs, a) { j := LowerAttained(vs[..|vs| - 1], a); }
  }

  lemma UpperAtLeast(vs: seq<Vec>, a: Axis, v: Vec)
    requires v in vs
    ensures Coord(v, a) <= Upper(vs, a)
  {
  }

  lemma LowerAtMost(vs: seq<Vec>, a: Axis, v: Vec)
    requires v in vs
    ensures Lower(vs, a) <= Coord(v, a)
  {
  }

  ghost function OutcomeOf(r: Result): Outcome { if r.TooManyVertices? then Failed else Done(r.polys) }

  /** A settling polygon is followed to its end at some depth. */
  lemma {:induction false} SettlingEnds(vs: seq<Vec>, size: real) returns (depth: nat)
    requires size > 0.0 && AllSettle(vs, size)
    ensures SubdividedTo(vs, size, depth) == OutcomeOf(Subdivided(vs, size))
    decreases TotalLength(vs)
  {
    hide Front, Back, Lower, Upper, Settles, WideEnough, CutLine, TotalLength;
    depth := 0;
    var i := CutAxis(vs, size);
    if |vs| <= MAX_VERTS && i < 3 {
      var m := CutLine(vs, i, size);
      CutDecreases(vs, i, size);
      var d := SettlingEnds(Front(vs, i, m, |vs|), size);
      var e := SettlingEnds(Back(vs, i, m, |vs|), size);
      depth := 1 + d + e;
      DeeperIsSame(Front(vs, i, m, |vs|), size, d, d + e);
      DeeperIsSame(Back(vs, i, m, |vs|), size, e, d + e);
    }
  }

  lemma {:induction false} DeeperIsSame(vs: seq<Vec>, size: real, d: nat, e: nat)
    requires size > 0.0 && d <= e && SubdividedTo(vs, size, d) != TooDeep
    ensures SubdividedTo(vs, size, e) == SubdividedTo(vs, size, d)
    decreases d
  {
    hide Front, Back, CutLine, WorthCutting;
    var i := CutAxis(vs, size);
    if |vs| <= MAX_VERTS && i < 3 {
      var m := CutLine(vs, i, size);
      DeeperIsSame(Front(vs, i, m, |vs|), size, d - 1, e - 1);
      if SubdividedTo(Front(vs, i, m, |vs|), size, d - 1).Done? {
        DeeperIsSame(Back(vs, i, m, |vs|), size, d - 1, e - 1);
      }
    }
  }

  /**
   The subdivision delivers its pieces at some depth exactly if all axes settle and no piece has too
   many vertices.  When an axis does not settle it cuts for ever, unless a piece gets too many vertices.
   */
  lemma DeliversIff(vs: seq<Vec>, size: real)
    requires size > 0.0
    ensures (exists depth :: SubdividedTo(vs, size, depth).Done?) <==>
      AllSettle(vs, size) && Subdivided(vs, size).Pieces?
  {
    hide Settles, Subdivided, SubdividedTo;
    if AllSettle(vs, size) {
      var d := SettlingEnds(vs, size);
      forall depth: nat ensures SubdividedTo(vs, size, depth).Done? ==> SubdividedTo(vs, size, d).Done? {
        if SubdividedTo(vs, size, depth).Done? { SameEnd(vs, size, d, depth); }
      }
    } else {
      forall depth: nat ensures !SubdividedTo(vs, size, depth).Done? {
        if !Settles(vs, 0, size) { UnsettledNeverDone(vs, 0, size, depth); }
        else if !Settles(vs, 1, size) { UnsettledNeverDone(vs, 1, size, depth); }
        else { UnsettledNeverDone(vs, 2, size, depth); }
      }
    }
  }

  lemma SameEnd(vs: seq<Vec>, size: real, d: nat, e: nat)
    requires size > 0.0 && SubdividedTo(vs, size, d) != TooDeep && SubdividedTo(vs, size, e) != TooDeep
    ensures SubdividedTo(vs, size, d) == SubdividedTo(vs, size, e)
  {
    hide SubdividedTo;
    if d <= e { DeeperIsSame(vs, size, d, e); } else { DeeperIsSame(vs, size, e, d); }
  }

  // ----- Beyond the range ----------------------------------------------------------------------------

  lemma {:induction false} AllInFront(vs: seq<Vec>, i: Axis, m: real, n: nat)
    requires n <= |vs| && forall j :: 0 <= j < |vs| ==> Coord(vs[j], i) >= m
    ensures Front(vs, i, m, n) == vs[..n]
  {
    if n > 0 { AllInFront(vs, i, m, n - 1); }
  }

  lemma {:induction false} AllInBack(vs: seq<Vec>, i: Axis, m: real, n: nat)
    requires n <= |vs| && forall j :: 0 <= j < |vs| ==> Coord(vs[j], i) <= m
    ensures Back(vs, i, m, n) == vs[..n]
  {
    if n > 0 { AllInBack(vs, i, m, n - 1); }
  }

  /** A piece that would be cut into itself. */
  ghost predicate CutIntoItself(f: seq<Vec>, a: Axis, size: real)
    requires size > 0.0
  {
    && WorthCutting(f, a, size)
    && (Front(f, a, CutLine(f, a, size), |f|) == f || Back(f, a, CutLine(f, a, size), |f|) == f)
  }

  /**
   A polygon entirely above 9999 on an axis is worth cutting there exactly if the front piece is
   then cut into itself.
   */
  lemma NoProgressAbove(vs: seq<Vec>, a: Axis, size: real)
    requires size > 0.0 && forall j :: 0 <= j < |vs| ==> Coord(vs[j], a) >= FAR
    ensures WorthCutting(vs, a, size) <==> CutIntoItself(Front(vs, a, CutLine(vs, a, size), |vs|), a, size)
  {
    hide Front, Lower, Upper, WideEnough, Nearest, Back;
    var m := CutLine(vs, a, size);
    var f := Front(vs, a, m, |vs|);
    BoundsAreTight(vs, a, FAR, Upper(vs, a));
    PiecesWithin(vs, a, m, a, FAR, Upper(vs, a));
    BoundsAreTight(f, a, FAR, Upper(vs, a));
    if WorthCutting(vs, a, size) {
      WideMiddle(FAR, Upper(vs, a), size);
      var j := UpperAttained(vs, a);
      GoesToFront(vs, a, m, |vs|, j);
      UpperAtLeast(f, a, vs[j]);
      SidesOfCut(vs, a, m);
      AllInFront(f, a, m, |f|);
      assert f[..|f|] == f;
    } else if WorthCutting(f, a, size) {
      WiderIsEnough(FAR, Upper(f, a), size, FAR, Upper(vs, a));
    }
  }

  /** ... and one entirely below -9999 exactly if the back piece is. */
  lemma NoProgressBelow(vs: seq<Vec>, a: Axis, size: real)
    requires size > 0.0 && forall j :: 0 <= j < |vs| ==> Coord(vs[j], a) <= -FAR
    ensures WorthCutting(vs, a, size) <==> CutIntoItself(Back(vs, a, CutLine(vs, a, size), |vs|), a, size)
  {
    hide Front, Lower, Upper, WideEnough, Nearest, Back;
    var m := CutLine(vs, a, size);
    var b := Back(vs, a, m, |vs|);
    BoundsAreTight(vs, a, Lower(vs, a), -FAR);
    PiecesWithin(vs, a, m, a, Lower(vs, a), -FAR);
    BoundsAreTight(b, a, Lower(vs, a), -FAR);
    if WorthCutting(vs, a, size) {
      WideMiddle(Lower(vs, a), -FAR, size);
      var j := LowerAttained(vs, a);
      GoesToBack(vs, a, m, |vs|, j);
      LowerAtMost(b, a, vs[j]);
      SidesOfCut(vs, a, m);
      AllInBack(b, a, m, |b|);
      assert b[..|b|] == b;
    } else if WorthCutting(b, a, size) {
      WiderIsEnough(Lower(b, a), -FAR, size, Lower(vs, a), -FAR);
    }
  }

  lemma WideMiddle(lo: real, hi: real, size: real)
    requires size > 0.0 && WideEnough(lo, hi, size)
    ensures lo + 8.0 <= Nearest((lo + hi) * 0.5, size) <= hi - 8.0
  {
  }

  lemma {:induction false} GoesToFront(vs: seq<Vec>, i: Axis, m: real, k: nat, j: nat)
    requires j < k <= |vs| && Coord(vs[j], i) >= m
    ensures vs[j] in Front(vs, i, m, k)
  {
    hide ClipPoint;
    var f, fp := Front(vs, i, m, k - 1), FrontPart(vs[k - 1], Next(vs, k - 1), i, m);
    if j < k - 1 {
      GoesToFront(vs, i, m, k - 1, j);
    } else {
      assert fp[0] == vs[j];
    }
    assert forall v :: v in f || v in fp ==> v in f + fp;
  }

  lemma {:induction false} GoesToBack(vs: seq<Vec>, i: Axis, m: real, k: nat, j: nat)
    requires j < k <= |vs| && Coord(vs[j], i) <= m
    ensures vs[j] in Back(vs, i, m, k)
  {
    hide ClipPoint;
    var b, bp := Back(vs, i, m, k - 1), BackPart(vs[k - 1], Next(vs, k - 1), i, m);
    if j < k - 1 {
      GoesToBack(vs, i, m, k - 1, j);
    } else {
      assert bp[0] == vs[j];
    }
    assert forall v :: v in b || v in bp ==> v in b + bp;
  }

  /** A polygon whose first cut leaves all of it in front is cut for ever. */
  lemma {:induction false} CutForEver(vs: seq<Vec>, size: real, depth: nat)
    requires size > 0.0 && |vs| <= MAX_VERTS && CutAxis(vs, size) < 3
    requires var i := CutAxis(vs, size); Front(vs, i, CutLine(vs, i, size), |vs|) == vs
    ensures SubdividedTo(vs, size, depth) == TooDeep
  {
    hide CutAxis, CutLine, Front, Back;
    if depth > 0 { CutForEver(vs, size, depth - 1); }
  }

  /** A triangle between 15000 and 20000, cut near 15000 again and again. */
  lemma FarTriangle(depth: nat)
    ensures var vs := [Vec(15000.0, 0.0, 0.0), Vec(20000.0, 0.0, 0.0), Vec(20000.0, 64.0, 0.0)];
      SubdividedTo(vs, 64.0, depth) == TooDeep
  {
    var vs := [Vec(15000.0, 0.0, 0.0), Vec(20000.0, 0.0, 0.0), Vec(20000.0, 64.0, 0.0)];
    TriangleBounds(vs);
    assert CutLine(vs, 0, 64.0) == 14976.0;
    AllInFront(vs, 0, 14976.0, 3);
    assert vs[..3] == vs;
    CutForEver(vs, 64.0, depth);
  }

  lemma TriangleBounds(vs: seq<Vec>)
    requires |vs| == 3 && vs[0].x == 15000.0 && vs[1].x == 20000.0 && vs[2].x == 20000.0
    ensures Lower(vs, 0) == FAR && Upper(vs, 0) == 20000.0
  {
    BoundsAreTight(vs, 0, FAR, 20000.0);
    UpperAtLeast(vs, 0, vs[1]);
  }

  // ----- The program -----------------------------------------------------------------------------------

  method BoundPoly(vs: seq<Vec>) returns (mins: Vec, maxs: Vec)
    ensures forall i: Axis :: Coord(mins, i) == Lower(vs, i) && Coord(maxs, i) == Upper(vs, i)
  {
    mins, maxs := Vec(FAR, FAR, FAR), Vec(-FAR, -FAR, -FAR);
    for j := 0 to |vs|
      invariant forall i: Axis :: Coord(mins, i) == Lower(vs[..j], i) && Coord(maxs, i) == Upper(vs[..j], i)
    {
      var v := vs[j];
      mins := Vec(Min(mins.x, v.x), Min(mins.y, v.y), Min(mins.z, v.z));
      maxs := Vec(Max(maxs.x, v.x), Max(maxs.y, v.y), Max(maxs.z, v.z));
      assert vs[..j + 1][..j] == vs[..j];
      forall i: Axis ensures Coord(mins, i) == Lower(vs[..j + 1], i) && Coord(maxs, i) == Upper(vs[..j + 1], i) {
        assert i == 0 || i == 1 || i == 2;
      }
    }
    assert vs[..|vs|] == vs;
  }

  /** Cut a polygon in two, walking around it once. */
  method Cut(vs: seq<Vec>, i: Axis, m: real) returns (front: seq<Vec>, back: seq<Vec>)
    requires vs != []
    ensures front == Front(vs, i, m, |vs|) && back == Back(vs, i, m, |vs|)
  {
    // distances from the plane, with the first one repeated at the end
    var dist := new real[|vs| + 1](_ => 0.0);
    for j := 0 to |vs|
      invariant forall k :: 0 <= k < j ==> dist[k] == Dist(vs[k], i, m)
    {
      dist[j] := Coord(vs[j], i) - m;
    }
    dist[|vs|] := dist[0];
    front, back := [], [];
    for j := 0 to |vs|
      invariant front == Front(vs, i, m, j) && back == Back(vs, i, m, j)
      invariant dist[|vs|] == dist[0] && forall k :: 0 <= k < |vs| ==> dist[k] == Dist(vs[k], i, m)
    {
      var v, w := vs[j], Next(vs, j);
      assert dist[j + 1] == Dist(w, i, m);
      var clip := [];
      if dist[j] != 0.0 && dist[j + 1] != 0.0 && (dist[j] > 0.0) != (dist[j + 1] > 0.0) {
        clip := [MultiplyAdd(v, dist[j] / (dist[j] - dist[j + 1]), Sub(w, v))];
      }
      assert clip == if ChangesSides(v, w, i, m) then [ClipPoint(v, w, i, m)] else [];
      front := front + ((if dist[j] >= 0.0 then [v] else []) + clip);
      back := back + ((if dist[j] <= 0.0 then [v] else []) + clip);
    }
  }

  /** The first axis along which the polygon is worth cutting, and where; 3 if there is none. */
  method FindCut(vs: seq<Vec>, size: real) returns (i: nat, m: real)
    requires size > 0.0
    ensures i == CutAxis(vs, size) && (i < 3 ==> m == CutLine(vs, i, size))
  {
    var mins, maxs := BoundPoly(vs);
    i, m := 0, 0.0;
    while i < 3
      invariant 0 <= i <= CutAxis(vs, size)
    {
      m := Nearest((Coord(mins, i) + Coord(maxs, i)) * 0.5, size);
      if Coord(maxs, i) - m >= 8.0 && m - Coord(mins, i) >= 8.0 { return; }
      i := i + 1;
    }
  }

  /** Subdivide a polygon and put its pieces in front of the list `polys`; false on too many vertices. */
  method SubdividePolygon(vs: seq<Vec>, setting: real, polys: seq<seq<Vec>>) returns (ok: bool, polys': seq<seq<Vec>>)
    requires AllSettle(vs, Max(1.0, setting))
    ensures ok == Subdivided(vs, Max(1.0, setting)).Pieces?
    ensures ok ==> polys' == Subdivided(vs, Max(1.0, setting)).polys + polys
    decreases TotalLength(vs)
  {
    hide WorthCutting, CutAxis, CutLine, Front, Back, TotalLength, Settles, AllSettle;
    polys' := polys;
    if |vs| > MAX_VERTS { return false, polys; }
    var size := Max(1.0, setting);
    var i, m := FindCut(vs, size);
    if i == 3 { return true, [vs] + polys; }
    // cut it
    CutDecreases(vs, i, size);
    var front, back := Cut(vs, i, m);
    ok, polys' := SubdividePolygon(front, setting, polys);
    if !ok { return; }
    ok, polys' := SubdividePolygon(back, setting, polys');
  }
}
