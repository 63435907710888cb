/**
 Cutting convex polygons.  A cut adds at most one edge, and an edge made by an earlier cut on the same
 side of the same axis is cut away with it; so however often a convex polygon is cut, a piece has at
 most six vertices more than the polygon.
 */
module Convexity {
  import opened Basics
  import opened Vectors
  import opened Subdivide

  // ----- Convex polygons ------------------------------------------------------------------------------

  function Between(a: Vec, b: Vec, s: real): Vec { MultiplyAdd(a, s, Sub(b, a)) }

  /** The segments from `a` to `c` and from `b` to `d` meet. */
  ghost predicate Meet(a: Vec, b: Vec, c: Vec, d: Vec) {
    exists s, t :: 0.0 <= s <= 1.0 && 0.0 <= t <= 1.0 && Between(a, c, s) == Between(b, d, t)
  }

  /** Of any four corners in order the diagonals meet. */
  ghost predicate IsConvex(vs: seq<Vec>) {
    forall i, j, k, l :: 0 <= i < j < k < l < |vs| ==> Meet(vs[i], vs[j], vs[k], vs[l])
  }

  /** In front of a plane, or behind it; points on the plane are both. */
  predicate On(side: bool, d: real) { if side then d >= 0.0 else d <= 0.0 }

  predicate Leaves(side: bool, d: real, e: real) { On(side, d) && !On(side, e) }

  /** How often a path leaves one side of a plane across an axis. */
  ghost function Exits(side: bool, ps: seq<Vec>, a: Axis, m: real): nat
    decreases |ps|
  {
    if |ps| < 2 then 0
    else
      var n := |ps| - 1;
      Exits(side, ps[..n], a, m) + if Leaves(side, Dist(ps[n - 1], a, m), Dist(ps[n], a, m)) then 1 else 0
  }

  function Path(vs: seq<Vec>): seq<Vec> { if vs == [] then [] else vs + [vs[0]] }

  /** Once around, no plane across the axis is left more than once. */
  ghost predicate OneWay(vs: seq<Vec>, a: Axis) {
    forall side, m :: Exits(side, Path(vs), a, m) <= 1
  }

  lemma ExitsNext(side: bool, ps: seq<Vec>, x: Vec, a: Axis, m: real)
    requires ps != []
    ensures Exits(side, ps + [x], a, m) ==
      Exits(side, ps, a, m) + if Leaves(side, Dist(ps[|ps| - 1], a, m), Dist(x, a, m)) then 1 else 0
  {
    assert (ps + [x])[..|ps|] == ps;
  }

  lemma {:induction false} ExitsFirst(side: bool, x: Vec, ps: seq<Vec>, a: Axis, m: real)
    requires ps != []
    ensures Exits(side, [x] + ps, a, m) ==
      Exits(side, ps, a, m) + if Leaves(side, Dist(x, a, m), Dist(ps[0], a, m)) then 1 else 0
    decreases |ps|
  {
    hide Leaves, Dist;
    var n := |ps| - 1;
    assert ([x] + ps)[..|ps|] == [x] + ps[..n];
    if n > 0 { ExitsFirst(side, x, ps[..n], a, m); }
  }

  lemma {:induction false} LastExit(side: bool, ps: seq<Vec>, a: Axis, m: real) returns (j: nat)
    requires Exits(side, ps, a, m) > 0
    ensures j + 1 < |ps| && Leaves(side, Dist(ps[j], a, m), Dist(ps[j + 1], a, m))
    ensures Exits(side, ps[..j + 1], a, m) == Exits(side, ps, a, m) - 1
    decreases |ps|
  {
    hide Leaves, Dist;
    var n := |ps| - 1;
    if Leaves(side, Dist(ps[n - 1], a, m), Dist(ps[n], a, m)) {
      j := n - 1;
    } else {
      j := LastExit(side, ps[..n], a, m);
      assert ps[..n][..j + 1] == ps[..j + 1];
    }
  }

  lemma CoordBetween(a: Vec, b: Vec, s: real, i: Axis)
    ensures Coord(Between(a, b, s), i) == Coord(a, i) + s * (Coord(b, i) - Coord(a, i))
  {
  }

  lemma BetweenStays(side: bool, d: real, e: real, s: real)
    requires 0.0 <= s <= 1.0
    ensures On(side, d) && On(side, e) ==> On(side, d + s * (e - d))
    ensures !On(side, d) && !On(side, e) ==> !On(side, d + s * (e - d))
  {
    assert d + s * (e - d) == (1.0 - s) * d + s * e;
    if d >= 0.0 && e >= 0.0 { Nonnegative(1.0 - s, d); Nonnegative(s, e); }
    if d <= 0.0 && e <= 0.0 { Nonnegative(1.0 - s, -d); Nonnegative(s, -e); }
    if d > 0.0 && e > 0.0 { Positive(s, d, e); }
    if d < 0.0 && e < 0.0 { Positive(s, -d, -e); }
  }

  lemma Positive(s: real, d: real, e: real)
    requires 0.0 <= s <= 1.0 && d > 0.0 && e > 0.0
    ensures (1.0 - s) * d + s * e > 0.0
  {
    var x := if d < e then d else e;
    Nonnegative(1.0 - s, d - x);
    Nonnegative(s, e - x);
    assert (1.0 - s) * d + s * e == (1.0 - s) * (d - x) + s * (e - x) + x;
  }

  /** Diagonals on different sides of a plane do not meet. */
  lemma ApartDoNotMeet(side: bool, p: Vec, q: Vec, r: Vec, s: Vec, a: Axis, m: real)
    requires On(side, Dist(p, a, m)) && On(side, Dist(r, a, m))
    requires !On(side, Dist(q, a, m)) && !On(side, Dist(s, a, m))
    ensures !Meet(p, q, r, s) && !Meet(q, p, s, r) && !Meet(q, r, s, p)
  {
    hide Between, On;
    forall x, y | 0.0 <= x <= 1.0 && 0.0 <= y <= 1.0
      ensures Between(p, r, x) != Between(q, s, y) && Between(r, p, x) != Between(q, s, y)
    {
      SidesOfSegments(side, p, q, r, s, a, m, x, y);
      SidesOfSegments(side, r, q, p, s, a, m, x, y);
    }
  }

  lemma SidesOfSegments(side: bool, p: Vec, q: Vec, r: Vec, s: Vec, a: Axis, m: real, x: real, y: real)
    requires On(side, Dist(p, a, m)) && On(side, Dist(r, a, m)) && 0.0 <= x <= 1.0
    requires !On(side, Dist(q, a, m)) && !On(side, Dist(s, a, m)) && 0.0 <= y <= 1.0
    ensures Between(p, r, x) != Between(q, s, y)
  {
    hide Between, On, Dist;
    SideOfSegment(side, p, r, x, a, m);
    SideOfSegment(side, q, s, y, a, m);
  }

  /** A segment between two points on one side stays there. */
  lemma SideOfSegment(side: bool, v: Vec, w: Vec, s: real, a: Axis, m: real)
    requires 0.0 <= s <= 1.0
    ensures var d := Dist(Between(v, w, s), a, m);
      && (On(side, Dist(v, a, m)) && On(side, Dist(w, a, m)) ==> On(side, d))
      && (!On(side, Dist(v, a, m)) && !On(side, Dist(w, a, m)) ==> !On(side, d))
  {
    hide Between, Coord;
    var d, e := Dist(v, a, m), Dist(w, a, m);
    CoordBetween(v, w, s, a);
    BetweenStays(side, d, e, s);
    assert Coord(w, a) - Coord(v, a) == e - d;
    assert Dist(Between(v, w, s), a, m) == d + s * (e - d);
  }

  lemma ConvexIsOneWay(vs: seq<Vec>, a: Axis)
    requires IsConvex(vs)
    ensures OneWay(vs, a)
  {
    hide Exits, Meet, Dist;
    forall side, m ensures Exits(side, Path(vs), a, m) <= 1 {
      var ps := Path(vs);
      if Exits(side, ps, a, m) > 1 {
        var j := LastExit(side, ps, a, m);
        var i := LastExit(side, ps[..j + 1], a, m);
        assert i + 1 < j;
        if j + 1 < |vs| {
          ApartDoNotMeet(side, vs[i], vs[i + 1], vs[j], vs[j + 1], a, m);
          assert false;
        } else {
          assert i > 0;
          ApartDoNotMeet(side, vs[i], vs[0], vs[j], vs[i + 1], a, m);
          assert false;
        }
      }
    }
  }

  // ----- Pieces of one-way polygons --------------------------------------------------------------------

  function Part(side: bool, v: Vec, w: Vec, i: Axis, m: real): seq<Vec> {
    if side then FrontPart(v, w, i, m) else BackPart(v, w, i, m)
  }

  function Piece(side: bool, vs: seq<Vec>, i: Axis, m: real, n: nat): seq<Vec>
    requires n <= |vs|
  {
    if side then Front(vs, i, m, n) else Back(vs, i, m, n)
  }

  lemma PieceNext(side: bool, vs: seq<Vec>, i: Axis, m: real, n: nat)
    requires n < |vs|
    ensures Piece(side, vs, i, m, 0) == []
    ensures Piece(side, vs, i, m, n + 1) == Piece(side, vs, i, m, n) + Part(side, Path(vs)[n], Path(vs)[n + 1], i, m)
  {
  }

  /** The parts of an edge: its start, if on the side, and its crossing. */
  lemma PartIs(side: bool, v: Vec, w: Vec, i: Axis, m: real)
    ensures var d, e := Dist(v, i, m), Dist(w, i, m);
      Part(side, v, w, i, m) == (if On(side, d) then [v] else [])
        + if ChangesSides(v, w, i, m) then [ClipPoint(v, w, i, m)] else []
  {
  }

  lemma ClipIsBetween(v: Vec, w: Vec, i: Axis, m: real) returns (s: real)
    requires ChangesSides(v, w, i, m)
    ensures 0.0 <= s <= 1.0 && ClipPoint(v, w, i, m) == Between(v, w, s)
    ensures Dist(ClipPoint(v, w, i, m), i, m) == 0.0
  {
    hide Dist, MultiplyAdd, Sub, Dot;
    var d, e := Dist(v, i, m), Dist(w, i, m);
    FractionBetween(d, e);
    s := d / (d - e);
    ClipPointIs(v, w, i, m, v, 0.0);
  }

  lemma PartExits(side: bool, ps: seq<Vec>, v: Vec, w: Vec, part: seq<Vec>, c: Vec, a: Axis, m: real)
    requires ps != [] && (part == [] || part == [v] || part == [c] || part == [v] + [c])
    requires On(side, Dist(v, a, m)) && On(side, Dist(w, a, m)) ==> On(side, Dist(c, a, m))
    requires !On(side, Dist(v, a, m)) && !On(side, Dist(w, a, m)) ==> !On(side, Dist(c, a, m))
    ensures Exits(side, ps + part + [w], a, m) <= Exits(side, ps + [v] + [w], a, m)
  {
    hide Exits, Dist;
    var l := ps[|ps| - 1];
    ExitsNext(side, ps, v, a, m);
    ExitsNext(side, ps + [v], w, a, m);
    if part == [] {
      assert ps + part == ps;
      ExitsNext(side, ps, w, a, m);
    } else if part == [v] {
    } else if part == [c] {
      ExitsNext(side, ps, c, a, m);
      ExitsNext(side, ps + [c], w, a, m);
    } else {
      assert ps + part == ps + [v] + [c];
      ExitsNext(side, ps + [v], c, a, m);
      ExitsNext(side, ps + [v] + [c], w, a, m);
    }
  }

  lemma {:induction false} PieceExits(vs: seq<Vec>, cut: bool, i: Axis, at: real, n: nat, side: bool, a: Axis, m: real)
    requires vs != [] && n <= |vs|
    ensures Exits(side, [vs[0]] + Piece(cut, vs, i, at, n) + [Path(vs)[n]], a, m) <=
      Exits(side, Path(vs)[..n + 1], a, m)
  {
    hide Exits, Piece, Part, ChangesSides, ClipPoint;
    var ps := Path(vs);
    if n == 0 {
      PieceNext(cut, vs, i, at, 0);
      assert [vs[0]] + [] + [ps[0]] == [ps[0]] + [ps[0]] && ps[..1] == [ps[0]];
      ExitsNext(side, [ps[0]], ps[0], a, m);
    } else {
      var v, w, k := ps[n - 1], ps[n], n - 1;
      var before, part := [vs[0]] + Piece(cut, vs, i, at, k), Part(cut, ps[n - 1], ps[n], i, at);
      PieceExits(vs, cut, i, at, k, side, a, m);
      PieceNext(cut, vs, i, at, k);
      OneEdgeExits(cut, before, v, w, i, at, side, a, m);
      assert [vs[0]] + Piece(cut, vs, i, at, n) + [w] == before + part + [w];
      ExitsNext(side, before + [v], w, a, m);
      assert ps[..n + 1] == ps[..n] + [w];
      ExitsNext(side, ps[..n], w, a, m);
    }
  }

  lemma OneEdgeExits(cut: bool, before: seq<Vec>, v: Vec, w: Vec, i: Axis, at: real, side: bool, a: Axis, m: real)
    requires before != []
    ensures Exits(side, before + Part(cut, v, w, i, at) + [w], a, m) <= Exits(side, before + [v] + [w], a, m)
  {
    hide Exits, Part, ClipPoint, Dist;
    PartIs(cut, v, w, i, at);
    var c := v;
    if ChangesSides(v, w, i, at) {
      var s := ClipIsBetween(v, w, i, at);
      SideOfSegment(side, v, w, s, a, m);
      c := ClipPoint(v, w, i, at);
    }
    PartExits(side, before, v, w, Part(cut, v, w, i, at), c, a, m);
  }

  /** The pieces of a one-way polygon are one-way. */
  lemma PiecesOneWay(vs: seq<Vec>, cut: bool, i: Axis, at: real, a: Axis)
    requires OneWay(vs, a)
    ensures OneWay(Piece(cut, vs, i, at, |vs|), a)
  {
    hide Exits, Piece, Dist;
    var p := Piece(cut, vs, i, at, |vs|);
    forall side, m ensures Exits(side, Path(p), a, m) <= 1 {
      if p != [] {
        PieceOfNothing(vs, cut, i, at);
        PieceExits(vs, cut, i, at, |vs|, side, a, m);
        var x, l := vs[0], p[|p| - 1];
        assert Path(vs)[..|vs| + 1] == Path(vs);
        assert [x] + p + [x] == [x] + (p + [x]);
        ExitsNext(side, p, p[0], a, m);
        ExitsNext(side, p, x, a, m);
        ExitsFirst(side, x, p + [x], a, m);
      } else {
        NoExits(side, a, m);
      }
    }
  }

  lemma NoExits(side: bool, a: Axis, m: real)
    ensures Exits(side, [], a, m) == 0
  {
  }

  lemma PieceOfNothing(vs: seq<Vec>, cut: bool, i: Axis, at: real)
    ensures vs == [] ==> Piece(cut, vs, i, at, |vs|) == []
  {
  }

  // ----- Labelled edges --------------------------------------------------------------------------------

  /**
   Every edge has a label: below n those of the polygon it all began with, and from n on the six sides,
   front and back of each axis, for edges made by a cut.
   */
  function Face(n: nat, i: Axis, side: bool): nat { n + 2 * i + if side then 0 else 1 }

  function AxisOf(n: nat, l: nat): Axis
    requires n <= l < n + 6
  {
    (l - n) / 2
  }

  function SideOf(n: nat, l: nat): bool
    requires n <= l < n + 6
  {
    (l - n) % 2 == 0
  }

  lemma FaceParts(n: nat, i: Axis, side: bool)
    ensures n <= Face(n, i, side) < n + 6 && AxisOf(n, Face(n, i, side)) == i && SideOf(n, Face(n, i, side)) == side
  {
  }

  /** The point lies in the cut the label stands for; `at` is where the six sides were cut last. */
  ghost predicate OnFace(n: nat, at: seq<real>, l: nat, p: Vec)
    requires |at| == 6 && l < n + 6
  {
    l < n || Coord(p, AxisOf(n, l)) == at[l - n]
  }

  /** A path with labelled edges that goes on to `q`. */
  ghost predicate Linked(n: nat, at: seq<real>, ps: seq<Vec>, ls: seq<nat>, q: Vec)
    requires |at| == 6
  {
    && |ps| == |ls|
    && (forall j :: 0 <= j < |ls| ==> ls[j] < n + 6 && OnFace(n, at, ls[j], ps[j]))
    && (forall j :: 0 <= j < |ls| ==> OnFace(n, at, ls[j], if j + 1 < |ps| then ps[j + 1] else q))
  }

  lemma LinkedNext(n: nat, at: seq<real>, ps: seq<Vec>, ls: seq<nat>, v: Vec, l: nat, q: Vec)
    requires |at| == 6 && Linked(n, at, ps, ls, v) && l < n + 6 && OnFace(n, at, l, v) && OnFace(n, at, l, q)
    ensures Linked(n, at, ps + [v], ls + [l], q)
  {
    hide OnFace;
  }

  /** All of the polygon is on the inner side of each cut that made one of its edges. */
  ghost predicate Inside(n: nat, at: seq<real>, vs: seq<Vec>, l: nat)
    requires |at| == 6 && l < n + 6
  {
    l >= n ==> forall k :: 0 <= k < |vs| ==> On(SideOf(n, l), Dist(vs[k], AxisOf(n, l), at[l - n]))
  }

  ghost predicate Labelled(n: nat, at: seq<real>, vs: seq<Vec>, ls: seq<nat>) {
    && |at| == 6 && vs != [] && Linked(n, at, vs, ls, vs[0]) && Distinct(ls)
    && forall j :: 0 <= j < |ls| ==> Inside(n, at, vs, ls[j])
  }

  lemma {:induction false} DistinctBelow(s: seq<nat>, n: nat)
    requires Distinct(s) && forall j :: 0 <= j < |s| ==> s[j] < n
    ensures |s| <= n
    decreases n
  {
    if s != [] {
      assert s[0] < n;
      if k :| 0 <= k < |s| && s[k] == n - 1 {
        DistinctBelow(s[..k] + s[k + 1..], n - 1);
      } else {
        DistinctBelow(s, n - 1);
      }
    }
  }

  lemma LabelledIsSmall(n: nat, at: seq<real>, vs: seq<Vec>, ls: seq<nat>)
    requires Labelled(n, at, vs, ls)
    ensures |vs| <= n + 6
  {
    hide OnFace, Inside, Distinct;
    DistinctBelow(ls, n + 6);
  }

  /** The labels of what is left of an edge, and of the edge the cut makes behind it. */
  function EdgeLabels(side: bool, d: real, e: real, l: nat, made: nat): seq<nat> {
    if On(side, d) then
      if On(side, e) then [l] else if d == 0.0 then [made] else [l] + [made]
    else if On(side, e) && e != 0.0 then [l] else []
  }

  function PieceLabels(side: bool, vs: seq<Vec>, ls: seq<nat>, i: Axis, m: real, made: nat, n: nat): seq<nat>
    requires n <= |vs| == |ls|
  {
    if n == 0 then []
    else
      PieceLabels(side, vs, ls, i, m, made, n - 1)
      + EdgeLabels(side, Dist(Path(vs)[n - 1], i, m), Dist(Path(vs)[n], i, m), ls[n - 1], made)
  }

  lemma PieceLabelsNext(side: bool, vs: seq<Vec>, ls: seq<nat>, i: Axis, m: real, made: nat, n: nat)
    requires n <= |vs| == |ls|
    ensures PieceLabels(side, vs, ls, i, m, made, n) ==
      if n == 0 then []
      else PieceLabels(side, vs, ls, i, m, made, n - 1)
           + EdgeLabels(side, Dist(Path(vs)[n - 1], i, m), Dist(Path(vs)[n], i, m), ls[n - 1], made)
  {
  }

  /** Some vertex is cut away. */
  ghost predicate CutAway(side: bool, vs: seq<Vec>, i: Axis, m: real) {
    exists k :: 0 <= k < |vs| && !On(side, Dist(vs[k], i, m))
  }

  /** An edge made by an earlier cut on this side of the axis is cut away with it. */
  lemma OldFaceGoes(n: nat, at: seq<real>, vs: seq<Vec>, ls: seq<nat>, side: bool, i: Axis, m: real, j: nat)
    requires Labelled(n, at, vs, ls) && CutAway(side, vs, i, m) && j < |ls| && ls[j] == Face(n, i, side)
    ensures !On(side, Dist(Path(vs)[j], i, m)) && !On(side, Dist(Path(vs)[j + 1], i, m))
  {
    hide Distinct;
    FaceParts(n, i, side);
    assert Inside(n, at, vs, ls[j]);
    assert OnFace(n, at, ls[j], vs[j]);
    assert OnFace(n, at, ls[j], if j + 1 < |vs| then vs[j + 1] else vs[0]);
  }

  /** Only the new label can come up more often than before, once for each time the plane is left. */
  lemma {:induction false} LabelCount(n: nat, at: seq<real>, vs: seq<Vec>, ls: seq<nat>, side: bool, i: Axis, m: real,
        k: nat, x: nat)
    requires Labelled(n, at, vs, ls) && CutAway(side, vs, i, m) && k <= |vs| == |ls|
    ensures multiset(PieceLabels(side, vs, ls, i, m, Face(n, i, side), k))[x] <=
      if x == Face(n, i, side) then Exits(side, Path(vs)[..k + 1], i, m) else multiset(ls[..k])[x]
  {
    hide Labelled, CutAway, Exits, Dist, Face, On, EdgeLabels, PieceLabels, OneWay;
    PieceLabelsNext(side, vs, ls, i, m, Face(n, i, side), k);
    if k > 0 {
      var made, j := Face(n, i, side), k - 1;
      var v, w := Path(vs)[j], Path(vs)[k];
      LabelCount(n, at, vs, ls, side, i, m, j, x);
      if ls[j] == made { OldFaceGoes(n, at, vs, ls, side, i, m, j); }
      assert Path(vs)[..k + 1] == Path(vs)[..k] + [w];
      ExitsNext(side, Path(vs)[..k], w, i, m);
      assert ls[..k] == ls[..j] + [ls[j]];
      EdgeCount(side, Dist(v, i, m), Dist(w, i, m), ls[j], made, x);
    }
  }

  lemma EdgeCount(side: bool, d: real, e: real, l: nat, made: nat, x: nat)
    requires l == made ==> !On(side, d) && !On(side, e)
    ensures multiset(EdgeLabels(side, d, e, l, made))[x] <=
      if x == made then (if Leaves(side, d, e) then 1 else 0) else multiset([l])[x]
  {
  }

  lemma CountsDistinct(s: seq<nat>)
    requires forall x :: multiset(s)[x] <= 1
    ensures Distinct(s)
  {
    forall i, j | 0 <= i < j < |s| ensures s[i] != s[j] {
      assert s == s[..i] + [s[i]] + s[i + 1..j] + [s[j]] + s[j + 1..];
      assert s[i] == s[j] ==> multiset(s)[s[i]] >= 2;
    }
  }

  lemma LabelsDistinct(n: nat, at: seq<real>, vs: seq<Vec>, ls: seq<nat>, side: bool, i: Axis, m: real)
    requires Labelled(n, at, vs, ls) && CutAway(side, vs, i, m) && OneWay(vs, i) && |vs| == |ls|
    ensures Distinct(PieceLabels(side, vs, ls, i, m, Face(n, i, side), |vs|))
  {
    hide CutAway, Exits, Dist, Face, Linked, Inside;
    var pl := PieceLabels(side, vs, ls, i, m, Face(n, i, side), |vs|);
    forall x ensures multiset(pl)[x] <= 1 {
      LabelCount(n, at, vs, ls, side, i, m, |vs|, x);
      assert Path(vs)[..|vs| + 1] == Path(vs) && ls[..|vs|] == ls;
      DistinctCount(ls, x);
    }
    CountsDistinct(pl);
  }

  /**
   Along the cut the path of the piece goes on to the next vertex if that is on the side, and to any
   point of the cut if not.
   */
  ghost predicate GoesOn(n: nat, at: seq<real>, ps: seq<Vec>, ls: seq<nat>, side: bool, i: Axis, m: real, v: Vec)
    requires |at| == 6
  {
    if On(side, Dist(v, i, m)) then Linked(n, at, ps, ls, v)
    else forall q {:trigger Linked(n, at, ps, ls, q)} :: Dist(q, i, m) == 0.0 ==> Linked(n, at, ps, ls, q)
  }

  lemma GoesOnEdge(n: nat, at: seq<real>, ps: seq<Vec>, ls: seq<nat>, side: bool, i: Axis, m: real,
        v: Vec, w: Vec, l: nat)
    requires |at| == 6 && GoesOn(n, at, ps, ls, side, i, m, v) && at[Face(n, i, side) - n] == m && l < n + 6
    requires On(side, Dist(v, i, m)) || On(side, Dist(w, i, m)) ==> OnFace(n, at, l, v) && OnFace(n, at, l, w)
    ensures var labels := EdgeLabels(side, Dist(v, i, m), Dist(w, i, m), l, Face(n, i, side));
      GoesOn(n, at, ps + Part(side, v, w, i, m), ls + labels, side, i, m, w)
  {
    hide Linked, OnFace, Dist, Part, Face, ClipPoint;
    var d, e, made := Dist(v, i, m), Dist(w, i, m), Face(n, i, side);
    PartIs(side, v, w, i, m);
    assert ps + [] == ps && ls + [] == ls && [v] + [] == [v];
    FaceParts(n, i, side);
    if On(side, d) && On(side, e) {
      LinkedNext(n, at, ps, ls, v, l, w);
    } else if On(side, d) && d == 0.0 {
      forall q | Dist(q, i, m) == 0.0 ensures Linked(n, at, ps + [v], ls + [made], q) {
        OnTheCut(n, at, i, side, m, v);
        OnTheCut(n, at, i, side, m, q);
        LinkedNext(n, at, ps, ls, v, made, q);
      }
    } else if ChangesSides(v, w, i, m) {
      var c := ClipPoint(v, w, i, m);
      ClipOnFace(n, at, l, v, w, i, m);
      OnTheCut(n, at, i, side, m, c);
      if On(side, d) {
        LinkedNext(n, at, ps, ls, v, l, c);
        forall q | Dist(q, i, m) == 0.0 ensures Linked(n, at, ps + [v] + [c], ls + [l] + [made], q) {
          OnTheCut(n, at, i, side, m, q);
          LinkedNext(n, at, ps + [v], ls + [l], c, made, q);
        }
        assert ps + ([v] + [c]) == ps + [v] + [c] && ls + ([l] + [made]) == ls + [l] + [made];
      } else {
        LinkedNext(n, at, ps, ls, c, l, w);
        assert [] + [c] == [c];
      }
    }
  }

  lemma OnTheCut(n: nat, at: seq<real>, i: Axis, side: bool, m: real, q: Vec)
    requires |at| == 6 && at[Face(n, i, side) - n] == m && Dist(q, i, m) == 0.0
    ensures OnFace(n, at, Face(n, i, side), q)
  {
    FaceParts(n, i, side);
  }

  lemma ClipOnFace(n: nat, at: seq<real>, l: nat, v: Vec, w: Vec, i: Axis, m: real)
    requires |at| == 6 && l < n + 6 && OnFace(n, at, l, v) && OnFace(n, at, l, w) && ChangesSides(v, w, i, m)
    ensures OnFace(n, at, l, ClipPoint(v, w, i, m)) && Dist(ClipPoint(v, w, i, m), i, m) == 0.0
  {
    hide ClipPoint, Between, Dist, Coord;
    var s := ClipIsBetween(v, w, i, m);
    if l >= n {
      CoordBetween(v, w, s, AxisOf(n, l));
      assert s * 0.0 == 0.0;
    }
  }

  lemma {:induction false} PieceGoesOn(n: nat, at: seq<real>, vs: seq<Vec>, ls: seq<nat>, side: bool, i: Axis, m: real,
        k: nat)
    requires Labelled(n, at, vs, ls) && CutAway(side, vs, i, m) && k <= |vs| == |ls|
    ensures var made := Face(n, i, side);
      n <= made < n + 6 &&
      GoesOn(n, at[made - n := m], Piece(side, vs, i, m, k), PieceLabels(side, vs, ls, i, m, made, k),
        side, i, m, Path(vs)[k])
  {
    hide Labelled, CutAway, Dist, GoesOn, EdgeLabels, PieceLabels, Piece, Part, OnFace, Face;
    FaceParts(n, i, side);
    PathIsSome(n, at, vs, ls);
    var made := Face(n, i, side);
    var at' := at[made - n := m];
    PieceLabelsNext(side, vs, ls, i, m, made, k);
    if k == 0 {
      PieceNext(side, vs, i, m, 0);
      GoesOnFromNothing(n, at', side, i, m, Path(vs)[0]);
    } else {
      PieceGoesOn(n, at, vs, ls, side, i, m, k - 1);
      PieceNext(side, vs, i, m, k - 1);
      EdgeOnFace(n, at, vs, ls, side, i, m, k - 1);
      GoesOnEdge(n, at', Piece(side, vs, i, m, k - 1), PieceLabels(side, vs, ls, i, m, made, k - 1), side, i, m,
        Path(vs)[k - 1], Path(vs)[k], ls[k - 1]);
    }
  }

  lemma PathIsSome(n: nat, at: seq<real>, vs: seq<Vec>, ls: seq<nat>)
    requires Labelled(n, at, vs, ls)
    ensures |at| == 6 && |vs| == |ls| > 0
  {
  }

  lemma GoesOnFromNothing(n: nat, at: seq<real>, side: bool, i: Axis, m: real, v: Vec)
    requires |at| == 6
    ensures GoesOn(n, at, [], [], side, i, m, v)
  {
  }

  /** An edge of which something is left is not an old edge of the cut, so moving the cut does not move it. */
  lemma EdgeOnFace(n: nat, at: seq<real>, vs: seq<Vec>, ls: seq<nat>, side: bool, i: Axis, m: real, j: nat)
    requires Labelled(n, at, vs, ls) && CutAway(side, vs, i, m) && j < |vs| == |ls| && n <= Face(n, i, side) < n + 6
    ensures ls[j] < n + 6
    ensures On(side, Dist(Path(vs)[j], i, m)) || On(side, Dist(Path(vs)[j + 1], i, m)) ==>
      var at' := at[Face(n, i, side) - n := m];
      OnFace(n, at', ls[j], Path(vs)[j]) && OnFace(n, at', ls[j], Path(vs)[j + 1])
  {
    hide Distinct, Dist, Face, CutAway;
    if ls[j] == Face(n, i, side) { OldFaceGoes(n, at, vs, ls, side, i, m, j); }
    assert OnFace(n, at, ls[j], vs[j]);
    assert OnFace(n, at, ls[j], if j + 1 < |vs| then vs[j + 1] else vs[0]);
  }

  /** The piece begins with the first vertex, or on the cut. */
  lemma {:induction false} PieceStarts(side: bool, vs: seq<Vec>, i: Axis, m: real, k: nat)
    requires 0 < k <= |vs|
    ensures var p, v := Piece(side, vs, i, m, k), Path(vs)[k];
      if On(side, Dist(vs[0], i, m)) then p != [] && p[0] == vs[0]
      else if p == [] then !On(side, Dist(v, i, m)) || Dist(v, i, m) == 0.0
      else Dist(p[0], i, m) == 0.0
  {
    hide Piece, Part, ClipPoint, Dist;
    var v, w := Path(vs)[k - 1], Path(vs)[k];
    PieceNext(side, vs, i, m, k - 1);
    PartIs(side, v, w, i, m);
    if ChangesSides(v, w, i, m) { var s := ClipIsBetween(v, w, i, m); }
    if k > 1 {
      PieceStarts(side, vs, i, m, k - 1);
    } else {
      PieceNext(side, vs, i, m, 0);
    }
  }

  lemma GoesOnToStart(n: nat, at: seq<real>, vs: seq<Vec>, ps: seq<Vec>, ls: seq<nat>, side: bool, i: Axis, m: real)
    requires |at| == 6 && vs != [] && ps != [] && GoesOn(n, at, ps, ls, side, i, m, vs[0])
    requires if On(side, Dist(vs[0], i, m)) then ps[0] == vs[0] else Dist(ps[0], i, m) == 0.0
    ensures Linked(n, at, ps, ls, ps[0])
  {
  }

  lemma {:induction false} LabelsFrom(side: bool, vs: seq<Vec>, ls: seq<nat>, i: Axis, m: real, made: nat, k: nat)
    requires k <= |vs| == |ls|
    ensures forall l :: l in PieceLabels(side, vs, ls, i, m, made, k) ==> l == made || l in ls
  {
    hide Dist;
    if k > 0 { LabelsFrom(side, vs, ls, i, m, made, k - 1); }
  }

  lemma PieceInside(n: nat, at: seq<real>, vs: seq<Vec>, l: nat, side: bool, i: Axis, m: real)
    requires |at| == 6 && l < n + 6 && Inside(n, at, vs, l)
    ensures Inside(n, at, Piece(side, vs, i, m, |vs|), l)
  {
    hide Piece, Dist, On;
    if l >= n { PieceStays(vs, side, i, m, AxisOf(n, l), at[l - n], SideOf(n, l)); }
  }

  /** The piece stays on every side the polygon is on. */
  lemma PieceStays(vs: seq<Vec>, side: bool, i: Axis, m: real, a: Axis, b: real, inner: bool)
    requires forall k :: 0 <= k < |vs| ==> On(inner, Dist(vs[k], a, b))
    ensures forall k :: 0 <= k < |Piece(side, vs, i, m, |vs|)| ==> On(inner, Dist(Piece(side, vs, i, m, |vs|)[k], a, b))
  {
    hide Piece, Dot, Front, Back, Unit, Negate;
    PieceOfSide(side, vs, i, m);
    var normal, bound := if inner then Unit(a) else Negate(Unit(a)), if inner then b else -b;
    forall v: Vec ensures On(inner, Dist(v, a, b)) <==> Dot(normal, v) >= bound { UnitDot(v, a); }
    PiecesInHalfSpace(vs, i, m, |vs|, normal, bound);
  }

  lemma PieceOfSide(side: bool, vs: seq<Vec>, i: Axis, m: real)
    ensures Piece(side, vs, i, m, |vs|) == if side then Front(vs, i, m, |vs|) else Back(vs, i, m, |vs|)
  {
  }

  lemma MadeInside(n: nat, at: seq<real>, vs: seq<Vec>, side: bool, i: Axis, m: real)
    requires |at| == 6 && n <= Face(n, i, side) < n + 6 && at[Face(n, i, side) - n] == m
    ensures Inside(n, at, Piece(side, vs, i, m, |vs|), Face(n, i, side))
  {
    hide Piece, Front, Back;
    FaceParts(n, i, side);
    PieceOfSide(side, vs, i, m);
    SidesOfCut(vs, i, m);
  }

  /** The piece of a labelled one-way polygon is labelled. */
  lemma PieceLabelled(n: nat, at: seq<real>, vs: seq<Vec>, ls: seq<nat>, side: bool, i: Axis, m: real)
      returns (at': seq<real>, ls': seq<nat>)
    requires Labelled(n, at, vs, ls) && OneWay(vs, i) && Piece(side, vs, i, m, |vs|) != []
    ensures Labelled(n, at', Piece(side, vs, i, m, |vs|), ls')
  {
    hide CutAway, GoesOn, PieceLabels, Piece, OneWay, Linked, Inside, Distinct, Face;
    var p, made := Piece(side, vs, i, m, |vs|), Face(n, i, side);
    PathIsSome(n, at, vs, ls);
    if CutAway(side, vs, i, m) {
      FaceParts(n, i, side);
      at', ls' := at[made - n := m], PieceLabels(side, vs, ls, i, m, made, |vs|);
      PieceGoesOn(n, at, vs, ls, side, i, m, |vs|);
      PieceStarts(side, vs, i, m, |vs|);
      GoesOnToStart(n, at', vs, p, ls', side, i, m);
      LabelsDistinct(n, at, vs, ls, side, i, m);
      LabelsFrom(side, vs, ls, i, m, made, |vs|);
      MadeInside(n, at', vs, side, i, m);
      forall j | 0 <= j < |ls'| ensures ls'[j] < n + 6 && Inside(n, at', p, ls'[j]) {
        if ls'[j] != made { OldInside(n, at, vs, ls, side, i, m, ls'[j], made); }
      }
    } else {
      NothingCut(side, vs, i, m);
      at', ls' := at, ls;
    }
  }

  lemma OldInside(n: nat, at: seq<real>, vs: seq<Vec>, ls: seq<nat>, side: bool, i: Axis, m: real, l: nat, made: nat)
    requires Labelled(n, at, vs, ls) && l in ls && l != made && n <= made < n + 6
    ensures l < n + 6 && Inside(n, at[made - n := m], Piece(side, vs, i, m, |vs|), l)
  {
    hide Piece, Distinct, OnFace;
    var j :| 0 <= j < |ls| && ls[j] == l;
    assert Inside(n, at, vs, ls[j]);
    assert Inside(n, at[made - n := m], vs, l);
    PieceInside(n, at[made - n := m], vs, l, side, i, m);
  }

  lemma NothingCut(side: bool, vs: seq<Vec>, i: Axis, m: real)
    requires !CutAway(side, vs, i, m)
    ensures Piece(side, vs, i, m, |vs|) == vs
  {
    hide Front, Back;
    assert vs[..|vs|] == vs;
    if side { AllInFront(vs, i, m, |vs|); } else { AllInBack(vs, i, m, |vs|); }
  }

  // ----- Vertices of the pieces --------------------------------------------------------------------------

  /** What can be cut from a polygon of n vertices: nothing, or a labelled one-way polygon. */
  ghost predicate Tame(n: nat, vs: seq<Vec>) {
    vs == [] || (OneWay(vs, 0) && OneWay(vs, 1) && OneWay(vs, 2) && exists at, ls :: Labelled(n, at, vs, ls))
  }

  lemma ConvexIsTame(vs: seq<Vec>)
    requires IsConvex(vs)
    ensures Tame(|vs|, vs)
  {
    hide OneWay;
    if vs != [] {
      ConvexIsOneWay(vs, 0);
      ConvexIsOneWay(vs, 1);
      ConvexIsOneWay(vs, 2);
      FirstLabels(vs);
    }
  }

  lemma FirstLabels(vs: seq<Vec>)
    requires vs != []
    ensures exists at, ls :: Labelled(|vs|, at, vs, ls)
  {
    var at, ls := seq(6, _ => 0.0), seq(|vs|, j requires 0 <= j => j);
    assert Labelled(|vs|, at, vs, ls);
  }

  lemma TameIsSmall(n: nat, vs: seq<Vec>)
    requires Tame(n, vs)
    ensures |vs| <= n + 6
  {
    hide OneWay, Labelled;
    if vs != [] {
      var at, ls :| Labelled(n, at, vs, ls);
      LabelledIsSmall(n, at, vs, ls);
    }
  }

  lemma PiecesTame(n: nat, vs: seq<Vec>, i: Axis, m: real)
    requires Tame(n, vs)
    ensures Tame(n, Front(vs, i, m, |vs|)) && Tame(n, Back(vs, i, m, |vs|))
  {
    hide Front, Back, Tame, Piece;
    PieceTame(n, vs, true, i, m);
    PieceTame(n, vs, false, i, m);
    PieceOfSide(true, vs, i, m);
    PieceOfSide(false, vs, i, m);
  }

  lemma PieceTame(n: nat, vs: seq<Vec>, side: bool, i: Axis, m: real)
    requires Tame(n, vs)
    ensures Tame(n, Piece(side, vs, i, m, |vs|))
  {
    hide OneWay, Labelled, Piece;
    PieceOfNothing(vs, side, i, m);
    if Piece(side, vs, i, m, |vs|) != [] {
      PiecesOneWay(vs, side, i, m, 0);
      PiecesOneWay(vs, side, i, m, 1);
      PiecesOneWay(vs, side, i, m, 2);
      var at, ls :| Labelled(n, at, vs, ls);
      var at', ls' := PieceLabelled(n, at, vs, ls, side, i, m);
    }
  }

  /** A single cut adds at most one vertex, so the buffers of 64 are never full. */
  lemma CutFits(vs: seq<Vec>, i: Axis, m: real)
    requires OneWay(vs, i)
    ensures |Front(vs, i, m, |vs|)| <= |vs| + 1 && |Back(vs, i, m, |vs|)| <= |vs| + 1
  {
    hide Front, Back, Exits, Piece;
    if vs == [] {
      PieceOfNothing(vs, true, i, m);
      PieceOfNothing(vs, false, i, m);
    } else {
      PieceLength(true, vs, i, m, |vs|);
      PieceLength(false, vs, i, m, |vs|);
      assert Path(vs)[..|vs| + 1] == Path(vs);
    }
    PieceOfSide(true, vs, i, m);
    PieceOfSide(false, vs, i, m);
  }

  lemma {:induction false} PieceLength(side: bool, vs: seq<Vec>, i: Axis, m: real, k: nat)
    requires vs != [] && k <= |vs|
    ensures |Piece(side, vs, i, m, k)| <= k + Exits(side, Path(vs)[..k + 1], i, m)
  {
    hide Piece, Part, Exits, Dist, ClipPoint;
    if k == 0 {
      PieceNext(side, vs, i, m, 0);
    } else {
      var v, w := Path(vs)[k - 1], Path(vs)[k];
      PieceLength(side, vs, i, m, k - 1);
      PieceNext(side, vs, i, m, k - 1);
      PartIs(side, v, w, i, m);
      assert Path(vs)[..k + 1] == Path(vs)[..k] + [w];
      ExitsNext(side, Path(vs)[..k], w, i, m);
    }
  }

  /** However deep the recursion, it does not fail on what is cut from a polygon of at most 54 vertices. */
  lemma {:induction false} NeverTooMany(n: nat, vs: seq<Vec>, size: real, depth: nat)
    requires size > 0.0 && Tame(n, vs) && n + 6 <= MAX_VERTS
    ensures SubdividedTo(vs, size, depth) != Failed
    decreases depth
  {
    hide Tame, Front, Back, CutLine, WorthCutting;
    TameIsSmall(n, vs);
    var i := CutAxis(vs, size);
    if i < 3 && depth > 0 {
      var m := CutLine(vs, i, size);
      PiecesTame(n, vs, i, m);
      NeverTooMany(n, Front(vs, i, m, |vs|), size, depth - 1);
      NeverTooMany(n, Back(vs, i, m, |vs|), size, depth - 1);
    }
  }

  lemma {:induction false} PiecesAreSmall(n: nat, vs: seq<Vec>, size: real, k: nat)
    requires size > 0.0 && AllSettle(vs, size) && Tame(n, vs)
    requires Subdivided(vs, size).Pieces? && k < |Subdivided(vs, size).polys|
    ensures |Subdivided(vs, size).polys[k]| <= n + 6
    decreases TotalLength(vs)
  {
    hide Tame, Front, Back, CutLine, WorthCutting, Settles, TotalLength;
    var i := CutAxis(vs, size);
    if i == 3 {
      TameIsSmall(n, vs);
    } else {
      var m := CutLine(vs, i, size);
      CutDecreases(vs, i, size);
      PiecesTame(n, vs, i, m);
      var back := |Subdivided(Back(vs, i, m, |vs|), size).polys|;
      if k < back {
        PiecesAreSmall(n, Back(vs, i, m, |vs|), size, k);
      } else {
        PiecesAreSmall(n, Front(vs, i, m, |vs|), size, k - back);
      }
    }
  }

  /** The pieces of a convex polygon have at most six vertices more than it. */
  lemma ConvexPieces(vs: seq<Vec>, size: real, k: nat)
    requires size > 0.0 && AllSettle(vs, size) && IsConvex(vs)
    requires Subdivided(vs, size).Pieces? && k < |Subdivided(vs, size).polys|
    ensures |Subdivided(vs, size).polys[k]| <= |vs| + 6
  {
    hide IsConvex, Tame, AllSettle, Subdivided;
    ConvexIsTame(vs);
    PiecesAreSmall(|vs|, vs, size, k);
  }

  /**
   On a convex polygon of at most 54 vertices the subdivision delivers its pieces exactly if on no axis
   what lies beyond 9999 or -9999 is wide enough to be cut; if it is, it never ends.
   */
  lemma ConvexDeliversIff(vs: seq<Vec>, size: real)
    requires size > 0.0 && IsConvex(vs) && |vs| + 6 <= MAX_VERTS
    ensures (exists depth :: SubdividedTo(vs, size, depth).Done?) <==> AllSettle(vs, size)
    ensures (forall depth :: SubdividedTo(vs, size, depth) == TooDeep) <==> !AllSettle(vs, size)
  {
    hide IsConvex, Tame, AllSettle, SubdividedTo, Subdivided;
    ConvexIsTame(vs);
    forall depth: nat ensures SubdividedTo(vs, size, depth) != Failed { NeverTooMany(|vs|, vs, size, depth); }
    DeliversIff(vs, size);
    if AllSettle(vs, size) {
      var d := SettlingEnds(vs, size);
      assert SubdividedTo(vs, size, d).Done?;
    }
  }
}
