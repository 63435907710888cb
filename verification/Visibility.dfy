/**
 Which parts of the world are visible: leaves are marked from a bit row, each with all nodes above
 it up to the first that is marked already, and the world is then walked through marked nodes only.
 */
module Visibility {
  import opened Basics
  import opened Vectors

  const CONTENTS_SOLID := -2
  const SURF_PLANEBACK := 1
  const BACKFACE_EPSILON := 0.01

  datatype Box = Box(mins: Vec, maxs: Vec)

  /** Nodes and leaves share one head, and pointers may lead to either. */
  datatype Ref = NodeRef(node: nat) | LeafRef(leaf: nat)

  datatype Tree =
    | Leaf(id: nat, contents: int, box: Box)
    | Node(id: nat, box: Box, surfaces: nat, front: Tree, back: Tree)

  function Root(t: Tree): Ref { if t.Leaf? then LeafRef(t.id) else NodeRef(t.id) }

  /** All nodes and leaves of a tree but leaf 0, the solid leaf that stands for all solid areas. */
  ghost function Ids(t: Tree): set<Ref> {
    match t
    case Leaf(id, _, _) => if id == 0 then {} else {LeafRef(id)}
    case Node(id, _, _, a, b) => {NodeRef(id)} + Ids(a) + Ids(b)
  }

  ghost function Leaves(t: Tree): set<nat> {
    match t
    case Leaf(id, _, _) => if id == 0 then {} else {id}
    case Node(_, _, _, a, b) => Leaves(a) + Leaves(b)
  }

  /** No node or leaf occurs twice. */
  ghost predicate DistinctIds(t: Tree) {
    match t
    case Leaf(_, _, _) => true
    case Node(id, _, _, a, b) =>
      DistinctIds(a) && DistinctIds(b) && Ids(a) !! Ids(b) && NodeRef(id) !in Ids(a) + Ids(b)
  }

  /** The leaves below `r`, and how far `r` is below the root. */
  ghost function Under(t: Tree, r: Ref): set<nat> {
    if r == Root(t) then Leaves(t)
    else match t
      case Leaf(_, _, _) => {}
      case Node(_, _, _, a, b) => if r in Ids(a) then Under(a, r) else Under(b, r)
  }

  ghost function Depth(t: Tree, r: Ref): nat {
    if r == Root(t) then 0
    else match t
      case Leaf(_, _, _) => 0
      case Node(_, _, _, a, b) => 1 + if r in Ids(a) then Depth(a, r) else Depth(b, r)
  }

  lemma {:induction false} UnderInside(t: Tree, r: Ref)
    ensures Under(t, r) <= Leaves(t)
  {
    if t.Node? {
      UnderInside(t.front, r);
      UnderInside(t.back, r);
    }
  }

  lemma {:induction false} LeafIds(t: Tree, k: nat)
    ensures k in Leaves(t) <==> LeafRef(k) in Ids(t)
    ensures k == 0 ==> k !in Leaves(t)
  {
    if t.Node? {
      LeafIds(t.front, k);
      LeafIds(t.back, k);
    }
  }

  lemma {:induction false} LeafUnderItself(t: Tree, k: nat)
    requires DistinctIds(t) && k in Leaves(t)
    ensures k in Under(t, LeafRef(k))
  {
    if t.Node? {
      LeafIds(t.front, k);
      LeafIds(t.back, k);
      if k in Leaves(t.front) { LeafUnderItself(t.front, k); } else { LeafUnderItself(t.back, k); }
    }
  }

  lemma {:induction false} LeafIsDeepest(t: Tree, q: Ref, k: nat)
    requires DistinctIds(t) && q in Ids(t) && k in Under(t, q)
    ensures Depth(t, q) <= Depth(t, LeafRef(k))
  {
    if t.Node? && q != Root(t) {
      var u := if q in Ids(t.front) then t.front else t.back;
      LeafIsDeepest(u, q, k);
      UnderInside(u, q);
      LeafIds(t.front, k);
      LeafIds(t.back, k);
    }
  }

  lemma DisjointLeaves(t: Tree, k: nat)
    requires t.Node? && DistinctIds(t) && k in Leaves(t.front)
    ensures k !in Leaves(t.back)
  {
    LeafIds(t.front, k);
    LeafIds(t.back, k);
  }

  /** Two nodes above one leaf are one above the other. */
  lemma {:induction false} Nested(t: Tree, r: Ref, q: Ref, k: nat)
    requires DistinctIds(t) && r in Ids(t) && q in Ids(t) && k in Under(t, r) && k in Under(t, q)
    requires Depth(t, q) <= Depth(t, r)
    ensures Under(t, r) <= Under(t, q)
    ensures Depth(t, q) == Depth(t, r) ==> q == r
  {
    UnderInside(t, r);
    if t.Node? && q != Root(t) {
      var a, b := t.front, t.back;
      if r != Root(t) {
        UnderInside(a, r); UnderInside(b, r); UnderInside(a, q); UnderInside(b, q);
        if k in Leaves(a) { DisjointLeaves(t, k); }
        if r in Ids(a) { Nested(a, r, q, k); } else { Nested(b, r, q, k); }
      }
    }
  }

  // ----- Parents ------------------------------------------------------------------------------------

  type Parents = map<Ref, Option<Ref>>

  function Up(parent: Parents, r: Ref): Option<Ref> { if r in parent then parent[r] else None }

  ghost predicate Linked(t: Tree, up: Option<Ref>, parent: Parents) {
    && (Root(t) != LeafRef(0) ==> Up(parent, Root(t)) == up)
    && (t.Node? ==> Linked(t.front, Some(Root(t)), parent) && Linked(t.back, Some(Root(t)), parent))
  }

  lemma {:induction false} LinkedAgree(t: Tree, up: Option<Ref>, p: Parents, q: Parents)
    requires Linked(t, up, p) && forall r :: r in Ids(t) ==> Up(q, r) == Up(p, r)
    ensures Linked(t, up, q)
  {
    if t.Node? {
      LeafIds(t.front, 0);
      LinkedAgree(t.front, Some(Root(t)), p, q);
      LinkedAgree(t.back, Some(Root(t)), p, q);
    }
  }

  /** A parent link leads one step up, to a node that holds at least the same leaves. */
  lemma {:induction false} ParentIsAbove(t: Tree, up: Option<Ref>, parent: Parents, r: Ref)
    requires DistinctIds(t) && Linked(t, up, parent) && r in Ids(t)
    ensures r == Root(t) ==> Up(parent, r) == up
    ensures r != Root(t) ==>
      && Up(parent, r).Some?
      && var p := Up(parent, r).value;
        p in Ids(t) && Depth(t, r) == Depth(t, p) + 1 && Under(t, r) <= Under(t, p)
  {
    if t.Node? && r != Root(t) {
      var u := if r in Ids(t.front) then t.front else t.back;
      ParentIsAbove(u, Some(Root(t)), parent, r);
      UnderInside(u, r);
    }
  }

  /** A walk up that is now at `node` has left `q` behind. */
  ghost predicate Passed(t: Tree, node: Option<Ref>, q: Ref) { node.None? || Depth(t, q) > Depth(t, node.value) }

  lemma AllAbove(t: Tree, r: Ref, k: nat)
    requires DistinctIds(t) && r in Ids(t) && k in Under(t, r)
    ensures forall q :: q in Ids(t) && k in Under(t, q) && !Passed(t, Some(r), q) ==> Under(t, r) <= Under(t, q)
  {
    forall q | q in Ids(t) && k in Under(t, q) && !Passed(t, Some(r), q) ensures Under(t, r) <= Under(t, q) {
      Nested(t, r, q, k);
    }
  }

  lemma OneMore(t: Tree, r: Ref, up: Option<Ref>, k: nat)
    requires DistinctIds(t) && r in Ids(t) && k in Under(t, r)
    requires if r == Root(t) then up == None else up.Some? && Depth(t, r) == Depth(t, up.value) + 1
    ensures forall q :: q in Ids(t) && k in Under(t, q) ==> (Passed(t, up, q) <==> Passed(t, Some(r), q) || q == r)
  {
    forall q | q in Ids(t) && k in Under(t, q) ensures Passed(t, up, q) <==> Passed(t, Some(r), q) || q == r {
      if Depth(t, q) <= Depth(t, r) { Nested(t, r, q, k); }
    }
  }

  // ----- Rows of bits -------------------------------------------------------------------------------

  predicate Bit(row: seq<bv8>, i: nat)
    requires i / 8 < |row|
  {
    row[i / 8] & (1 << (i % 8)) != 0
  }

  function RowLength(n: nat): nat { (n + 7) / 8 }

  /** As many bytes as hold one bit for each of `n` leaves, and no more. */
  lemma RowLengthIs(n: nat)
    ensures 8 * (RowLength(n) - 1) < n <= 8 * RowLength(n)
  {
  }

  const MASKS: seq<bv8> := [1, 2, 4, 8, 16, 32, 64, 128]

  /** Bits are counted from the lowest of the first byte. */
  lemma BitIs(row: seq<bv8>, j: nat, b: nat)
    requires j < |row| && b < 8
    ensures (8 * j + b) / 8 == j
    ensures Bit(row, 8 * j + b) <==> row[j] & MASKS[b] != 0
  {
    assert (8 * j + b) % 8 == b;
    match b case 0 => case 1 => case 2 => case 3 => case 4 => case 5 => case 6 => case _ =>
  }

  lemma BitInside(n: nat, i: nat)
    requires i < n
    ensures i / 8 < RowLength(n)
  {
  }

  /** The leaves a row of bits shows: bit i stands for leaf i + 1. */
  ghost function Shows(row: seq<bv8>, n: nat): set<nat>
    requires RowLength(n) <= |row|
  {
    set k: nat | 0 < k <= n && ShowsLeaf(row, n, k)
  }

  predicate ShowsLeaf(row: seq<bv8>, n: nat, k: nat)
    requires RowLength(n) <= |row| && 0 < k <= n
  {
    BitInside(n, k - 1); Bit(row, k - 1)
  }

  lemma BitOfOr(a: bv8, b: bv8, m: bv8)
    ensures (a | b) & m != 0 <==> a & m != 0 || b & m != 0
  {
  }

  /** Merge two rows: the result shows what either shows. */
  method MergeRows(a: seq<bv8>, b: seq<bv8>, n: nat) returns (row: seq<bv8>)
    requires RowLength(n) <= |a| && RowLength(n) <= |b|
    ensures RowLength(n) <= |row| && Shows(row, n) == Shows(a, n) + Shows(b, n)
  {
    var count := RowLength(n);
    row := a[..count];
    for i := 0 to count
      invariant |row| == count
      invariant forall j :: 0 <= j < i ==> row[j] == a[j] | b[j]
      invariant forall j :: i <= j < count ==> row[j] == a[j]
    {
      row := row[i := row[i] | b[i]];
    }
    forall k: nat | 0 < k <= n ensures ShowsLeaf(row, n, k) <==> ShowsLeaf(a, n, k) || ShowsLeaf(b, n, k) {
      BitInside(n, k - 1);
      BitOfOr(a[(k - 1) / 8], b[(k - 1) / 8], 1 << ((k - 1) % 8));
    }
  }

  lemma AllBits(i: nat)
    requires i < 8
    ensures (0xff as bv8) & ((1 as bv8) << i) != 0
  {
    match i case 0 => case 1 => case 2 => case 3 => case 4 => case 5 => case 6 => case _ =>
  }

  function FullRow(n: nat): seq<bv8> { seq(RowLength(n), _ => 0xff) }

  lemma FullRowShowsAll(n: nat)
    ensures forall k :: k in Shows(FullRow(n), n) <==> 0 < k <= n
  {
    forall k: nat | 0 < k <= n ensures ShowsLeaf(FullRow(n), n, k) {
      BitInside(n, k - 1);
      AllBits((k - 1) % 8);
    }
  }

  // ----- The view frustum ---------------------------------------------------------------------------

  function FarTerm(n: real, lo: real, hi: real): real { if n < 0.0 then n * lo else n * hi }

  function NearTerm(n: real, lo: real, hi: real): real { if n < 0.0 then n * hi else n * lo }

  /** Along the plane's normal, the last and the first corner of a box. */
  function Far(b: Box, p: Plane): real {
    FarTerm(p.normal.x, b.mins.x, b.maxs.x) + FarTerm(p.normal.y, b.mins.y, b.maxs.y)
      + FarTerm(p.normal.z, b.mins.z, b.maxs.z)
  }

  function Near(b: Box, p: Plane): real {
    NearTerm(p.normal.x, b.mins.x, b.maxs.x) + NearTerm(p.normal.y, b.mins.y, b.maxs.y)
      + NearTerm(p.normal.z, b.mins.z, b.maxs.z)
  }

  /** 1 in front of the plane, 2 behind it, 3 on both sides. */
  function BoxOnPlaneSide(b: Box, p: Plane): nat {
    (if Far(b, p) >= p.dist then 1 else 0) + (if Near(b, p) < p.dist then 2 else 0)
  }

  ghost predicate Inside(a: Box, b: Box) {
    && b.mins.x <= a.mins.x <= a.maxs.x <= b.maxs.x
    && b.mins.y <= a.mins.y <= a.maxs.y <= b.maxs.y
    && b.mins.z <= a.mins.z <= a.maxs.z <= b.maxs.z
  }

  lemma TermInside(n: real, lo: real, hi: real, lo': real, hi': real)
    requires lo' <= lo <= hi <= hi'
    ensures NearTerm(n, lo', hi') <= NearTerm(n, lo, hi) <= FarTerm(n, lo, hi) <= FarTerm(n, lo', hi')
  {
  }

  lemma InsideBetween(a: Box, b: Box, p: Plane)
    requires Inside(a, b)
    ensures Near(b, p) <= Near(a, p) <= Far(a, p) <= Far(b, p)
  {
    TermInside(p.normal.x, a.mins.x, a.maxs.x, b.mins.x, b.maxs.x);
    TermInside(p.normal.y, a.mins.y, a.maxs.y, b.mins.y, b.maxs.y);
    TermInside(p.normal.z, a.mins.z, a.maxs.z, b.mins.z, b.maxs.z);
  }

  ghost predicate Holds(b: Box, v: Vec) {
    b.mins.x <= v.x <= b.maxs.x && b.mins.y <= v.y <= b.maxs.y && b.mins.z <= v.z <= b.maxs.z
  }

  /** The corner a plane's normal points to, and the opposite one. */
  ghost function Corner(b: Box, n: Vec, far: bool): Vec {
    Vec(if (n.x < 0.0) == far then b.mins.x else b.maxs.x, if (n.y < 0.0) == far then b.mins.y else b.maxs.y,
        if (n.z < 0.0) == far then b.mins.z else b.maxs.z)
  }

  lemma CornersAre(b: Box, p: Plane)
    ensures Dot(p.normal, Corner(b, p.normal, true)) == Far(b, p)
    ensures Dot(p.normal, Corner(b, p.normal, false)) == Near(b, p)
  {
  }

  lemma PointBetween(b: Box, p: Plane, v: Vec)
    requires Holds(b, v)
    ensures Near(b, p) <= Dot(p.normal, v) <= Far(b, p)
  {
    hide NearTerm, FarTerm;
    TermBetween(p.normal.x, b.mins.x, v.x, b.maxs.x);
    TermBetween(p.normal.y, b.mins.y, v.y, b.maxs.y);
    TermBetween(p.normal.z, b.mins.z, v.z, b.maxs.z);
  }

  lemma TermBetween(n: real, lo: real, x: real, hi: real)
    requires lo <= x <= hi
    ensures NearTerm(n, lo, hi) <= n * x <= FarTerm(n, lo, hi)
  {
    TermInside(n, x, x, lo, hi);
  }

  /** A box is in front of a plane if all its points are, behind it if all are behind, and else on both sides. */
  lemma BoxSideIs(b: Box, p: Plane)
    requires exists v :: Holds(b, v)
    ensures BoxOnPlaneSide(b, p) == 1 <==> forall v :: Holds(b, v) ==> Dot(p.normal, v) >= p.dist
    ensures BoxOnPlaneSide(b, p) == 2 <==> forall v :: Holds(b, v) ==> Dot(p.normal, v) < p.dist
    ensures BoxOnPlaneSide(b, p) in {1, 2, 3}
  {
    hide Far, Near;
    var far, near := Corner(b, p.normal, true), Corner(b, p.normal, false);
    CornersAre(b, p);
    assert Holds(b, far) && Holds(b, near);
    forall v | Holds(b, v) ensures Near(b, p) <= Dot(p.normal, v) <= Far(b, p) { PointBetween(b, p, v); }
  }

  predicate Solid(t: Tree) { t.Leaf? && t.contents == CONTENTS_SOLID }

  /** Boxes lie inside the boxes above them, and leaf 0 is solid. */
  ghost predicate WellBoxed(t: Tree) {
    match t
    case Leaf(id, contents, _) => id == 0 ==> contents == CONTENTS_SOLID
    case Node(_, box, _, a, b) =>
      && WellBoxed(a) && WellBoxed(b)
      && (Solid(a) || Inside(a.box, box)) && (Solid(b) || Inside(b.box, box))
  }

  /** No leaf of the tree is entirely behind the plane. */
  ghost predicate NoneBehind(t: Tree, p: Plane) {
    match t
    case Leaf(_, _, box) => Solid(t) || BoxOnPlaneSide(box, p) != 2
    case Node(_, _, _, a, b) => NoneBehind(a, p) && NoneBehind(b, p)
  }

  lemma {:induction false} FrontStaysFront(t: Tree, p: Plane)
    requires WellBoxed(t) && Near(t.box, p) >= p.dist
    ensures NoneBehind(t, p)
  {
    if t.Node? {
      if !Solid(t.front) { InsideBetween(t.front.box, t.box, p); FrontStaysFront(t.front, p); }
      if !Solid(t.back) { InsideBetween(t.back.box, t.box, p); FrontStaysFront(t.back, p); }
    }
  }

  // ----- The walk -----------------------------------------------------------------------------------

  type Frustum = s: seq<Plane> | |s| == 4 witness seq(4, _ => Plane(Vec(0.0, 0.0, 0.0), 0.0))

  ghost predicate InFrustum(b: Box, f: Frustum) {
    forall c :: 0 <= c < 4 ==> BoxOnPlaneSide(b, f[c]) != 2
  }

  ghost predicate Visible(t: Tree, f: Frustum) { !Solid(t) && InFrustum(t.box, f) }

  /** What is to be drawn, near side first: shown leaves not entirely outside the frustum. */
  ghost function Drawn(t: Tree, shown: set<nat>, f: Frustum, dot: nat -> real): seq<nat> {
    match t
    case Leaf(id, _, _) => if Visible(t, f) && id in shown then [id] else []
    case Node(id, _, _, a, b) =>
      if dot(id) >= 0.0 then Drawn(a, shown, f, dot) + Drawn(b, shown, f, dot)
      else Drawn(b, shown, f, dot) + Drawn(a, shown, f, dot)
  }

  lemma {:induction false} NothingShown(t: Tree, shown: set<nat>, f: Frustum, dot: nat -> real)
    requires WellBoxed(t) && Leaves(t) !! shown
    ensures Drawn(t, shown, f, dot) == []
  {
    if t.Node? {
      NothingShown(t.front, shown, f, dot);
      NothingShown(t.back, shown, f, dot);
    }
  }

  lemma {:induction false} BehindStaysBehind(t: Tree, shown: set<nat>, f: Frustum, dot: nat -> real, c: nat)
    requires WellBoxed(t) && c < 4 && (Solid(t) || BoxOnPlaneSide(t.box, f[c]) == 2)
    ensures Drawn(t, shown, f, dot) == []
  {
    if t.Node? {
      if !Solid(t.front) { InsideBetween(t.front.box, t.box, f[c]); }
      if !Solid(t.back) { InsideBetween(t.back.box, t.box, f[c]); }
      BehindStaysBehind(t.front, shown, f, dot, c);
      BehindStaysBehind(t.back, shown, f, dot, c);
    }
  }

  ghost predicate HasLeaf(t: Tree, leaf: Tree) {
    t == leaf || (t.Node? && (HasLeaf(t.front, leaf) || HasLeaf(t.back, leaf)))
  }

  lemma {:induction false} HasLeafMeansIn(t: Tree, leaf: Tree)
    requires leaf.Leaf? && leaf.id != 0 && HasLeaf(t, leaf)
    ensures leaf.id in Leaves(t)
  {
    if t.Node? {
      if HasLeaf(t.front, leaf) { HasLeafMeansIn(t.front, leaf); } else { HasLeafMeansIn(t.back, leaf); }
    }
  }

  lemma {:induction false} DrawnInside(t: Tree, shown: set<nat>, f: Frustum, dot: nat -> real, k: nat)
    requires WellBoxed(t) && k in Drawn(t, shown, f, dot)
    ensures k in Leaves(t)
  {
    if t.Node? {
      if k in Drawn(t.front, shown, f, dot) { DrawnInside(t.front, shown, f, dot, k); }
      else { DrawnInside(t.back, shown, f, dot, k); }
    }
  }

  /** A leaf is drawn exactly if it is not solid, shown, and not entirely outside the frustum. */
  lemma {:induction false} DrawnIff(t: Tree, shown: set<nat>, f: Frustum, dot: nat -> real, leaf: Tree)
    requires DistinctIds(t) && WellBoxed(t) && leaf.Leaf? && leaf.id != 0 && HasLeaf(t, leaf)
    ensures leaf.id in Drawn(t, shown, f, dot) <==> Visible(leaf, f) && leaf.id in shown
  {
    if t.Node? {
      var (u, w) := if HasLeaf(t.front, leaf) then (t.front, t.back) else (t.back, t.front);
      DrawnIff(u, shown, f, dot, leaf);
      HasLeafMeansIn(u, leaf);
      LeafIds(u, leaf.id);
      LeafIds(w, leaf.id);
      if leaf.id in Drawn(w, shown, f, dot) { DrawnInside(w, shown, f, dot, leaf.id); }
    }
  }

  /** No leaf is drawn twice. */
  lemma {:induction false} DrawnOnce(t: Tree, shown: set<nat>, f: Frustum, dot: nat -> real, i: nat, j: nat)
    requires DistinctIds(t) && WellBoxed(t) && i < j < |Drawn(t, shown, f, dot)|
    ensures Drawn(t, shown, f, dot)[i] != Drawn(t, shown, f, dot)[j]
  {
    if t.Node? {
      var u, w := if dot(t.id) >= 0.0 then t.front else t.back, if dot(t.id) >= 0.0 then t.back else t.front;
      var a, b := Drawn(u, shown, f, dot), Drawn(w, shown, f, dot);
      if j < |a| {
        DrawnOnce(u, shown, f, dot, i, j);
      } else if i >= |a| {
        DrawnOnce(w, shown, f, dot, i - |a|, j - |a|);
      } else {
        DrawnInside(u, shown, f, dot, a[i]);
        DrawnInside(w, shown, f, dot, b[j - |a|]);
        LeafIds(u, a[i]);
        LeafIds(w, a[i]);
      }
    }
  }

  /** Some node of the tree has leaf `x` on the side the viewer is on, and leaf `y` on the other. */
  ghost predicate NearerThan(t: Tree, x: nat, y: nat, dot: nat -> real) {
    t.Node? &&
    (|| (dot(t.id) >= 0.0 && x in Leaves(t.front) && y in Leaves(t.back))
     || (dot(t.id) < 0.0 && x in Leaves(t.back) && y in Leaves(t.front))
     || NearerThan(t.front, x, y, dot) || NearerThan(t.back, x, y, dot))
  }

  /** What is drawn first is nearer: no wall drawn later can hide it. */
  lemma {:induction false} NearestFirst(t: Tree, shown: set<nat>, f: Frustum, dot: nat -> real, i: nat, j: nat)
    requires WellBoxed(t) && i < j < |Drawn(t, shown, f, dot)|
    ensures NearerThan(t, Drawn(t, shown, f, dot)[i], Drawn(t, shown, f, dot)[j], dot)
  {
    if t.Node? {
      var u, w := if dot(t.id) >= 0.0 then t.front else t.back, if dot(t.id) >= 0.0 then t.back else t.front;
      var a, b := Drawn(u, shown, f, dot), Drawn(w, shown, f, dot);
      if j < |a| {
        NearestFirst(u, shown, f, dot, i, j);
      } else if i >= |a| {
        NearestFirst(w, shown, f, dot, i - |a|, j - |a|);
      } else {
        DrawnInside(u, shown, f, dot, a[i]);
        DrawnInside(w, shown, f, dot, b[j - |a|]);
      }
    }
  }

  // ----- The program --------------------------------------------------------------------------------

  class World {
    const root: Tree
    const numLeafs: nat
    const pvs: nat -> seq<bv8>
    var parent: Parents
    var visframe: map<Ref, int>
    var visframecount: int
    var viewLeaf: Option<nat>
    var viewLeaf2: Option<nat>
    var oldViewLeaf: Option<nat>
    var oldViewLeaf2: Option<nat>
    ghost var shown: set<nat>

    constructor (root: Tree, numLeafs: nat, pvs: nat -> seq<bv8>)
      ensures this.root == root && this.numLeafs == numLeafs && this.pvs == pvs
      ensures parent == map[] && visframe == map[] && visframecount == 0 && viewLeaf == None
    {
      this.root, this.numLeafs, this.pvs := root, numLeafs, pvs;
      parent, visframe, visframecount, shown := map[], map[], 0, {};
      viewLeaf, viewLeaf2, oldViewLeaf, oldViewLeaf2 := None, None, None, None;
    }

    /** Set the parent links of a tree. */
    method SetParent(t: Tree, up: Option<Ref>)
      requires DistinctIds(t)
      modifies `parent
      ensures Linked(t, up, parent)
      ensures forall r :: r !in Ids(t) && r != LeafRef(0) ==> Up(parent, r) == old(Up(parent, r))
      decreases t
    {
      parent := parent[Root(t) := up];
      if t.Leaf? { return; }
      SetParent(t.front, Some(Root(t)));
      ghost var p := parent;
      SetParent(t.back, Some(Root(t)));
      LeafIds(t.front, 0);
      LinkedAgree(t.front, Some(Root(t)), p, parent);
    }

    /** Link the nodes of a freshly read world. */
    method LoadNodes()
      requires DistinctIds(root) && WellBoxed(root) && forall l :: RowLength(numLeafs) <= |pvs(l)|
      requires parent == map[] && visframe == map[] && visframecount >= 0
      modifies `parent
      ensures Valid()
    {
      SetParent(root, None);
    }

    function Frame(r: Ref): int
      reads `visframe
    {
      if r in visframe then visframe[r] else 0
    }

    /** A node or leaf carries the current number exactly if a shown leaf is in it. */
    ghost predicate Marked(t: Tree, leaves: set<nat>)
      reads `visframe, `visframecount
    {
      forall r :: r in Ids(t) ==> (Frame(r) == visframecount <==> Under(t, r) * leaves != {})
    }

    /** The world is loaded, and no mark is from the future. */
    ghost predicate Valid()
      reads this
    {
      && DistinctIds(root) && WellBoxed(root) && Linked(root, None, parent)
      && (forall r :: r !in Ids(root) && r != LeafRef(0) ==> Up(parent, r) == None)
      && (forall l :: RowLength(numLeafs) <= |pvs(l)|)
      && visframecount >= 0 && (forall r :: r in visframe ==> visframe[r] <= visframecount)
    }

    /** Leaf `k` can be seen from leaf `l`: from leaf 0, outside the world, everything can. */
    ghost predicate CanSee(l: nat, k: nat)
      requires Valid()
      reads this
    {
      0 < k <= numLeafs && (l == 0 || (BitInside(numLeafs, k - 1); Bit(pvs(l), k - 1)))
    }

    function LeafPVS(l: nat): seq<bv8> { if l == 0 then FullRow(numLeafs) else pvs(l) }

    /** The leaves that can be seen from the view leaf, or from either of two. */
    ghost function Seen(l: nat, l2: Option<nat>): set<nat>
      requires Valid()
      reads this
    {
      set k: nat | k <= numLeafs && (CanSee(l, k) || (l2.Some? && CanSee(l2.value, k)))
    }

    lemma RowsShowSeen(l: nat, l2: Option<nat>)
      requires Valid()
      ensures Seen(l, l2) == Shows(LeafPVS(l), numLeafs) + if l2.Some? then Shows(LeafPVS(l2.value), numLeafs) else {}
    {
      FullRowShowsAll(numLeafs);
    }

    static lemma MeetsMore(u: set<nat>, leaves: set<nat>, k: nat)
      ensures u * (leaves + {k}) != {} <==> u * leaves != {} || k in u
    {
      assert u * (leaves + {k}) == u * leaves + if k in u then {k} else {};
    }

    /** Mark a leaf and the nodes above it, stopping at the first that is marked. */
    method MarkUp(k: nat, ghost leaves: set<nat>)
      requires Valid() && k != 0 && Marked(root, leaves)
      modifies `visframe
      ensures Valid() && Marked(root, leaves + {k})
    {
      var node := Some(LeafRef(k));
      LeafIds(root, k);
      if k in Leaves(root) { LeafUnderItself(root, k); }
      forall q | q in Ids(root) ensures k in Under(root, q) ==> k in Leaves(root) && !Passed(root, node, q) {
        UnderInside(root, q);
        if k in Under(root, q) { LeafIsDeepest(root, q, k); }
      }
      while node.Some?
        invariant Valid()
        invariant node.Some? ==> (k in Leaves(root) <==> node.value in Ids(root))
        invariant node.Some? && k in Leaves(root) ==> k in Under(root, node.value)
        invariant node.Some? && k !in Leaves(root) ==> node.value == LeafRef(k)
        invariant forall q :: q in Ids(root) ==> (Frame(q) == visframecount <==>
          Under(root, q) * leaves != {} || (k in Under(root, q) && Passed(root, node, q)))
        decreases if node.None? then 0 else if k in Leaves(root) then Depth(root, node.value) + 1 else 1
      {
        var r := node.value;
        if Frame(r) == visframecount {
          if k in Leaves(root) { AllAbove(root, r, k); }
          break;
        }
        visframe := visframe[r := visframecount];
        if k in Leaves(root) { ParentIsAbove(root, None, parent, r); OneMore(root, r, Up(parent, r), k); }
        node := Up(parent, r);
      }
      forall q | q in Ids(root) ensures Frame(q) == visframecount <==> Under(root, q) * (leaves + {k}) != {} {
        MeetsMore(Under(root, q), leaves, k);
      }
    }

    /** A new frame: remember where the view was. */
    method SetupFrame(l: nat, l2: Option<nat>)
      modifies `viewLeaf, `viewLeaf2, `oldViewLeaf, `oldViewLeaf2
      ensures oldViewLeaf == old(viewLeaf) && oldViewLeaf2 == old(viewLeaf2)
      ensures viewLeaf == Some(l) && viewLeaf2 == l2
    {
      oldViewLeaf, oldViewLeaf2 := viewLeaf, viewLeaf2;
      viewLeaf, viewLeaf2 := Some(l), l2;
    }

    /** Mark everything that can be seen, unless the marks of the last frame still do. */
    method MarkLeaves(novis: bool)
      requires Valid() && viewLeaf.Some?
      requires oldViewLeaf.Some? ==> Marked(root, shown) && Seen(oldViewLeaf.value, oldViewLeaf2) <= shown
      modifies `visframe, `visframecount, `oldViewLeaf, `shown
      ensures Valid() && Marked(root, shown) && Seen(viewLeaf.value, viewLeaf2) <= shown
      ensures novis ==> forall k :: k in shown <==> 0 < k <= numLeafs
      ensures !novis ==> shown == if old(oldViewLeaf) == viewLeaf && oldViewLeaf2 == viewLeaf2
        then old(shown) else Seen(viewLeaf.value, viewLeaf2)
    {
      if !novis && oldViewLeaf == viewLeaf && oldViewLeaf2 == viewLeaf2 { return; }
      visframecount := visframecount + 1;
      oldViewLeaf := viewLeaf;
      var vis: seq<bv8>;
      if novis {
        vis := FullRow(numLeafs);
        FullRowShowsAll(numLeafs);
      } else {
        RowsShowSeen(viewLeaf.value, viewLeaf2);
        vis := LeafPVS(viewLeaf.value);
        if viewLeaf2.Some? { vis := MergeRows(vis, LeafPVS(viewLeaf2.value), numLeafs); }
      }
      MarkRow(vis);
    }

    method MarkRow(vis: seq<bv8>)
      requires Valid() && RowLength(numLeafs) <= |vis| && forall r :: r in visframe ==> visframe[r] < visframecount
      requires visframecount > 0
      modifies `visframe, `shown
      ensures Valid() && shown == Shows(vis, numLeafs) && Marked(root, shown)
    {
      shown := {};
      for i := 0 to numLeafs
        invariant Valid() && Marked(root, shown)
        invariant forall k :: k in shown <==> 0 < k <= i && ShowsLeaf(vis, numLeafs, k)
      {
        BitInside(numLeafs, i);
        assert ShowsLeaf(vis, numLeafs, i + 1) <==> Bit(vis, i);
        if Bit(vis, i) {
          MarkUp(i + 1, shown);
          shown := shown + {i + 1};
        }
      }
    }

    /** Test a box against the planes that still matter: is it outside, and which matter below it? */
    method ClipBox(t: Tree, clip: set<nat>, f: Frustum) returns (outside: bool, clip': set<nat>)
      requires WellBoxed(t) && !Solid(t) && forall c :: 0 <= c < 4 && c !in clip ==> NoneBehind(t, f[c])
      ensures outside ==> exists c: nat :: c < 4 && BoxOnPlaneSide(t.box, f[c]) == 2
      ensures !outside ==> forall c :: 0 <= c < 4 && c !in clip' ==> NoneBehind(t, f[c])
      ensures !outside && t.Leaf? ==> InFrustum(t.box, f)
    {
      clip' := clip;
      for c := 0 to 4
        invariant forall d :: c <= d < 4 ==> (d in clip' <==> d in clip)
        invariant forall d :: 0 <= d < 4 && d !in clip' ==> NoneBehind(t, f[d])
        invariant t.Leaf? ==> forall d :: 0 <= d < c ==> BoxOnPlaneSide(t.box, f[d]) != 2
      {
        if c in clip' {
          var clipped := BoxOnPlaneSide(t.box, f[c]);
          if clipped == 2 { return true, clip'; }
          if clipped == 1 {
            clip' := clip' - {c};
            FrontStaysFront(t, f[c]);
          }
        }
      }
      return false, clip';
    }

    lemma RootMarked(t: Tree)
      requires WellBoxed(t) && !Solid(t) && Marked(t, shown)
      ensures Frame(Root(t)) == visframecount ==> Leaves(t) * shown != {}
      ensures Frame(Root(t)) != visframecount ==> Leaves(t) !! shown
    {
      assert Root(t) in Ids(t);
      assert Under(t, Root(t)) == Leaves(t);
      if Leaves(t) * shown == {} {
        forall x ensures !(x in Leaves(t) && x in shown) {
          assert x in Leaves(t) && x in shown ==> x in Leaves(t) * shown;
        }
      }
    }

    lemma LeafDrawn(t: Tree, f: Frustum, dot: nat -> real)
      requires WellBoxed(t) && t.Leaf? && Visible(t, f) && Leaves(t) * shown != {}
      ensures Drawn(t, shown, f, dot) == [t.id]
    {
    }

    lemma MarkedBelow(t: Tree)
      requires t.Node? && DistinctIds(t) && Marked(t, shown)
      ensures Marked(t.front, shown) && Marked(t.back, shown)
    {
      forall r | r in Ids(t.front) ensures Under(t, r) == Under(t.front, r) {}
      forall r | r in Ids(t.back) ensures Under(t, r) == Under(t.back, r) {}
    }

    /**
     Walk the tree through marked nodes, dropping what is outside the frustum and no longer testing
     planes a box is entirely in front of.  What is found is what a walk without shortcuts finds.
     */
    method RecursiveWorldNode(t: Tree, clip: set<nat>, f: Frustum, dot: nat -> real) returns (drawn: seq<nat>)
      requires DistinctIds(t) && WellBoxed(t) && Marked(t, shown)
      requires !Solid(t) ==> forall c :: 0 <= c < 4 && c !in clip ==> NoneBehind(t, f[c])
      ensures drawn == Drawn(t, shown, f, dot)
      decreases t
    {
      hide Marked, Ids, Under, InFrustum;
      if Solid(t) { return []; }
      RootMarked(t);
      if Frame(Root(t)) != visframecount {
        NothingShown(t, shown, f, dot);
        return [];
      }
      var outside, clip' := ClipBox(t, clip, f);
      if outside {
        ghost var c :| 0 <= c < 4 && BoxOnPlaneSide(t.box, f[c]) == 2;
        BehindStaysBehind(t, shown, f, dot, c);
        return [];
      }
      if t.Leaf? {
        LeafDrawn(t, f, dot);
        return [t.id];
      }
      MarkedBelow(t);
      var d := dot(t.id);
      var side := if d >= 0.0 then 0 else 1;
      var near := RecursiveWorldNode(if side == 0 then t.front else t.back, clip', f, dot);
      if t.surfaces != 0 {
        if d < -BACKFACE_EPSILON { side := SURF_PLANEBACK; } else if d > BACKFACE_EPSILON { side := 0; }
      }
      var far := RecursiveWorldNode(if side == 0 then t.back else t.front, clip', f, dot);
      return near + far;
    }

    /** One frame of the world, from any frame that was drawn before. */
    method DrawFrame(l: nat, l2: Option<nat>, novis: bool, f: Frustum, dot: nat -> real) returns (drawn: seq<nat>)
      requires Valid() && (viewLeaf.Some? ==> Marked(root, shown) && Seen(viewLeaf.value, viewLeaf2) <= shown)
      modifies this
      ensures Valid() && viewLeaf == Some(l) && viewLeaf2 == l2
      ensures Marked(root, shown) && Seen(l, l2) <= shown
      ensures drawn == Drawn(root, shown, f, dot)
      ensures forall leaf: Tree :: HasLeaf(root, leaf) && leaf.Leaf? && leaf.id in Seen(l, l2) && Visible(leaf, f) ==>
        leaf.id in drawn
    {
      SetupFrame(l, l2);
      MarkLeaves(novis);
      drawn := RecursiveWorldNode(root, {0, 1, 2, 3}, f, dot);
      forall leaf: Tree | HasLeaf(root, leaf) && leaf.Leaf? && leaf.id in Seen(l, l2) && Visible(leaf, f)
        ensures leaf.id in drawn
      {
        DrawnIff(root, shown, f, dot, leaf);
      }
    }
  }
}
