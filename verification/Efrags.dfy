/**
 Entity fragments: fixed cells, each on exactly one of the free chain and the entity chains,
 and, when it belongs to an entity, also on the chain of the world leaf it lies in.
 */
module Efrags {
  import opened Basics

  const MAX_EFRAGS := 640
  const NULL := -1

  // ----- The world tree -------------------------------------------------------------------------

  datatype Tree = Solid | Leaf(leaf: nat) | Node(id: nat, front: Tree, back: Tree)

  /** Which sides of a node's plane the entity's box touches. */
  datatype Sides = Sides(front: bool, back: bool)

  /** The leaves the box touches, in the order they are visited. */
  function Touched(t: Tree, side: nat -> Sides): seq<nat> {
    match t
    case Solid => []
    case Leaf(l) => [l]
    case Node(id, f, b) =>
      (if side(id).front then Touched(f, side) else []) + (if side(id).back then Touched(b, side) else [])
  }

  /** A way down the tree, true for the front, that takes only sides the box contacts and ends in leaf `l`. */
  ghost predicate Leads(t: Tree, side: nat -> Sides, way: seq<bool>, l: nat)
    decreases |way|
  {
    if way == [] then t == Leaf(l)
    else
      && t.Node?
      && (way[0] ==> side(t.id).front && Leads(t.front, side, way[1..], l))
      && (!way[0] ==> side(t.id).back && Leads(t.back, side, way[1..], l))
  }

  /** Where the ways part, the first goes to the front and the second to the back. */
  ghost predicate Before(a: seq<bool>, b: seq<bool>) {
    exists k :: 0 <= k < |a| && k < |b| && a[..k] == b[..k] && a[k] && !b[k]
  }

  ghost predicate InOrder(ways: seq<seq<bool>>) {
    forall i, j :: 0 <= i < j < |ways| ==> Before(ways[i], ways[j])
  }

  ghost predicate AllLead(t: Tree, side: nat -> Sides, ways: seq<seq<bool>>, ls: seq<nat>) {
    |ways| == |ls| && forall i :: 0 <= i < |ls| ==> Leads(t, side, ways[i], ls[i])
  }

  /** The leaves at the ends of all such ways, one for each way, front before back. */
  ghost predicate ByWays(t: Tree, side: nat -> Sides, ways: seq<seq<bool>>, ls: seq<nat>) {
    AllLead(t, side, ways, ls) && InOrder(ways) && forall way, l :: Leads(t, side, way, l) ==> way in ways
  }

  /** The leaves touched are exactly those some contacted way leads to, in the order of the ways. */
  lemma {:induction false} TouchedByWays(t: Tree, side: nat -> Sides) returns (ways: seq<seq<bool>>)
    ensures ByWays(t, side, ways, Touched(t, side))
    decreases t, 0
  {
    match t
    case Solid =>
      ways := [];
    case Leaf(l) =>
      ways := [[]];
    case Node(id, f, b) =>
      var fs := WaysDown(t, side, true);
      var bs := WaysDown(t, side, false);
      ways := fs + bs;
      BothWaysDown(t, side, fs, TouchedIf(side(id).front, f, side), bs, TouchedIf(side(id).back, b, side));
  }

  ghost predicate AllStart(ways: seq<seq<bool>>, front: bool) {
    forall i :: 0 <= i < |ways| ==> ways[i] != [] && ways[i][0] == front
  }

  /** The same for the ways from a node to one side. */
  ghost predicate HalfWays(t: Tree, side: nat -> Sides, front: bool, ways: seq<seq<bool>>, ls: seq<nat>) {
    && AllLead(t, side, ways, ls) && AllStart(ways, front) && InOrder(ways)
    && forall way, l :: Leads(t, side, way, l) && way != [] && way[0] == front ==> way in ways
  }

  lemma {:induction false} WaysDown(t: Tree, side: nat -> Sides, front: bool) returns (ways: seq<seq<bool>>)
    requires t.Node?
    ensures var contacted := if front then side(t.id).front else side(t.id).back;
      HalfWays(t, side, front, ways, TouchedIf(contacted, if front then t.front else t.back, side))
    decreases t, 0, 0
  {
    ways := [];
    var child := if front then t.front else t.back;
    if if front then side(t.id).front else side(t.id).back {
      var below := TouchedByWays(child, side);
      ways := seq(|below|, i requires 0 <= i < |below| => [front] + below[i]);
      OneStepMore(t, side, front, below, ways, Touched(child, side));
    }
  }

  lemma OneStepMore(t: Tree, side: nat -> Sides, front: bool, below: seq<seq<bool>>, ways: seq<seq<bool>>, ls: seq<nat>)
    requires t.Node? && (front ==> side(t.id).front) && (!front ==> side(t.id).back)
    requires ByWays(if front then t.front else t.back, side, below, ls)
    requires |ways| == |below| && forall i :: 0 <= i < |ways| ==> ways[i] == [front] + below[i]
    ensures HalfWays(t, side, front, ways, ls)
  {
    hide Before, Leads;
    var child := if front then t.front else t.back;
    forall i | 0 <= i < |ls| ensures Leads(t, side, ways[i], ls[i]) { LeadsDown(t, side, front, below[i], ls[i]); }
    forall i, j | 0 <= i < j < |ways| ensures Before(ways[i], ways[j]) { LaterParting(front, below[i], below[j]); }
    forall way, l | Leads(t, side, way, l) && way != [] && way[0] == front ensures way in ways {
      assert way == [front] + way[1..];
      LeadsDown(t, side, front, way[1..], l);
      var k :| 0 <= k < |below| && below[k] == way[1..];
      assert ways[k] == way;
    }
  }

  lemma LeadsDown(t: Tree, side: nat -> Sides, front: bool, way: seq<bool>, l: nat)
    requires t.Node? && (front ==> side(t.id).front) && (!front ==> side(t.id).back)
    ensures Leads(t, side, [front] + way, l) <==> Leads(if front then t.front else t.back, side, way, l)
  {
    assert ([front] + way)[1..] == way;
  }

  lemma BothWaysDown(t: Tree, side: nat -> Sides, fs: seq<seq<bool>>, fl: seq<nat>, bs: seq<seq<bool>>, bl: seq<nat>)
    requires t.Node? && HalfWays(t, side, true, fs, fl) && HalfWays(t, side, false, bs, bl)
    ensures ByWays(t, side, fs + bs, fl + bl)
  {
    hide Leads, InOrder, AllStart;
    BothInOrder(fs, bs);
    forall way, l | Leads(t, side, way, l) ensures way in fs + bs {
      NodeIsNoLeaf(t, side, way, l);
      assert way[0] == true || way[0] == false;
    }
  }

  lemma BothInOrder(fs: seq<seq<bool>>, bs: seq<seq<bool>>)
    requires InOrder(fs) && InOrder(bs) && AllStart(fs, true) && AllStart(bs, false)
    ensures InOrder(fs + bs)
  {
    hide Before;
    var ways := fs + bs;
    forall i, j | 0 <= i < j < |ways| ensures Before(ways[i], ways[j]) {
      if i < |fs| <= j { PartAtOnce(ways[i], ways[j]); }
    }
  }

  lemma NodeIsNoLeaf(t: Tree, side: nat -> Sides, way: seq<bool>, l: nat)
    requires t.Node? && Leads(t, side, way, l)
    ensures way != []
  {
  }

  lemma PartAtOnce(a: seq<bool>, b: seq<bool>)
    requires a != [] && b != [] && a[0] && !b[0]
    ensures Before(a, b)
  {
    assert a[..0] == b[..0];
  }

  lemma LaterParting(front: bool, a: seq<bool>, b: seq<bool>)
    requires Before(a, b)
    ensures Before([front] + a, [front] + b)
  {
    var k :| 0 <= k < |a| && k < |b| && a[..k] == b[..k] && a[k] && !b[k];
    assert ([front] + a)[..k + 1] == [front] + a[..k] && ([front] + b)[..k + 1] == [front] + b[..k];
  }

  function TouchedIf(contacted: bool, t: Tree, side: nat -> Sides): seq<nat> {
    if contacted then Touched(t, side) else []
  }

  /** The first node whose plane the box crosses, or the leaf it lies in. */
  function TopNode(t: Tree, side: nat -> Sides): Option<Tree> {
    match t
    case Solid => None
    case Leaf(_) => Some(t)
    case Node(id, f, b) =>
      if side(id) == Sides(true, true) then Some(t)
      else if side(id).front then TopNode(f, side)
      else if side(id).back then TopNode(b, side)
      else None
  }

  /** Everything the box touches lies under the remembered top node. */
  lemma {:induction false} TopNodeHoldsAll(t: Tree, side: nat -> Sides)
    ensures Touched(t, side) == match TopNode(t, side) case None => [] case Some(top) => Touched(top, side)
  {
    if t.Node? {
      TopNodeHoldsAll(t.front, side);
      TopNodeHoldsAll(t.back, side);
    }
  }

  /** A way down to `u` that at every node takes the only side the box contacts. */
  ghost predicate Narrow(t: Tree, side: nat -> Sides, way: seq<bool>, u: Tree)
    decreases |way|
  {
    if way == [] then t == u
    else
      && t.Node? && side(t.id) == Sides(way[0], !way[0])
      && Narrow(if way[0] then t.front else t.back, side, way[1..], u)
  }

  ghost predicate NarrowTo(t: Tree, side: nat -> Sides, u: Tree) { exists way :: Narrow(t, side, way, u) }

  /** A leaf, or a node with both sides contacted. */
  ghost predicate Parts(u: Tree, side: nat -> Sides) { u.Leaf? || (u.Node? && side(u.id) == Sides(true, true)) }

  /** The remembered node is where the ways first part, or the one leaf there is a way to. */
  lemma TopNodeIs(t: Tree, side: nat -> Sides, u: Tree)
    ensures TopNode(t, side) == Some(u) <==> Parts(u, side) && NarrowTo(t, side, u)
  {
    if TopNode(t, side) == Some(u) {
      var way := WayToTop(t, side, u);
    } else if NarrowTo(t, side, u) {
      var way :| Narrow(t, side, way, u);
      if Parts(u, side) { TopAtEnd(t, side, way, u); }
    }
  }

  lemma {:induction false} TopAtEnd(t: Tree, side: nat -> Sides, way: seq<bool>, u: Tree)
    requires Narrow(t, side, way, u) && Parts(u, side)
    ensures TopNode(t, side) == Some(u)
    decreases |way|
  {
    if way != [] { TopAtEnd(if way[0] then t.front else t.back, side, way[1..], u); }
  }

  lemma {:induction false} WayToTop(t: Tree, side: nat -> Sides, u: Tree) returns (way: seq<bool>)
    requires TopNode(t, side) == Some(u)
    ensures Narrow(t, side, way, u) && Parts(u, side)
  {
    way := [];
    if t.Node? && side(t.id) != Sides(true, true) {
      var front := side(t.id).front;
      way := WayToTop(if front then t.front else t.back, side, u);
      assert ([front] + way)[1..] == way;
      way := [front] + way;
    }
  }

  ghost predicate LeavesBelow(t: Tree, n: nat) {
    match t
    case Solid => true
    case Leaf(l) => l < n
    case Node(_, f, b) => LeavesBelow(f, n) && LeavesBelow(b, n)
  }

  // ----- The chains as sequences -----------------------------------------------------------------

  /**
   Who is on which chain.  `owner[f]` is the entity a fragment belongs to, or NULL; `leafOf[f]`
   its leaf.
   */
  datatype State = State(free: seq<nat>, ents: seq<seq<nat>>, leaves: seq<seq<nat>>, owner: seq<int>, leafOf: seq<int>)

  ghost predicate FreeOk(st: State)
    requires |st.owner| == MAX_EFRAGS
  {
    Distinct(st.free) && forall f: nat :: f in st.free <==> f < MAX_EFRAGS && st.owner[f] == NULL
  }

  ghost predicate EntOk(st: State, e: nat)
    requires |st.owner| == MAX_EFRAGS && e < |st.ents|
  {
    Distinct(st.ents[e]) && forall f: nat :: f in st.ents[e] <==> f < MAX_EFRAGS && st.owner[f] == e
  }

  ghost predicate LeafOk(st: State, l: nat)
    requires |st.owner| == |st.leafOf| == MAX_EFRAGS && l < |st.leaves|
  {
    Distinct(st.leaves[l]) && forall f: nat :: f in st.leaves[l] <==>
      f < MAX_EFRAGS && st.owner[f] != NULL && st.leafOf[f] == l
  }

  /**
   Every fragment has one owner or none: it is on the free chain if it has none, on its owner's
   chain otherwise, and on leaf L's chain exactly if it is owned and its leaf is L.
   */
  ghost predicate Consistent(st: State) {
    && |st.owner| == |st.leafOf| == MAX_EFRAGS
    && (forall f :: 0 <= f < MAX_EFRAGS ==> NULL <= st.owner[f] < |st.ents|)
    && (forall f :: 0 <= f < MAX_EFRAGS && st.owner[f] != NULL ==> 0 <= st.leafOf[f] < |st.leaves|)
    && FreeOk(st)
    && (forall e :: 0 <= e < |st.ents| ==> EntOk(st, e))
    && (forall l :: 0 <= l < |st.leaves| ==> LeafOk(st, l))
  }

  /** A fragment for entity `e` in leaf `l`, off the free chain. */
  ghost function AddOne(st: State, e: nat, l: nat): State
    requires st.free != [] && e < |st.ents| && l < |st.leaves|
    requires |st.owner| == |st.leafOf| == MAX_EFRAGS && st.free[0] < MAX_EFRAGS
  {
    var f := st.free[0];
    State(st.free[1..], st.ents[e := st.ents[e] + [f]], st.leaves[l := [f] + st.leaves[l]], st.owner[f := e],
      st.leafOf[f := l])
  }

  ghost function Without(s: seq<nat>, f: nat): (r: seq<nat>)
    ensures forall x :: x in r <==> x in s && x != f
  {
    if s == [] then [] else (if s[0] == f then [] else [s[0]]) + Without(s[1..], f)
  }

  /** Give the first fragment of entity `e` back. */
  ghost function RemoveOne(st: State, e: nat): (nu: State)
    requires Consistent(st) && e < |st.ents| && st.ents[e] != []
    ensures |nu.ents| == |st.ents| && |nu.leaves| == |st.leaves|
  {
    var f := st.ents[e][0];
    assert f in st.ents[e] && EntOk(st, e);
    var l := st.leafOf[f];
    State([f] + st.free, st.ents[e := st.ents[e][1..]], st.leaves[l := Without(st.leaves[l], f)],
      st.owner[f := NULL], st.leafOf)
  }

  lemma {:induction false} WithoutDistinct(s: seq<nat>, f: nat)
    requires Distinct(s)
    ensures Distinct(Without(s, f))
    ensures f !in s ==> Without(s, f) == s
  {
    hide Distinct;
    if s == [] {
      DistinctNone();
    } else {
      DistinctEnds(s);
      WithoutDistinct(s[1..], f);
      WithoutFirst(s, f);
      DistinctCons(s[0], Without(s[1..], f));
    }
  }

  lemma DistinctNone()
    ensures Distinct<nat>([])
  {
  }

  lemma WithoutFirst(s: seq<nat>, f: nat)
    requires s != []
    ensures Without(s, f) == if s[0] == f then Without(s[1..], f) else [s[0]] + Without(s[1..], f)
  {
  }

  lemma DistinctCons(x: nat, s: seq<nat>)
    requires Distinct(s) && x !in s
    ensures Distinct([x] + s)
  {
  }

  lemma DistinctEnds(s: seq<nat>)
    requires Distinct(s) && s != []
    ensures Distinct(s[1..]) && forall x :: x in s <==> x == s[0] || x in s[1..]
    ensures s[0] !in s[1..]
  {
    forall i | 0 <= i < |s[1..]| ensures s[1..][i] == s[i + 1] { }
    assert s == [s[0]] + s[1..];
  }

  lemma AddKeepsConsistent(st: State, e: nat, l: nat)
    requires Consistent(st) && st.free != [] && e < |st.ents| && l < |st.leaves|
    ensures st.free[0] < MAX_EFRAGS && Consistent(AddOne(st, e, l))
  {
    var f := st.free[0];
    assert f in st.free;
    var nu := AddOne(st, e, l);
    DistinctEnds(st.free);
    assert FreeOk(nu);
    forall d | 0 <= d < |nu.ents| ensures EntOk(nu, d) {
      assert EntOk(st, d);
    }
    forall m | 0 <= m < |nu.leaves| ensures LeafOk(nu, m) {
      assert LeafOk(st, m);
    }
  }

  lemma RemoveKeepsConsistent(st: State, e: nat)
    requires Consistent(st) && e < |st.ents| && st.ents[e] != []
    ensures Consistent(RemoveOne(st, e))
  {
    var f := st.ents[e][0];
    var nu := RemoveOne(st, e);
    assert EntOk(st, e) && f in st.ents[e];
    DistinctEnds(st.ents[e]);
    assert FreeOk(nu);
    forall d | 0 <= d < |nu.ents| ensures EntOk(nu, d) {
      assert EntOk(st, d);
    }
    forall m | 0 <= m < |nu.leaves| ensures LeafOk(nu, m) {
      assert LeafOk(st, m);
      WithoutDistinct(st.leaves[m], f);
    }
  }

  // ----- Whole additions and removals --------------------------------------------------------------

  /** One fragment per touched leaf, as long as there are free ones. */
  ghost function AddAll(st: State, e: nat, ls: seq<nat>): State
    requires Consistent(st) && e < |st.ents| && forall i :: 0 <= i < |ls| ==> ls[i] < |st.leaves|
    decreases |ls|
  {
    if ls == [] || st.free == [] then st
    else
      AddKeepsConsistent(st, e, ls[0]);
      AddAll(AddOne(st, e, ls[0]), e, ls[1..])
  }

  /** Give back every fragment of entity `e`, first one first. */
  ghost function RemoveAll(st: State, e: nat): State
    requires Consistent(st) && e < |st.ents|
    decreases |if e < |st.ents| then st.ents[e] else []|
  {
    if st.ents[e] == [] then st
    else
      RemoveKeepsConsistent(st, e);
      RemoveAll(RemoveOne(st, e), e)
  }

  lemma {:induction false} AddAllKeepsConsistent(st: State, e: nat, ls: seq<nat>)
    requires Consistent(st) && e < |st.ents| && forall i :: 0 <= i < |ls| ==> ls[i] < |st.leaves|
    ensures var nu := AddAll(st, e, ls);
      Consistent(nu) && |nu.ents| == |st.ents| && |nu.leaves| == |st.leaves|
    decreases |ls|
  {
    if ls != [] && st.free != [] {
      AddKeepsConsistent(st, e, ls[0]);
      AddAllKeepsConsistent(AddOne(st, e, ls[0]), e, ls[1..]);
    }
  }

  lemma {:induction false} RemoveAllKeepsConsistent(st: State, e: nat)
    requires Consistent(st) && e < |st.ents|
    ensures var nu := RemoveAll(st, e);
      Consistent(nu) && |nu.ents| == |st.ents| && |nu.leaves| == |st.leaves| && nu.ents[e] == []
    decreases |st.ents[e]|
  {
    if st.ents[e] != [] {
      RemoveKeepsConsistent(st, e);
      RemoveAllKeepsConsistent(RemoveOne(st, e), e);
    }
  }

  /** What an addition does: the first fragments of the free chain, in order, to the touched leaves in order. */
  lemma {:induction false} AddAllIs(st: State, e: nat, ls: seq<nat>)
    requires Consistent(st) && e < |st.ents| && forall i :: 0 <= i < |ls| ==> ls[i] < |st.leaves|
    ensures var nu := AddAll(st, e, ls);
      var n := if |ls| <= |st.free| then |ls| else |st.free|;
      && nu.free == st.free[n..] && nu.ents == st.ents[e := st.ents[e] + st.free[..n]]
      && |nu.leafOf| == MAX_EFRAGS
      && (forall i :: 0 <= i < n ==> st.free[i] < MAX_EFRAGS && nu.leafOf[st.free[i]] == ls[i])
    decreases |ls|
  {
    hide Consistent, AddOne, AddAll;
    FreeInRange(st);
    AddAllKeepsConsistent(st, e, ls);
    FreeInRange(AddAll(st, e, ls));
    if ls == [] || st.free == [] {
      AddAllNothing(st, e, ls);
      assert st.free[..0] == [];
      assert st.ents[e] + [] == st.ents[e];
    } else {
      AddKeepsConsistent(st, e, ls[0]);
      AddOneIs(st, e, ls[0]);
      var mid := AddOne(st, e, ls[0]);
      AddAllIs(mid, e, ls[1..]);
      AddAllLeavesTaken(mid, e, ls[1..], st.free[0]);
      AddAllStep(st, e, ls);
      var n := if |ls| <= |st.free| then |ls| else |st.free|;
      assert st.free[..n] == [st.free[0]] + mid.free[..n - 1];
      assert (st.ents[e] + [st.free[0]]) + mid.free[..n - 1] == st.ents[e] + st.free[..n];
      assert st.ents[e := st.ents[e] + [st.free[0]]][e := st.ents[e] + st.free[..n]] ==
        st.ents[e := st.ents[e] + st.free[..n]];
      forall i | 0 <= i < n ensures AddAll(st, e, ls).leafOf[st.free[i]] == ls[i] {
        if i > 0 { assert mid.free[i - 1] == st.free[i]; }
      }
    }
  }

  lemma AddAllNothing(st: State, e: nat, ls: seq<nat>)
    requires Consistent(st) && e < |st.ents| && (forall i :: 0 <= i < |ls| ==> ls[i] < |st.leaves|)
      && (ls == [] || st.free == [])
    ensures AddAll(st, e, ls) == st
  {
  }

  lemma AddAllStep(st: State, e: nat, ls: seq<nat>)
    requires Consistent(st) && e < |st.ents| && (forall i :: 0 <= i < |ls| ==> ls[i] < |st.leaves|) && ls != []
    requires st.free != []
    ensures |st.owner| == |st.leafOf| == MAX_EFRAGS && st.free[0] < MAX_EFRAGS && Consistent(AddOne(st, e, ls[0]))
    ensures |AddOne(st, e, ls[0]).ents| == |st.ents| && |AddOne(st, e, ls[0]).leaves| == |st.leaves|
    ensures AddAll(st, e, ls) == AddAll(AddOne(st, e, ls[0]), e, ls[1..])
  {
    AddKeepsConsistent(st, e, ls[0]);
    AddOneIs(st, e, ls[0]);
  }

  lemma FreeInRange(st: State)
    requires Consistent(st)
    ensures |st.leafOf| == |st.owner| == MAX_EFRAGS && forall i :: 0 <= i < |st.free| ==> st.free[i] < MAX_EFRAGS
  {
    forall i | 0 <= i < |st.free| ensures st.free[i] < MAX_EFRAGS { assert st.free[i] in st.free; }
  }

  lemma AddOneIs(st: State, e: nat, l: nat)
    requires Consistent(st) && e < |st.ents| && l < |st.leaves| && st.free != []
    ensures |st.owner| == |st.leafOf| == MAX_EFRAGS && st.free[0] < MAX_EFRAGS
    ensures var mid, f := AddOne(st, e, l), st.free[0];
      && mid.free == st.free[1..] && mid.ents == st.ents[e := st.ents[e] + [f]] && |mid.leaves| == |st.leaves|
      && f < MAX_EFRAGS == |mid.leafOf| == |mid.owner| && mid.leafOf[f] == l && mid.owner[f] != NULL
  {
    assert st.free[0] in st.free;
  }

  /** An addition does not move fragments that were taken before. */
  lemma {:induction false} AddAllLeavesTaken(st: State, e: nat, ls: seq<nat>, f: nat)
    requires Consistent(st) && e < |st.ents| && forall i :: 0 <= i < |ls| ==> ls[i] < |st.leaves|
    requires f < MAX_EFRAGS && st.owner[f] != NULL
    ensures var nu := AddAll(st, e, ls);
      |nu.leafOf| == |nu.owner| == MAX_EFRAGS && nu.leafOf[f] == st.leafOf[f] && nu.owner[f] == st.owner[f]
    decreases |ls|
  {
    AddAllKeepsConsistent(st, e, ls);
    if ls != [] && st.free != [] {
      AddKeepsConsistent(st, e, ls[0]);
      assert st.free[0] in st.free;
      AddAllLeavesTaken(AddOne(st, e, ls[0]), e, ls[1..], f);
    }
  }

  // ----- Adding and removing is no change -------------------------------------------------------

  ghost function WithoutAll(s: seq<nat>, fs: seq<nat>): seq<nat>
    decreases |fs|
  {
    if fs == [] then s else WithoutAll(Without(s, fs[0]), fs[1..])
  }

  lemma {:induction false} WithoutConcat(a: seq<nat>, b: seq<nat>, f: nat)
    ensures Without(a + b, f) == Without(a, f) + Without(b, f)
  {
    if a == [] {
      assert a + b == b;
    } else {
      assert (a + b)[1..] == a[1..] + b;
      WithoutConcat(a[1..], b, f);
    }
  }

  lemma {:induction false} WithoutAllConcat(a: seq<nat>, b: seq<nat>, fs: seq<nat>)
    ensures WithoutAll(a + b, fs) == WithoutAll(a, fs) + WithoutAll(b, fs)
    decreases |fs|
  {
    if fs != [] {
      WithoutConcat(a, b, fs[0]);
      WithoutAllConcat(Without(a, fs[0]), Without(b, fs[0]), fs[1..]);
    }
  }

  lemma {:induction false} WithoutAllElements(s: seq<nat>, fs: seq<nat>, x: nat)
    ensures x in WithoutAll(s, fs) <==> x in s && x !in fs
    decreases |fs|
  {
    if fs != [] { WithoutAllElements(Without(s, fs[0]), fs[1..], x); }
  }

  lemma {:induction false} WithoutNone(s: seq<nat>, f: nat)
    requires f !in s
    ensures Without(s, f) == s
  {
    if s != [] { WithoutNone(s[1..], f); }
  }

  lemma {:induction false} WithoutAllNone(s: seq<nat>, fs: seq<nat>)
    requires forall x :: x in s ==> x !in fs
    ensures WithoutAll(s, fs) == s
  {
    if fs != [] {
      WithoutNone(s, fs[0]);
      WithoutAllNone(s, fs[1..]);
    }
  }

  /** Removing an entity takes its fragments, and no others, out of every leaf chain. */
  lemma {:induction false} RemoveAllLeaves(st: State, e: nat, l: nat)
    requires Consistent(st) && e < |st.ents| && l < |st.leaves|
    ensures var nu := RemoveAll(st, e);
      |nu.leaves| == |st.leaves| && nu.leaves[l] == WithoutAll(st.leaves[l], st.ents[e])
    decreases |st.ents[e]|
  {
    RemoveAllKeepsConsistent(st, e);
    if st.ents[e] != [] {
      RemoveKeepsConsistent(st, e);
      var f := st.ents[e][0];
      assert EntOk(st, e) && LeafOk(st, l) && f in st.ents[e];
      if st.leafOf[f] != l { WithoutNone(st.leaves[l], f); }
      RemoveAllLeaves(RemoveOne(st, e), e, l);
    }
  }

  /** An addition puts new fragments of `e` in front of what is in a leaf. */
  lemma {:induction false} AddAllLeaves(st: State, e: nat, ls: seq<nat>, l: nat) returns (added: seq<nat>)
    requires Consistent(st) && e < |st.ents| && l < |st.leaves| && forall i :: 0 <= i < |ls| ==> ls[i] < |st.leaves|
    ensures var nu := AddAll(st, e, ls);
      |nu.leaves| == |st.leaves| && |nu.ents| == |st.ents| && nu.leaves[l] == added + st.leaves[l]
    ensures forall f :: f in added ==> f in AddAll(st, e, ls).ents[e]
    decreases |ls|
  {
    AddAllKeepsConsistent(st, e, ls);
    if ls == [] || st.free == [] {
      added := [];
    } else {
      AddKeepsConsistent(st, e, ls[0]);
      var mid := AddOne(st, e, ls[0]);
      added := AddAllLeaves(mid, e, ls[1..], l);
      if ls[0] == l {
        AddAllIs(mid, e, ls[1..]);
        assert added + ([st.free[0]] + st.leaves[l]) == (added + [st.free[0]]) + st.leaves[l];
        assert mid.ents[e][|st.ents[e]|] == st.free[0];
        added := added + [st.free[0]];
      }
    }
  }

  lemma SameMembers(a: seq<nat>, b: seq<nat>)
    requires Distinct(a) && Distinct(b) && forall x :: x in a <==> x in b
    ensures multiset(a) == multiset(b)
  {
    forall x ensures multiset(a)[x] == multiset(b)[x] {
      DistinctCount(a, x);
      DistinctCount(b, x);
    }
  }

  /**
   Adding an entity that has no fragments and removing it again restores every leaf chain and
   every entity chain exactly, and the free chain up to order.
   */
  lemma AddThenRemove(st: State, e: nat, ls: seq<nat>)
    requires Consistent(st) && e < |st.ents| && st.ents[e] == [] && forall i :: 0 <= i < |ls| ==> ls[i] < |st.leaves|
    ensures Consistent(AddAll(st, e, ls)) && e < |AddAll(st, e, ls).ents|
    ensures var nu := RemoveAll(AddAll(st, e, ls), e);
      nu.leaves == st.leaves && nu.ents == st.ents && multiset(nu.free) == multiset(st.free)
  {
    AddAllKeepsConsistent(st, e, ls);
    var mid := AddAll(st, e, ls);
    RemoveAllKeepsConsistent(mid, e);
    var nu := RemoveAll(mid, e);
    forall l | 0 <= l < |st.leaves| ensures nu.leaves[l] == st.leaves[l] {
      LeafRestored(st, e, ls, l);
    }
    AddAllIs(st, e, ls);
    RemoveAllEnts(mid, e);
    assert nu.ents == st.ents;
    SameOwners(st, nu);
    SameMembers(nu.free, st.free);
  }

  lemma LeafRestored(st: State, e: nat, ls: seq<nat>, l: nat)
    requires Consistent(st) && e < |st.ents| && st.ents[e] == [] && forall i :: 0 <= i < |ls| ==> ls[i] < |st.leaves|
    requires l < |st.leaves| && Consistent(AddAll(st, e, ls)) && e < |AddAll(st, e, ls).ents|
    ensures |RemoveAll(AddAll(st, e, ls), e).leaves| == |st.leaves|
    ensures RemoveAll(AddAll(st, e, ls), e).leaves[l] == st.leaves[l]
  {
    var mid := AddAll(st, e, ls);
    var added := AddAllLeaves(st, e, ls, l);
    RemoveAllLeaves(mid, e, l);
    var mine := mid.ents[e];
    WithoutAllConcat(added, st.leaves[l], mine);
    assert WithoutAll(added, mine) == [] by {
      if WithoutAll(added, mine) != [] {
        WithoutAllElements(added, mine, WithoutAll(added, mine)[0]);
      }
    }
    forall x | x in st.leaves[l] ensures x !in mine {
      assert LeafOk(st, l) && EntOk(st, e) && EntOk(mid, e);
      AddAllLeavesTaken(st, e, ls, x);
    }
    WithoutAllNone(st.leaves[l], mine);
  }

  lemma {:induction false} RemoveAllEnts(st: State, e: nat)
    requires Consistent(st) && e < |st.ents|
    ensures RemoveAll(st, e).ents == st.ents[e := []]
    decreases |st.ents[e]|
  {
    if st.ents[e] != [] {
      RemoveKeepsConsistent(st, e);
      RemoveAllEnts(RemoveOne(st, e), e);
    }
  }

  lemma SameOwners(a: State, b: State)
    requires Consistent(a) && Consistent(b) && a.ents == b.ents
    ensures a.owner == b.owner && forall x :: x in a.free <==> x in b.free
  {
    forall f | 0 <= f < MAX_EFRAGS ensures a.owner[f] == b.owner[f] {
      if a.owner[f] != NULL { assert EntOk(a, a.owner[f]) && EntOk(b, a.owner[f]); }
      if b.owner[f] != NULL { assert EntOk(a, b.owner[f]) && EntOk(b, b.owner[f]); }
    }
  }

  // ----- The chains in memory ------------------------------------------------------------------------

  /** Following `next` from `head` visits `s` and ends. */
  ghost predicate Chain(next: seq<int>, head: int, s: seq<nat>)
    decreases |s|
  {
    if s == [] then head == NULL else head == s[0] && s[0] < |next| && Chain(next, next[head], s[1..])
  }

  /** Cells that are not on a chain can change without affecting it. */
  lemma {:induction false} ChainFrame(next: seq<int>, f: nat, v: int, head: int, s: seq<nat>)
    requires Chain(next, head, s) && f < |next| && f !in s
    ensures Chain(next[f := v], head, s)
    decreases |s|
  {
    if s != [] { ChainFrame(next, f, v, next[head], s[1..]); }
  }

  lemma ChainHead(next: seq<int>, head: int, s: seq<nat>)
    requires Chain(next, head, s)
    ensures head == if s == [] then NULL else s[0]
  {
  }

  lemma ChainPush(next: seq<int>, head: int, s: seq<nat>, f: nat)
    requires Chain(next, head, s) && f < |next| && f !in s
    ensures Chain(next[f := head], f, [f] + s)
  {
    ChainFrame(next, f, head, head, s);
    assert ([f] + s)[1..] == s;
  }

  /** Appending to a chain through the link at its end. */
  lemma {:induction false} ChainAppend(next: seq<int>, head: int, s: seq<nat>, f: nat)
    requires Chain(next, head, s) && s != [] && Distinct(s) && f < |next| && f !in s
    ensures s[|s| - 1] < |next| && Chain(next[f := NULL][s[|s| - 1] := f], head, s + [f])
    decreases |s|
  {
    var n := |s| - 1;
    DistinctEnds(s);
    assert (s + [f])[1..] == s[1..] + [f];
    if n == 0 {
      assert s[1..] + [f] == [f];
    } else {
      assert s[1..][n - 1] == s[n];
      ChainAppend(next, next[head], s[1..], f);
    }
  }

  /** Unlinking the cell at position `k` by redirecting the link before it. */
  lemma {:induction false} ChainUnlink(next: seq<int>, head: int, s: seq<nat>, k: nat)
    requires Chain(next, head, s) && Distinct(s) && 0 < k < |s|
    ensures s[k - 1] < |next| && s[k] < |next| && Chain(next[s[k - 1] := next[s[k]]], head, Without(s, s[k]))
    decreases |s|
  {
    DistinctEnds(s);
    assert s[1..][k - 1] == s[k];
    assert s[0] != s[k];
    assert Without(s, s[k])[1..] == Without(s[1..], s[k]);
    if k == 1 {
      WithoutAt(s[1..], 0);
      assert Without(s[1..], s[1]) == s[2..];
      ChainFrame(next, s[0], next[s[1]], next[s[1]], s[2..]);
    } else {
      assert s[1..][k - 2] == s[k - 1];
      ChainUnlink(next, next[head], s[1..], k - 1);
    }
  }

  lemma ChainTail(next: seq<int>, head: int, s: seq<nat>)
    requires Chain(next, head, s) && Distinct(s) && s != []
    ensures Chain(next, next[head], Without(s, s[0])) && Without(s, s[0]) == s[1..]
  {
    DistinctEnds(s);
    WithoutNone(s[1..], s[0]);
  }

  lemma {:induction false} WithoutAt(s: seq<nat>, k: nat)
    requires Distinct(s) && k < |s|
    ensures Without(s, s[k]) == s[..k] + s[k + 1..]
  {
    DistinctEnds(s);
    if k == 0 {
      WithoutNone(s[1..], s[0]);
    } else {
      WithoutAt(s[1..], k - 1);
      assert s[1..][k - 1] == s[k] && s[0] != s[k];
      assert s[..k] == [s[0]] + s[1..][..k - 1] && s[1..][k..] == s[k + 1..];
    }
  }

  ghost predicate AllChains(next: seq<int>, heads: seq<int>, ss: seq<seq<nat>>) {
    |heads| == |ss| && forall i :: 0 <= i < |ss| ==> Chain(next, heads[i], ss[i])
  }

  /** Every cell in use knows its owner. */
  ghost predicate Owned(owner: seq<int>, entityOf: seq<int>) {
    |owner| == |entityOf| && forall f :: 0 <= f < |owner| && owner[f] != NULL ==> entityOf[f] == owner[f]
  }

  lemma HeadCount(next: seq<int>, heads: seq<int>, ss: seq<seq<nat>>)
    requires AllChains(next, heads, ss)
    ensures |heads| == |ss|
  {
  }

  lemma OwnedUpdate(owner: seq<int>, entityOf: seq<int>, f: nat, e: int)
    requires Owned(owner, entityOf) && f < |owner|
    ensures Owned(owner[f := e], entityOf[f := e])
  {
  }

  /** A place a pointer is stored in: the head of a chain, or the link out of a cell. */
  datatype Link = Head | After(f: nat)

  /** The world's chains.  Pointers are cell numbers, NULL is -1. */
  class World {
    var entnext: seq<int>      // of each cell: the next on the free chain or its entity's chain
    var leafnext: seq<int>     // of each cell: the next in its leaf
    var leafOf: seq<int>
    var entityOf: seq<int>
    var freeEfrags: int
    var entEfrag: seq<int>     // of each entity: its first cell
    var leafEfrags: seq<int>   // of each leaf: its first cell
    ghost var st: State

    /** The chains in memory are those of `st`, except that the chain of entity `e` starts at `head`. */
    ghost predicate LinkedFrom(e: int, head: int)
      reads this
    {
      && |entnext| == |leafnext| == |entityOf| == MAX_EFRAGS && leafOf == st.leafOf
      && Chain(entnext, freeEfrags, st.free)
      && AllChains(entnext, if 0 <= e < |entEfrag| then entEfrag[e := head] else entEfrag, st.ents)
      && AllChains(leafnext, leafEfrags, st.leaves)
      && Owned(st.owner, entityOf)
    }

    ghost predicate Valid()
      reads this
    {
      Consistent(st) && LinkedFrom(NULL, NULL)
    }

    /** All cells chained together on the free chain. */
    constructor (entities: nat, leaves: nat)
      ensures Valid() && |st.ents| == entities && |st.leaves| == leaves
      ensures forall e :: 0 <= e < entities ==> st.ents[e] == []
      ensures |st.free| == MAX_EFRAGS
    {
      var next := seq(MAX_EFRAGS, _ => NULL);
      for i := 0 to MAX_EFRAGS - 1
        invariant |next| == MAX_EFRAGS && forall j :: 0 <= j < i ==> next[j] == j + 1
        invariant forall j :: i <= j < MAX_EFRAGS ==> next[j] == NULL
      {
        next := next[i := i + 1];
      }
      entnext := next[MAX_EFRAGS - 1 := NULL];
      freeEfrags := 0;
      leafnext, leafOf, entityOf := seq(MAX_EFRAGS, _ => NULL), seq(MAX_EFRAGS, _ => NULL), seq(MAX_EFRAGS, _ => NULL);
      entEfrag, leafEfrags := seq(entities, _ => NULL), seq(leaves, _ => NULL);
      var free: seq<nat> := seq(MAX_EFRAGS, i requires 0 <= i => i);
      st := State(free, seq(entities, _ => []), seq(leaves, _ => []), seq(MAX_EFRAGS, _ => NULL),
        seq(MAX_EFRAGS, _ => NULL));
      new;
      CountingChain(entnext, 0, st.free);
      forall f: nat ensures f in st.free <==> f < MAX_EFRAGS {
        if f < MAX_EFRAGS { assert st.free[f] == f; }
      }
    }

    /** Where the next fragment of the entity being added has to be linked in. */
    ghost predicate LastLink(link: Link, s: seq<nat>) {
      link == if s == [] then Head else After(s[|s| - 1])
    }

    /** Grab a cell off the free chain for entity `e` in leaf `l`; without free cells nothing happens. */
    method GrabEfrag(e: nat, l: nat, lastlink: Link) returns (lastlink': Link)
      requires Valid() && e < |st.ents| && l < |st.leaves| && LastLink(lastlink, st.ents[e])
      modifies this
      ensures Valid() && |st.ents| == |old(st).ents| && |st.leaves| == |old(st).leaves|
      ensures st == if old(st).free == [] then old(st) else AddOne(old(st), e, l)
      ensures LastLink(lastlink', st.ents[e])
    {
      hide Consistent, Chain, AllChains, Owned;
      HeadCount(entnext, entEfrag, st.ents);
      HeadCount(leafnext, leafEfrags, st.leaves);
      var ef := freeEfrags;
      ChainHead(entnext, freeEfrags, st.free);
      FreeInRange(st);
      if ef == NULL { return lastlink; }
      AddKeepsConsistent(st, e, l);
      GrabChains(st, e, entnext, entEfrag, freeEfrags);
      GrabLeaves(st, l, leafnext, leafEfrags);
      OwnedUpdate(st.owner, entityOf, ef, e);
      freeEfrags := entnext[ef];
      entityOf := entityOf[ef := e];
      // add the entity link
      match lastlink {
        case Head => entEfrag := entEfrag[e := ef];
        case After(f) => entnext := entnext[f := ef];
      }
      lastlink' := After(ef);
      entnext := entnext[ef := NULL];
      // set the leaf links
      leafOf := leafOf[ef := l];
      leafnext := leafnext[ef := leafEfrags[l]];
      leafEfrags := leafEfrags[l := ef];
      st := AddOne(st, e, l);
    }

    /** Give entity `e` a fragment in every leaf under `node` that its box touches. */
    method SplitEntityOnNode(node: Tree, side: nat -> Sides, e: nat, lastlink: Link, top: Option<Tree>)
        returns (lastlink': Link, top': Option<Tree>)
      requires Valid() && e < |st.ents| && LeavesBelow(node, |st.leaves|) && LastLink(lastlink, st.ents[e])
      modifies this
      ensures Valid() && |st.ents| == |old(st).ents| && |st.leaves| == |old(st).leaves|
      ensures forall i :: 0 <= i < |Touched(node, side)| ==> Touched(node, side)[i] < |st.leaves|
      ensures st == AddAll(old(st), e, Touched(node, side)) && LastLink(lastlink', st.ents[e])
      ensures exists ways :: ByWays(node, side, ways, Touched(node, side))
      ensures top' == if top.Some? then top else TopNode(node, side)
      decreases node, 1
    {
      ghost var ways := TouchedByWays(node, side);
      lastlink', top' := lastlink, top;
      AddAllShort(st, e, if node.Leaf? then node.leaf else 0);
      match node {
        case Solid =>
        case Leaf(l) =>
          assert Touched(node, side) == [l];
          if top'.None? { top' := Some(node); }
          lastlink' := GrabEfrag(e, l, lastlink);
        case Node(id, front, back) =>
          lastlink', top' := SplitBothSides(node, side, e, lastlink, top);
      }
    }

    method SplitBothSides(node: Tree, side: nat -> Sides, e: nat, lastlink: Link, top: Option<Tree>)
        returns (lastlink': Link, top': Option<Tree>)
      requires Valid() && e < |st.ents| && node.Node? && LeavesBelow(node, |st.leaves|)
      requires LastLink(lastlink, st.ents[e])
      modifies this
      ensures Valid() && |st.ents| == |old(st).ents| && |st.leaves| == |old(st).leaves|
      ensures forall i :: 0 <= i < |Touched(node, side)| ==> Touched(node, side)[i] < |st.leaves|
      ensures st == AddAll(old(st), e, Touched(node, side)) && LastLink(lastlink', st.ents[e])
      ensures top' == if top.Some? then top else TopNode(node, side)
      decreases node, 0
    {
      hide Consistent, LinkedFrom, AddAll, AddOne, LastLink;
      lastlink', top' := lastlink, top;
      var sides := side(node.id);
      if sides == Sides(true, true) && top'.None? { top' := Some(node); }
      lastlink', top' := SplitOneSide(sides.front, node.front, side, e, lastlink', top');
      lastlink', top' := SplitOneSide(sides.back, node.back, side, e, lastlink', top');
      AddAllConcat(old(st), e, TouchedIf(sides.front, node.front, side), TouchedIf(sides.back, node.back, side));
    }

    /** Recurse down one side of a node if it is contacted. */
    method SplitOneSide(contacted: bool, child: Tree, side: nat -> Sides, e: nat, lastlink: Link, top: Option<Tree>)
        returns (lastlink': Link, top': Option<Tree>)
      requires Valid() && e < |st.ents| && LeavesBelow(child, |st.leaves|) && LastLink(lastlink, st.ents[e])
      modifies this
      ensures Valid() && |st.ents| == |old(st).ents| && |st.leaves| == |old(st).leaves|
      ensures forall i :: 0 <= i < |TouchedIf(contacted, child, side)| ==>
        TouchedIf(contacted, child, side)[i] < |st.leaves|
      ensures st == AddAll(old(st), e, TouchedIf(contacted, child, side)) && LastLink(lastlink', st.ents[e])
      ensures top' == if top.Some? || !contacted then top else TopNode(child, side)
      decreases child, 2
    {
      hide Consistent, LinkedFrom, AddAll;
      lastlink', top' := lastlink, top;
      AddAllShort(st, e, 0);
      if contacted { lastlink', top' := SplitEntityOnNode(child, side, e, lastlink, top); }
    }

    /** Add an entity that has no fragments yet. */
    method AddEfrags(e: nat, hasModel: bool, world: Tree, side: nat -> Sides) returns (topnode: Option<Tree>)
      requires Valid() && e < |st.ents| && LeavesBelow(world, |st.leaves|) && st.ents[e] == []
      modifies this
      ensures Valid() && |st.ents| == |old(st).ents| && |st.leaves| == |old(st).leaves|
      ensures forall i :: 0 <= i < |Touched(world, side)| ==> Touched(world, side)[i] < |st.leaves|
      ensures st == if hasModel then AddAll(old(st), e, Touched(world, side)) else old(st)
      ensures exists ways :: ByWays(world, side, ways, Touched(world, side))
      ensures hasModel ==> topnode == TopNode(world, side)
    {
      ghost var ways := TouchedByWays(world, side);
      TouchedBelow(world, side, |st.leaves|);
      topnode := None;
      if !hasModel { return; }
      var last;
      last, topnode := SplitEntityOnNode(world, side, e, Head, None);
    }

    /** Take cell `ef` out of its leaf's chain: walk to the link that points to it and redirect it. */
    method UnlinkFromLeaf(ef: nat)
      requires Consistent(st) && ef < MAX_EFRAGS && st.owner[ef] != NULL
      requires |leafnext| == MAX_EFRAGS && leafOf == st.leafOf && |leafEfrags| == |st.leaves|
      requires forall l :: 0 <= l < |st.leaves| ==> Chain(leafnext, leafEfrags[l], st.leaves[l])
      modifies `leafnext, `leafEfrags
      ensures |leafnext| == MAX_EFRAGS && |leafEfrags| == |st.leaves|
      ensures forall m :: 0 <= m < |st.leaves| ==>
        Chain(leafnext, leafEfrags[m], if m == st.leafOf[ef] then Without(st.leaves[m], ef) else st.leaves[m])
    {
      var l := leafOf[ef];
      ghost var s := st.leaves[l];
      assert LeafOk(st, l) && ef in s;
      var prev, walk := Head, leafEfrags[l];
      ghost var k := 0;
      while walk != ef
        invariant 0 <= k < |s| && walk == s[k] && prev == (if k == 0 then Head else After(s[k - 1]))
        invariant ef in s[k..]
        invariant Chain(leafnext, walk, s[k..])
        decreases |s| - k
      {
        assert s[k..] == [s[k]] + s[k + 1..];
        assert s[k..][1..] == s[k + 1..];
        prev := After(walk);
        walk := leafnext[walk];
        k := k + 1;
      }
      // remove this fragment
      UnlinkChains(st, ef, k, leafnext, leafEfrags);
      match prev {
        case Head => leafEfrags := leafEfrags[l := leafnext[ef]];
        case After(f) => leafnext := leafnext[f := leafnext[ef]];
      }
    }

    /** Give the first remaining cell `ef` of entity `e` back to the free chain. */
    method FreeFirst(e: nat, ef: nat) returns (next: int)
      requires Consistent(st) && e < |st.ents| && st.ents[e] != [] && LinkedFrom(e, ef)
      modifies `leafnext, `leafEfrags, `entnext, `freeEfrags, `st
      ensures Consistent(st) && LinkedFrom(e, next)
      ensures st == RemoveOne(old(st), e)
    {
      RemoveKeepsConsistent(st, e);
      FreeChains(st, e, entnext, entEfrag, freeEfrags);
      UnlinkFromLeaf(ef);
      next := entnext[ef];
      // put it on the free list
      entnext := entnext[ef := freeEfrags];
      freeEfrags := ef;
      st := RemoveOne(st, e);
    }

    /** Remove all fragments of an entity from the world. */
    method RemoveEfrags(e: nat)
      requires Valid() && e < |st.ents|
      modifies this
      ensures Valid() && st == RemoveAll(old(st), e) && |st.ents| == |old(st).ents| && st.ents[e] == []
    {
      var ef := entEfrag[e];
      RemoveAllKeepsConsistent(st, e);
      while ef != NULL
        invariant Consistent(st) && e < |st.ents| && LinkedFrom(e, ef)
        invariant RemoveAll(st, e) == RemoveAll(old(st), e)
        decreases |st.ents[e]|
      {
        ef := FreeFirst(e, ef);
      }
      assert st.ents[e] == [];
      entEfrag := entEfrag[e := NULL];
    }
  }

  /** Moving the first cell of entity `e` to the front of the free chain. */
  lemma FreeChains(st: State, e: nat, next: seq<int>, heads: seq<int>, freeHead: int)
    requires Consistent(st) && e < |st.ents| && st.ents[e] != [] && |next| == MAX_EFRAGS && |heads| == |st.ents|
    requires Chain(next, freeHead, st.free) && Chain(next, st.ents[e][0], st.ents[e])
    requires forall d :: 0 <= d < |st.ents| && d != e ==> Chain(next, heads[d], st.ents[d])
    ensures st.ents[e][0] < MAX_EFRAGS && st.owner[st.ents[e][0]] == e && 0 <= st.leafOf[st.ents[e][0]] < |st.leaves|
    ensures var f := st.ents[e][0]; var next' := next[f := freeHead];
      && Chain(next', f, [f] + st.free) && Chain(next', next[f], st.ents[e][1..])
      && forall d :: 0 <= d < |st.ents| && d != e ==> Chain(next', heads[d], st.ents[d])
  {
    var f := st.ents[e][0];
    assert EntOk(st, e) && f in st.ents[e];
    Elsewhere(st, f);
    ChainPush(next, freeHead, st.free, f);
    DistinctEnds(st.ents[e]);
    ChainFrame(next, f, freeHead, next[f], st.ents[e][1..]);
    forall d | 0 <= d < |st.ents| && d != e ensures Chain(next[f := freeHead], heads[d], st.ents[d]) {
      ChainFrame(next, f, freeHead, heads[d], st.ents[d]);
    }
  }

  /** Which cells cannot be on which chain. */
  lemma Elsewhere(st: State, f: nat)
    requires Consistent(st) && f < MAX_EFRAGS
    ensures st.owner[f] != NULL ==> f !in st.free
    ensures forall d :: 0 <= d < |st.ents| && st.owner[f] != d ==> f !in st.ents[d]
    ensures forall m :: 0 <= m < |st.leaves| && (st.owner[f] == NULL || st.leafOf[f] != m) ==> f !in st.leaves[m]
  {
    forall d | 0 <= d < |st.ents| && st.owner[f] != d ensures f !in st.ents[d] { assert EntOk(st, d); }
    forall m | 0 <= m < |st.leaves| && (st.owner[f] == NULL || st.leafOf[f] != m)
      ensures f !in st.leaves[m]
    {
      assert LeafOk(st, m);
    }
  }

  /** Moving the first free cell to the end of entity `e`'s chain. */
  lemma GrabChains(st: State, e: nat, next: seq<int>, heads: seq<int>, freeHead: int)
    requires Consistent(st) && st.free != [] && e < |st.ents| && |next| == MAX_EFRAGS && |heads| == |st.ents|
    requires Chain(next, freeHead, st.free) && AllChains(next, heads, st.ents)
    ensures freeHead == st.free[0] < MAX_EFRAGS
    ensures st.ents[e] != [] ==> st.ents[e][|st.ents[e]| - 1] < MAX_EFRAGS
    ensures var linked := if st.ents[e] == [] then next else next[st.ents[e][|st.ents[e]| - 1] := freeHead];
      var next' := linked[freeHead := NULL];
      var heads' := if st.ents[e] == [] then heads[e := freeHead] else heads;
      && Chain(next', next[freeHead], st.free[1..])
      && AllChains(next', heads', st.ents[e := st.ents[e] + [st.free[0]]])
  {
    var f := st.free[0];
    assert f in st.free;
    Elsewhere(st, f);
    DistinctEnds(st.free);
    var m := next[f := NULL];
    ChainFrame(next, f, NULL, next[f], st.free[1..]);
    forall d | 0 <= d < |st.ents| ensures Chain(m, heads[d], st.ents[d]) {
      ChainFrame(next, f, NULL, heads[d], st.ents[d]);
    }
    if st.ents[e] == [] {
      assert [] + [f] == [f] && Chain(m, f, [f]);
    } else {
      var last := st.ents[e][|st.ents[e]| - 1];
      assert EntOk(st, e) && last in st.ents[e];
      Elsewhere(st, last);
      assert next[last := f][f := NULL] == m[last := f];
      ChainFrame(m, last, f, next[f], st.free[1..]);
      forall d | 0 <= d < |st.ents| && d != e ensures Chain(m[last := f], heads[d], st.ents[d]) {
        ChainFrame(m, last, f, heads[d], st.ents[d]);
      }
      ChainAppend(next, heads[e], st.ents[e], f);
    }
  }

  /** Putting the first free cell in front of leaf `l`'s chain. */
  lemma GrabLeaves(st: State, l: nat, next: seq<int>, heads: seq<int>)
    requires Consistent(st) && st.free != [] && l < |st.leaves| && |next| == MAX_EFRAGS && |heads| == |st.leaves|
    requires AllChains(next, heads, st.leaves)
    ensures st.free[0] < MAX_EFRAGS
    ensures var f := st.free[0];
      AllChains(next[f := heads[l]], heads[l := f], st.leaves[l := [f] + st.leaves[l]])
  {
    var f := st.free[0];
    assert f in st.free;
    Elsewhere(st, f);
    forall m | 0 <= m < |st.leaves| && m != l ensures Chain(next[f := heads[l]], heads[m], st.leaves[m]) {
      ChainFrame(next, f, heads[l], heads[m], st.leaves[m]);
    }
    ChainPush(next, heads[l], st.leaves[l], f);
  }

  lemma CountingChain(next: seq<int>, i: nat, s: seq<nat>)
    requires |next| == MAX_EFRAGS && i <= MAX_EFRAGS && |s| == MAX_EFRAGS - i
    requires forall j :: 0 <= j < MAX_EFRAGS - 1 ==> next[j] == j + 1
    requires next[MAX_EFRAGS - 1] == NULL && forall j :: 0 <= j < |s| ==> s[j] == i + j
    ensures Chain(next, if i == MAX_EFRAGS then NULL else i, s)
    decreases |s|
  {
    if s != [] { CountingChain(next, i + 1, s[1..]); }
  }

  lemma UnlinkChains(st: State, ef: nat, k: nat, next: seq<int>, heads: seq<int>)
    requires Consistent(st) && ef < MAX_EFRAGS && st.owner[ef] != NULL && |next| == MAX_EFRAGS && |heads| == |st.leaves|
    requires forall m :: 0 <= m < |st.leaves| ==> Chain(next, heads[m], st.leaves[m])
    requires k < |st.leaves[st.leafOf[ef]]| && st.leaves[st.leafOf[ef]][k] == ef
    ensures var l := st.leafOf[ef];
      var prev := if k == 0 then 0 else st.leaves[l][k - 1];
      var next' := if k == 0 || prev >= MAX_EFRAGS then next else next[prev := next[ef]];
      var heads' := if k == 0 then heads[l := next[ef]] else heads;
      && prev < MAX_EFRAGS
      && forall m :: 0 <= m < |st.leaves| ==>
        Chain(next', heads'[m], if m == l then Without(st.leaves[m], ef) else st.leaves[m])
  {
    var l := st.leafOf[ef];
    var s := st.leaves[l];
    assert LeafOk(st, l);
    if k == 0 {
      ChainTail(next, heads[l], s);
    } else {
      ChainUnlink(next, heads[l], s, k);
      var prev := s[k - 1];
      assert prev in s;
      Elsewhere(st, prev);
      forall m | 0 <= m < |st.leaves| && m != l ensures Chain(next[prev := next[ef]], heads[m], st.leaves[m]) {
        ChainFrame(next, prev, next[ef], heads[m], st.leaves[m]);
      }
    }
  }

  lemma {:induction false} TouchedBelow(t: Tree, side: nat -> Sides, n: nat)
    requires LeavesBelow(t, n)
    ensures forall i :: 0 <= i < |Touched(t, side)| ==> Touched(t, side)[i] < n
  {
    if t.Node? {
      TouchedBelow(t.front, side, n);
      TouchedBelow(t.back, side, n);
    }
  }

  lemma AddAllShort(st: State, e: nat, l: nat)
    requires Consistent(st) && e < |st.ents|
    ensures AddAll(st, e, []) == st
    ensures l < |st.leaves| ==> AddAll(st, e, [l]) == if st.free == [] then st
      else (AddKeepsConsistent(st, e, l); AddOne(st, e, l))
  {
    if l < |st.leaves| && st.free != [] { AddKeepsConsistent(st, e, l); }
  }

  lemma {:induction false} AddAllConcat(st: State, e: nat, a: seq<nat>, b: seq<nat>)
    requires Consistent(st) && e < |st.ents|
    requires (forall i :: 0 <= i < |a| ==> a[i] < |st.leaves|) && forall i :: 0 <= i < |b| ==> b[i] < |st.leaves|
    ensures var mid := AddAll(st, e, a);
      Consistent(mid) && |mid.ents| == |st.ents| && |mid.leaves| == |st.leaves|
        && AddAll(mid, e, b) == AddAll(st, e, a + b)
    decreases |a|
  {
    AddAllKeepsConsistent(st, e, a);
    if a == [] {
      assert a + b == b;
    } else if st.free != [] {
      AddKeepsConsistent(st, e, a[0]);
      AddAllConcat(AddOne(st, e, a[0]), e, a[1..], b);
      assert (a + b)[1..] == a[1..] + b;
    }
  }
}
