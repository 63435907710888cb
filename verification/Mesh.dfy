/**
 The alias-model mesh compiler: a triangle list is cut greedily into triangle strips and
 fans, each written as a count word followed by texture coordinates, next to a list of
 vertex numbers.  The drawing loop reads both lists back.

 Here the compiler is a function, and what drawing its output means is proved; the in-place
 algorithm of module MeshBuilder is proved to compute it.
 */
module Mesh {
  import opened Basics

  const STRIP_VERTS := 128     // capacity of stripverts[] and striptris[]
  const COMMAND_WORDS := 8192  // capacity of commands[] and vertexorder[]

  datatype Triangle = Triangle(facesfront: int, vertindex: seq<int>)

  datatype StVert = StVert(onseam: int, s: int, t: int)

  /** One 32-bit cell of the command list: an integer count, or a float stored in its place. */
  datatype Word = Count(n: int) | Coord(c: real)

  /** The model being compiled: its triangles, the skin position of every vertex, the skin size. */
  datatype Model = Model(tris: seq<Triangle>, stverts: seq<StVert>, skinwidth: int, skinheight: int)
  {
    ghost predicate Valid() {
      && skinwidth > 0 && skinheight > 0
      && forall i :: 0 <= i < |tris| ==> ValidTriangle(tris[i])
    }

    ghost predicate ValidTriangle(t: Triangle) {
      && |t.vertindex| == 3
      && forall k :: 0 <= k < 3 ==> 0 <= t.vertindex[k] < |stverts|
    }
  }

  // ----- What drawing means -----------------------------------------------------------

  /** A vertex as it reaches the graphics library. */
  datatype Corner = Corner(vertex: int, s: real, t: real)

  datatype Face = Face(a: Corner, b: Corner, c: Corner)

  /** The same oriented triangle, starting from any of its three corners. */
  ghost predicate SameFace(f: Face, g: Face) {
    || f == g
    || f == Face(g.b, g.c, g.a)
    || f == Face(g.c, g.a, g.b)
  }

  /** Triangle `i` of a strip or fan over `cs` (section 2.6.1 of the OpenGL 2.1 specification). */
  function PrimitiveFace(strip: bool, cs: seq<Corner>, i: nat): (f: Face)
    requires i + 2 < |cs|
  {
    if !strip then Face(cs[0], cs[i+1], cs[i+2])
    else if i % 2 == 0 then Face(cs[i], cs[i+1], cs[i+2])
    else Face(cs[i+1], cs[i], cs[i+2])
  }

  function PrimitiveFaces(strip: bool, cs: seq<Corner>): seq<Face> {
    if |cs| < 2 then [] else seq(|cs| - 2, i requires 0 <= i < |cs| - 2 => PrimitiveFace(strip, cs, i))
  }

  /** The corners a primitive of `n` vertices takes from the two lists. */
  function ReadCorners(words: seq<Word>, order: seq<int>, n: nat): (cs: seq<Corner>)
    requires n <= |order| && 2 * n <= |words|
    requires forall i :: 0 <= i < 2 * n ==> words[i].Coord?
    ensures |cs| == n
  {
    seq(n, i requires 0 <= i < n => Corner(order[i], words[2*i].c, words[2*i+1].c))
  }

  datatype Drawing = Malformed | Faces(faces: seq<Face>)

  /** A primitive in front of whatever the rest draws. */
  function Joined(fs: seq<Face>, rest: Drawing): Drawing {
    if rest.Malformed? then Malformed else Faces(fs + rest.faces)
  }

  /** The drawing loop: read a count, draw that many corners, stop at a zero count. */
  function Draw(words: seq<Word>, order: seq<int>): Drawing
    decreases |words|
  {
    if |words| == 0 || !words[0].Count? then Malformed
    else if words[0].n == 0 then Faces([])
    else
      var strip := words[0].n > 0;
      var n := if strip then words[0].n else -words[0].n;
      if n > |order| || 1 + 2 * n > |words| || exists i :: 1 <= i <= 2 * n && !words[i].Coord? then Malformed
      else
        Joined(PrimitiveFaces(strip, ReadCorners(words[1..], order, n)), Draw(words[1 + 2*n..], order[n..]))
  }

  // ----- What the model means ---------------------------------------------------------

  /** The skin coordinates of vertex `v` on a front- or back-facing triangle. */
  function SkinCorner(m: Model, front: int, v: int): Corner
    requires m.skinwidth > 0 && m.skinheight > 0 && 0 <= v < |m.stverts|
  {
    var sv := m.stverts[v];
    var s := (if front == 0 && sv.onseam != 0 then sv.s + m.skinwidth / 2 else sv.s) as real;
    Corner(v, (s + 0.5) / (m.skinwidth as real), (sv.t as real + 0.5) / (m.skinheight as real))
  }

  function SkinFace(m: Model, t: Triangle): Face
    requires m.Valid() && m.ValidTriangle(t)
  {
    Face(SkinCorner(m, t.facesfront, t.vertindex[0]),
         SkinCorner(m, t.facesfront, t.vertindex[1]),
         SkinCorner(m, t.facesfront, t.vertindex[2]))
  }

  // ----- The greedy compiler as functions -----------------------------------------------

  /** The vertices and triangles of one strip or fan. */
  datatype Run = Run(strip: bool, verts: seq<int>, tris: seq<nat>)

  /** Where directed edge `m1 -> m2` starts in `t`, or 3. */
  function EdgeAt(t: Triangle, m1: int, m2: int): (k: nat)
    requires |t.vertindex| == 3
    ensures k <= 3
    ensures k < 3 ==> t.vertindex[k] == m1 && t.vertindex[(k + 1) % 3] == m2
  {
    if t.vertindex[0] == m1 && t.vertindex[1] == m2 then 0
    else if t.vertindex[1] == m1 && t.vertindex[2] == m2 then 1
    else if t.vertindex[2] == m1 && t.vertindex[0] == m2 then 2
    else 3
  }

  /** The first place of the edge is found, wherever it is. */
  lemma FirstEdge(t: Triangle, m1: int, m2: int, j: nat)
    requires |t.vertindex| == 3 && j < 3 && t.vertindex[j] == m1 && t.vertindex[(j + 1) % 3] == m2
    ensures EdgeAt(t, m1, m2) <= j
  {
  }

  ghost predicate Touches(t: Triangle, front: int, m1: int, m2: int)
    requires |t.vertindex| == 3
  {
    t.facesfront == front && EdgeAt(t, m1, m2) < 3
  }

  /** The first triangle from `j` on with the given facing and directed edge, or `|tris|`. */
  ghost function FirstTouching(m: Model, j: nat, front: int, m1: int, m2: int): (r: nat)
    requires m.Valid() && j <= |m.tris|
    ensures j <= r <= |m.tris|
    ensures r < |m.tris| ==> Touches(m.tris[r], front, m1, m2)
    ensures forall i :: j <= i < r ==> !Touches(m.tris[i], front, m1, m2)
    decreases |m.tris| - j
  {
    if j == |m.tris| || Touches(m.tris[j], front, m1, m2) then j else FirstTouching(m, j + 1, front, m1, m2)
  }

  /** The directed edge over which the next triangle of a run has to attach. */
  function OpenEdge(strip: bool, verts: seq<int>, n: nat): (int, int)
    requires |verts| == n + 2
  {
    if !strip then (verts[0], verts[n+1])
    else if n % 2 == 1 then (verts[n+1], verts[n])
    else (verts[n], verts[n+1])
  }

  /** The edge moves by one vertex: the newest vertex replaces one end of it. */
  lemma NextOpenEdge(strip: bool, verts: seq<int>, n: nat, x: int)
    requires |verts| == n + 2 && n >= 1
    ensures OpenEdge(strip, verts + [x], n + 1) ==
      var (m1, m2) := OpenEdge(strip, verts, n);
      if strip && n % 2 == 0 then (x, m2) else (m1, x)
  {
  }

  ghost predicate WellFormed(m: Model, r: Run) {
    && |r.tris| >= 1 && |r.verts| == |r.tris| + 2
    && forall i :: 0 <= i < |r.tris| ==> r.tris[i] < |m.tris|
  }

  ghost function FirstOf(m: Model, start: nat, startv: nat, strip: bool): (r: Run)
    requires m.Valid() && start < |m.tris|
    ensures WellFormed(m, r)
  {
    var v := m.tris[start].vertindex;
    Run(strip, [v[startv % 3], v[(startv + 1) % 3], v[(startv + 2) % 3]], [start])
  }

  /** Greedy growth of a run over the triangles still free. */
  ghost function Grow(m: Model, free: set<nat>, r: Run): (g: Run)
    requires m.Valid() && WellFormed(m, r)
    ensures WellFormed(m, g) && g.strip == r.strip
    ensures r.verts <= g.verts && r.tris <= g.tris
    decreases free
  {
    var (m1, m2) := OpenEdge(r.strip, r.verts, |r.tris|);
    var front := m.tris[r.tris[0]].facesfront;
    var j := FirstTouching(m, r.tris[0] + 1, front, m1, m2);
    if j == |m.tris| || j !in free then r
    else Grow(m, free - {j}, Attach(m, r, j, m1, m2))
  }

  ghost function Attach(m: Model, r: Run, j: nat, m1: int, m2: int): (a: Run)
    requires m.Valid() && j < |m.tris| && EdgeAt(m.tris[j], m1, m2) < 3
  {
    var k := EdgeAt(m.tris[j], m1, m2);
    r.(verts := r.verts + [m.tris[j].vertindex[(k + 2) % 3]], tris := r.tris + [j])
  }

  /** A strip or fan grown from corner `startv` of triangle `start`. */
  ghost function Trial(m: Model, free: set<nat>, start: nat, strip: bool, startv: nat): (r: Run)
    requires m.Valid() && start < |m.tris|
    ensures WellFormed(m, r)
  {
    Grow(m, free - {start}, FirstOf(m, start, startv, strip))
  }

  function StartCorner(c: nat): nat { if c < 3 then c else c - 3 }

  /** The first `n` trials for `start`: fans from each corner first, then strips. */
  ghost function Trials(m: Model, free: set<nat>, start: nat, n: nat): (rs: seq<Run>)
    requires m.Valid() && start < |m.tris|
    ensures |rs| == n
  {
    if n == 0 then [] else Trials(m, free, start, n - 1) + [Trial(m, free, start, n > 3, StartCorner(n - 1))]
  }

  /** The longest run of a list, the earliest one among equals. */
  ghost function Longest(rs: seq<Run>): (r: Run)
    requires rs != []
    ensures r in rs
  {
    var n := |rs| - 1;
    if n == 0 then rs[0] else Longer(Longest(rs[..n]), rs[n])
  }

  ghost function Longer(best: Run, t: Run): Run {
    if |t.tris| > |best.tris| then t else best
  }

  lemma LongestAppend(rs: seq<Run>, t: Run)
    ensures Longest(rs + [t]) == if rs == [] then t else Longer(Longest(rs), t)
    ensures AllFit(rs + [t]) == (AllFit(rs) && |t.verts| <= STRIP_VERTS)
  {
    assert (rs + [t])[..|rs|] == rs;
    assert AllFit(rs + [t]) ==> AllFit(rs) && |t.verts| <= STRIP_VERTS by {
      assert (rs + [t])[|rs|] == t;
      assert forall c :: 0 <= c < |rs| ==> rs[c] == (rs + [t])[c];
    }
  }

  ghost function Members(s: seq<nat>): set<nat> { set x | x in s }

  /** The runs emitted for the free triangles from `i` on. */
  ghost function Compile(m: Model, i: nat, free: set<nat>): (rs: seq<Run>)
    requires m.Valid() && i <= |m.tris|
    decreases |m.tris| - i
  {
    if i == |m.tris| then []
    else if i !in free then Compile(m, i + 1, free)
    else
      var b := Longest(Trials(m, free, i, 6));
      [b] + Compile(m, i + 1, free - Members(b.tris))
  }

  /** The triangles a used[] array leaves free. */
  ghost function Free(used: seq<int>): set<nat> { set t: nat | t < |used| && used[t] == 0 }

  /** The whole result: every triangle starts out free. */
  ghost function CompileAll(m: Model): seq<Run>
    requires m.Valid()
  {
    Compile(m, 0, Free(seq(|m.tris|, _ => 0)))
  }

  ghost function CoordWords(m: Model, front: int, verts: seq<int>): (ws: seq<Word>)
    requires m.Valid() && forall i :: 0 <= i < |verts| ==> 0 <= verts[i] < |m.stverts|
    ensures |ws| == 2 * |verts|
  {
    if verts == [] then []
    else
      var n := |verts| - 1;
      var c := SkinCorner(m, front, verts[n]);
      CoordWords(m, front, verts[..n]) + [Coord(c.s), Coord(c.t)]
  }

  ghost predicate Emittable(m: Model, r: Run) {
    WellFormed(m, r) && forall i :: 0 <= i < |r.verts| ==> 0 <= r.verts[i] < |m.stverts|
  }

  ghost function RunWords(m: Model, r: Run): (ws: seq<Word>)
    requires m.Valid() && Emittable(m, r)
    ensures |ws| == 1 + 2 * |r.verts|
  {
    [Count(if r.strip then |r.verts| else -|r.verts|)] + CoordWords(m, m.tris[r.tris[0]].facesfront, r.verts)
  }

  ghost predicate AllEmittable(m: Model, rs: seq<Run>) {
    forall i :: 0 <= i < |rs| ==> Emittable(m, rs[i])
  }

  ghost function Words(m: Model, rs: seq<Run>): seq<Word>
    requires m.Valid() && AllEmittable(m, rs)
  {
    if rs == [] then [] else RunWords(m, rs[0]) + Words(m, rs[1..])
  }

  ghost function Order(rs: seq<Run>): seq<int> {
    if rs == [] then [] else rs[0].verts + Order(rs[1..])
  }

  ghost function RunTris(rs: seq<Run>): seq<nat> {
    if rs == [] then [] else rs[0].tris + RunTris(rs[1..])
  }

  /** Every trial made while compiling from `i` on fits the scratch strip. */
  ghost predicate TrialsFit(m: Model, i: nat, free: set<nat>)
    requires m.Valid() && i <= |m.tris|
    decreases |m.tris| - i
  {
    if i == |m.tris| then true
    else if i !in free then TrialsFit(m, i + 1, free)
    else
      && AllFit(Trials(m, free, i, 6))
      && TrialsFit(m, i + 1, free - Members(Longest(Trials(m, free, i, 6)).tris))
  }

  ghost predicate AllFit(rs: seq<Run>) {
    forall c :: 0 <= c < |rs| ==> |rs[c].verts| <= STRIP_VERTS
  }

  // ----- What the greedy compiler guarantees -------------------------------------------

  ghost predicate CornersOf(t: Triangle, a: int, b: int, c: int)
    requires |t.vertindex| == 3
  {
    || [a, b, c] == t.vertindex
    || [c, a, b] == t.vertindex
    || [b, c, a] == t.vertindex
  }

  /** Face `i` of the run, as vertex numbers, is triangle `r.tris[i]` up to rotation. */
  ghost predicate Matches(strip: bool, verts: seq<int>, i: nat, t: Triangle)
    requires i + 2 < |verts| && |t.vertindex| == 3
  {
    var (a, b) := if i == 0 then (verts[0], verts[1]) else OpenEdge(strip, verts[..i + 2], i);
    CornersOf(t, a, b, verts[i+2])
  }

  /** Everything a run promises: one facing, every face an input triangle, no triangle twice. */
  ghost predicate Faithful(m: Model, r: Run)
    requires m.Valid()
  {
    && WellFormed(m, r)
    && Distinct(r.tris)
    && (forall i :: 0 <= i < |r.tris| ==> m.tris[r.tris[i]].facesfront == m.tris[r.tris[0]].facesfront)
    && (forall i :: 0 <= i < |r.tris| ==> Matches(r.strip, r.verts, i, m.tris[r.tris[i]]))
  }

  lemma FirstIsFaithful(m: Model, start: nat, startv: nat, strip: bool)
    requires m.Valid() && start < |m.tris| && startv < 3
    ensures Faithful(m, FirstOf(m, start, startv, strip))
  {
    var r := FirstOf(m, start, startv, strip);
    assert CornersOf(m.tris[start], r.verts[0], r.verts[1], r.verts[2]);
  }

  lemma AttachIsFaithful(m: Model, r: Run, j: nat, m1: int, m2: int)
    requires m.Valid() && Faithful(m, r) && j < |m.tris| && j !in r.tris
    requires (m1, m2) == OpenEdge(r.strip, r.verts, |r.tris|)
    requires Touches(m.tris[j], m.tris[r.tris[0]].facesfront, m1, m2)
    ensures Faithful(m, Attach(m, r, j, m1, m2))
  {
    hide EdgeAt, Matches;
    var a := Attach(m, r, j, m1, m2);
    forall i | 0 <= i < |a.tris|
      ensures Matches(a.strip, a.verts, i, m.tris[a.tris[i]])
    {
      if i < |r.tris| {
        EarlierMatches(r.strip, r.verts, a.verts[|r.verts|], i, m.tris[r.tris[i]]);
      } else {
        NewMatches(m, r, j, m1, m2);
      }
    }
  }

  lemma EarlierMatches(strip: bool, verts: seq<int>, v: int, i: nat, t: Triangle)
    requires i + 2 < |verts| && |t.vertindex| == 3 && Matches(strip, verts, i, t)
    ensures Matches(strip, verts + [v], i, t)
  {
    assert (verts + [v])[..i + 2] == verts[..i + 2];
  }

  lemma NewMatches(m: Model, r: Run, j: nat, m1: int, m2: int)
    requires m.Valid() && WellFormed(m, r) && j < |m.tris| && EdgeAt(m.tris[j], m1, m2) < 3
    requires (m1, m2) == OpenEdge(r.strip, r.verts, |r.tris|)
    ensures Matches(r.strip, Attach(m, r, j, m1, m2).verts, |r.tris|, m.tris[j])
  {
    hide OpenEdge;
    var verts := Attach(m, r, j, m1, m2).verts;
    assert verts[..|r.verts|] == r.verts;
    AttachedCorners(m, j, m1, m2);
  }

  lemma AttachedCorners(m: Model, j: nat, m1: int, m2: int)
    requires m.Valid() && j < |m.tris| && EdgeAt(m.tris[j], m1, m2) < 3
    ensures CornersOf(m.tris[j], m1, m2, m.tris[j].vertindex[(EdgeAt(m.tris[j], m1, m2) + 2) % 3])
  {
  }

  lemma {:induction false} GrowIsFaithful(m: Model, free: set<nat>, r: Run)
    requires m.Valid() && Faithful(m, r) && Members(r.tris) !! free
    ensures Faithful(m, Grow(m, free, r))
    ensures Members(Grow(m, free, r).tris) <= Members(r.tris) + free
    decreases free
  {
    hide Faithful, OpenEdge, FirstTouching, Attach, Members;
    FaithfulIsWellFormed(m, r);
    var (m1, m2) := OpenEdge(r.strip, r.verts, |r.tris|);
    var front := m.tris[r.tris[0]].facesfront;
    var j := FirstTouching(m, r.tris[0] + 1, front, m1, m2);
    if j < |m.tris| && j in free {
      AttachedMembers(m, r, j, m1, m2);
      AttachIsFaithful(m, r, j, m1, m2);
      GrowIsFaithful(m, free - {j}, Attach(m, r, j, m1, m2));
    }
  }

  lemma FaithfulIsWellFormed(m: Model, r: Run)
    requires m.Valid() && Faithful(m, r)
    ensures WellFormed(m, r)
  {
  }

  lemma AttachedMembers(m: Model, r: Run, j: nat, m1: int, m2: int)
    requires m.Valid() && j < |m.tris| && EdgeAt(m.tris[j], m1, m2) < 3
    ensures j in Members(r.tris) <==> j in r.tris
    ensures Members(Attach(m, r, j, m1, m2).tris) == Members(r.tris) + {j}
  {
  }

  lemma TrialIsFaithful(m: Model, free: set<nat>, start: nat, strip: bool, startv: nat)
    requires m.Valid() && start < |m.tris| && startv < 3 && start in free
    ensures Faithful(m, Trial(m, free, start, strip, startv))
    ensures Members(Trial(m, free, start, strip, startv).tris) <= free
    ensures Trial(m, free, start, strip, startv).tris[0] == start
  {
    FirstIsFaithful(m, start, startv, strip);
    GrowIsFaithful(m, free - {start}, FirstOf(m, start, startv, strip));
  }

  /** No run of the list is longer than the chosen one, and the earlier ones are all shorter. */
  lemma {:induction false} LongestIsFirstMaximum(rs: seq<Run>) returns (d: nat)
    requires rs != []
    ensures d < |rs| && Longest(rs) == rs[d]
    ensures forall e :: 0 <= e < |rs| ==> |rs[e].tris| <= |rs[d].tris|
    ensures forall e :: 0 <= e < d ==> |rs[e].tris| < |rs[d].tris|
  {
    var n := |rs| - 1;
    if n == 0 {
      d := 0;
    } else {
      d := LongestIsFirstMaximum(rs[..n]);
      if |rs[n].tris| > |rs[d].tris| { d := n; }
    }
  }

  /** The chosen run, whichever trial it is, is faithful and uses up `start`. */
  lemma BestIsFaithful(m: Model, free: set<nat>, start: nat) returns (b: Run)
    requires m.Valid() && start < |m.tris| && start in free
    ensures b == Longest(Trials(m, free, start, 6)) && Faithful(m, b)
    ensures Members(b.tris) <= free && b.tris[0] == start
  {
    var d := ChosenTrial(m, free, start);
    TrialIsFaithful(m, free, start, d >= 3, StartCorner(d));
    b := Trial(m, free, start, d >= 3, StartCorner(d));
  }

  lemma ChosenTrial(m: Model, free: set<nat>, start: nat) returns (d: nat)
    requires m.Valid() && start < |m.tris|
    ensures d < 6 && Longest(Trials(m, free, start, 6)) == Trial(m, free, start, d >= 3, StartCorner(d))
  {
    d := LongestIsFirstMaximum(Trials(m, free, start, 6));
    TrialsAt(m, free, start, 6, d);
  }

  lemma {:induction false} TrialsAt(m: Model, free: set<nat>, start: nat, n: nat, d: nat)
    requires m.Valid() && start < |m.tris| && d < n
    ensures Trials(m, free, start, n)[d] == Trial(m, free, start, d >= 3, StartCorner(d))
  {
    hide Trial;
    if d < n - 1 { TrialsAt(m, free, start, n - 1, d); }
  }

  ghost predicate AllFaithful(m: Model, rs: seq<Run>)
    requires m.Valid()
  {
    forall i :: 0 <= i < |rs| ==> Faithful(m, rs[i])
  }

  lemma MembersOfConcat(a: seq<nat>, b: seq<nat>)
    ensures Members(a + b) == Members(a) + Members(b)
    ensures Distinct(a) && Distinct(b) && Members(a) !! Members(b) ==> Distinct(a + b)
  {
    assert forall x :: x in a + b <==> x in a || x in b;
    if Distinct(a) && Distinct(b) && Members(a) !! Members(b) {
      forall i, j | 0 <= i < j < |a + b| ensures (a + b)[i] != (a + b)[j] {
        if i < |a| <= j {
          assert a[i] in Members(a) && b[j - |a|] in Members(b);
        }
      }
    }
  }

  /** `rs` covers exactly the triangles of `free`, each once, by runs that mean what they should. */
  ghost predicate Partitions(m: Model, rs: seq<Run>, free: set<nat>)
    requires m.Valid()
  {
    AllFaithful(m, rs) && Distinct(RunTris(rs)) && Members(RunTris(rs)) == free
  }

  lemma PartitionWithRun(m: Model, b: Run, rest: seq<Run>, free: set<nat>)
    requires m.Valid() && Faithful(m, b) && Members(b.tris) <= free
    requires Partitions(m, rest, free - Members(b.tris))
    ensures Partitions(m, [b] + rest, free)
  {
    MembersOfConcat(b.tris, RunTris(rest));
    assert ([b] + rest)[1..] == rest;
    assert RunTris([b] + rest) == b.tris + RunTris(rest);
  }

  ghost predicate Within(free: set<nat>, lo: nat, hi: nat) {
    forall t :: t in free ==> lo <= t < hi
  }

  lemma WithinRest(free: set<nat>, tris: seq<nat>, lo: nat, hi: nat)
    requires Within(free, lo, hi) && tris != [] && tris[0] == lo
    ensures Within(free - Members(tris), lo + 1, hi)
  {
    assert tris[0] in Members(tris);
  }

  /** The runs partition the free triangles. */
  lemma {:induction false} CompilePartitions(m: Model, i: nat, free: set<nat>)
    requires m.Valid() && i <= |m.tris|
    requires Within(free, i, |m.tris|)
    ensures Partitions(m, Compile(m, i, free), free)
    decreases |m.tris| - i
  {
    if i == |m.tris| {
    } else if i !in free {
      CompilePartitions(m, i + 1, free);
    } else {
      var b := BestIsFaithful(m, free, i);
      WithinRest(free, b.tris, i, |m.tris|);
      CompilePartitions(m, i + 1, free - Members(b.tris));
      PartitionWithRun(m, b, Compile(m, i + 1, free - Members(b.tris)), free);
    }
  }

  lemma MatchInRange(m: Model, r: Run, i: nat)
    requires m.Valid() && Faithful(m, r) && i < |r.verts|
    ensures 0 <= r.verts[i] < |m.stverts|
  {
    var j := if i < 2 then 0 else i - 2;
    var t := m.tris[r.tris[j]];
    assert Matches(r.strip, r.verts, j, t);
    assert m.ValidTriangle(t);
    assert r.verts[i] in t.vertindex;
  }

  lemma FaithfulIsEmittable(m: Model, r: Run)
    requires m.Valid() && Faithful(m, r)
    ensures Emittable(m, r)
  {
    forall i | 0 <= i < |r.verts| ensures 0 <= r.verts[i] < |m.stverts| {
      MatchInRange(m, r, i);
    }
  }

  // ----- Drawing the emitted lists ------------------------------------------------------

  ghost function RunCorners(m: Model, r: Run): (cs: seq<Corner>)
    requires m.Valid() && Emittable(m, r)
  {
    seq(|r.verts|, i requires 0 <= i < |r.verts| => SkinCorner(m, m.tris[r.tris[0]].facesfront, r.verts[i]))
  }

  lemma {:induction false} CoordWordsAt(m: Model, front: int, verts: seq<int>, i: nat)
    requires m.Valid() && (forall i :: 0 <= i < |verts| ==> 0 <= verts[i] < |m.stverts|) && i < |verts|
    ensures CoordWords(m, front, verts)[2*i] == Coord(SkinCorner(m, front, verts[i]).s)
    ensures CoordWords(m, front, verts)[2*i+1] == Coord(SkinCorner(m, front, verts[i]).t)
  {
    if i < |verts| - 1 {
      CoordWordsAt(m, front, verts[..|verts| - 1], i);
    }
  }

  lemma CoordsAreRead(m: Model, r: Run)
    requires m.Valid() && Emittable(m, r)
    ensures var cs := CoordWords(m, m.tris[r.tris[0]].facesfront, r.verts);
      && (forall i :: 0 <= i < |cs| ==> cs[i].Coord?)
      && ReadCorners(cs, r.verts, |r.verts|) == RunCorners(m, r)
  {
    hide SkinCorner;
    var front := m.tris[r.tris[0]].facesfront;
    var cs := CoordWords(m, front, r.verts);
    forall i | 0 <= i < |cs| ensures cs[i].Coord? {
      CoordWordsAt(m, front, r.verts, i / 2);
      assert i == 2 * (i / 2) || i == 2 * (i / 2) + 1;
    }
    forall i | 0 <= i < |r.verts| ensures ReadCorners(cs, r.verts, |r.verts|)[i] == RunCorners(m, r)[i] {
      CoordWordsAt(m, front, r.verts, i);
      CornerKeepsVertex(m, front, r.verts[i]);
    }
  }

  lemma CornerKeepsVertex(m: Model, front: int, v: int)
    requires m.Valid() && 0 <= v < |m.stverts|
    ensures SkinCorner(m, front, v).vertex == v
  {
  }

  /** One round of the drawing loop. */
  lemma DrawRound(words: seq<Word>, order: seq<int>, strip: bool, n: int)
    requires 1 <= n <= |order| && 1 + 2 * n <= |words| && words[0] == Count(if strip then n else -n)
    requires forall i :: 1 <= i <= 2 * n ==> words[i].Coord?
    ensures (forall i :: 0 <= i < 2 * n ==> words[1..][i].Coord?)
      && Draw(words, order) ==
        Joined(PrimitiveFaces(strip, ReadCorners(words[1..], order, n)), Draw(words[1 + 2 * n..], order[n..]))
  {
    hide PrimitiveFaces, ReadCorners;
  }

  lemma DrawStep(strip: bool, coords: seq<Word>, verts: seq<int>, words: seq<Word>, order: seq<int>)
    requires verts != [] && |coords| == 2 * |verts| && forall i :: 0 <= i < |coords| ==> coords[i].Coord?
    ensures Draw([Count(if strip then |verts| else -|verts|)] + coords + words, verts + order) ==
      Joined(PrimitiveFaces(strip, ReadCorners(coords, verts, |verts|)), Draw(words, order))
  {
    hide Draw, PrimitiveFaces, Joined;
    var n := |verts|;
    var ws, os := [Count(if strip then n else -n)] + coords + words, verts + order;
    DrawRound(ws, os, strip, n);
    assert ws[1 + 2 * n..] == words && os[n..] == order;
    assert ws[1..] == coords + words;
    assert ReadCorners(ws[1..], os, n) == ReadCorners(coords, verts, n);
  }

  /** Drawing a run's words draws the run's faces, then whatever the remaining words draw. */
  lemma DrawRun(m: Model, r: Run, words: seq<Word>, order: seq<int>)
    requires m.Valid() && Emittable(m, r)
    ensures Draw(RunWords(m, r) + words, r.verts + order) ==
      Joined(PrimitiveFaces(r.strip, RunCorners(m, r)), Draw(words, order))
  {
    hide Draw, CoordWords, ReadCorners, RunCorners, PrimitiveFaces, Joined;
    CoordsAreRead(m, r);
    DrawStep(r.strip, CoordWords(m, m.tris[r.tris[0]].facesfront, r.verts), r.verts, words, order);
  }

  ghost function RunFaces(m: Model, rs: seq<Run>): seq<Face>
    requires m.Valid() && AllEmittable(m, rs)
  {
    if rs == [] then [] else PrimitiveFaces(rs[0].strip, RunCorners(m, rs[0])) + RunFaces(m, rs[1..])
  }

  lemma DrawNothing()
    ensures Draw([Count(0)], []) == Faces([])
  {
  }

  lemma {:induction false} DrawWords(m: Model, rs: seq<Run>)
    requires m.Valid() && AllEmittable(m, rs)
    ensures Draw(Words(m, rs) + [Count(0)], Order(rs)) == Faces(RunFaces(m, rs))
  {
    hide RunWords, Emittable;
    if rs == [] {
      DrawNothing();
    } else {
      DrawWords(m, rs[1..]);
      DrawRun(m, rs[0], Words(m, rs[1..]) + [Count(0)], Order(rs[1..]));
      assert Words(m, rs) + [Count(0)] == RunWords(m, rs[0]) + (Words(m, rs[1..]) + [Count(0)]);
    }
  }

  lemma RunFaceIsTriangle(m: Model, r: Run, i: nat)
    requires m.Valid() && Faithful(m, r) && Emittable(m, r) && i < |r.tris|
    ensures SameFace(PrimitiveFace(r.strip, RunCorners(m, r), i), SkinFace(m, m.tris[r.tris[i]]))
  {
    hide SkinCorner;
    assert Matches(r.strip, r.verts, i, m.tris[r.tris[i]]);
    assert m.tris[r.tris[i]].facesfront == m.tris[r.tris[0]].facesfront;
  }

  lemma RunFacesAreTriangles(m: Model, r: Run, i: nat)
    requires m.Valid() && Faithful(m, r) && Emittable(m, r) && i < |r.tris|
    ensures var fs := PrimitiveFaces(r.strip, RunCorners(m, r));
      |fs| == |r.tris| && r.tris[i] < |m.tris| && SameFace(fs[i], SkinFace(m, m.tris[r.tris[i]]))
  {
    hide SameFace, SkinFace, SkinCorner, Matches, PrimitiveFace;
    RunFaceIsTriangle(m, r, i);
  }

  lemma {:induction false} FacesAreTriangles(m: Model, rs: seq<Run>, j: nat)
    requires m.Valid() && AllEmittable(m, rs) && AllFaithful(m, rs)
    ensures |RunFaces(m, rs)| == |RunTris(rs)|
    ensures j < |RunTris(rs)| ==>
      RunTris(rs)[j] < |m.tris| && SameFace(RunFaces(m, rs)[j], SkinFace(m, m.tris[RunTris(rs)[j]]))
  {
    hide SameFace, SkinFace, Faithful, Emittable, PrimitiveFaces, RunCorners;
    if rs != [] {
      var n := |rs[0].tris|;
      FaithfulIsWellFormed(m, rs[0]);
      RunFacesAreTriangles(m, rs[0], if j < n then j else 0);
      FacesAreTriangles(m, rs[1..], if j < n then 0 else j - n);
    }
  }

  lemma {:induction false} Sizes(m: Model, rs: seq<Run>)
    requires m.Valid() && AllEmittable(m, rs)
    ensures |Order(rs)| == |RunTris(rs)| + 2 * |rs|
    ensures |Words(m, rs)| == 2 * |RunTris(rs)| + 5 * |rs|
  {
    if rs != [] { Sizes(m, rs[1..]); }
  }

  lemma {:induction false} DistinctSize(s: seq<nat>)
    requires Distinct(s)
    ensures |Members(s)| == |s|
  {
    if s != [] {
      DistinctSize(s[1..]);
      assert Members(s) == {s[0]} + Members(s[1..]);
    }
  }

  lemma {:induction false} FreeSize(n: nat)
    ensures |Free(seq(n, _ => 0))| == n
  {
    if n > 0 {
      FreeSize(n - 1);
      assert seq(n, _ => 0)[n - 1] == 0;
      assert Free(seq(n, _ => 0)) == Free(seq(n - 1, _ => 0)) + {n - 1};
    }
  }

  lemma CompileAllEmittable(m: Model)
    requires m.Valid()
    ensures AllEmittable(m, CompileAll(m)) && AllFaithful(m, CompileAll(m))
    ensures Distinct(RunTris(CompileAll(m))) && Members(RunTris(CompileAll(m))) == Free(seq(|m.tris|, _ => 0))
    ensures |RunTris(CompileAll(m))| == |m.tris|
  {
    CompilePartitions(m, 0, Free(seq(|m.tris|, _ => 0)));
    forall i | 0 <= i < |CompileAll(m)| ensures Emittable(m, CompileAll(m)[i]) {
      FaithfulIsEmittable(m, CompileAll(m)[i]);
    }
    DistinctSize(RunTris(CompileAll(m)));
    FreeSize(|m.tris|);
  }

  lemma EachTriangleOnce(m: Model, t: nat)
    requires m.Valid() && t < |m.tris|
    ensures multiset(RunTris(CompileAll(m)))[t] == 1
  {
    CompileAllEmittable(m);
    DistinctCount(RunTris(CompileAll(m)), t);
    assert seq(|m.tris|, _ => 0)[t] == 0;
    assert t in Members(RunTris(CompileAll(m)));
  }

  /**
   The corner is drawn from the middle of its vertex's pixel of the skin: where the model puts the
   vertex, or, for a vertex on the seam of a triangle that faces back, half the skin further right.
   */
  ghost predicate FromItsPixel(m: Model, t: Triangle, c: Corner)
    requires m.Valid()
  {
    && 0 <= c.vertex < |m.stverts|
    && var v := m.stverts[c.vertex];
      && c.t * (m.skinheight as real) == v.t as real + 0.5
      && (t.facesfront != 0 || v.onseam == 0 ==> c.s * (m.skinwidth as real) == v.s as real + 0.5)
      && (t.facesfront == 0 && v.onseam != 0 ==>
          c.s * (m.skinwidth as real) == (v.s + m.skinwidth / 2) as real + 0.5)
  }

  /** The face has the corners of the triangle in their cyclic order, each drawn from its pixel. */
  ghost predicate DrawnFrom(m: Model, t: Triangle, f: Face)
    requires m.Valid() && |t.vertindex| == 3
  {
    && CornersOf(t, f.a.vertex, f.b.vertex, f.c.vertex)
    && FromItsPixel(m, t, f.a) && FromItsPixel(m, t, f.b) && FromItsPixel(m, t, f.c)
  }

  lemma CornerFromPixel(m: Model, t: Triangle, v: int)
    requires m.Valid() && 0 <= v < |m.stverts|
    ensures FromItsPixel(m, t, SkinCorner(m, t.facesfront, v)) && SkinCorner(m, t.facesfront, v).vertex == v
  {
  }

  lemma SkinFaceDrawn(m: Model, t: Triangle, f: Face)
    requires m.Valid() && m.ValidTriangle(t) && SameFace(f, SkinFace(m, t))
    ensures DrawnFrom(m, t, f)
  {
    hide SkinCorner, FromItsPixel;
    CornerFromPixel(m, t, t.vertindex[0]);
    CornerFromPixel(m, t, t.vertindex[1]);
    CornerFromPixel(m, t, t.vertindex[2]);
  }

  lemma DepictsDraws(m: Model, faces: seq<Face>, perm: seq<nat>)
    requires m.Valid() && Depicts(m, faces, perm)
    ensures forall j :: 0 <= j < |perm| ==> DrawnFrom(m, m.tris[perm[j]], faces[j])
  {
    hide DrawnFrom, SameFace, SkinFace;
    forall j | 0 <= j < |perm| ensures DrawnFrom(m, m.tris[perm[j]], faces[j]) {
      SkinFaceDrawn(m, m.tris[perm[j]], faces[j]);
    }
  }

  /** Each face of a drawing is triangle `perm[j]`, with its orientation and skin coordinates. */
  ghost predicate Depicts(m: Model, faces: seq<Face>, perm: seq<nat>)
    requires m.Valid()
  {
    && |faces| == |perm|
    && forall j :: 0 <= j < |perm| ==> perm[j] < |m.tris| && SameFace(faces[j], SkinFace(m, m.tris[perm[j]]))
  }

  lemma FacesDepict(m: Model, rs: seq<Run>)
    requires m.Valid() && AllEmittable(m, rs) && AllFaithful(m, rs)
    ensures Depicts(m, RunFaces(m, rs), RunTris(rs))
  {
    FacesAreTriangles(m, rs, 0);
    var perm := RunTris(rs);
    forall j | 0 <= j < |perm|
      ensures perm[j] < |m.tris| && SameFace(RunFaces(m, rs)[j], SkinFace(m, m.tris[perm[j]]))
    {
      FacesAreTriangles(m, rs, j);
    }
  }

  /**
   The main result: drawing the compiled lists succeeds, draws one face per input triangle,
   each input triangle exactly once (`perm` is a permutation), in its own orientation and with
   its own skin coordinates.
   */
  lemma DrawingIsTheModel(m: Model) returns (perm: seq<nat>)
    requires m.Valid()
    ensures AllEmittable(m, CompileAll(m))
    ensures var d := Draw(Words(m, CompileAll(m)) + [Count(0)], Order(CompileAll(m)));
      && d.Faces? && Depicts(m, d.faces, perm)
      && forall j :: 0 <= j < |perm| ==> DrawnFrom(m, m.tris[perm[j]], d.faces[j])
    ensures |perm| == |m.tris| && forall t :: 0 <= t < |m.tris| ==> multiset(perm)[t] == 1
  {
    CompileAllEmittable(m);
    perm := RunTris(CompileAll(m));
    DrawWords(m, CompileAll(m));
    FacesDepict(m, CompileAll(m));
    DepictsDraws(m, RunFaces(m, CompileAll(m)), perm);
    forall t | 0 <= t < |m.tris| ensures multiset(perm)[t] == 1 {
      EachTriangleOnce(m, t);
    }
  }

  /** With S runs over T triangles: T + 2S vertices and 2T + 5S + 1 command words. */
  lemma ListSizes(m: Model)
    requires m.Valid()
    ensures AllEmittable(m, CompileAll(m))
    ensures |Order(CompileAll(m))| == |m.tris| + 2 * |CompileAll(m)|
    ensures |Words(m, CompileAll(m)) + [Count(0)]| == 2 * |m.tris| + 5 * |CompileAll(m)| + 1
  {
    CompileAllEmittable(m);
    Sizes(m, CompileAll(m));
  }

  lemma {:induction false} WordsAppend(m: Model, rs: seq<Run>, r: Run)
    requires m.Valid() && AllEmittable(m, rs) && Emittable(m, r)
    ensures AllEmittable(m, rs + [r]) && Words(m, rs + [r]) == Words(m, rs) + RunWords(m, r)
    ensures Order(rs + [r]) == Order(rs) + r.verts
  {
    hide Emittable, RunWords;
    if rs == [] {
      assert rs + [r] == [r];
    } else {
      WordsAppend(m, rs[1..], r);
      assert (rs + [r])[1..] == rs[1..] + [r];
    }
  }

  lemma {:induction false} WordsPrefix(m: Model, a: seq<Run>, b: seq<Run>)
    requires m.Valid() && AllEmittable(m, a) && AllEmittable(m, a + b)
    ensures |Words(m, a)| <= |Words(m, a + b)|
  {
    if a != [] {
      assert (a + b)[1..] == a[1..] + b;
      assert AllEmittable(m, a[1..] + b);
      WordsPrefix(m, a[1..], b);
    }
  }
}
