/**
 The mesh compiler as it runs: marks in `used`, scratch strips, and the two output lists are
 updated in place.  Every method is proved to compute the functions of module Mesh.

 Where the original would write past `stripverts`, `commands` or `vertexorder`, the methods
 stop and return false; they do so exactly for the models that do not fit.
 */
module MeshBuilder {
  import opened Mesh

  /** How one round of a trial ends: no triangle to add, no room for it, or added. */
  datatype Outcome = Done | Full | More

  class Builder {
    const model: Model
    const used: array<int>         // 0 free, 1 emitted, 2 marked by the current trial
    const stripverts: array<int>
    const striptris: array<nat>
    var stripcount: nat
    const commands: array<Word>
    var numcommands: nat
    const vertexorder: array<int>
    var numorder: nat

    ghost predicate Valid() {
      && model.Valid() && |model.tris| <= used.Length
      && stripverts.Length == striptris.Length == STRIP_VERTS
      && commands.Length == vertexorder.Length == COMMAND_WORDS
      && used != stripverts && used != vertexorder && stripverts != vertexorder
      && striptris as object != used && striptris as object != stripverts && striptris as object != vertexorder
    }

    constructor (m: Model)
      requires m.Valid()
      ensures Valid() && model == m && fresh(used) && fresh(stripverts) && fresh(striptris)
      ensures fresh(commands) && fresh(vertexorder)
    {
      model := m;
      used := new int[|m.tris|];
      stripverts := new int[STRIP_VERTS];
      striptris := new nat[STRIP_VERTS];
      commands := new Word[COMMAND_WORDS](_ => Count(0));
      vertexorder := new int[COMMAND_WORDS];
      stripcount, numcommands, numorder := 0, 0, 0;
    }

    ghost function Marks(): seq<int>
      requires Valid()
      reads used
    {
      used[..|model.tris|]
    }

    ghost predicate HasRun(r: Run)
      requires Valid()
      reads this, stripverts, striptris
    {
      && 1 <= stripcount && stripcount + 2 <= STRIP_VERTS
      && r.verts == stripverts[..stripcount + 2] && r.tris == striptris[..stripcount]
    }

    /** The scan shared by both trials: the first later triangle on the open edge. */
    method Search(starttri: nat, m1: int, m2: int) returns (j: nat, k: nat)
      requires Valid() && starttri < |model.tris|
      ensures j == FirstTouching(model, starttri + 1, model.tris[starttri].facesfront, m1, m2)
      ensures j < |model.tris| ==> k == EdgeAt(model.tris[j], m1, m2)
    {
      var last := model.tris[starttri];
      j, k := starttri + 1, 0;
      while j < |model.tris|
        invariant starttri + 1 <= j <= |model.tris|
        invariant FirstTouching(model, starttri + 1, last.facesfront, m1, m2)
               == FirstTouching(model, j, last.facesfront, m1, m2)
      {
        var check := model.tris[j];
        assert model.ValidTriangle(check);
        if check.facesfront == last.facesfront {
          k := 0;
          while k < 3
            invariant 0 <= k <= 3 && EdgeAt(check, m1, m2) >= k
          {
            if check.vertindex[k] == m1 && check.vertindex[(k + 1) % 3] == m2 {
              return;
            }
            k := k + 1;
          }
        }
        j := j + 1;
      }
    }

    /** Put the three corners of the first triangle into the scratch strip. */
    method Start(starttri: nat, startv: nat, ghost strip: bool)
      requires Valid() && starttri < |model.tris| && startv < 3
      modifies used, stripverts, striptris, `stripcount
      ensures HasRun(FirstOf(model, starttri, startv, strip)) && stripcount == 1
      ensures used[..] == old(used[..])[starttri := 2]
    {
      used[starttri] := 2;
      var v := model.tris[starttri].vertindex;
      assert model.ValidTriangle(model.tris[starttri]);
      stripverts[0], stripverts[1], stripverts[2] := v[startv % 3], v[(startv + 1) % 3], v[(startv + 2) % 3];
      striptris[0] := starttri;
      stripcount := 1;
    }

    /** Add triangle `j`, whose remaining corner is `v`, to the scratch strip and mark it. */
    method Take(j: nat, v: int, ghost r: Run)
      requires Valid() && HasRun(r) && stripcount + 2 < STRIP_VERTS && j < |model.tris|
      modifies used, stripverts, striptris, `stripcount
      ensures HasRun(Run(r.strip, r.verts + [v], r.tris + [j])) && stripcount == old(stripcount) + 1
      ensures used[..] == old(used[..])[j := 2]
    {
      stripverts[stripcount + 2] := v;
      striptris[stripcount] := j;
      stripcount := stripcount + 1;
      used[j] := 2;
    }

    /** The marks while a trial from `starttri` runs: besides `starttri`, only free triangles became 2. */
    ghost predicate Marked(was: seq<int>, starttri: nat)
      requires Valid()
      reads used
    {
      && starttri < |was| == |model.tris| && used[starttri] == 2
      && (forall j :: 0 <= j < |was| && j != starttri ==>
        used[j] == was[j] || (used[j] == 2 && was[j] == 0 && j > starttri))
    }

    /** Undo the marks of a trial. */
    method ClearMarks(starttri: nat, ghost was: seq<int>)
      requires Valid() && Marked(was, starttri)
      requires forall j :: starttri < j < |was| ==> was[j] != 2
      modifies used
      ensures Marks() == was[starttri := 2]
    {
      for j := starttri + 1 to |model.tris|
        invariant Marked(was, starttri)
        invariant forall i :: starttri < i < j ==> used[i] == was[i]
      {
        if used[j] == 2 { used[j] := 0; }
      }
    }

    /** The state of a trial from `starttri`: the scratch strip holds `r`, on its way to `target`. */
    ghost predicate Growing(r: Run, starttri: nat, was: seq<int>, target: Run)
      requires Valid()
      reads this, used, stripverts, striptris
    {
      && WellFormed(model, r) && HasRun(r) && r.tris[0] == starttri && Marked(was, starttri)
      && target == Grow(model, Free(Marks()), r)
    }

    /**
     One round of the `nexttri` loop: find the next triangle over the edge `m1 -> m2` and, if it is
     free, add it.  `x` is the vertex it brings.
     */
    method Extend(starttri: nat, m1: int, m2: int, ghost r: Run, ghost was: seq<int>, ghost target: Run)
        returns (outcome: Outcome, x: int, ghost r': Run)
      requires Valid() && Growing(r, starttri, was, target)
      requires (m1, m2) == OpenEdge(r.strip, r.verts, |r.tris|)
      modifies used, stripverts, striptris, `stripcount
      ensures !outcome.Full? ==> Growing(r', starttri, was, target)
      ensures outcome.Done? ==> r' == target
      ensures outcome.Full? ==> |target.verts| > STRIP_VERTS
      ensures outcome.More? ==> r'.strip == r.strip && r'.verts == r.verts + [x] && stripcount == old(stripcount) + 1
      ensures outcome.More? ==> Free(Marks()) < Free(old(Marks()))
    {
      x := 0;
      var j, k := Search(starttri, m1, m2);
      if j == |model.tris| || used[j] != 0 {
        return Done, x, r;
      }
      ghost var free := Free(Marks());
      assert j in free;
      x := model.tris[j].vertindex[(k + 2) % 3];
      r' := Attach(model, r, j, m1, m2);
      if stripcount + 2 >= STRIP_VERTS {
        return Full, x, r';
      }
      Take(j, x, r);
      assert Free(Marks()) == free - {j};
      return More, x, r';
    }

    /** A trial begins; its result is already determined. */
    method Begin(starttri: nat, startv: nat, ghost strip: bool) returns (ghost r: Run, ghost target: Run)
      requires Valid() && starttri < |model.tris| && startv < 3
      modifies used, stripverts, striptris, `stripcount
      ensures Growing(r, starttri, old(Marks()), target) && stripcount == 1
      ensures target == Trial(model, Free(old(Marks())), starttri, strip, startv)
      ensures r == FirstOf(model, starttri, startv, strip)
    {
      Start(starttri, startv, strip);
      r := FirstOf(model, starttri, startv, strip);
      target := Trial(model, Free(old(Marks())), starttri, strip, startv);
      assert Free(Marks()) == Free(old(Marks())) - {starttri};
    }

    /** The edge after a strip of `count` triangles has grown by vertex `x`. */
    method NewStripEdge(count: nat, m1: int, m2: int, x: int, ghost verts: seq<int>) returns (n1: int, n2: int)
      requires |verts| == count + 2 && count >= 1
      requires (m1, m2) == OpenEdge(true, verts, count)
      ensures (n1, n2) == OpenEdge(true, verts + [x], count + 1)
    {
      NextOpenEdge(true, verts, count, x);
      if count % 2 == 1 { return m1, x; } else { return x, m2; }
    }

    method StripLength(starttri: nat, startv: nat) returns (fits: bool)
      requires Valid() && starttri < |model.tris| && startv < 3
      requires forall j :: starttri < j < |model.tris| ==> used[j] != 2
      modifies used, stripverts, striptris, `stripcount
      ensures fits == (|Trial(model, Free(old(Marks())), starttri, true, startv).verts| <= STRIP_VERTS)
      ensures fits ==> HasRun(Trial(model, Free(old(Marks())), starttri, true, startv))
      ensures fits ==> Marks() == old(Marks())[starttri := 2]
    {
      hide Grow, FirstTouching;
      ghost var r, target := Begin(starttri, startv, true);
      var v := model.tris[starttri].vertindex;
      assert model.ValidTriangle(model.tris[starttri]);
      var m1, m2 := v[(startv + 2) % 3], v[(startv + 1) % 3];
      while true
        invariant Growing(r, starttri, old(Marks()), target) && r.strip
        invariant (m1, m2) == OpenEdge(true, r.verts, |r.tris|)
        decreases Free(Marks())
      {
        var outcome, x;
        ghost var before := r;
        outcome, x, r := Extend(starttri, m1, m2, r, old(Marks()), target);
        if outcome.Done? { break; }
        if outcome.Full? { return false; }
        m1, m2 := NewStripEdge(stripcount - 1, m1, m2, x, before.verts);
      }
      ClearMarks(starttri, old(Marks()));
      return true;
    }

    method FanLength(starttri: nat, startv: nat) returns (fits: bool)
      requires Valid() && starttri < |model.tris| && startv < 3
      requires forall j :: starttri < j < |model.tris| ==> used[j] != 2
      modifies used, stripverts, striptris, `stripcount
      ensures fits == (|Trial(model, Free(old(Marks())), starttri, false, startv).verts| <= STRIP_VERTS)
      ensures fits ==> HasRun(Trial(model, Free(old(Marks())), starttri, false, startv))
      ensures fits ==> Marks() == old(Marks())[starttri := 2]
    {
      hide Grow, FirstTouching;
      ghost var r, target := Begin(starttri, startv, false);
      var v := model.tris[starttri].vertindex;
      assert model.ValidTriangle(model.tris[starttri]);
      var m1, m2 := v[startv % 3], v[(startv + 2) % 3];
      while true
        invariant Growing(r, starttri, old(Marks()), target) && !r.strip
        invariant (m1, m2) == OpenEdge(false, r.verts, |r.tris|)
        decreases Free(Marks())
      {
        var outcome, x;
        ghost var before := r;
        outcome, x, r := Extend(starttri, m1, m2, r, old(Marks()), target);
        if outcome.Done? { break; }
        if outcome.Full? { return false; }
        NextOpenEdge(false, before.verts, |before.tris|, x);
        m2 := x;
      }
      ClearMarks(starttri, old(Marks()));
      return true;
    }

    /** `was` are the marks before the first trial from `i`; a trial only changes the mark of `i`. */
    ghost predicate Between(was: seq<int>, i: nat)
      requires Valid()
      reads used
    {
      && i < |was| == |model.tris| && (Marks() == was || Marks() == was[i := 2])
      && forall j :: 0 <= j < |was| ==> was[j] != 2
    }

    method Try(i: nat, kind: int, startv: nat, ghost was: seq<int>) returns (fits: bool)
      requires Valid() && Between(was, i) && startv < 3
      modifies used, stripverts, striptris, `stripcount
      ensures fits == (|Trial(model, Free(was), i, kind == 1, startv).verts| <= STRIP_VERTS)
      ensures fits ==> HasRun(Trial(model, Free(was), i, kind == 1, startv)) && Marks() == was[i := 2]
    {
      assert Free(Marks()) - {i} == Free(was) - {i};
      if kind == 1 { fits := StripLength(i, startv); } else { fits := FanLength(i, startv); }
    }

    /** Trial number `n`: keep its run if it is longer than the best so far. */
    method TryAndKeep(i: nat, kind: int, startv: nat, best: Run, ghost n: nat, ghost was: seq<int>)
        returns (fits: bool, better: Run)
      requires Valid() && Between(was, i) && startv < 3 && n < 6
      requires (kind == 1) == (n >= 3) && startv == StartCorner(n)
      requires Tried(Free(was), i, n, best)
      modifies used, stripverts, striptris, `stripcount
      ensures !fits ==> !AllFit(Trials(model, Free(was), i, 6))
      ensures fits ==> Tried(Free(was), i, n + 1, better) && Marks() == was[i := 2]
    {
      better := best;
      fits := Try(i, kind, startv, was);
      if !fits {
        TrialTooLong(Free(was), i, n);
        return;
      }
      TrialFits(Free(was), i, n, best, Trial(model, Free(was), i, kind == 1, startv));
      if stripcount > |best.tris| {
        better := Run(kind == 1, stripverts[..stripcount + 2], striptris[..stripcount]);
      }
    }

    /** Try three fans and three strips from triangle `i` and keep the first longest one. */
    method FindBest(i: nat) returns (fits: bool, best: Run)
      requires Valid() && Between(Marks(), i)
      modifies used, stripverts, striptris, `stripcount
      ensures fits == AllFit(Trials(model, Free(old(Marks())), i, 6))
      ensures fits ==> best == Longest(Trials(model, Free(old(Marks())), i, 6))
      ensures fits ==> Marks() == old(Marks())[i := 2]
    {
      hide Trial, Trials;
      ghost var was := Marks();
      best := Run(false, [], []);
      for kind := 0 to 2
        invariant Tried(Free(was), i, 3 * kind, best)
        invariant Between(was, i) && (kind > 0 ==> Marks() == was[i := 2])
      {
        for startv := 0 to 3
          invariant Tried(Free(was), i, 3 * kind + startv, best)
          invariant Between(was, i) && (kind > 0 || startv > 0 ==> Marks() == was[i := 2])
        {
          fits, best := TryAndKeep(i, kind, startv, best, 3 * kind + startv, was);
          if !fits { return; }
        }
      }
      fits := true;
    }

    /** `best` is the first longest of the first `n` trials, all of which fitted. */
    ghost predicate Tried(free: set<nat>, i: nat, n: nat, best: Run)
      requires Valid() && i < |model.tris|
    {
      && AllFit(Trials(model, free, i, n))
      && if n == 0 then best.tris == [] else best == Longest(Trials(model, free, i, n))
    }

    lemma TrialFits(free: set<nat>, i: nat, n: nat, best: Run, t: Run)
      requires Valid() && i < |model.tris| && Tried(free, i, n, best)
      requires t == Trial(model, free, i, n >= 3, StartCorner(n)) && |t.verts| <= STRIP_VERTS
      ensures Tried(free, i, n + 1, Longer(best, t))
    {
      LongestAppend(Trials(model, free, i, n), t);
    }

    lemma TrialTooLong(free: set<nat>, i: nat, n: nat)
      requires Valid() && i < |model.tris| && n < 6
      requires |Trial(model, free, i, n >= 3, StartCorner(n)).verts| > STRIP_VERTS
      ensures !AllFit(Trials(model, free, i, 6))
    {
      TrialsAt(model, free, i, 6, n);
    }

    /** Mark the triangles of the chosen run as emitted. */
    method MarkUsed(tris: seq<nat>, ghost was: seq<int>, ghost i: nat)
      requires Valid() && i < |was| == |model.tris| && Marks() == was[i := 2] && i in tris
      requires forall j :: 0 <= j < |tris| ==> tris[j] < |model.tris|
      requires forall j :: 0 <= j < |was| ==> was[j] != 2
      modifies used
      ensures forall t :: 0 <= t < |model.tris| ==> used[t] == if t in tris then 1 else was[t]
    {
      for j := 0 to |tris|
        invariant forall t :: 0 <= t < |model.tris| ==> used[t] == if t in tris[..j] then 1 else was[i := 2][t]
      {
        used[tris[j]] := 1;
        assert forall t :: t in tris[..j + 1] <==> t in tris[..j] || t == tris[j];
      }
      assert tris[..|tris|] == tris;
    }

    /** Append a word to the command list. */
    method EmitWord(w: Word)
      requires Valid() && numcommands < COMMAND_WORDS
      modifies commands, `numcommands
      ensures numcommands == old(numcommands) + 1
      ensures commands[..numcommands] == old(commands[..numcommands]) + [w]
    {
      commands[numcommands] := w;
      numcommands := numcommands + 1;
    }

    /** Append a vertex to the reorder list and its skin coordinates to the command list. */
    method EmitVertex(front: int, k: int)
      requires Valid() && 0 <= k < |model.stverts|
      requires numcommands + 2 <= COMMAND_WORDS && numorder < COMMAND_WORDS
      modifies commands, vertexorder, `numcommands, `numorder
      ensures numcommands == old(numcommands) + 2 && numorder == old(numorder) + 1
      ensures var c := SkinCorner(model, front, k);
        commands[..numcommands] == old(commands[..numcommands]) + [Coord(c.s), Coord(c.t)]
      ensures vertexorder[..numorder] == old(vertexorder[..numorder]) + [k]
    {
      vertexorder[numorder] := k;
      numorder := numorder + 1;
      var c := SkinCorner(model, front, k);
      EmitWord(Coord(c.s));
      EmitWord(Coord(c.t));
    }

    /** Append one run to both lists. */
    method Emit(r: Run)
      requires Valid() && Emittable(model, r)
      requires numcommands + 1 + 2 * |r.verts| <= COMMAND_WORDS && numorder + |r.verts| <= COMMAND_WORDS
      modifies commands, vertexorder, `numcommands, `numorder
      ensures numcommands == old(numcommands) + 1 + 2 * |r.verts| && numorder == old(numorder) + |r.verts|
      ensures commands[..numcommands] == old(commands[..numcommands]) + RunWords(model, r)
      ensures vertexorder[..numorder] == old(vertexorder[..numorder]) + r.verts
    {
      hide SkinCorner;
      var front := model.tris[r.tris[0]].facesfront;
      EmitWord(Count(if r.strip then |r.verts| else -|r.verts|));
      ghost var before, order := commands[..numcommands], vertexorder[..numorder];
      for j := 0 to |r.verts|
        invariant numcommands == old(numcommands) + 1 + 2 * j && numorder == old(numorder) + j
        invariant commands[..numcommands] == before + CoordWords(model, front, r.verts[..j])
        invariant vertexorder[..numorder] == order + r.verts[..j]
      {
        EmitVertex(front, r.verts[j]);
        assert r.verts[..j + 1][..j] == r.verts[..j];
      }
      assert r.verts[..|r.verts|] == r.verts;
    }

    ghost function Everything(): set<nat> { Free(seq(|model.tris|, _ => 0)) }

    /** The two lists hold the runs `done`. */
    ghost predicate Holds(done: seq<Run>)
      requires Valid()
      reads this, commands, vertexorder
    {
      && numcommands < COMMAND_WORDS && numorder <= numcommands
      && AllEmittable(model, done)
      && commands[..numcommands] == Words(model, done) && vertexorder[..numorder] == Order(done)
    }

    /** What is left to do: the runs from triangle `i` on over the triangles `free`. */
    ghost predicate Remaining(done: seq<Run>, i: nat, free: set<nat>)
      requires model.Valid() && i <= |model.tris|
    {
      && CompileAll(model) == done + Compile(model, i, free)
      && TrialsFit(model, 0, Everything()) == TrialsFit(model, i, free)
    }

    ghost predicate Clean()
      requires Valid()
      reads used
    {
      forall j :: 0 <= j < |model.tris| ==> used[j] == 0 || used[j] == 1
    }

    /** The models the fixed buffers have room for. */
    ghost predicate Fits()
      requires Valid()
    {
      TrialsFit(model, 0, Everything()) && 2 * |model.tris| + 5 * |CompileAll(model)| + 1 <= COMMAND_WORDS
    }

    lemma RunAdded(done: seq<Run>, i: nat, free: set<nat>) returns (b: Run, rest: seq<Run>)
      requires model.Valid() && i < |model.tris| && i in free && Remaining(done, i, free) && AllEmittable(model, done)
      ensures b == Longest(Trials(model, free, i, 6)) && i in b.tris && Emittable(model, b)
      ensures CompileAll(model) == done + [b] + rest && AllEmittable(model, done + [b])
      ensures Words(model, done + [b]) == Words(model, done) + RunWords(model, b)
      ensures Order(done + [b]) == Order(done) + b.verts
      ensures AllFit(Trials(model, free, i, 6)) ==> Remaining(done + [b], i + 1, free - Members(b.tris))
      ensures !AllFit(Trials(model, free, i, 6)) ==> !TrialsFit(model, 0, Everything())
    {
      b := BestIsFaithful(model, free, i);
      assert b.tris[0] == i;
      FaithfulIsEmittable(model, b);
      rest := Compile(model, i + 1, free - Members(b.tris));
      assert done + ([b] + rest) == done + [b] + rest;
      WordsAppend(model, done, b);
    }

    lemma NoRoom(done: seq<Run>, rest: seq<Run>)
      requires Valid() && AllEmittable(model, done) && CompileAll(model) == done + rest
      requires |Words(model, done)| >= COMMAND_WORDS
      ensures !Fits()
    {
      CompileAllEmittable(model);
      ListSizes(model);
      WordsPrefix(model, done, rest);
    }

    /** Emit the chosen run if there is room for it and for the end marker. */
    method EmitBest(i: nat, best: Run, ghost was: seq<int>, ghost done: seq<Run>, ghost rest: seq<Run>)
        returns (fits: bool)
      requires Valid() && i < |was| == |model.tris| && Marks() == was[i := 2] && i in best.tris
      requires Emittable(model, best)
      requires forall j :: 0 <= j < |was| ==> was[j] == 0 || was[j] == 1
      requires Holds(done) && AllEmittable(model, done + [best]) && CompileAll(model) == done + [best] + rest
      requires Words(model, done + [best]) == Words(model, done) + RunWords(model, best)
      requires Order(done + [best]) == Order(done) + best.verts
      modifies used, commands, vertexorder, `numcommands, `numorder
      ensures fits ==> Clean() && Holds(done + [best]) && Free(Marks()) == Free(was) - Members(best.tris)
      ensures !fits ==> !Fits()
    {
      if numcommands + 1 + 2 * |best.verts| >= COMMAND_WORDS {
        NoRoom(done + [best], rest);
        return false;
      }
      MarkUsed(best.tris, was, i);
      assert Free(Marks()) == Free(was) - Members(best.tris);
      Emit(best);
      return true;
    }

    lemma SkipUsed(done: seq<Run>, i: nat, free: set<nat>)
      requires model.Valid() && i < |model.tris| && Remaining(done, i, free) && i !in free
      ensures Remaining(done, i + 1, free)
    {
    }

    /** One free triangle of the main loop: emit the best run that starts with it. */
    method EmitFrom(i: nat, ghost done: seq<Run>) returns (fits: bool, ghost done': seq<Run>)
      requires Valid() && i < |model.tris| && Clean() && Holds(done) && Remaining(done, i, Free(Marks()))
      requires used[i] == 0
      modifies used, stripverts, striptris, `stripcount, commands, vertexorder, `numcommands, `numorder
      ensures fits ==> Clean() && Holds(done') && Remaining(done', i + 1, Free(Marks()))
      ensures !fits ==> !Fits()
    {
      hide Compile, Trials, Longest, TrialsFit, Words, Order, RunWords;
      ghost var was := Marks();
      ghost var b, rest := RunAdded(done, i, Free(was));
      done' := done + [b];
      var best;
      fits, best := FindBest(i);
      if !fits { return; }
      fits := EmitBest(i, best, was, done, rest);
    }

    method ClearUsed()
      requires Valid()
      modifies used
      ensures Marks() == seq(|model.tris|, _ => 0)
    {
      for i := 0 to |model.tris|
        invariant forall j :: 0 <= j < i ==> used[j] == 0
      {
        used[i] := 0;
      }
    }

    lemma AllRemains(done: seq<Run>)
      requires model.Valid()
      ensures Remaining([], 0, Everything())
      ensures Remaining(done, |model.tris|, {}) ==> done == CompileAll(model) && TrialsFit(model, 0, Everything())
      ensures forall free :: Remaining(done, |model.tris|, free) ==> Remaining(done, |model.tris|, {})
    {
    }

    /** The main loop over all triangles. */
    method EmitAll() returns (fits: bool)
      requires Valid() && Marks() == seq(|model.tris|, _ => 0) && Holds([])
      modifies used, stripverts, striptris, `stripcount, commands, vertexorder, `numcommands, `numorder
      ensures if fits then Holds(CompileAll(model)) && TrialsFit(model, 0, Everything()) else !Fits()
    {
      ghost var done: seq<Run> := [];
      AllRemains(done);
      for i := 0 to |model.tris|
        invariant Clean() && Holds(done) && Remaining(done, i, Free(Marks()))
      {
        if used[i] != 0 {
          SkipUsed(done, i, Free(Marks()));
          continue;
        }
        fits, done := EmitFrom(i, done);
        if !fits { return; }
      }
      AllRemains(done);
      fits := true;
    }

    /**
     Compile the model.  Returns true exactly when everything fits; then the two lists are the
     compiled model, which draws as module Mesh proves.
     */
    method BuildTris() returns (fits: bool)
      requires Valid()
      modifies used, stripverts, striptris, `stripcount, commands, vertexorder, `numcommands, `numorder
      ensures fits == Fits()
      ensures fits ==> numorder <= numcommands <= COMMAND_WORDS
      ensures fits ==> AllEmittable(model, CompileAll(model))
      ensures fits ==> commands[..numcommands] == Words(model, CompileAll(model)) + [Count(0)]
      ensures fits ==> vertexorder[..numorder] == Order(CompileAll(model))
      ensures fits ==> numorder == |model.tris| + 2 * |CompileAll(model)|
      ensures fits ==> numcommands == 2 * |model.tris| + 5 * |CompileAll(model)| + 1
    {
      numorder, numcommands := 0, 0;
      ClearUsed();
      fits := EmitAll();
      if !fits { return; }
      EmitWord(Count(0));
      ListSizes(model);
    }

    /** Compiling and drawing the compiled lists: every triangle once, as it was. */
    method BuildAndDraw() returns (fits: bool, drawing: Drawing, ghost perm: seq<nat>)
      requires Valid()
      modifies used, stripverts, striptris, `stripcount, commands, vertexorder, `numcommands, `numorder
      ensures fits == Fits()
      ensures fits ==> numorder <= numcommands <= COMMAND_WORDS
      ensures fits ==> drawing == Draw(commands[..numcommands], vertexorder[..numorder])
      ensures fits ==> drawing.Faces? && Depicts(model, drawing.faces, perm)
      ensures fits ==> forall j :: 0 <= j < |perm| ==> DrawnFrom(model, model.tris[perm[j]], drawing.faces[j])
      ensures fits ==> |perm| == |model.tris| && forall t :: 0 <= t < |model.tris| ==> multiset(perm)[t] == 1
    {
      fits := BuildTris();
      drawing := if fits then Draw(commands[..numcommands], vertexorder[..numorder]) else Malformed;
      perm := DrawingIsTheModel(model);
    }
  }
}
