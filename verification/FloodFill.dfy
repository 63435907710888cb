/**
 Filling the background of a skin: a breadth-first flood fill from the corner, with the work
 list in a 4096-entry ring and visited pixels marked by colour 255 inside the image itself.
 */
module FloodFill {
  import opened Basics

  const FIFO_SIZE := 0x1000
  const VISITED: byte := 255

  datatype Pixel = Pixel(x: nat, y: nat)

  type Image = map<Pixel, byte>

  // ----- What is to be filled -----------------------------------------------------------------

  ghost predicate Adjacent(p: Pixel, q: Pixel) {
    || (p.y == q.y && (q.x == p.x + 1 || p.x == q.x + 1))
    || (p.x == q.x && (q.y == p.y + 1 || p.y == q.y + 1))
  }

  const CORNER := Pixel(0, 0)

  /** A 4-connected path of pixels of colour `fill` from the corner. */
  ghost predicate IsPath(orig: Image, fill: byte, path: seq<Pixel>) {
    && path != [] && path[0] == CORNER
    && (forall i :: 0 <= i < |path| ==> path[i] in orig && orig[path[i]] == fill)
    && (forall i :: 0 < i < |path| ==> Adjacent(path[i - 1], path[i]))
  }

  /** The background: the pixels a path leads to. */
  ghost predicate InBackground(orig: Image, fill: byte, p: Pixel) {
    exists path :: IsPath(orig, fill, path) && path[|path| - 1] == p
  }

  /** A colour the fill may use: the default, or one found next to the background. */
  ghost predicate IsFillColour(orig: Image, fill: byte, filled: byte, c: byte) {
    && c != fill
    && (c == filled || (c != VISITED && exists p, q ::
      InBackground(orig, fill, p) && Adjacent(p, q) && q in orig && orig[q] == c))
  }

  /** `img` is `orig` with exactly the background recoloured. */
  ghost predicate Filled(orig: Image, fill: byte, filled: byte, img: Image) {
    && img.Keys == orig.Keys
    && forall p :: p in orig ==>
        if InBackground(orig, fill, p) then IsFillColour(orig, fill, filled, img[p]) else img[p] == orig[p]
  }

  lemma ExtendBackground(orig: Image, fill: byte, p: Pixel, q: Pixel)
    requires InBackground(orig, fill, p) && Adjacent(p, q) && q in orig && orig[q] == fill
    ensures InBackground(orig, fill, q)
  {
    var path :| IsPath(orig, fill, path) && path[|path| - 1] == p;
    assert IsPath(orig, fill, path + [q]);
    assert (path + [q])[|path|] == q;
  }

  /** Closed under neighbours of the fill colour. */
  ghost predicate Closed(orig: Image, fill: byte, s: set<Pixel>) {
    forall p, q :: p in s && Adjacent(p, q) && q in orig && orig[q] == fill ==> q in s
  }

  lemma {:induction false} ClosedHoldsPath(orig: Image, fill: byte, s: set<Pixel>, path: seq<Pixel>)
    requires Closed(orig, fill, s) && CORNER in s && IsPath(orig, fill, path)
    ensures path[|path| - 1] in s
  {
    var n := |path| - 1;
    if n > 0 {
      assert IsPath(orig, fill, path[..n]);
      ClosedHoldsPath(orig, fill, s, path[..n]);
      assert Adjacent(path[n - 1], path[n]);
    }
  }

  // ----- The invariant ---------------------------------------------------------------------------

  /** Everything about a run: the original, the colours, and the pixels reached so far. */
  datatype State = State(orig: Image, fill: byte, filled: byte, img: Image, visited: set<Pixel>, pending: seq<Pixel>)

  /** `p` has its final colour, and its neighbours have been reached. */
  ghost predicate Settled(s: State, p: Pixel) {
    && p in s.img && IsFillColour(s.orig, s.fill, s.filled, s.img[p])
    && forall q :: Adjacent(p, q) && q in s.orig && s.orig[q] == s.fill ==> q in s.visited
  }

  /** The current pixel is marked, except the corner, which the first round finds unmarked. */
  ghost predicate Marked(s: State, p: Pixel) {
    p in s.img && (s.img[p] == VISITED || (p == CORNER && s.img[p] == s.fill))
  }

  /** Before the first round the corner is on the list and nothing is marked. */
  ghost predicate Initial(s: State) {
    && CORNER in s.orig && s.img == s.orig && s.orig[CORNER] == s.fill
    && s.fill != VISITED && s.fill != s.filled
    && s.pending == [CORNER] && s.visited == {CORNER}
  }

  /**
   The invariant of the work list; `current` is the pixel being processed, if any.  Each pixel
   enters `visited` once, when it is put on the list.
   */
  ghost predicate Inv(s: State, current: set<Pixel>) {
    && s.img.Keys == s.orig.Keys && s.visited <= s.orig.Keys
    && s.fill != VISITED && s.fill != s.filled
    && CORNER in s.visited && Distinct(s.pending)
    && (forall p :: p in s.visited ==> InBackground(s.orig, s.fill, p))
    && (forall p :: p in s.orig && p !in s.visited ==> s.img[p] == s.orig[p])
    && (forall p :: p in s.pending ==> p in s.visited && p !in current && s.img[p] == VISITED)
    && (forall p :: p in current ==> p in s.visited && Marked(s, p))
    && (forall p :: p in s.visited && p !in s.pending && p !in current ==> Settled(s, p))
  }

  /** Reaching a neighbour `q` of the current pixel that still has the fill colour. */
  ghost function Reach(s: State, q: Pixel): State {
    s.(img := s.img[q := VISITED], visited := s.visited + {q}, pending := s.pending + [q])
  }

  lemma FillColourMeansNew(s: State, p: Pixel, q: Pixel)
    requires Inv(s, {p}) && Adjacent(p, q) && q in s.img && s.img[q] == s.fill
    ensures q !in s.visited && s.orig[q] == s.fill
  {
    hide IsFillColour, InBackground;
    assert q !in s.visited by {
      if q in s.visited && q !in s.pending { SettledIsNotFill(s, q); }
    }
  }

  lemma SettledIsNotFill(s: State, q: Pixel)
    requires Settled(s, q)
    ensures s.img[q] != s.fill
  {
  }

  lemma CornerIsBackground(orig: Image, fill: byte)
    requires CORNER in orig && orig[CORNER] == fill
    ensures InBackground(orig, fill, CORNER)
  {
    assert IsPath(orig, fill, [CORNER]);
  }

  /** Taking the first pixel off the list makes it the current one. */
  lemma PopKeepsInv(s: State)
    requires (Inv(s, {}) || Initial(s)) && s.pending != []
    ensures Inv(s.(pending := s.pending[1..]), {s.pending[0]})
  {
    hide IsFillColour, InBackground;
    var t := s.(pending := s.pending[1..]);
    if Initial(s) {
      CornerIsBackground(s.orig, s.fill);
    } else {
      forall r | r in t.visited && r !in t.pending && r != s.pending[0] ensures Settled(t, r) {
        assert r !in s.pending;
        assert Settled(s, r);
      }
      assert forall r :: r in t.pending ==> r in s.pending && r != s.pending[0];
    }
  }

  lemma ReachKeepsInv(s: State, p: Pixel, q: Pixel)
    requires Inv(s, {p}) && Adjacent(p, q) && q in s.img && s.img[q] == s.fill
    ensures Inv(Reach(s, q), {p})
  {
    hide IsFillColour, InBackground, Adjacent, Settled;
    FillColourMeansNew(s, p, q);
    ExtendBackground(s.orig, s.fill, p, q);
    var t := Reach(s, q);
    assert forall r :: r in t.pending <==> r in s.pending || r == q;
    assert Distinct(t.pending);
    forall r | r in t.visited && r !in t.pending && r != p ensures Settled(t, r) {
      StillSettled(s, t, r);
    }
  }

  lemma StillSettled(s: State, t: State, r: Pixel)
    requires Settled(s, r) && t.orig == s.orig && t.fill == s.fill && t.filled == s.filled
    requires r in s.img && r in t.img && t.img[r] == s.img[r] && s.visited <= t.visited
    ensures Settled(t, r)
  {
    hide IsFillColour;
  }

  /** A neighbour that is neither free nor marked offers a colour. */
  lemma OfferedColour(s: State, p: Pixel, q: Pixel)
    requires Inv(s, {p}) && Adjacent(p, q) && q in s.img && s.img[q] != s.fill && s.img[q] != VISITED
    ensures IsFillColour(s.orig, s.fill, s.filled, s.img[q])
  {
    if q in s.visited {
      assert Settled(s, q);
    } else {
      assert InBackground(s.orig, s.fill, p);
    }
  }

  /** A neighbour of the fill colour has been reached once it is passed over. */
  lemma PassedOver(s: State, p: Pixel, q: Pixel)
    requires Inv(s, {p}) && Adjacent(p, q) && q in s.img && s.img[q] != s.fill
    ensures s.orig[q] == s.fill ==> q in s.visited
  {
  }

  /** All four neighbours done: the current pixel gets its colour. */
  lemma SettleKeepsInv(s: State, p: Pixel, c: byte)
    requires Inv(s, {p}) && IsFillColour(s.orig, s.fill, s.filled, c)
    requires forall q :: Adjacent(p, q) && q in s.orig && s.orig[q] == s.fill ==> q in s.visited
    ensures Inv(Coloured(s, p, c), {})
  {
    hide IsFillColour, InBackground, Adjacent;
    var t := Coloured(s, p, c);
    forall r | r in t.visited && r !in t.pending ensures Settled(t, r) {
      if r != p { assert Settled(s, r); }
    }
  }

  /** An empty work list means the job is done. */
  lemma EmptyListMeansFilled(s: State)
    requires Inv(s, {}) && s.pending == []
    ensures Filled(s.orig, s.fill, s.filled, s.img)
    ensures forall p :: p in s.orig ==> (p in s.visited <==> InBackground(s.orig, s.fill, p))
  {
    assert Closed(s.orig, s.fill, s.visited) by {
      forall p | p in s.visited ensures Settled(s, p) { }
    }
    forall p | p in s.orig && InBackground(s.orig, s.fill, p) ensures p in s.visited {
      var path :| IsPath(s.orig, s.fill, path) && path[|path| - 1] == p;
      ClosedHoldsPath(s.orig, s.fill, s.visited, path);
    }
    forall p | p in s.visited ensures Settled(s, p) { }
  }

  /** Unless 255 is itself the default colour, no filled pixel keeps the fill colour or the marker. */
  lemma NothingLeftBehind(orig: Image, fill: byte, filled: byte, img: Image, p: Pixel)
    requires Filled(orig, fill, filled, img) && p in orig && InBackground(orig, fill, p)
    ensures img[p] != orig[p] && img[p] != fill
    ensures filled != VISITED ==> img[p] != VISITED
  {
    var path :| IsPath(orig, fill, path) && path[|path| - 1] == p;
    assert orig[p] == fill;
  }

  // ----- The marker ------------------------------------------------------------------------------

  /** A pixel whose colour a look at it takes over. */
  ghost predicate Offering(s: State, q: Pixel) {
    q in s.img && s.img[q] != s.fill && s.img[q] != VISITED
  }

  ghost predicate OfferedTo(s: State, p: Pixel) { exists q :: Adjacent(p, q) && Offering(s, q) }

  /** Around the corner there is nothing but background and pixels of the marker's colour. */
  ghost predicate CornerEnclosed(orig: Image, fill: byte) {
    forall q :: Adjacent(CORNER, q) && q in orig ==> orig[q] == fill || orig[q] == VISITED
  }

  /** No filled pixel is going to keep the marker. */
  ghost predicate Unmarkable(s: State) { s.filled != VISITED || !CornerEnclosed(s.orig, s.fill) }

  /**
   If the corner got a colour, every pixel on the list has a coloured neighbour, the one that reached
   it, and no settled pixel has the marker; if not, the corner has the marker for good.
   */
  ghost predicate Lit(s: State, current: set<Pixel>) {
    && (Unmarkable(s) ==>
        && (forall p :: p in s.visited && p in s.img && p !in s.pending && p !in current ==> s.img[p] != VISITED)
        && (forall p :: p in s.pending || p in current ==> OfferedTo(s, p)))
    && (!Unmarkable(s) ==> CORNER !in s.pending && CORNER !in current && CORNER in s.img && s.img[CORNER] == VISITED)
  }

  /** `t` comes later than `s` while the neighbours of `p` are looked at. */
  ghost predicate Extends(s: State, t: State, p: Pixel) {
    && t.orig == s.orig && t.fill == s.fill && t.filled == s.filled && t.img.Keys == s.img.Keys
    && (forall q :: q in s.img && s.img[q] != s.fill ==> t.img[q] == s.img[q])
    && (forall q :: q in s.img && s.img[q] == s.fill ==> t.img[q] == s.fill || t.img[q] == VISITED)
    && s.visited <= t.visited && (forall q :: q in t.pending ==> q in s.pending || (Adjacent(p, q) && q !in s.visited))
    && (forall q :: q in t.visited ==> q in s.visited || q in t.pending)
    && (forall q :: q in s.pending ==> q in t.pending)
  }

  lemma ExtendsAgain(s: State, t: State, u: State, p: Pixel)
    requires Extends(s, t, p) && Extends(t, u, p)
    ensures Extends(s, u, p)
  {
    hide Adjacent;
  }

  lemma ExtendsItself(s: State, p: Pixel)
    ensures Extends(s, s, p)
  {
  }

  lemma ReachExtends(s: State, p: Pixel, q: Pixel)
    requires Adjacent(p, q) && q in s.img && s.img[q] == s.fill && q !in s.visited
    ensures Extends(s, Reach(s, q), p)
  {
    hide Adjacent;
    var t := Reach(s, q);
    assert forall r :: r in t.pending <==> r in s.pending || r == q;
  }

  lemma SameOffers(s: State, t: State, p: Pixel, q: Pixel)
    requires Extends(s, t, p)
    ensures Offering(t, q) <==> Offering(s, q)
  {
    hide Adjacent;
  }

  /** Colouring `p` with `c` after all looks. */
  ghost function Coloured(s: State, p: Pixel, c: byte): State { s.(img := s.img[p := c]) }

  /** The neighbour in a direction offers a colour. */
  ghost predicate OffersFrom(s: State, p: Pixel, dx: int, dy: int) {
    p.x + dx >= 0 && p.y + dy >= 0 && Offering(s, Pixel(p.x + dx, p.y + dy))
  }

  /** The round about `p` takes the last colour offered from left, right, above and below, or else the default. */
  ghost predicate RoundColour(s: State, p: Pixel, c: byte) {
    if OffersFrom(s, p, 0, 1) then c == s.img[Pixel(p.x, p.y + 1)]
    else if OffersFrom(s, p, 0, -1) then c == s.img[Pixel(p.x, p.y - 1)]
    else if OffersFrom(s, p, 1, 0) then c == s.img[Pixel(p.x + 1, p.y)]
    else if OffersFrom(s, p, -1, 0) then c == s.img[Pixel(p.x - 1, p.y)]
    else c == s.filled
  }

  lemma OfferedFromAround(s: State, p: Pixel)
    ensures OfferedTo(s, p) <==>
      OffersFrom(s, p, -1, 0) || OffersFrom(s, p, 1, 0) || OffersFrom(s, p, 0, -1) || OffersFrom(s, p, 0, 1)
  {
    if OfferedTo(s, p) {
      var q :| Adjacent(p, q) && Offering(s, q);
      assert q == Pixel(p.x + 1, p.y) || q == Pixel(p.x, p.y + 1)
        || (p.x > 0 && q == Pixel(p.x - 1, p.y)) || (p.y > 0 && q == Pixel(p.x, p.y - 1));
    }
    assert p.x > 0 ==> Adjacent(p, Pixel(p.x - 1, p.y));
    assert p.y > 0 ==> Adjacent(p, Pixel(p.x, p.y - 1));
    assert Adjacent(p, Pixel(p.x + 1, p.y)) && Adjacent(p, Pixel(p.x, p.y + 1));
  }

  /** So the round colours `p` like an offering neighbour, if there is one. */
  lemma RoundColourIs(s: State, p: Pixel, c: byte)
    requires RoundColour(s, p, c)
    ensures if OfferedTo(s, p) then exists q :: Adjacent(p, q) && Offering(s, q) && c == s.img[q] else c == s.filled
  {
    OfferedFromAround(s, p);
    assert p.x > 0 ==> Adjacent(p, Pixel(p.x - 1, p.y));
    assert p.y > 0 ==> Adjacent(p, Pixel(p.x, p.y - 1));
    assert Adjacent(p, Pixel(p.x + 1, p.y)) && Adjacent(p, Pixel(p.x, p.y + 1));
  }

  /** The marker stays only if it is the default colour and no neighbour offers another. */
  lemma RoundMarks(s: State, p: Pixel, c: byte)
    requires RoundColour(s, p, c) && s.fill != s.filled
    ensures c != s.fill && (c != VISITED <==> s.filled != VISITED || OfferedTo(s, p))
  {
    hide OfferedTo, RoundColour;
    RoundColourIs(s, p, c);
  }

  lemma StillOffered(s: State, u: State, p: Pixel, c: byte, q: Pixel)
    requires Extends(s, u, p) && OfferedTo(s, q) && p in s.img && !Offering(s, p)
    ensures OfferedTo(Coloured(u, p, c), q)
  {
    hide Adjacent;
    var r :| Adjacent(q, r) && Offering(s, r);
    assert Offering(Coloured(u, p, c), r);
  }

  lemma NowOffered(u: State, p: Pixel, c: byte, q: Pixel)
    requires Adjacent(p, q) && c != u.fill && c != VISITED
    ensures OfferedTo(Coloured(u, p, c), q)
  {
    assert Adjacent(q, p) && Offering(Coloured(u, p, c), p);
  }

  lemma RoundKeepsLit(s: State, u: State, p: Pixel, c: byte)
    requires Inv(s, {p}) && Lit(s, {p}) && Extends(s, u, p) && RoundColour(s, p, c)
    ensures Lit(Coloured(u, p, c), {})
  {
    hide IsFillColour, InBackground, Adjacent, Settled, CornerEnclosed, OfferedTo, RoundColour;
    var t := Coloured(u, p, c);
    RoundMarks(s, p, c);
    MarkedOffersNothing(s, p);
    if Unmarkable(s) {
      forall q | q in t.pending ensures OfferedTo(t, q) {
        if q in s.pending { StillOffered(s, u, p, c, q); } else { NowOffered(u, p, c, q); }
      }
      forall q | q in t.visited && q in t.img && q !in t.pending && q != p ensures t.img[q] != VISITED {
        SettledColour(s, p, q);
      }
    } else {
      CornerDone(s, p);
    }
  }

  lemma MarkedOffersNothing(s: State, p: Pixel)
    requires Inv(s, {p})
    ensures p in s.img && !Offering(s, p) && p in s.visited
  {
  }

  lemma SettledColour(s: State, p: Pixel, q: Pixel)
    requires Inv(s, {p}) && q in s.visited && q !in s.pending && q != p
    ensures q in s.img && s.img[q] != s.fill
  {
    assert Settled(s, q);
  }

  /** The corner, once it has the marker, is left alone. */
  lemma CornerDone(s: State, p: Pixel)
    requires Inv(s, {p}) && Lit(s, {p}) && !Unmarkable(s)
    ensures CORNER != p && CORNER in s.visited && CORNER !in s.pending
  {
  }

  /** The round about the corner decides. */
  lemma FirstRoundLit(s: State, u: State, c: byte)
    requires Inv(s, {CORNER}) && s.pending == [] && s.visited == {CORNER} && s.img == s.orig
    requires Extends(s, u, CORNER) && RoundColour(s, CORNER, c)
    ensures Lit(Coloured(u, CORNER, c), {})
  {
    hide IsFillColour, InBackground, Adjacent, Settled, RoundColour;
    var t := Coloured(u, CORNER, c);
    RoundMarks(s, CORNER, c);
    CornerOffered(s);
    if Unmarkable(s) {
      forall q | q in t.pending ensures OfferedTo(t, q) { NowOffered(u, CORNER, c, q); }
    } else {
      CornerNotNextToItself();
    }
  }

  lemma CornerOffered(s: State)
    requires s.img == s.orig
    ensures OfferedTo(s, CORNER) <==> !CornerEnclosed(s.orig, s.fill)
  {
    hide Adjacent;
  }

  lemma CornerNotNextToItself()
    ensures !Adjacent(CORNER, CORNER)
  {
  }

  // ----- The colours ------------------------------------------------------------------------------

  /** A colour some pixel next to the background has. */
  ghost predicate Bordering(orig: Image, fill: byte, c: byte) {
    && c != VISITED && c != fill
    && exists p, q :: InBackground(orig, fill, p) && Adjacent(p, q) && q in orig && orig[q] == c
  }

  /** The colour of the pixel below the corner, or of the one to its right, or the default. */
  ghost function CornerColour(orig: Image, fill: byte, filled: byte): byte {
    var right, below := Pixel(1, 0), Pixel(0, 1);
    if below in orig && orig[below] != fill && orig[below] != VISITED then orig[below]
    else if right in orig && orig[right] != fill && orig[right] != VISITED then orig[right]
    else filled
  }

  /** The corner has its colour, and if it found one, only colours next to the background are used. */
  ghost predicate Painted(s: State, current: set<Pixel>) {
    && CORNER !in s.pending && CORNER !in current && CORNER in s.img
    && s.img[CORNER] == CornerColour(s.orig, s.fill, s.filled)
    && (!CornerEnclosed(s.orig, s.fill) ==> forall p ::
        p in s.visited && p in s.img && p !in s.pending && p !in current ==> Bordering(s.orig, s.fill, s.img[p]))
  }

  lemma OfferIsBordering(s: State, p: Pixel, q: Pixel)
    requires Inv(s, {p}) && Adjacent(p, q) && Offering(s, q)
    requires q in s.visited && q !in s.pending && q != p ==> Bordering(s.orig, s.fill, s.img[q])
    ensures Bordering(s.orig, s.fill, s.img[q])
  {
    hide InBackground, Adjacent, Settled, IsFillColour;
    if q !in s.visited {
      assert InBackground(s.orig, s.fill, p) && s.orig[q] == s.img[q];
    } else {
      assert q !in s.pending && q != p;
    }
  }

  lemma RoundKeepsPainted(s: State, u: State, p: Pixel, c: byte)
    requires Inv(s, {p}) && Lit(s, {p}) && Painted(s, {p}) && Extends(s, u, p) && RoundColour(s, p, c)
    ensures Painted(Coloured(u, p, c), {})
  {
    hide IsFillColour, InBackground, Adjacent, CornerEnclosed, OfferedTo, RoundColour, Bordering;
    var t := Coloured(u, p, c);
    CornerStays(s, p);
    if !CornerEnclosed(s.orig, s.fill) {
      RoundColourIs(s, p, c);
      var q :| Adjacent(p, q) && Offering(s, q) && c == s.img[q];
      OfferIsBordering(s, p, q);
      forall r | r in t.visited && r in t.img && r !in t.pending && r != p ensures Bordering(s.orig, s.fill, t.img[r]) {
        SettledColour(s, p, r);
      }
    }
  }

  lemma CornerStays(s: State, p: Pixel)
    requires Inv(s, {p}) && Painted(s, {p})
    ensures CORNER != p && CORNER in s.visited && s.img[CORNER] != s.fill
  {
    hide InBackground, Bordering, CornerEnclosed;
    assert Settled(s, CORNER);
  }

  /** The round about the corner. */
  lemma FirstRoundPaints(s: State, u: State, c: byte)
    requires Inv(s, {CORNER}) && s.pending == [] && s.visited == {CORNER} && s.img == s.orig
    requires Extends(s, u, CORNER) && RoundColour(s, CORNER, c)
    ensures Painted(Coloured(u, CORNER, c), {})
  {
    hide IsFillColour, InBackground, Adjacent, Settled, CornerEnclosed, Bordering, OfferedTo;
    CornerNotNextToItself();
    CornerOffered(s);
    if !CornerEnclosed(s.orig, s.fill) {
      RoundColourIs(s, CORNER, c);
      var q :| Adjacent(CORNER, q) && Offering(s, q) && c == s.img[q];
      OfferIsBordering(s, CORNER, q);
    }
  }

  lemma PopKeepsPainted(s: State)
    requires Painted(s, {}) && s.pending != []
    ensures Painted(s.(pending := s.pending[1..]), {s.pending[0]})
  {
    hide Bordering, CornerEnclosed, CornerColour;
    var t := s.(pending := s.pending[1..]);
    assert s.pending == [s.pending[0]] + t.pending;
  }

  /** What the fill makes of the colours in the end. */
  ghost predicate WellPainted(orig: Image, fill: byte, filled: byte, img: Image) {
    && CORNER in img && img[CORNER] == CornerColour(orig, fill, filled)
    && (!CornerEnclosed(orig, fill) ==> forall p ::
        p in orig && p in img && InBackground(orig, fill, p) ==> Bordering(orig, fill, img[p]))
  }

  lemma FinallyPainted(s: State)
    requires Inv(s, {}) && Painted(s, {}) && s.pending == []
    ensures WellPainted(s.orig, s.fill, s.filled, s.img)
  {
    hide IsFillColour, InBackground, Bordering, CornerEnclosed, Settled;
    EmptyListMeansFilled(s);
  }

  ghost predicate KeepsMarker(orig: Image, fill: byte, img: Image) {
    exists p :: p in orig && p in img && InBackground(orig, fill, p) && img[p] == VISITED
  }

  /** Some filled pixel keeps the marker exactly if the default colour is the marker and the corner is enclosed. */
  lemma MarkerStaysIff(s: State)
    requires Inv(s, {}) && Lit(s, {}) && s.pending == []
    ensures KeepsMarker(s.orig, s.fill, s.img) <==> s.filled == VISITED && CornerEnclosed(s.orig, s.fill)
  {
    hide IsFillColour, InBackground, Adjacent, CornerEnclosed;
    EmptyListMeansFilled(s);
    if !Unmarkable(s) { assert InBackground(s.orig, s.fill, CORNER); }
  }

  /** For one: a skin of a single pixel, with 255 as the default colour, keeps the marker. */
  lemma MarkerCanStay(fill: byte, img: Image)
    requires fill != VISITED && Filled(map[CORNER := fill], fill, VISITED, img)
    ensures img[CORNER] == VISITED && CornerEnclosed(map[CORNER := fill], fill)
  {
    CornerIsBackground(map[CORNER := fill], fill);
    forall q | Adjacent(CORNER, q) ensures q !in map[CORNER := fill] { }
    forall p | InBackground(map[CORNER := fill], fill, p) ensures p == CORNER {
      var path :| IsPath(map[CORNER := fill], fill, path) && path[|path| - 1] == p;
    }
  }

  // ----- The fill as it runs -------------------------------------------------------------------

  ghost function Grid(w: nat, h: nat): set<Pixel> {
    set x: nat, y: nat | x < w && y < h :: Pixel(x, y)
  }

  function Index(w: nat, p: Pixel): nat { p.x + w * p.y }

  lemma IndexBound(w: nat, h: nat, p: Pixel)
    requires p.x < w && p.y < h
    ensures Index(w, p) < w * h
  {
    assert w * p.y <= w * (h - 1);
    assert w * (h - 1) + w == w * h;
  }

  lemma IndexInjective(w: nat, p: Pixel, q: Pixel)
    requires p.x < w && q.x < w && Index(w, p) == Index(w, q)
    ensures p == q
  {
    assert p.y < q.y ==> w * q.y >= w * (p.y + 1) == w * p.y + w;
    assert q.y < p.y ==> w * p.y >= w * (q.y + 1) == w * q.y + w;
  }

  /** The array `skin` shows the image `img`. */
  ghost predicate Shows(skin: array<byte>, w: nat, h: nat, img: Image)
    reads skin
  {
    && skin.Length == w * h
    && forall p :: p in img ==> p.x < w && p.y < h && Index(w, p) < skin.Length && skin[Index(w, p)] == img[p]
  }

  method SetPixel(skin: array<byte>, w: nat, h: nat, p: Pixel, c: byte, ghost img: Image)
    requires Shows(skin, w, h, img) && p in img
    modifies skin
    ensures Shows(skin, w, h, img[p := c])
  {
    skin[Index(w, p)] := c;
    forall q | q in img && q != p ensures skin[Index(w, q)] == img[q] {
      if Index(w, q) == Index(w, p) { IndexInjective(w, p, q); }
    }
  }

  /** The slot `i` places after `outpt` in the ring. */
  function Slot(outpt: nat, i: nat): nat {
    if outpt + i < FIFO_SIZE then outpt + i else outpt + i - FIFO_SIZE
  }

  /** The ring holds the list `pending`. */
  ghost predicate Ring(fifo: array<Pixel>, inpt: nat, outpt: nat, pending: seq<Pixel>)
    reads fifo
  {
    && fifo.Length == FIFO_SIZE && outpt < FIFO_SIZE && |pending| < FIFO_SIZE
    && inpt == Slot(outpt, |pending|)
    && forall i :: 0 <= i < |pending| ==> fifo[Slot(outpt, i)] == pending[i]
  }

  method Enqueue(fifo: array<Pixel>, inpt: nat, q: Pixel, ghost outpt: nat, ghost pending: seq<Pixel>)
      returns (inpt': nat)
    requires Ring(fifo, inpt, outpt, pending) && |pending| + 1 < FIFO_SIZE
    modifies fifo
    ensures Ring(fifo, inpt', outpt, pending + [q])
  {
    fifo[inpt] := q;
    inpt' := (inpt + 1) % FIFO_SIZE;
  }

  method Dequeue(fifo: array<Pixel>, inpt: nat, outpt: nat, ghost pending: seq<Pixel>) returns (p: Pixel, outpt': nat)
    requires Ring(fifo, inpt, outpt, pending) && inpt != outpt
    ensures pending != [] && p == pending[0] && Ring(fifo, inpt, outpt', pending[1..])
  {
    p := fifo[outpt];
    outpt' := (outpt + 1) % FIFO_SIZE;
  }

  method FindFilledColour(palette: seq<int>) returns (filled: byte)
    requires |palette| == 256
    ensures palette[filled] == 255 || (filled == 0 && forall i :: 0 <= i < 256 ==> palette[i] != 255)
    ensures forall i :: 0 <= i < filled ==> palette[i] != 255
  {
    filled := 0;
    var i := 0;
    while i < 256
      invariant 0 <= i <= 256 && filled == 0
      invariant forall j :: 0 <= j < i ==> palette[j] != 255
    {
      if palette[i] == 255 { return i; }
      i := i + 1;
    }
  }

  /** The state of a run as the arrays show it. */
  ghost predicate Running(skin: array<byte>, w: nat, h: nat, fifo: array<Pixel>, inpt: nat, outpt: nat, s: State)
    reads skin, fifo
  {
    && Shows(skin, w, h, s.img) && Ring(fifo, inpt, outpt, s.pending)
    && s.orig.Keys == Grid(w, h)
  }

  /**
   One of the four looks around the current pixel `p`: reach `q` if it is free, otherwise take
   its colour.  Returns false when the ring has no room left.
   */
  method FillStep(skin: array<byte>, w: nat, h: nat, fillcolor: byte, fifo: array<Pixel>, inpt: nat, outpt: nat,
                  fdc: byte, q: Pixel, ghost p: Pixel, ghost s: State)
      returns (fits: bool, inpt': nat, fdc': byte, ghost s': State)
    requires Running(skin, w, h, fifo, inpt, outpt, s) && Inv(s, {p}) && s.fill == fillcolor
    requires Adjacent(p, q) && q.x < w && q.y < h
    requires IsFillColour(s.orig, s.fill, s.filled, fdc)
    modifies skin, fifo
    ensures SameRun(s, s') && Inv(s', {p}) && IsFillColour(s.orig, s.fill, s.filled, fdc')
    ensures q in s.orig && (s.orig[q] == s.fill ==> q in s'.visited)
    ensures Extends(s, s', p) && fdc' == if Offering(s, q) then s.img[q] else fdc
    ensures if fits then Running(skin, w, h, fifo, inpt', outpt, s') else |s'.pending| >= FIFO_SIZE
  {
    hide IsFillColour, Inv, Extends, Adjacent;
    assert q in Grid(w, h);
    InvKeys(s, {p});
    ExtendsItself(s, p);
    fits, inpt', fdc', s' := true, inpt, fdc, s;
    var c := skin[Index(w, q)];
    if c == fillcolor {
      FillColourMeansNew(s, p, q);
      ReachKeepsInv(s, p, q);
      ReachExtends(s, p, q);
      s' := Reach(s, q);
      assert q in s'.visited && q !in s.visited;
      if (inpt + 1) % FIFO_SIZE == outpt {
        return false, inpt, fdc, s';
      }
      SetPixel(skin, w, h, q, VISITED, s.img);
      inpt' := Enqueue(fifo, inpt, q, outpt, s.pending);
    } else {
      PassedOver(s, p, q);
      if c != VISITED {
        OfferedColour(s, p, q);
        fdc' := c;
      }
    }
  }

  /** `t` comes later in the same run than `s`. */
  ghost predicate SameRun(s: State, t: State) {
    && t.orig == s.orig && t.fill == s.fill && t.filled == s.filled
    && s.visited <= t.visited && (t.visited == s.visited ==> t.pending == s.pending)
  }

  lemma InvKeys(s: State, current: set<Pixel>)
    requires Inv(s, current)
    ensures s.img.Keys == s.orig.Keys && s.visited <= s.orig.Keys
    ensures s.fill != s.filled
    ensures forall p :: p in current ==> p in s.img
  {
  }

  ghost predicate Reached(s: State, q: Pixel) {
    q in s.orig && s.orig[q] == s.fill ==> q in s.visited
  }

  /** Look in one direction, unless the image ends there. */
  method Look(skin: array<byte>, w: nat, h: nat, fillcolor: byte, fifo: array<Pixel>, inpt: nat, outpt: nat,
              fdc: byte, p: Pixel, inside: bool, dx: int, dy: int, ghost s: State)
      returns (fits: bool, inpt': nat, fdc': byte, ghost s': State)
    requires Running(skin, w, h, fifo, inpt, outpt, s) && Inv(s, {p}) && s.fill == fillcolor
    requires (dx == 0 && (dy == 1 || dy == -1)) || (dy == 0 && (dx == 1 || dx == -1))
    requires inside <==> 0 <= p.x + dx < w && 0 <= p.y + dy < h
    requires IsFillColour(s.orig, s.fill, s.filled, fdc)
    modifies skin, fifo
    ensures SameRun(s, s') && Inv(s', {p}) && IsFillColour(s.orig, s.fill, s.filled, fdc')
    ensures p.x + dx >= 0 && p.y + dy >= 0 ==> Reached(s', Pixel(p.x + dx, p.y + dy))
    ensures Extends(s, s', p)
    ensures fdc' == if OffersFrom(s, p, dx, dy) then s.img[Pixel(p.x + dx, p.y + dy)] else fdc
    ensures if fits then Running(skin, w, h, fifo, inpt', outpt, s') else |s'.pending| >= FIFO_SIZE
  {
    hide Inv, IsFillColour, Extends;
    fits, inpt', fdc', s' := true, inpt, fdc, s;
    InvKeys(s, {p});
    ExtendsItself(s, p);
    if inside {
      fits, inpt', fdc', s' := FillStep(skin, w, h, fillcolor, fifo, inpt, outpt, fdc, Pixel(p.x + dx, p.y + dy), p, s);
    }
  }

  /** After four looks, whatever neighbour of `p` has the fill colour has been reached. */
  lemma AllAround(s: State, s1: State, s2: State, s3: State, s4: State, p: Pixel)
    requires SameRun(s, s1) && SameRun(s1, s2) && SameRun(s2, s3) && SameRun(s3, s4)
    requires p.x > 0 ==> Reached(s1, Pixel(p.x - 1, p.y))
    requires Reached(s2, Pixel(p.x + 1, p.y))
    requires p.y > 0 ==> Reached(s3, Pixel(p.x, p.y - 1))
    requires Reached(s4, Pixel(p.x, p.y + 1))
    ensures SameRun(s, s4)
    ensures forall q :: Adjacent(p, q) && q in s4.orig && s4.orig[q] == s4.fill ==> q in s4.visited
  {
    forall q | Adjacent(p, q) ensures Reached(s4, q) {
      assert q == Pixel(p.x + 1, p.y) || q == Pixel(p.x, p.y + 1)
        || (p.x > 0 && q == Pixel(p.x - 1, p.y)) || (p.y > 0 && q == Pixel(p.x, p.y - 1));
    }
  }

  /** What all looks of a round so far have seen and done. */
  ghost predicate Looked(s: State, t: State, p: Pixel) { SameRun(s, t) && Extends(s, t, p) }

  lemma Later(s: State, t: State, u: State, p: Pixel)
    requires Looked(s, t, p) && SameRun(t, u) && Extends(t, u, p)
    ensures Looked(s, u, p) && u.fill == s.fill && u.filled == s.filled && u.orig == s.orig
  {
    hide Extends;
    ExtendsAgain(s, t, u, p);
  }

  lemma NotYet(s: State, p: Pixel)
    ensures Looked(s, s, p)
  {
    ExtendsItself(s, p);
  }

  lemma LookedMeans(s: State, t: State, p: Pixel)
    requires Looked(s, t, p)
    ensures SameRun(s, t) && Extends(s, t, p)
    ensures forall q :: Offering(t, q) <==> Offering(s, q)
  {
    hide Adjacent;
    forall q ensures Offering(t, q) <==> Offering(s, q) { SameOffers(s, t, p, q); }
  }

  /** A later look in a direction finds what was there before the round. */
  lemma OffersLater(s: State, t: State, p: Pixel, dx: int, dy: int)
    requires Looked(s, t, p)
    ensures OffersFrom(t, p, dx, dy) <==> OffersFrom(s, p, dx, dy)
    ensures OffersFrom(s, p, dx, dy) ==> t.img[Pixel(p.x + dx, p.y + dy)] == s.img[Pixel(p.x + dx, p.y + dy)]
  {
    hide Adjacent;
  }

  lemma RunningPixel(skin: array<byte>, w: nat, h: nat, fifo: array<Pixel>, inpt: nat, outpt: nat, s: State, p: Pixel)
    requires Inv(s, {p}) && Running(skin, w, h, fifo, inpt, outpt, s)
    ensures p in s.img && p.x < w && p.y < h && IsFillColour(s.orig, s.fill, s.filled, s.filled)
  {
    assert p in Grid(w, h);
  }

  method Colour(skin: array<byte>, w: nat, h: nat, fifo: array<Pixel>, ghost inpt: nat, ghost outpt: nat,
                p: Pixel, c: byte, ghost s: State)
    requires skin as object != fifo && Running(skin, w, h, fifo, inpt, outpt, s) && p in s.img
    modifies skin
    ensures Running(skin, w, h, fifo, inpt, outpt, Coloured(s, p, c))
  {
    SetPixel(skin, w, h, p, c, s.img);
  }

  /** One round: look at the four neighbours of `p`, then give `p` its colour. */
  method FillRound(skin: array<byte>, w: nat, h: nat, fillcolor: byte, filledcolor: byte, fifo: array<Pixel>,
                   inpt: nat, outpt: nat, p: Pixel, ghost s: State)
      returns (fits: bool, inpt': nat, ghost u: State, fdc: byte)
    requires skin as object != fifo
    requires Running(skin, w, h, fifo, inpt, outpt, s) && Inv(s, {p}) && s.fill == fillcolor && s.filled == filledcolor
    modifies skin, fifo
    ensures SameRun(s, u) && Inv(u, {p})
    ensures fits ==> Running(skin, w, h, fifo, inpt', outpt, Coloured(u, p, fdc)) && Inv(Coloured(u, p, fdc), {})
    ensures fits ==> Extends(s, u, p) && RoundColour(s, p, fdc)
    ensures !fits ==> |u.pending| >= FIFO_SIZE
  {
    hide Inv, IsFillColour, Running, Looked, SameRun, Extends, OfferedTo, OffersFrom;
    RunningPixel(skin, w, h, fifo, inpt, outpt, s, p);
    fits, inpt', u, fdc := LookAround(skin, w, h, fillcolor, filledcolor, fifo, inpt, outpt, p, s);
    LookedMeans(s, u, p);
    if !fits { return; }
    SettleKeepsInv(u, p, fdc);
    InvKeys(u, {p});
    Colour(skin, w, h, fifo, inpt', outpt, p, fdc, u);
  }

  /** The four looks of a round. */
  method LookAround(skin: array<byte>, w: nat, h: nat, fillcolor: byte, filledcolor: byte, fifo: array<Pixel>,
                    inpt: nat, outpt: nat, p: Pixel, ghost s: State)
      returns (fits: bool, inpt': nat, ghost u: State, fdc: byte)
    requires Running(skin, w, h, fifo, inpt, outpt, s) && Inv(s, {p}) && s.fill == fillcolor && s.filled == filledcolor
    requires p.x < w && p.y < h && IsFillColour(s.orig, s.fill, s.filled, filledcolor)
    modifies skin, fifo
    ensures Looked(s, u, p) && Inv(u, {p})
    ensures fits ==> Running(skin, w, h, fifo, inpt', outpt, u) && IsFillColour(u.orig, u.fill, u.filled, fdc)
    ensures fits ==> forall q :: Adjacent(p, q) && q in u.orig && u.orig[q] == u.fill ==> q in u.visited
    ensures fits ==> RoundColour(s, p, fdc)
    ensures !fits ==> |u.pending| >= FIFO_SIZE
  {
    hide Inv, IsFillColour, Running, Looked, SameRun, Extends, OfferedTo, OffersFrom, Reached, Adjacent;
    fdc := filledcolor;
    ghost var s1, s2, s3;
    NotYet(s, p);
    fits, inpt', fdc, s1 := Look(skin, w, h, fillcolor, fifo, inpt, outpt, fdc, p, p.x > 0, -1, 0, s);
    u := s1;
    Later(s, s, s1, p);
    if !fits { return; }
    fits, inpt', fdc, s2 := Look(skin, w, h, fillcolor, fifo, inpt', outpt, fdc, p, p.x < w - 1, 1, 0, s1);
    u := s2;
    Later(s, s1, s2, p);
    if !fits { return; }
    fits, inpt', fdc, s3 := Look(skin, w, h, fillcolor, fifo, inpt', outpt, fdc, p, p.y > 0, 0, -1, s2);
    u := s3;
    Later(s, s2, s3, p);
    if !fits { return; }
    fits, inpt', fdc, u := Look(skin, w, h, fillcolor, fifo, inpt', outpt, fdc, p, p.y < h - 1, 0, 1, s3);
    Later(s, s3, u, p);
    if !fits { return; }
    AllAround(s, s1, s2, s3, u, p);
    OffersLater(s, s1, p, 1, 0);
    OffersLater(s, s2, p, 0, -1);
    OffersLater(s, s3, p, 0, 1);
  }

  ghost function ImageOf(skin: seq<byte>, w: nat, h: nat): (img: Image)
    requires |skin| == w * h
    ensures img.Keys == Grid(w, h)
  {
    map p | p in Grid(w, h) :: (IndexBound(w, h, p); skin[Index(w, p)])
  }

  /** The images shown by arrays that agree are the same. */
  lemma ShowsIsImage(skin: array<byte>, w: nat, h: nat, img: Image)
    requires Shows(skin, w, h, img) && img.Keys == Grid(w, h)
    ensures ImageOf(skin[..], w, h) == img
  {
    forall p | p in Grid(w, h) ensures ImageOf(skin[..], w, h)[p] == img[p] { }
  }

  lemma {:induction false} ManyPixels(pending: seq<Pixel>, s: set<Pixel>)
    requires Distinct(pending) && forall p :: p in pending ==> p in s
    ensures |pending| <= |s|
  {
    if pending != [] {
      var n := |pending| - 1;
      assert forall p :: p in pending[..n] ==> p in s - {pending[n]};
      ManyPixels(pending[..n], s - {pending[n]});
    }
  }

  /**
   The fill.  Either the corner already has the default colour or the marker, and nothing happens;
   or exactly the background is recoloured.  Only when at least 4096 background pixels wait in the
   ring at once does the method give up.
   */
  method FloodFillSkin(skin: array<byte>, w: nat, h: nat, palette: seq<int>)
      returns (fits: bool, filled: byte, ghost reached: set<Pixel>)
    requires skin.Length == w * h && 0 < w <= 0x8000 && 0 < h <= 0x8000 && |palette| == 256
    modifies skin
    ensures palette[filled] == 255 || (filled == 0 && forall i :: 0 <= i < 256 ==> palette[i] != 255)
    ensures old(skin[0]) == filled || old(skin[0]) == VISITED ==> fits && skin[..] == old(skin[..])
    ensures old(skin[0]) != filled && old(skin[0]) != VISITED && fits ==>
      Filled(ImageOf(old(skin[..]), w, h), old(skin[0]), filled, ImageOf(skin[..], w, h))
    ensures old(skin[0]) != filled && old(skin[0]) != VISITED && fits ==>
      (KeepsMarker(ImageOf(old(skin[..]), w, h), old(skin[0]), ImageOf(skin[..], w, h)) <==>
        filled == VISITED && CornerEnclosed(ImageOf(old(skin[..]), w, h), old(skin[0])))
    ensures old(skin[0]) != filled && old(skin[0]) != VISITED && fits ==>
      WellPainted(ImageOf(old(skin[..]), w, h), old(skin[0]), filled, ImageOf(skin[..], w, h))
    ensures forall p :: p in reached ==> InBackground(ImageOf(old(skin[..]), w, h), old(skin[0]), p)
    ensures !fits ==> |reached| >= FIFO_SIZE
  {
    assert skin.Length > 0 by { IndexBound(w, h, CORNER); }
    var fillcolor := skin[0];
    filled := FindFilledColour(palette);
    fits, reached := true, {};
    if fillcolor == filled || fillcolor == VISITED {
      return;
    }
    fits, reached := FillFromCorner(skin, w, h, fillcolor, filled);
  }

  method FillFromCorner(skin: array<byte>, w: nat, h: nat, fillcolor: byte, filled: byte)
      returns (fits: bool, ghost reached: set<Pixel>)
    requires skin.Length == w * h && 0 < w && 0 < h
    requires skin.Length > 0 && fillcolor == skin[0] && fillcolor != filled && fillcolor != VISITED
    modifies skin
    ensures fits ==> Filled(ImageOf(old(skin[..]), w, h), fillcolor, filled, ImageOf(skin[..], w, h))
    ensures fits ==> (KeepsMarker(ImageOf(old(skin[..]), w, h), fillcolor, ImageOf(skin[..], w, h)) <==>
      filled == VISITED && CornerEnclosed(ImageOf(old(skin[..]), w, h), fillcolor))
    ensures fits ==> WellPainted(ImageOf(old(skin[..]), w, h), fillcolor, filled, ImageOf(skin[..], w, h))
    ensures forall p :: p in reached ==> InBackground(ImageOf(old(skin[..]), w, h), fillcolor, p)
    ensures !fits ==> |reached| >= FIFO_SIZE
  {
    hide Inv, Lit, Initial, InBackground, Filled, ImageOf, Running, Grid, KeepsMarker, CornerEnclosed, WellPainted;
    hide Painted;
    ghost var orig := ImageOf(skin[..], w, h);
    var fifo := new Pixel[FIFO_SIZE](_ => CORNER);
    var inpt: nat, outpt: nat := 1, 0;
    ghost var s := State(orig, fillcolor, filled, orig, {CORNER}, [CORNER]);
    StartsRunning(skin, w, h, fifo, s);
    fits := true;
    while outpt != inpt
      invariant Running(skin, w, h, fifo, inpt, outpt, s)
      invariant s.orig == orig && s.fill == fillcolor && s.filled == filled && s.visited <= Grid(w, h)
      invariant Going(s)
      decreases Grid(w, h) - s.visited, |s.pending|
    {
      fits, inpt, outpt, s := NextRound(skin, w, h, fillcolor, filled, fifo, inpt, outpt, s);
      if !fits {
        reached := s.visited;
        return;
      }
    }
    reached := {};
    Finished(skin, w, h, fifo, inpt, outpt, s);
  }

  /** Between rounds: the first has not happened, or the invariants hold. */
  ghost predicate Going(s: State) { Initial(s) || (Inv(s, {}) && Lit(s, {}) && Painted(s, {})) }

  /** Take a pixel off the list and process it. */
  method NextRound(skin: array<byte>, w: nat, h: nat, fillcolor: byte, filled: byte, fifo: array<Pixel>,
                   inpt: nat, outpt: nat, ghost s: State)
      returns (fits: bool, inpt': nat, outpt': nat, ghost s': State)
    requires skin as object != fifo && outpt != inpt && Running(skin, w, h, fifo, inpt, outpt, s)
    requires s.fill == fillcolor && s.filled == filled && s.visited <= Grid(w, h) && Going(s)
    modifies skin, fifo
    ensures s'.orig == s.orig && s'.fill == fillcolor && s'.filled == filled
    ensures s.visited <= s'.visited <= Grid(w, h)
    ensures fits ==> Running(skin, w, h, fifo, inpt', outpt', s') && Going(s')
    ensures s'.visited == s.visited ==> |s'.pending| < |s.pending|
    ensures !fits ==> |s'.visited| >= FIFO_SIZE && forall q :: q in s'.visited ==> InBackground(s.orig, s.fill, q)
  {
    hide Inv, Lit, Initial, InBackground, Extends, RoundColour, Painted;
    var p;
    p, outpt' := Dequeue(fifo, inpt, outpt, s.pending);
    PopKeepsInv(s);
    ghost var t := s.(pending := s.pending[1..]);
    ghost var u;
    var fdc;
    fits, inpt', u, fdc := FillRound(skin, w, h, fillcolor, filled, fifo, inpt, outpt', p, t);
    InvKeys(u, {p});
    if !fits {
      TooMany(u, p);
      s' := u;
      return;
    }
    RoundGoesOn(s, u, p, fdc);
    s' := Coloured(u, p, fdc);
  }

  lemma RoundGoesOn(s: State, u: State, p: Pixel, c: byte)
    requires Going(s) && s.pending != [] && p == s.pending[0]
    requires var t := s.(pending := s.pending[1..]); Extends(t, u, p) && RoundColour(t, p, c)
    requires Inv(Coloured(u, p, c), {})
    ensures Going(Coloured(u, p, c))
  {
    hide Extends, RoundColour, Inv, Lit, Painted;
    var t := s.(pending := s.pending[1..]);
    PopKeepsInv(s);
    if Initial(s) {
      FirstRoundLit(t, u, c);
      FirstRoundPaints(t, u, c);
    } else {
      PopKeepsLit(s);
      PopKeepsPainted(s);
      RoundKeepsLit(t, u, p, c);
      RoundKeepsPainted(t, u, p, c);
    }
  }

  lemma PopKeepsLit(s: State)
    requires Lit(s, {}) && s.pending != []
    ensures Lit(s.(pending := s.pending[1..]), {s.pending[0]})
  {
    hide OfferedTo, CornerEnclosed;
    var t := s.(pending := s.pending[1..]);
    forall p | p in t.pending || p == s.pending[0] ensures p in s.pending && (OfferedTo(s, p) ==> OfferedTo(t, p)) {
      SameOffered(s, t, p);
    }
    forall p | p in s.pending ensures p == s.pending[0] || p in t.pending { }
  }

  lemma SameOffered(s: State, t: State, p: Pixel)
    requires t.img == s.img && t.fill == s.fill
    ensures OfferedTo(s, p) <==> OfferedTo(t, p)
  {
    hide Adjacent;
    if OfferedTo(s, p) {
      var q :| Adjacent(p, q) && Offering(s, q);
      assert Offering(t, q);
    }
    if OfferedTo(t, p) {
      var q :| Adjacent(p, q) && Offering(t, q);
      assert Offering(s, q);
    }
  }

  lemma Finished(skin: array<byte>, w: nat, h: nat, fifo: array<Pixel>, inpt: nat, outpt: nat, s: State)
    requires Running(skin, w, h, fifo, inpt, outpt, s) && inpt == outpt && Going(s)
    ensures Filled(s.orig, s.fill, s.filled, ImageOf(skin[..], w, h))
    ensures KeepsMarker(s.orig, s.fill, ImageOf(skin[..], w, h)) <==>
      s.filled == VISITED && CornerEnclosed(s.orig, s.fill)
    ensures WellPainted(s.orig, s.fill, s.filled, ImageOf(skin[..], w, h))
  {
    hide InBackground, IsFillColour, Inv, Lit, KeepsMarker, CornerEnclosed, Painted, WellPainted;
    assert s.pending == [];
    assert Inv(s, {}) && Lit(s, {}) && Painted(s, {});
    FinallyPainted(s);
    EmptyListMeansFilled(s);
    MarkerStaysIff(s);
    InvKeys(s, {});
    ShowsIsImage(skin, w, h, s.img);
  }

  lemma StartsRunning(skin: array<byte>, w: nat, h: nat, fifo: array<Pixel>, s: State)
    requires skin.Length == w * h && 0 < w && 0 < h && skin.Length > 0
    requires s == State(ImageOf(skin[..], w, h), skin[0], s.filled, ImageOf(skin[..], w, h), {CORNER}, [CORNER])
    requires s.fill != s.filled && s.fill != VISITED && fifo.Length == FIFO_SIZE && fifo[0] == CORNER
    ensures Initial(s) && Running(skin, w, h, fifo, 1, 0, s) && s.visited <= Grid(w, h)
  {
    assert CORNER in Grid(w, h) && Index(w, CORNER) == 0;
    forall p | p in s.img ensures Index(w, p) < skin.Length { IndexBound(w, h, p); }
  }

  lemma TooMany(s: State, p: Pixel)
    requires Inv(s, {p}) && |s.pending| >= FIFO_SIZE
    ensures |s.visited| >= FIFO_SIZE && forall q :: q in s.visited ==> InBackground(s.orig, s.fill, q)
  {
    ManyPixels(s.pending, s.visited);
  }
}
