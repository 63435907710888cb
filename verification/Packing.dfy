/**
 The lightmap packer: every texture keeps the height of each of its columns, and a rectangle
 goes to the lowest leftmost place the skyline offers.
 */
module Packing {

  const BLOCK_WIDTH := 128
  const BLOCK_HEIGHT := 128
  const MAX_LIGHTMAPS := 64

  /** A rectangle of `w` columns and `h` rows at (x, y) of texture `tex`. */
  datatype Placed = Placed(tex: nat, x: nat, y: nat, w: nat, h: nat)
  {
    ghost predicate InBounds() {
      tex < MAX_LIGHTMAPS && w >= 1 && h >= 1 && x + w <= BLOCK_WIDTH && y + h <= BLOCK_HEIGHT
    }

    ghost predicate Covers(t: int, col: int, row: int) {
      t == tex && x <= col < x + w && y <= row < y + h
    }
  }

  ghost predicate Disjoint(a: Placed, b: Placed) {
    forall t, col, row :: !(a.Covers(t, col, row) && b.Covers(t, col, row))
  }

  /** The highest of columns i .. i+w-1. */
  ghost function WindowHeight(cols: seq<int>, i: nat, w: nat): (m: int)
    requires i + w <= |cols|
    ensures m >= 0 && forall j :: i <= j < i + w ==> cols[j] <= m
  {
    if w == 0 then 0
    else
      var m := WindowHeight(cols, i, w - 1);
      if cols[i + w - 1] > m then cols[i + w - 1] else m
  }

  /** The lowest window has height `best`; if below the top, `x` is the leftmost such window. */
  ghost predicate LowestWindow(cols: seq<int>, w: nat, limit: int, best: int, x: int)
    requires |cols| == BLOCK_WIDTH && limit <= BLOCK_WIDTH - w
  {
    && best <= BLOCK_HEIGHT
    && (forall i :: 0 <= i < limit ==> WindowHeight(cols, i, w) >= best)
    && (best < BLOCK_HEIGHT ==>
        && 0 <= x < limit && WindowHeight(cols, x, w) == best
        && forall i :: 0 <= i < x ==> WindowHeight(cols, i, w) > best)
  }

  ghost predicate SomeWindowFits(cols: seq<int>, w: nat, h: nat)
    requires |cols| == BLOCK_WIDTH
  {
    exists i :: 0 <= i < BLOCK_WIDTH - w && WindowHeight(cols, i, w) + h <= BLOCK_HEIGHT
  }

  lemma WindowMonotone(cols: seq<int>, i: nat, v: nat, w: nat)
    requires v <= w && i + w <= |cols|
    ensures WindowHeight(cols, i, v) <= WindowHeight(cols, i, w)
  {
  }

  lemma {:induction false} WindowAttained(cols: seq<int>, i: nat, w: nat, m: int)
    requires i + w <= |cols| && m >= 0 && forall j :: i <= j < i + w ==> cols[j] <= m
    ensures WindowHeight(cols, i, w) <= m
  {
    if w > 0 { WindowAttained(cols, i, w - 1, m); }
  }

  datatype Place = Full | At(tex: nat, x: nat, y: nat)

  class Packer {
    const heights: array2<int>   // column heights of every texture
    ghost var placed: seq<Placed>
    ghost var used: nat            // textures 0 .. used-1 hold something

    ghost function Columns(t: nat): (cols: seq<int>)
      requires heights.Length0 == MAX_LIGHTMAPS && heights.Length1 == BLOCK_WIDTH && t < MAX_LIGHTMAPS
      reads heights
      ensures |cols| == BLOCK_WIDTH
    {
      seq(BLOCK_WIDTH, c requires 0 <= c < BLOCK_WIDTH reads heights => heights[t, c])
    }

    ghost predicate Shape() {
      heights.Length0 == MAX_LIGHTMAPS && heights.Length1 == BLOCK_WIDTH
    }

    /** Heights are in range, and every placed rectangle lies below the heights of its columns. */
    ghost predicate Skyline()
      requires Shape()
      reads this, heights
    {
      && (forall t, c :: 0 <= t < MAX_LIGHTMAPS && 0 <= c < BLOCK_WIDTH ==> 0 <= heights[t, c] <= BLOCK_HEIGHT)
      && (forall k :: 0 <= k < |placed| ==> placed[k].InBounds())
      && (forall k, c :: 0 <= k < |placed| && placed[k].x <= c < placed[k].x + placed[k].w ==>
            placed[k].y + placed[k].h <= heights[placed[k].tex, c])
    }

    /** The textures in use come first, and column 0 tells which they are. */
    ghost predicate Prefix()
      requires Shape()
      reads this, heights
    {
      && used <= MAX_LIGHTMAPS
      && (forall t :: 0 <= t < used ==> heights[t, 0] > 0)
      && (forall t, c :: used <= t < MAX_LIGHTMAPS && 0 <= c < BLOCK_WIDTH ==> heights[t, c] == 0)
      && (forall k :: 0 <= k < |placed| ==> placed[k].tex < used)
    }

    ghost predicate Valid()
      reads this, heights
    {
      && Shape() && Skyline() && Prefix()
      && forall k, l :: 0 <= k < l < |placed| ==> Disjoint(placed[k], placed[l])
    }

    constructor ()
      ensures Valid() && placed == [] && used == 0 && fresh(heights)
    {
      heights := new int[MAX_LIGHTMAPS, BLOCK_WIDTH]((_, _) => 0);
      placed, used := [], 0;
    }

    /** The height of one window, given up at the first column that is not below `best`. */
    method MeasureWindow(t: nat, w: nat, i: nat, best: int) returns (best2: int, j: nat)
      requires Shape() && t < MAX_LIGHTMAPS && 1 <= w && i + w <= BLOCK_WIDTH
      requires forall c :: 0 <= c < BLOCK_WIDTH ==> 0 <= heights[t, c]
      ensures j <= w && (j == w ==> best2 == WindowHeight(Columns(t), i, w) < best)
      ensures j < w ==> WindowHeight(Columns(t), i, w) >= best
    {
      best2, j := 0, 0;
      while j < w
        invariant 0 <= j <= w && best2 == WindowHeight(Columns(t), i, j) && (j > 0 ==> best2 < best)
      {
        if heights[t, i + j] >= best {
          assert Columns(t)[i + j] >= best;
          WindowMonotone(Columns(t), i, j + 1, w);
          return;
        }
        if heights[t, i + j] > best2 { best2 := heights[t, i + j]; }
        j := j + 1;
      }
    }

    /** The search in one texture; columns as high as the best found so far end a window early. */
    method FindSpot(t: nat, w: nat) returns (best: int, x: nat)
      requires Shape() && t < MAX_LIGHTMAPS && 1 <= w
      requires forall c :: 0 <= c < BLOCK_WIDTH ==> 0 <= heights[t, c] <= BLOCK_HEIGHT
      ensures if w < BLOCK_WIDTH then LowestWindow(Columns(t), w, BLOCK_WIDTH - w, best, x) else best == BLOCK_HEIGHT
    {
      hide WindowHeight, Columns;
      best, x := BLOCK_HEIGHT, 0;
      ghost var cols := Columns(t);
      var i := 0;
      while i < BLOCK_WIDTH - w
        invariant 0 <= i && (i <= BLOCK_WIDTH - w || i == 0)
        invariant w < BLOCK_WIDTH ==> LowestWindow(cols, w, i, best, x)
        invariant w >= BLOCK_WIDTH ==> best == BLOCK_HEIGHT
      {
        var best2, j := MeasureWindow(t, w, i, best);
        if j == w {
          // this is a valid spot
          x, best := i, best2;
        }
        i := i + 1;
      }
    }

    /** Raise columns x .. x+w-1 of texture `t` to `top`. */
    method Raise(t: nat, x: nat, w: nat, top: int)
      requires Shape() && t < MAX_LIGHTMAPS && x + w <= BLOCK_WIDTH
      modifies heights
      ensures forall u, c :: 0 <= u < MAX_LIGHTMAPS && 0 <= c < BLOCK_WIDTH ==>
        heights[u, c] == if u == t && x <= c < x + w then top else old(heights[u, c])
    {
      for i := 0 to w
        invariant forall u, c :: 0 <= u < MAX_LIGHTMAPS && 0 <= c < BLOCK_WIDTH ==>
          heights[u, c] == if u == t && x <= c < x + i then top else old(heights[u, c])
      {
        heights[t, x + i] := top;
      }
    }

    /** Nothing placed so far reaches into the rows above a window. */
    lemma AboveSkyline(r: Placed)
      requires Shape() && Skyline() && r.InBounds() && WindowHeight(Columns(r.tex), r.x, r.w) <= r.y
      ensures forall k :: 0 <= k < |placed| ==> Disjoint(placed[k], r)
    {
      forall k | 0 <= k < |placed| ensures Disjoint(placed[k], r) {
        forall t, col, row | r.Covers(t, col, row) ensures !placed[k].Covers(t, col, row) {
          assert Columns(r.tex)[col] == heights[r.tex, col];
        }
      }
    }

    /** An empty texture offers its top left corner to every rectangle narrower than the block. */
    lemma EmptyTextureFits(t: nat, w: nat, h: nat, best: int, x: int)
      requires Shape() && t < MAX_LIGHTMAPS && 1 <= w < BLOCK_WIDTH
      requires forall c :: 0 <= c < BLOCK_WIDTH ==> heights[t, c] == 0
      requires LowestWindow(Columns(t), w, BLOCK_WIDTH - w, best, x)
      ensures best == 0 && x == 0
    {
      WindowAttained(Columns(t), 0, w, 0);
    }

    lemma NoWindowFits(cols: seq<int>, w: nat, h: nat, best: int, x: int)
      requires |cols| == BLOCK_WIDTH && 1 <= w && best + h > BLOCK_HEIGHT
      requires if w < BLOCK_WIDTH then LowestWindow(cols, w, BLOCK_WIDTH - w, best, x) else true
      ensures !SomeWindowFits(cols, w, h)
    {
    }

    /** Textures 0 .. n-1 have no place for the rectangle. */
    ghost predicate NoPlaceBelow(n: nat, w: nat, h: nat)
      requires Shape() && n <= MAX_LIGHTMAPS
      reads heights
    {
      forall t :: 0 <= t < n ==> !SomeWindowFits(Columns(t), w, h)
    }

    /** Record a rectangle just found; all that was true stays true. */
    method Place(r: Placed)
      requires Valid() && r.InBounds() && r.tex <= used && (r.tex == used ==> r.x == 0)
      requires WindowHeight(Columns(r.tex), r.x, r.w) <= r.y
      modifies this, heights
      ensures Valid() && placed == old(placed) + [r] && used == if r.tex == old(used) then old(used) + 1 else old(used)
      ensures forall u, c :: 0 <= u < MAX_LIGHTMAPS && 0 <= c < BLOCK_WIDTH ==>
        heights[u, c] == if u == r.tex && r.x <= c < r.x + r.w then r.y + r.h else old(heights[u, c])
    {
      hide WindowHeight, Disjoint;
      AboveSkyline(r);
      forall c | r.x <= c < r.x + r.w ensures heights[r.tex, c] <= r.y {
        assert Columns(r.tex)[c] == heights[r.tex, c];
      }
      Raise(r.tex, r.x, r.w, r.y + r.h);
      if r.tex == used { used := used + 1; }
      placed := placed + [r];
      assert forall k :: 0 <= k < |placed| - 1 ==> placed[k] == old(placed)[k];
      forall k, c | 0 <= k < |placed| && placed[k].x <= c < placed[k].x + placed[k].w
        ensures placed[k].y + placed[k].h <= heights[placed[k].tex, c]
      {
        if k < |placed| - 1 { assert placed[k].y + placed[k].h <= old(heights[placed[k].tex, c]); }
      }
      assert Skyline();
      assert Prefix();
    }

    /**
     Find room for a w x h rectangle.  It goes to the first texture with room, there to the lowest
     place, and there to the leftmost; it overlaps nothing placed before.  Without room anywhere
     nothing changes.
     */
    method AllocBlock(w: nat, h: nat) returns (place: Place)
      requires Valid() && 1 <= w && 1 <= h
      modifies this, heights
      ensures Valid()
      ensures place.Full? ==> unchanged(this) && unchanged(heights) && NoPlaceBelow(MAX_LIGHTMAPS, w, h)
      ensures place.At? ==>
        && placed == old(placed) + [Placed(place.tex, place.x, place.y, w, h)]
        && place.tex < MAX_LIGHTMAPS && w < BLOCK_WIDTH
        && LowestWindow(old(Columns(place.tex)), w, BLOCK_WIDTH - w, place.y, place.x)
        && old(NoPlaceBelow(place.tex, w, h))
      ensures place.At? ==> place.tex <= old(used)
      ensures place.At? ==> used == if place.tex == old(used) then old(used) + 1 else old(used)
      ensures w < BLOCK_WIDTH && h <= BLOCK_HEIGHT && old(used) < MAX_LIGHTMAPS ==> place.At?
      ensures w >= BLOCK_WIDTH ==> place.Full?
    {
      for texnum := 0 to MAX_LIGHTMAPS
        invariant unchanged(this) && unchanged(heights) && NoPlaceBelow(texnum, w, h)
        invariant w < BLOCK_WIDTH && h <= BLOCK_HEIGHT ==> texnum <= used
      {
        var best, x := FindSpot(texnum, w);
        if texnum == used && w < BLOCK_WIDTH { EmptyTextureFits(texnum, w, h, best, x); }
        if best + h > BLOCK_HEIGHT {
          NoWindowFits(Columns(texnum), w, h, best, x);
          continue;
        }
        Place(Placed(texnum, x, best, w, h));
        return At(texnum, x, best);
      }
      return Full;
    }
  }
}
