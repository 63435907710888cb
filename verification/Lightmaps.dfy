/**
 Lightmaps in main memory and their copies in the graphics library.  Surfaces are packed into
 textures, rebuilt in memory when their lights change, and uploaded by whole rows of a dirty
 rectangle.
 */
module Lightmaps {
  import opened Basics
  import opened Packing

  const ROW_BYTES := 3 * BLOCK_WIDTH
  const MAXLIGHTMAPS := 4      // light styles of one surface
  const NO_STYLE := 255
  const MAX_LIGHTMAP_SIZE := 4096

  /** The dirty rectangle of a texture: columns l .. l+w-1, rows t .. t+h-1. */
  datatype Rect = Rect(l: int, t: int, w: int, h: int)
  {
    ghost predicate Inside() {
      0 <= l && 0 <= w && l + w <= BLOCK_WIDTH && 0 <= t && 0 <= h && t + h <= BLOCK_HEIGHT
    }
  }

  const CLEAN := Rect(BLOCK_WIDTH, BLOCK_HEIGHT, 0, 0)

  /** The dynamic lights on a surface: what they add to each cell of its light grid. */
  datatype Dynamic = NoLights | Lights(add: seq<nat>)

  /** The styles in use: up to four, ended by 255. */
  function StyleCount(styles: seq<nat>): (n: nat)
    requires |styles| == MAXLIGHTMAPS
    ensures n <= MAXLIGHTMAPS
    ensures forall i :: 0 <= i < n ==> styles[i] != NO_STYLE
    ensures n < MAXLIGHTMAPS ==> styles[n] == NO_STYLE
  {
    if styles[0] == NO_STYLE then 0 else if styles[1] == NO_STYLE then 1
    else if styles[2] == NO_STYLE then 2 else if styles[3] == NO_STYLE then 3 else 4
  }

  /**
   A lit surface: its place in the lightmap textures, its styles and light grids, and what was
   remembered when its lightmap was last built.
   */
  datatype Surface = Surface(place: Placed, styles: seq<nat>, samples: Option<seq<seq<nat>>>,
                             cachedLight: seq<nat>, cachedDlight: bool)
  {
    function RowBytes(): nat { 3 * place.w }

    function Size(): nat { place.h * RowBytes() }

    function Maps(): (n: nat)
      requires |styles| == MAXLIGHTMAPS
      ensures n <= MAXLIGHTMAPS
    {
      StyleCount(styles)
    }

    ghost predicate WellFormed() {
      && place.InBounds() && |styles| == |cachedLight| == MAXLIGHTMAPS
      && (forall i :: 0 <= i < MAXLIGHTMAPS ==> styles[i] < 256)
      && (samples.Some? ==> Maps() <= |samples.value| && forall m :: 0 <= m < Maps() ==> |samples.value[m]| == Size())
    }
  }

  // ----- What a lightmap should show ---------------------------------------------------------

  /** The light the first `n` styles give cell `i`, at the brightness `scale` of each. */
  function StyleLight(grids: seq<seq<nat>>, scale: seq<nat>, n: nat, i: nat): nat
    requires n <= |grids| && n <= |scale| && forall m :: 0 <= m < n ==> i < |grids[m]|
  {
    if n == 0 then 0 else StyleLight(grids, scale, n - 1, i) + grids[n - 1][i] * scale[n - 1]
  }

  ghost predicate Fits(s: Surface, dyn: Dynamic) {
    dyn.Lights? ==> |dyn.add| == s.Size()
  }

  /** The brightness of each style of a surface, given the value of all 256 styles. */
  function Scales(s: Surface, styleValue: seq<nat>): (scale: seq<nat>)
    requires s.WellFormed() && |styleValue| == 256
    ensures |scale| == MAXLIGHTMAPS
  {
    seq(MAXLIGHTMAPS, m requires 0 <= m < MAXLIGHTMAPS => styleValue[s.styles[m]])
  }

  function Light(s: Surface, fullbright: bool, scale: seq<nat>, dyn: Dynamic, i: nat): nat
    requires s.WellFormed() && |scale| == MAXLIGHTMAPS && Fits(s, dyn) && i < s.Size()
  {
    if fullbright then 255 * 256
    else
      (if s.samples.Some? then StyleLight(s.samples.value, scale, s.Maps(), i) else 0)
      + (if dyn.Lights? then dyn.add[i] else 0)
  }

  /** Bound, invert and shift into a byte. */
  function Stored(mode2: bool, light: nat): (b: nat)
    ensures b < 256
  {
    var t := if mode2 then light / 256 + light / 512 else light / 128;
    255 - (if t < 255 then t else 255)
  }

  /**
   The byte an amount of light is stored as: the brighter, the smaller.  Each step of a byte is 128 of
   light; in mode 2 two steps of three are taken for every 512.
   */
  ghost predicate ByteFor(mode2: bool, light: nat, b: nat) {
    var k := 255 - b;
    if mode2 then
      if b == 0 then light >= 512 * 85
      else
        && 0 < b <= 255 && k % 3 < 2
        && 512 * (k / 3) + 256 * (k % 3) <= light < 512 * (k / 3) + 256 * (k % 3) + 256
    else if b == 0 then light >= 128 * 255
    else 0 < b <= 255 && 128 * k <= light < 128 * (k + 1)
  }

  lemma StoredIs(mode2: bool, light: nat)
    ensures ByteFor(mode2, light, Stored(mode2, light))
  {
    if mode2 {
      var a, r := light / 512, light % 512;
      assert light / 256 == 2 * a + r / 256;
      StoredInMode2(a, r / 256);
    }
  }

  lemma StoredInMode2(a: nat, h: nat)
    requires h < 2
    ensures (3 * a + h) / 3 == a && (3 * a + h) % 3 == h
  {
  }

  /** There is but one such byte; it is 255 without light, and more light never makes it larger. */
  lemma ByteIsOne(mode2: bool, light: nat, more: nat, b: nat, c: nat)
    requires ByteFor(mode2, light, b) && ByteFor(mode2, more, c) && light <= more
    ensures c <= b && (light == more ==> b == c) && (light == 0 ==> b == 255)
  {
    var k, l := 255 - b, 255 - c;
    assert mode2 && 0 < b && 0 < c ==> k / 3 <= l / 3;
  }

  lemma CellBound(s: Surface, r: nat, c: nat)
    requires r < s.place.h && c < s.RowBytes()
    ensures r * s.RowBytes() + c < s.Size()
  {
    assert (s.place.h - 1) * s.RowBytes() + s.RowBytes() == s.Size();
    assert r * s.RowBytes() <= (s.place.h - 1) * s.RowBytes();
  }

  /** The byte at row `r`, byte column `c` of the surface's lightmap. */
  function Shade(s: Surface, fullbright: bool, mode2: bool, scale: seq<nat>, dyn: Dynamic, r: nat, c: nat): nat
    requires s.WellFormed() && |scale| == MAXLIGHTMAPS && Fits(s, dyn) && r < s.place.h && c < s.RowBytes()
  {
    CellBound(s, r, c);
    Stored(mode2, Light(s, fullbright, scale, dyn, r * s.RowBytes() + c))
  }

  /** What style number `m` of a surface adds to cell `i`: nothing from the first unused style on. */
  function StyleTerm(s: Surface, styleValue: seq<nat>, m: nat, i: nat): nat
    requires s.WellFormed() && |styleValue| == 256 && m < MAXLIGHTMAPS && i < s.Size()
  {
    if s.samples.None? || (exists j :: 0 <= j <= m && s.styles[j] == NO_STYLE) then 0
    else s.samples.value[m][i] * styleValue[s.styles[m]]
  }

  /** All the light on cell `i`: the four styles and the dynamic lights, or full brightness. */
  function TotalLight(s: Surface, fullbright: bool, styleValue: seq<nat>, dyn: Dynamic, i: nat): nat
    requires s.WellFormed() && |styleValue| == 256 && Fits(s, dyn) && i < s.Size()
  {
    if fullbright then 65280
    else
      StyleTerm(s, styleValue, 0, i) + StyleTerm(s, styleValue, 1, i) + StyleTerm(s, styleValue, 2, i)
      + StyleTerm(s, styleValue, 3, i) + match dyn case NoLights => 0 case Lights(add) => add[i]
  }

  lemma LightIsTotal(s: Surface, fullbright: bool, styleValue: seq<nat>, dyn: Dynamic, i: nat)
    requires s.WellFormed() && |styleValue| == 256 && Fits(s, dyn) && i < s.Size()
    ensures Light(s, fullbright, Scales(s, styleValue), dyn, i) == TotalLight(s, fullbright, styleValue, dyn, i)
  {
    if !fullbright && s.samples.Some? {
      var n := s.Maps();
      StyleSum(s, styleValue, n, i);
      assert n < 4 ==> s.styles[n] == NO_STYLE;
    }
  }

  lemma StyleSum(s: Surface, styleValue: seq<nat>, n: nat, i: nat)
    requires s.WellFormed() && |styleValue| == 256 && i < s.Size() && s.samples.Some? && n <= s.Maps()
    ensures StyleLight(s.samples.value, Scales(s, styleValue), n, i) ==
      (if n > 0 then StyleTerm(s, styleValue, 0, i) else 0) + (if n > 1 then StyleTerm(s, styleValue, 1, i) else 0)
      + (if n > 2 then StyleTerm(s, styleValue, 2, i) else 0) + (if n > 3 then StyleTerm(s, styleValue, 3, i) else 0)
  {
    if n > 0 { StyleSum(s, styleValue, n - 1, i); }
  }

  /** When the styles kept their brightness, so did every cell. */
  lemma {:induction false} SameScales(grids: seq<seq<nat>>, a: seq<nat>, b: seq<nat>, n: nat, i: nat)
    requires n <= |grids| && n <= |a| && n <= |b| && forall m :: 0 <= m < n ==> i < |grids[m]|
    requires forall m :: 0 <= m < n ==> a[m] == b[m]
    ensures StyleLight(grids, a, n, i) == StyleLight(grids, b, n, i)
  {
    if n > 0 { SameScales(grids, a, b, n - 1, i); }
  }

  lemma LightDependsOnStyles(s: Surface, u: Surface, fullbright: bool, a: seq<nat>, b: seq<nat>, dyn: Dynamic, i: nat)
    requires s.WellFormed() && u.WellFormed() && |a| == |b| == MAXLIGHTMAPS && Fits(s, dyn) && i < s.Size()
    requires u.place == s.place && u.styles == s.styles && u.samples == s.samples
    requires !fullbright && s.samples.Some? ==> forall m :: 0 <= m < s.Maps() ==> a[m] == b[m]
    ensures Light(s, fullbright, a, dyn, i) == Light(u, fullbright, b, dyn, i)
  {
    if !fullbright && s.samples.Some? { SameScales(s.samples.value, a, b, s.Maps(), i); }
  }

  /** So bright that the byte stored is that of full brightness. */
  predicate SaturatedAt(s: Surface, mode2: bool, scale: seq<nat>, r: nat, c: nat)
    requires s.WellFormed() && |scale| == MAXLIGHTMAPS && r < s.place.h && c < s.RowBytes()
  {
    CellBound(s, r, c);
    var light := if s.samples.Some? then StyleLight(s.samples.value, scale, s.Maps(), r * s.RowBytes() + c) else 0;
    if mode2 then light / 256 + light / 512 >= 255 else light / 128 >= 255
  }

  ghost predicate Saturated(s: Surface, mode2: bool, scale: seq<nat>)
    requires s.WellFormed() && |scale| == MAXLIGHTMAPS
  {
    forall r: nat, c: nat :: r < s.place.h && c < s.RowBytes() ==> SaturatedAt(s, mode2, scale, r, c)
  }

  lemma ShadesDiffer(s: Surface, mode2: bool, scale: seq<nat>, r: nat, c: nat)
    requires s.WellFormed() && |scale| == MAXLIGHTMAPS && r < s.place.h && c < s.RowBytes()
    ensures Shade(s, false, mode2, scale, NoLights, r, c) == Shade(s, true, mode2, scale, NoLights, r, c)
      <==> SaturatedAt(s, mode2, scale, r, c)
  {
  }

  lemma SaturatedMeans(s: Surface, mode2: bool, scale: seq<nat>)
    requires s.WellFormed() && |scale| == MAXLIGHTMAPS
    ensures Saturated(s, mode2, scale) <==> forall r: nat, c: nat :: r < s.place.h && c < s.RowBytes() ==>
      SaturatedAt(s, mode2, scale, r, c)
  {
  }

  // ----- Dirty rectangles ----------------------------------------------------------------------

  /** Grow the dirty rectangle over a surface. */
  function Grow(r: Rect, p: Placed): Rect {
    var (t, h) := if p.y < r.t then (p.y as int, if r.h != 0 then r.h + r.t - p.y else r.h) else (r.t, r.h);
    var (l, w) := if p.x < r.l then (p.x as int, if r.w != 0 then r.w + r.l - p.x else r.w) else (r.l, r.w);
    Rect(l, t,
         if w + l < p.x + p.w then p.x - l + p.w else w,
         if h + t < p.y + p.h then p.y - t + p.h else h)
  }

  ghost predicate InRect(r: Rect, row: int, byteCol: int) {
    r.t <= row < r.t + r.h && 3 * r.l <= byteCol < 3 * (r.l + r.w)
  }

  ghost predicate CoversByte(p: Placed, t: int, row: int, byteCol: int) {
    t == p.tex && p.y <= row < p.y + p.h && 3 * p.x <= byteCol < 3 * (p.x + p.w)
  }

  /** The grown rectangle stays in the block and holds both the old one and the surface. */
  lemma GrowCovers(r: Rect, p: Placed, row: int, byteCol: int)
    requires r.Inside() && p.InBounds()
    ensures Grow(r, p).Inside()
    ensures InRect(r, row, byteCol) || CoversByte(p, p.tex, row, byteCol) ==> InRect(Grow(r, p), row, byteCol)
  {
  }

  lemma BytesDisjoint(a: Placed, b: Placed, t: int, row: int, byteCol: int)
    requires Disjoint(a, b)
    ensures !(CoversByte(a, t, row, byteCol) && CoversByte(b, t, row, byteCol))
  {
    assert !(a.Covers(t, byteCol / 3, row) && b.Covers(t, byteCol / 3, row));
  }

  // ----- The lightmaps as they run ---------------------------------------------------------------

  class Store {
    const mode2: bool
    const packer: Packer
    const lightmaps: array3<nat>   // in main memory: texture, row, byte
    const texture: array3<nat>     // the graphics library's copy
    const modified: array<bool>
    const rect: array<Rect>
    var surfaces: seq<Surface>
    ghost var bright: seq<bool>    // of each surface: was it built at full brightness?
    ghost var uploaded: bool       // the first upload has happened

    constructor (mode2: bool)
      ensures Valid() && surfaces == [] && !uploaded && this.mode2 == mode2
      ensures fresh(packer) && fresh(packer.heights) && fresh(lightmaps) && fresh(texture) && fresh(modified)
      ensures fresh(rect)
    {
      this.mode2 := mode2;
      packer := new Packer();
      lightmaps := new nat[MAX_LIGHTMAPS, BLOCK_HEIGHT, ROW_BYTES]((_, _, _) => 0);
      texture := new nat[MAX_LIGHTMAPS, BLOCK_HEIGHT, ROW_BYTES]((_, _, _) => 0);
      modified := new bool[MAX_LIGHTMAPS](_ => false);
      rect := new Rect[MAX_LIGHTMAPS](_ => CLEAN);
      surfaces, bright, uploaded := [], [], false;
    }

    ghost predicate Layout()
      reads this, packer, packer.heights
    {
      && packer.Valid() && Arrays()
      && |surfaces| == |bright| == |packer.placed|
      && forall k :: 0 <= k < |surfaces| ==> surfaces[k].WellFormed() && surfaces[k].place == packer.placed[k]
    }

    /** Memory shows surface `s` at full brightness, or as lit by the styles at brightness `scale` and by `dyn`. */
    ghost predicate Shows(s: Surface, fullbright: bool, scale: seq<nat>, dyn: Dynamic)
      requires Arrays() && s.WellFormed() && |scale| == MAXLIGHTMAPS && Fits(s, dyn)
      reads lightmaps
    {
      forall r: nat :: r < s.place.h ==> RowShown(s, r, fullbright, scale, dyn)
    }

    /** What is remembered about a surface is true of memory, given how it was built. */
    ghost predicate CacheOk(s: Surface, fullbright: bool)
      requires Arrays() && s.WellFormed()
      reads lightmaps
    {
      !s.cachedDlight ==> Shows(s, fullbright, s.cachedLight, NoLights)
    }

    /** Where a copy differs from memory, the texture is flagged and the dirty rectangle covers the place. */
    ghost predicate Coherent()
      requires Layout()
      reads this, packer, packer.heights, lightmaps, texture, modified, rect
    {
      forall t, row, b :: 0 <= t < packer.used && 0 <= row < BLOCK_HEIGHT && 0 <= b < ROW_BYTES ==>
           texture[t, row, b] == lightmaps[t, row, b] || (modified[t] && InRect(rect[t], row, b))
    }

    ghost predicate Valid()
      reads this, packer, packer.heights, lightmaps, texture, modified, rect
    {
      && Layout()
      && (forall k :: 0 <= k < |surfaces| ==> CacheOk(surfaces[k], bright[k]))
      && (forall t :: 0 <= t < MAX_LIGHTMAPS ==> rect[t].Inside())
      && (uploaded ==> Coherent())
    }

    /** Add up the light on every cell of a surface. */
    method Combine(s: Surface, fullbright: bool, styleValue: seq<nat>, dyn: Dynamic) returns (blocklights: array<nat>)
      requires s.WellFormed() && |styleValue| == 256 && Fits(s, dyn)
      ensures fresh(blocklights) && blocklights.Length == s.Size()
      ensures forall i :: 0 <= i < s.Size() ==> blocklights[i] == Light(s, fullbright, Scales(s, styleValue), dyn, i)
    {
      if fullbright {
        blocklights := new nat[s.Size()](_ => 255 * 256);
        return;
      }
      blocklights := new nat[s.Size()](_ => 0);
      ghost var scale := Scales(s, styleValue);
      if s.samples.Some? {
        var grids := s.samples.value;
        var maps := 0;
        while maps < MAXLIGHTMAPS && s.styles[maps] != NO_STYLE
          invariant 0 <= maps <= s.Maps()
          invariant forall i :: 0 <= i < s.Size() ==> blocklights[i] == StyleLight(grids, scale, maps, i)
        {
          AddGrid(blocklights, grids, scale, maps, styleValue[s.styles[maps]]);
          maps := maps + 1;
        }
      }
      if dyn.Lights? {
        AddDynamic(blocklights, dyn.add);
      }
    }

    method AddGrid(blocklights: array<nat>, grids: seq<seq<nat>>, ghost scale: seq<nat>, maps: nat, value: nat)
      requires maps < |grids| && maps < |scale| && value == scale[maps]
      requires forall m :: 0 <= m <= maps ==> |grids[m]| == blocklights.Length
      requires forall i :: 0 <= i < blocklights.Length ==> blocklights[i] == StyleLight(grids, scale, maps, i)
      modifies blocklights
      ensures forall i :: 0 <= i < blocklights.Length ==> blocklights[i] == StyleLight(grids, scale, maps + 1, i)
    {
      for i := 0 to blocklights.Length
        invariant forall j :: 0 <= j < i ==> blocklights[j] == StyleLight(grids, scale, maps + 1, j)
        invariant forall j :: i <= j < blocklights.Length ==> blocklights[j] == StyleLight(grids, scale, maps, j)
      {
        blocklights[i] := blocklights[i] + grids[maps][i] * value;
      }
    }

    method AddDynamic(blocklights: array<nat>, add: seq<nat>)
      requires |add| == blocklights.Length
      modifies blocklights
      ensures forall i :: 0 <= i < blocklights.Length ==> blocklights[i] == old(blocklights[i]) + add[i]
    {
      for i := 0 to blocklights.Length
        invariant forall j :: 0 <= j < i ==> blocklights[j] == old(blocklights[j]) + add[j]
        invariant forall j :: i <= j < blocklights.Length ==> blocklights[j] == old(blocklights[j])
      {
        blocklights[i] := blocklights[i] + add[i];
      }
    }

    /** Store one row of the surface, whose cells start at `base`. */
    method StoreRow(p: Placed, r: nat, blocklights: array<nat>, base: nat)
      requires Arrays() && p.InBounds() && r < p.h && base + 3 * p.w <= blocklights.Length
      modifies lightmaps
      ensures forall c: nat :: c < 3 * p.w ==> CellStored(p, r, blocklights, base, c)
      ensures forall t, row, b :: InArrays(t, row, b) ==>
        lightmaps[t, row, b] ==
          if t == p.tex && row == p.y + r && 3 * p.x <= b < 3 * (p.x + p.w)
          then Stored(mode2, blocklights[base + b - 3 * p.x])
          else old(lightmaps[t, row, b])
    {
      for c := 0 to 3 * p.w
        invariant forall t, row, b :: InArrays(t, row, b) ==>
          lightmaps[t, row, b] ==
            if t == p.tex && row == p.y + r && 3 * p.x <= b < 3 * p.x + c
            then Stored(mode2, blocklights[base + b - 3 * p.x])
            else old(lightmaps[t, row, b])
      {
        lightmaps[p.tex, p.y + r, 3 * p.x + c] := Stored(mode2, blocklights[base + c]);
      }
      forall c: nat | c < 3 * p.w ensures CellStored(p, r, blocklights, base, c) {
        StoredIs(mode2, blocklights[base + c]);
      }
    }

    ghost predicate CellStored(p: Placed, r: nat, blocklights: array<nat>, base: nat, c: nat)
      requires Arrays() && p.InBounds() && r < p.h && c < 3 * p.w && base + c < blocklights.Length
      reads lightmaps, blocklights
    {
      ByteFor(mode2, blocklights[base + c], lightmaps[p.tex, p.y + r, 3 * p.x + c])
    }

    ghost predicate Arrays() {
      && lightmaps.Length0 == texture.Length0 == MAX_LIGHTMAPS
      && lightmaps.Length1 == texture.Length1 == BLOCK_HEIGHT
      && lightmaps.Length2 == texture.Length2 == ROW_BYTES
      && modified.Length == rect.Length == MAX_LIGHTMAPS && lightmaps != texture
    }

    ghost predicate InArrays(t: int, row: int, b: int) {
      0 <= t < MAX_LIGHTMAPS && 0 <= row < BLOCK_HEIGHT && 0 <= b < ROW_BYTES
    }

    /** Row `r` of the surface is stored as it should be shaded, and nothing else changes. */
    method ShadeRow(s: Surface, r: nat, blocklights: array<nat>, bl: nat,
                    ghost fullbright: bool, ghost scale: seq<nat>, ghost dyn: Dynamic)
      requires Arrays() && s.WellFormed() && |scale| == MAXLIGHTMAPS && Fits(s, dyn) && blocklights.Length == s.Size()
      requires forall i :: 0 <= i < s.Size() ==> blocklights[i] == Light(s, fullbright, scale, dyn, i)
      requires r < s.place.h && bl == r * s.RowBytes()
      modifies lightmaps
      ensures RowShown(s, r, fullbright, scale, dyn)
      ensures forall t, row, b :: InArrays(t, row, b) && !(row == s.place.y + r && CoversByte(s.place, t, row, b)) ==>
        lightmaps[t, row, b] == old(lightmaps[t, row, b])
    {
      hide Light, Stored;
      var p := s.place;
      CellBound(s, r, s.RowBytes() - 1);
      StoreRow(p, r, blocklights, bl);
      forall c: nat | c < s.RowBytes()
        ensures lightmaps[p.tex, p.y + r, 3 * p.x + c] == Shade(s, fullbright, mode2, scale, dyn, r, c)
      {
        CellBound(s, r, c);
        assert blocklights[bl + c] == Light(s, fullbright, scale, dyn, r * s.RowBytes() + c);
      }
    }

    ghost predicate RowShown(s: Surface, r: nat, fullbright: bool, scale: seq<nat>, dyn: Dynamic)
      requires Arrays() && s.WellFormed() && |scale| == MAXLIGHTMAPS && Fits(s, dyn) && r < s.place.h
      reads lightmaps
    {
      forall c: nat :: c < s.RowBytes() ==>
        lightmaps[s.place.tex, s.place.y + r, 3 * s.place.x + c] == Shade(s, fullbright, mode2, scale, dyn, r, c)
    }

    /** Store all rows of a surface. */
    method StoreBlock(s: Surface, blocklights: array<nat>, ghost fullbright: bool, ghost scale: seq<nat>,
          ghost dyn: Dynamic)
      requires Arrays() && s.WellFormed() && |scale| == MAXLIGHTMAPS && Fits(s, dyn) && blocklights.Length == s.Size()
      requires forall i :: 0 <= i < s.Size() ==> blocklights[i] == Light(s, fullbright, scale, dyn, i)
      requires lightmaps as object != blocklights
      modifies lightmaps
      ensures Shows(s, fullbright, scale, dyn)
      ensures forall t, row, b :: InArrays(t, row, b) && !CoversByte(s.place, t, row, b) ==>
        lightmaps[t, row, b] == old(lightmaps[t, row, b])
    {
      hide Light, Stored, Shade;
      var bl := 0;
      for r := 0 to s.place.h
        invariant bl == r * s.RowBytes()
        invariant forall q: nat :: q < r ==> RowShown(s, q, fullbright, scale, dyn)
        invariant forall t, row, b :: InArrays(t, row, b) && !CoversByte(s.place, t, row, b) ==>
          lightmaps[t, row, b] == old(lightmaps[t, row, b])
      {
        label before:
        ShadeRow(s, r, blocklights, bl, fullbright, scale, dyn);
        forall q: nat | q < r ensures RowShown(s, q, fullbright, scale, dyn) {
          assert old@before(RowShown(s, q, fullbright, scale, dyn));
        }
        bl := bl + s.RowBytes();
      }
    }

    /** Rebuild the lightmap of a surface in memory; no byte outside its place changes. */
    method BuildLightMap(s: Surface, fullbright: bool, styleValue: seq<nat>, dyn: Dynamic) returns (s': Surface)
      requires Arrays() && s.WellFormed() && |styleValue| == 256 && Fits(s, dyn)
      modifies lightmaps
      ensures SameSurface(s, s') && s'.WellFormed() && Shows(s', fullbright, Scales(s', styleValue), dyn)
      ensures CacheOk(s', fullbright)
      ensures forall r: nat, c: nat :: r < s.place.h && c < s.RowBytes() ==>
        ByteOk(s, fullbright, styleValue, dyn, r, c)
      ensures forall t, row, b :: InArrays(t, row, b) && !CoversByte(s.place, t, row, b) ==>
        lightmaps[t, row, b] == old(lightmaps[t, row, b])
    {
      hide Light, Shade, RowShown;
      var blocklights := Combine(s, fullbright, styleValue, dyn);
      StoreBlock(s, blocklights, fullbright, Scales(s, styleValue), dyn);
      var light := if fullbright || s.samples.None? then s.cachedLight else Remember(s, styleValue);
      s' := s.(cachedLight := light, cachedDlight := dyn.Lights?);
      SameShades(s, s', fullbright, Scales(s, styleValue), Scales(s', styleValue), dyn);
      if !s'.cachedDlight { SameShades(s, s', fullbright, Scales(s, styleValue), s'.cachedLight, dyn); }
      ShownBytes(s, fullbright, styleValue, dyn);
    }

    /** The byte at row `r`, byte column `c` of a surface is the one for all the light there. */
    ghost predicate ByteOk(s: Surface, fullbright: bool, styleValue: seq<nat>, dyn: Dynamic, r: nat, c: nat)
      requires Arrays() && s.WellFormed() && |styleValue| == 256 && Fits(s, dyn) && r < s.place.h && c < s.RowBytes()
      reads lightmaps
    {
      CellBound(s, r, c);
      ByteFor(mode2, TotalLight(s, fullbright, styleValue, dyn, r * s.RowBytes() + c),
        lightmaps[s.place.tex, s.place.y + r, 3 * s.place.x + c])
    }

    lemma ShownBytes(s: Surface, fullbright: bool, styleValue: seq<nat>, dyn: Dynamic)
      requires Arrays() && s.WellFormed() && |styleValue| == 256 && Fits(s, dyn)
      requires Shows(s, fullbright, Scales(s, styleValue), dyn)
      ensures forall r: nat, c: nat :: r < s.place.h && c < s.RowBytes() ==>
        ByteOk(s, fullbright, styleValue, dyn, r, c)
    {
      hide Light, ByteFor, Stored, TotalLight;
      forall r: nat, c: nat | r < s.place.h && c < s.RowBytes()
        ensures ByteOk(s, fullbright, styleValue, dyn, r, c)
      {
        CellBound(s, r, c);
        var i := r * s.RowBytes() + c;
        assert RowShown(s, r, fullbright, Scales(s, styleValue), dyn);
        assert lightmaps[s.place.tex, s.place.y + r, 3 * s.place.x + c]
          == Shade(s, fullbright, mode2, Scales(s, styleValue), dyn, r, c);
        LightIsTotal(s, fullbright, styleValue, dyn, i);
        StoredIs(mode2, TotalLight(s, fullbright, styleValue, dyn, i));
      }
    }

    /** The brightness of the styles in use, put over what was remembered before. */
    function Remember(s: Surface, styleValue: seq<nat>): (light: seq<nat>)
      requires s.WellFormed() && |styleValue| == 256
      ensures |light| == MAXLIGHTMAPS && forall m :: 0 <= m < s.Maps() ==> light[m] == styleValue[s.styles[m]]
      ensures light[s.Maps()..] == s.cachedLight[s.Maps()..]
    {
      seq(MAXLIGHTMAPS, m requires 0 <= m < MAXLIGHTMAPS =>
        if m < s.Maps() then styleValue[s.styles[m]] else s.cachedLight[m])
    }

    ghost predicate SameSurface(s: Surface, u: Surface) {
      u.place == s.place && u.styles == s.styles && u.samples == s.samples
    }

    lemma SameShades(s: Surface, u: Surface, fullbright: bool, a: seq<nat>, b: seq<nat>, dyn: Dynamic)
      requires Arrays() && s.WellFormed() && u.WellFormed() && |a| == |b| == MAXLIGHTMAPS && Fits(s, dyn)
      requires SameSurface(s, u)
      requires !fullbright && s.samples.Some? ==> forall m :: 0 <= m < s.Maps() ==> a[m] == b[m]
      ensures Shows(s, fullbright, a, dyn) ==> Shows(u, fullbright, b, dyn)
    {
      hide Shade, Light;
      forall r: nat, c: nat | r < s.place.h && c < s.RowBytes()
        ensures Shade(s, fullbright, mode2, a, dyn, r, c) == Shade(u, fullbright, mode2, b, dyn, r, c)
      {
        SameShade(s, u, fullbright, a, b, dyn, r, c);
      }
      if Shows(s, fullbright, a, dyn) {
        forall r: nat | r < s.place.h ensures RowShown(u, r, fullbright, b, dyn) {
          assert RowShown(s, r, fullbright, a, dyn);
        }
      }
    }

    lemma SameShade(s: Surface, u: Surface, fullbright: bool, a: seq<nat>, b: seq<nat>, dyn: Dynamic, r: nat, c: nat)
      requires s.WellFormed() && u.WellFormed() && |a| == |b| == MAXLIGHTMAPS && Fits(s, dyn) && SameSurface(s, u)
      requires !fullbright && s.samples.Some? ==> forall m :: 0 <= m < s.Maps() ==> a[m] == b[m]
      requires r < s.place.h && c < s.RowBytes()
      ensures Shade(s, fullbright, mode2, a, dyn, r, c) == Shade(u, fullbright, mode2, b, dyn, r, c)
    {
      hide Light, Stored;
      CellBound(s, r, c);
      LightDependsOnStyles(s, u, fullbright, a, b, dyn, r * s.RowBytes() + c);
    }

    /** Rebuild surface `k`; all other surfaces keep their bytes, and what is remembered stays true. */
    method Rebuild(k: nat, fullbright: bool, styleValue: seq<nat>, dyn: Dynamic)
      requires Layout() && k < |surfaces| && |styleValue| == 256 && Fits(surfaces[k], dyn)
      requires forall l :: 0 <= l < |surfaces| && l != k ==> CacheOk(surfaces[l], bright[l])
      modifies `surfaces, `bright, lightmaps
      ensures Layout() && |surfaces| == |old(surfaces)| && SameSurface(old(surfaces)[k], surfaces[k])
      ensures bright == old(bright)[k := fullbright]
      ensures forall l :: 0 <= l < |surfaces| && l != k ==> surfaces[l] == old(surfaces)[l]
      ensures forall l :: 0 <= l < |surfaces| ==> CacheOk(surfaces[l], bright[l])
      ensures Fits(surfaces[k], dyn) && Shows(surfaces[k], fullbright, Scales(surfaces[k], styleValue), dyn)
      ensures forall t, row, b :: InArrays(t, row, b) && !CoversByte(surfaces[k].place, t, row, b) ==>
        lightmaps[t, row, b] == old(lightmaps[t, row, b])
    {
      hide Shade, Light, Disjoint;
      var s' := BuildLightMap(surfaces[k], fullbright, styleValue, dyn);
      forall l | 0 <= l < |surfaces| && l != k ensures CacheOk(surfaces[l], bright[l]) {
        SurfacesDisjoint(l, k);
        var s := surfaces[l];
        if !s.cachedDlight {
          forall r: nat | r < s.place.h ensures RowShown(s, r, bright[l], s.cachedLight, NoLights) {
            assert old(RowShown(s, r, bright[l], s.cachedLight, NoLights));
            forall c: nat | c < s.RowBytes()
              ensures lightmaps[s.place.tex, s.place.y + r, 3 * s.place.x + c]
                == Shade(s, bright[l], mode2, s.cachedLight, NoLights, r, c)
            {
              BytesDisjoint(s.place, surfaces[k].place, s.place.tex, s.place.y + r, 3 * s.place.x + c);
            }
          }
        }
      }
      surfaces, bright := surfaces[k := s'], bright[k := fullbright];
    }

    /** Has a style of the surface changed since its lightmap was built? */
    method StylesChanged(s: Surface, styleValue: seq<nat>) returns (changed: bool)
      requires s.WellFormed() && |styleValue| == 256
      ensures changed <==> exists m :: 0 <= m < s.Maps() && styleValue[s.styles[m]] != s.cachedLight[m]
    {
      var maps := 0;
      while maps < MAXLIGHTMAPS && s.styles[maps] != NO_STYLE
        invariant 0 <= maps <= s.Maps()
        invariant forall m :: 0 <= m < maps ==> styleValue[s.styles[m]] == s.cachedLight[m]
      {
        if styleValue[s.styles[maps]] != s.cachedLight[maps] { return true; }
        maps := maps + 1;
      }
      return false;
    }

    lemma SurfacesDisjoint(k: nat, l: nat)
      requires Layout() && k < |surfaces| && l < |surfaces| && k != l
      ensures Disjoint(surfaces[k].place, surfaces[l].place)
    {
      if k < l {
        assert Disjoint(packer.placed[k], packer.placed[l]);
      } else {
        assert Disjoint(packer.placed[l], packer.placed[k]);
      }
    }

    /** Nothing about surface `k` asks for a rebuild: neither dynamic lights, now or then, nor its styles. */
    ghost predicate Skipped(s: Surface, styleValue: seq<nat>, dyn: Dynamic)
      requires s.WellFormed() && |styleValue| == 256
    {
      dyn.NoLights? && !s.cachedDlight && forall m :: 0 <= m < s.Maps() ==> styleValue[s.styles[m]] == s.cachedLight[m]
    }

    /** The surface is rebuilt, or was built at the present setting, or the setting makes no difference. */
    ghost predicate EndsUpCurrent(s: Surface, was: bool, fullbright: bool, styleValue: seq<nat>, dyn: Dynamic)
      requires s.WellFormed() && |styleValue| == 256
    {
      !Skipped(s, styleValue, dyn) || was == fullbright || Saturated(s, mode2, Scales(s, styleValue))
    }

    /**
     Bring the lightmap of surface `k` up to date before it is drawn.  Memory afterwards shows the
     surface under the current lights, exactly if it was rebuilt, or was built at the present
     setting of full brightness, or is so bright that this makes no difference.
     */
    method RenderDynamicLightmaps(k: nat, dynamicOn: bool, fullbright: bool, styleValue: seq<nat>, dyn: Dynamic)
      requires Valid() && uploaded && k < |surfaces| && |styleValue| == 256 && Fits(surfaces[k], dyn)
      modifies `surfaces, `bright, lightmaps, modified, rect
      ensures Valid() && |surfaces| == |old(surfaces)| && SameSurface(old(surfaces)[k], surfaces[k])
      ensures forall l :: 0 <= l < |surfaces| && l != k ==> surfaces[l] == old(surfaces)[l]
      ensures !dynamicOn || Skipped(old(surfaces)[k], styleValue, dyn) ==>
        unchanged(this) && unchanged(lightmaps) && unchanged(modified) && unchanged(rect)
      ensures Fits(surfaces[k], dyn)
      ensures dynamicOn ==> (Shows(surfaces[k], fullbright, Scales(surfaces[k], styleValue), dyn) <==>
        EndsUpCurrent(old(surfaces)[k], old(bright)[k], fullbright, styleValue, dyn))
      ensures forall t, row, b :: InArrays(t, row, b) && !CoversByte(surfaces[k].place, t, row, b) ==>
        lightmaps[t, row, b] == old(lightmaps[t, row, b])
    {
      hide Shade, Light, Saturated, Grow, InRect, RowShown, Shows;
      if !dynamicOn { return; }
      var s := surfaces[k];
      var changed := StylesChanged(s, styleValue);
      if dyn.NoLights? && !s.cachedDlight && !changed {
        SkippedShowsIff(s, bright[k], fullbright, styleValue);
        return;
      }
      MarkDirty(s.place);
      Rebuild(k, fullbright, styleValue, dyn);
    }

    /** What is left of a skipped surface is the present picture exactly if the setting makes no difference. */
    lemma SkippedShowsIff(s: Surface, was: bool, fullbright: bool, styleValue: seq<nat>)
      requires Arrays() && s.WellFormed() && |styleValue| == 256 && CacheOk(s, was) && Skipped(s, styleValue, NoLights)
      ensures Shows(s, fullbright, Scales(s, styleValue), NoLights) <==>
        was == fullbright || Saturated(s, mode2, Scales(s, styleValue))
    {
      hide Shade, Light, Saturated;
      var scale := Scales(s, styleValue);
      SameShades(s, s, was, s.cachedLight, scale, NoLights);
      if was != fullbright {
        forall r: nat, c: nat | r < s.place.h && c < s.RowBytes()
          ensures Shade(s, was, mode2, scale, NoLights, r, c) == Shade(s, fullbright, mode2, scale, NoLights, r, c)
            <==> SaturatedAt(s, mode2, scale, r, c)
        {
          ShadesDiffer(s, mode2, scale, r, c);
        }
        ShowsBothIff(s, was, fullbright, scale);
        SaturatedMeans(s, mode2, scale);
      }
    }

    lemma ShowsBothIff(s: Surface, was: bool, now: bool, scale: seq<nat>)
      requires Arrays() && s.WellFormed() && |scale| == MAXLIGHTMAPS && Shows(s, was, scale, NoLights)
      ensures Shows(s, now, scale, NoLights) <==> forall r: nat, c: nat :: r < s.place.h && c < s.RowBytes() ==>
        Shade(s, was, mode2, scale, NoLights, r, c) == Shade(s, now, mode2, scale, NoLights, r, c)
    {
      hide Shade;
      if Shows(s, now, scale, NoLights) {
        forall r: nat, c: nat | r < s.place.h && c < s.RowBytes()
          ensures Shade(s, was, mode2, scale, NoLights, r, c) == Shade(s, now, mode2, scale, NoLights, r, c)
        {
          assert RowShown(s, r, was, scale, NoLights) && RowShown(s, r, now, scale, NoLights);
          assert lightmaps[s.place.tex, s.place.y + r, 3 * s.place.x + c] ==
            Shade(s, was, mode2, scale, NoLights, r, c);
        }
      } else {
        var r: nat :| r < s.place.h && !RowShown(s, r, now, scale, NoLights);
        assert RowShown(s, r, was, scale, NoLights);
        var c: nat :| c < s.RowBytes() && lightmaps[s.place.tex, s.place.y + r, 3 * s.place.x + c]
          != Shade(s, now, mode2, scale, NoLights, r, c);
        assert Shade(s, was, mode2, scale, NoLights, r, c) != Shade(s, now, mode2, scale, NoLights, r, c);
      }
    }

    /** An unlit surface built in normal light stays black when full brightness is turned on. */
    lemma FullbrightIsMissed(s: Surface, styleValue: seq<nat>)
      requires Arrays() && s.WellFormed() && |styleValue| == 256 && s.samples.None?
      requires CacheOk(s, false) && Skipped(s, styleValue, NoLights)
      ensures !Shows(s, true, Scales(s, styleValue), NoLights)
    {
      SkippedShowsIff(s, false, true, styleValue);
      CellBound(s, 0, 0);
      assert !SaturatedAt(s, mode2, Scales(s, styleValue), 0, 0);
    }

    /** Flag the texture of a surface and grow its dirty rectangle over the surface. */
    method MarkDirty(p: Placed)
      requires Arrays() && p.InBounds() && rect[p.tex].Inside()
      modifies modified, rect
      ensures modified[p.tex] && rect[p.tex].Inside()
      ensures forall row, b :: InRect(old(rect[p.tex]), row, b) || CoversByte(p, p.tex, row, b) ==>
        InRect(rect[p.tex], row, b)
      ensures forall t :: 0 <= t < MAX_LIGHTMAPS && t != p.tex ==>
        modified[t] == old(modified[t]) && rect[t] == old(rect[t])
    {
      var t := p.tex;
      modified[t] := true;
      rect[t] := Grow(rect[t], p);
      GrowCovers(old(rect[t]), p, 0, 0);
      forall row, b | InRect(old(rect[t]), row, b) || CoversByte(p, t, row, b) ensures InRect(rect[t], row, b) {
        GrowCovers(old(rect[t]), p, row, b);
      }
    }

    /** Copy rows from .. from+n-1 of a texture to the graphics library. */
    method CopyRows(tex: nat, from: nat, n: nat)
      requires Arrays() && tex < MAX_LIGHTMAPS && from + n <= BLOCK_HEIGHT
      modifies texture
      ensures forall t, row, b :: InArrays(t, row, b) ==>
        texture[t, row, b] ==
          if t == tex && from <= row < from + n then lightmaps[t, row, b] else old(texture[t, row, b])
    {
      for i := 0 to n
        invariant forall t, row, b :: InArrays(t, row, b) ==>
          texture[t, row, b] ==
            if t == tex && from <= row < from + i then lightmaps[t, row, b] else old(texture[t, row, b])
      {
        for c := 0 to ROW_BYTES
          invariant forall t, row, b :: InArrays(t, row, b) ==>
            texture[t, row, b] ==
              if t == tex && (from <= row < from + i || (row == from + i && b < c)) then lightmaps[t, row, b]
              else old(texture[t, row, b])
        {
          texture[tex, from + i, c] := lightmaps[tex, from + i, c];
        }
      }
    }

    /** Upload the dirty rows of a texture: afterwards its copy is the same as memory. */
    method UploadLightMap(tex: nat)
      requires Valid() && uploaded && tex < packer.used
      modifies texture, modified, rect
      ensures Valid() && !modified[tex] && rect[tex] == CLEAN
      ensures forall row, b :: InArrays(tex, row, b) ==> texture[tex, row, b] == lightmaps[tex, row, b]
      ensures forall t, row, b :: InArrays(t, row, b) && t != tex ==> texture[t, row, b] == old(texture[t, row, b])
      ensures forall t :: 0 <= t < MAX_LIGHTMAPS && t != tex ==>
        modified[t] == old(modified[t]) && rect[t] == old(rect[t])
    {
      modified[tex] := false;
      CopyRows(tex, rect[tex].t, rect[tex].h);
      rect[tex] := CLEAN;
    }

    /** Give a new surface a place and build its lightmap; false where the original stops with an error. */
    method CreateSurfaceLightmap(smax: nat, tmax: nat, styles: seq<nat>, samples: Option<seq<seq<nat>>>,
                                 fullbright: bool, styleValue: seq<nat>)
        returns (ok: bool)
      requires Valid() && !uploaded && 1 <= smax && 1 <= tmax && |styleValue| == 256
      requires |styles| == MAXLIGHTMAPS && forall i :: 0 <= i < MAXLIGHTMAPS ==> styles[i] < 256
      requires samples.Some? ==> StyleCount(styles) <= |samples.value|
      requires samples.Some? ==> forall m :: 0 <= m < StyleCount(styles) ==> |samples.value[m]| == tmax * (3 * smax)
      modifies `surfaces, `bright, lightmaps, packer, packer.heights
      ensures Valid() && !uploaded
      ensures !ok ==> surfaces == old(surfaces)
      ensures !ok ==> unchanged(packer) && unchanged(packer.heights) && unchanged(lightmaps)
      ensures ok ==> |surfaces| == |old(surfaces)| + 1 && surfaces[..|old(surfaces)|] == old(surfaces)
      ensures ok ==> var s := surfaces[|old(surfaces)|];
        && s.place.w == smax && s.place.h == tmax && s.styles == styles && s.samples == samples
        && Shows(s, fullbright, Scales(s, styleValue), NoLights)
      ensures (smax < BLOCK_WIDTH && tmax <= BLOCK_HEIGHT && smax * tmax <= MAX_LIGHTMAP_SIZE
               && old(packer.used) < MAX_LIGHTMAPS) ==> ok
      ensures smax >= BLOCK_WIDTH || tmax > BLOCK_HEIGHT || smax * tmax > MAX_LIGHTMAP_SIZE ==> !ok
    {
      if smax > BLOCK_WIDTH || tmax > BLOCK_HEIGHT || smax * tmax > MAX_LIGHTMAP_SIZE {
        return false;
      }
      var place := packer.AllocBlock(smax, tmax);
      if place.Full? {
        return false;
      }
      var s := Surface(Placed(place.tex, place.x, place.y, smax, tmax), styles, samples, [0, 0, 0, 0], true);
      assert packer.placed[|surfaces|] == s.place;
      surfaces, bright := surfaces + [s], bright + [fullbright];
      Rebuild(|surfaces| - 1, fullbright, styleValue, NoLights);
      return true;
    }

    /** The first upload: all textures that were filled, which are those before the first empty column 0. */
    method UploadAll()
      requires Valid() && !uploaded
      modifies `uploaded, texture, modified, rect
      ensures Valid() && uploaded
      ensures forall t, row, b :: InArrays(t, row, b) && t < packer.used ==> texture[t, row, b] == lightmaps[t, row, b]
      ensures forall t :: 0 <= t < packer.used ==> !modified[t] && rect[t] == CLEAN
    {
      var i := 0;
      while i < MAX_LIGHTMAPS
        invariant 0 <= i <= packer.used
        invariant forall t :: 0 <= t < MAX_LIGHTMAPS ==> rect[t].Inside()
        invariant forall t :: 0 <= t < i ==> !modified[t] && rect[t] == CLEAN
        invariant forall t, row, b :: InArrays(t, row, b) && t < i ==> texture[t, row, b] == lightmaps[t, row, b]
      {
        if packer.heights[i, 0] == 0 { break; }
        modified[i] := false;
        rect[i] := CLEAN;
        CopyRows(i, 0, BLOCK_HEIGHT);
        i := i + 1;
      }
      uploaded := true;
    }
  }
}
