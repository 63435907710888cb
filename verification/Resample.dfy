/**
 Scaling a texture up by bilinear interpolation in 16.16 fixed point.  The program keeps the two
 interpolated source rows it needs in buffers and moves an output pointer row by row, but not after
 a row taken from the last source row.
 */
module Resample {
  import opened Basics

  // ----- Interpolation ------------------------------------------------------------------------------

  /** (((b - a) * lerp) >> 16) + a, with the shift rounding down. */
  function Lerp(a: int, b: int, lerp: int): int {
    (b - a) * lerp / 65536 + a
  }

  lemma LerpBetween(a: int, b: int, lerp: int)
    requires 0 <= lerp < 65536
    ensures a <= b ==> a <= Lerp(a, b, lerp) <= b
    ensures b <= a ==> b <= Lerp(a, b, lerp) <= a
  {
    var d := b - a;
    Scaled(d, lerp);
    Shifted(d * lerp, d);
  }

  /** The mean of the two, weighted by how near each is, in 65536ths, rounded down. */
  lemma LerpIsMean(a: int, b: int, lerp: nat)
    requires lerp <= 65536
    ensures 65536 * Lerp(a, b, lerp) <= a * (65536 - lerp) + b * lerp < 65536 * Lerp(a, b, lerp) + 65536
  {
    var y := (b - a) * lerp;
    assert a * (65536 - lerp) + b * lerp == 65536 * a + y;
    DividedDown(y);
  }

  lemma DividedDown(y: int)
    ensures 65536 * (y / 65536) <= y < 65536 * (y / 65536) + 65536
  {
  }

  lemma Scaled(d: int, lerp: nat)
    requires lerp < 65536
    ensures if d >= 0 then 0 <= d * lerp <= d * 65536 else d * 65536 <= d * lerp <= 0
  {
  }

  lemma Shifted(y: int, d: int)
    requires if d >= 0 then 0 <= y <= d * 65536 else d * 65536 <= y <= 0
    ensures if d >= 0 then 0 <= y / 65536 <= d else d <= y / 65536 <= 0
  {
  }

  lemma LerpByte(a: byte, b: byte, lerp: int)
    requires 0 <= lerp < 65536
    ensures 0 <= Lerp(a, b, lerp) < 256
  {
    LerpBetween(a, b, lerp);
  }

  /** The step from one output pixel to the next, in 1/65536 of a source pixel. */
  function FStep(inSize: nat, outSize: nat): nat
    requires outSize > 0
  {
    inSize * 65536 / outSize
  }

  /** The largest step with which as many steps as there are output pixels do not leave the source. */
  lemma FStepIs(inSize: nat, outSize: nat)
    requires outSize > 0
    ensures FStep(inSize, outSize) * outSize <= inSize * 65536 < (FStep(inSize, outSize) + 1) * outSize
  {
    Division(inSize * 65536, outSize);
  }

  lemma Division(m: nat, n: nat)
    requires n > 0
    ensures (m / n) * n <= m < (m / n + 1) * n
  {
  }

  /** No step leaves the source. */
  lemma StepInside(inSize: nat, outSize: nat, i: nat)
    requires inSize >= 1 && i < outSize
    ensures i * FStep(inSize, outSize) / 65536 < inSize
  {
    var s := FStep(inSize, outSize);
    DivisionBelow(inSize * 65536, outSize);
    ProductBelow(i, s, outSize);
    if s == 0 { ZeroProduct(i, s); }
  }

  lemma DivisionBelow(m: nat, n: nat)
    requires n > 0
    ensures n * (m / n) <= m
  {
  }

  lemma ProductBelow(i: nat, s: nat, n: nat)
    requires i < n
    ensures i * s + s <= n * s
  {
    assert n * s == i * s + s + (n - i - 1) * s;
  }

  lemma ZeroProduct(i: nat, s: nat)
    requires s == 0
    ensures i * s == 0
  {
  }

  function Channel(src: seq<byte>, x: nat, ch: nat): byte
    requires 4 * x + ch < |src|
  {
    src[4 * x + ch]
  }

  /** Channel `ch` of output pixel `j` of a line interpolated from source row `src`. */
  ghost function Line(src: seq<byte>, inw: nat, outw: nat, j: nat, ch: nat): (b: byte)
    requires |src| == 4 * inw && inw >= 1 && j < outw && ch < 4
  {
    StepInside(inw, outw, j);
    var f := j * FStep(inw, outw);
    var xi := f / 65536;
    if xi < inw - 1 then
      LerpByte(Channel(src, xi, ch), Channel(src, xi + 1, ch), f % 65536);
      Lerp(Channel(src, xi, ch), Channel(src, xi + 1, ch), f % 65536)
    else Channel(src, xi, ch)
  }

  /** A source image: rows of 4-channel pixels. */
  ghost predicate IsImage(img: seq<seq<byte>>, inw: nat) {
    |img| >= 1 && inw >= 1 && forall y :: 0 <= y < |img| ==> |img[y]| == 4 * inw
  }

  /** Direct bilinear interpolation at output pixel (i, j). */
  ghost function Bilinear(img: seq<seq<byte>>, inw: nat, outw: nat, outh: nat, i: nat, j: nat, ch: nat): (b: byte)
    requires IsImage(img, inw) && i < outh && j < outw && ch < 4
  {
    StepInside(|img|, outh, i);
    var f := i * FStep(|img|, outh);
    var yi := f / 65536;
    if yi < |img| - 1 then
      LerpByte(Line(img[yi], inw, outw, j, ch), Line(img[yi + 1], inw, outw, j, ch), f % 65536);
      Lerp(Line(img[yi], inw, outw, j, ch), Line(img[yi + 1], inw, outw, j, ch), f % 65536)
    else Line(img[yi], inw, outw, j, ch)
  }

  lemma LineBetween(src: seq<byte>, inw: nat, outw: nat, j: nat, ch: nat, lo: int, hi: int)
    requires |src| == 4 * inw && inw >= 1 && j < outw && ch < 4
    requires var xi := j * FStep(inw, outw) / 65536;
      forall x :: xi <= x <= xi + 1 && x < inw ==> lo <= Channel(src, x, ch) <= hi
    ensures lo <= Line(src, inw, outw, j, ch) <= hi
  {
    StepInside(inw, outw, j);
    var f := j * FStep(inw, outw);
    var xi := f / 65536;
    if xi < inw - 1 {
      LerpBetween(Channel(src, xi, ch), Channel(src, xi + 1, ch), f % 65536);
    }
  }

  /** Every channel of the result lies between its up to four source neighbours. */
  lemma BilinearBetween(img: seq<seq<byte>>, inw: nat, outw: nat, outh: nat, i: nat, j: nat, ch: nat, lo: int, hi: int)
    requires IsImage(img, inw) && i < outh && j < outw && ch < 4
    requires var yi, xi := i * FStep(|img|, outh) / 65536, j * FStep(inw, outw) / 65536;
      forall y, x :: yi <= y <= yi + 1 && y < |img| && xi <= x <= xi + 1 && x < inw ==>
        lo <= Channel(img[y], x, ch) <= hi
    ensures lo <= Bilinear(img, inw, outw, outh, i, j, ch) <= hi
  {
    StepInside(|img|, outh, i);
    var f := i * FStep(|img|, outh);
    var yi := f / 65536;
    LineBetween(img[yi], inw, outw, j, ch, lo, hi);
    if yi < |img| - 1 {
      LineBetween(img[yi + 1], inw, outw, j, ch, lo, hi);
      LerpBetween(Line(img[yi], inw, outw, j, ch), Line(img[yi + 1], inw, outw, j, ch), f % 65536);
    }
  }

  // ----- The program ----------------------------------------------------------------------------------

  /** The buffer holds the line interpolated from `src`. */
  ghost predicate HoldsLine(row: array<byte>, src: seq<byte>, inw: nat, outw: nat, n: nat)
    requires |src| == 4 * inw && inw >= 1 && row.Length == 4 * outw && n <= outw
    reads row
  {
    forall j: nat, ch: nat :: j < n && ch < 4 ==> row[4 * j + ch] == Line(src, inw, outw, j, ch)
  }

  method LerpLine(src: seq<byte>, out: array<byte>, inw: nat, outw: nat)
    requires 1 <= inw < 32768 && 1 <= outw && |src| == 4 * inw && out.Length == 4 * outw
    modifies out
    ensures HoldsLine(out, src, inw, outw, outw)
  {
    hide Line;
    var fstep := FStep(inw, outw);
    var f, oldx, in0 := 0, 0, 0;
    for j := 0 to outw
      invariant f == j * fstep && in0 == 4 * oldx && 0 <= oldx < inw
      invariant HoldsLine(out, src, inw, outw, j)
    {
      StepInside(inw, outw, j);
      var xi := f / 65536;
      if xi != oldx {
        in0 := in0 + (xi - oldx) * 4;
        oldx := xi;
      }
      LerpPixel(src, out, inw, outw, j, f, in0);
      f := f + fstep;
    }
  }

  /** One pixel: interpolate its four channels, or copy them at the end of the line. */
  method LerpPixel(src: seq<byte>, out: array<byte>, inw: nat, outw: nat, j: nat, f: nat, in0: nat)
    requires 1 <= inw && j < outw && |src| == 4 * inw && out.Length == 4 * outw
    requires f == j * FStep(inw, outw) && in0 == 4 * (f / 65536) && f / 65536 < inw
    modifies out
    ensures forall ch: nat :: ch < 4 ==> out[4 * j + ch] == Line(src, inw, outw, j, ch)
    ensures forall b :: 0 <= b < out.Length && !(4 * j <= b < 4 * j + 4) ==> out[b] == old(out[b])
  {
    for ch := 0 to 4
      invariant forall c: nat :: c < ch ==> out[4 * j + c] == Line(src, inw, outw, j, c)
      invariant forall b :: 0 <= b < out.Length && !(4 * j <= b < 4 * j + 4) ==> out[b] == old(out[b])
    {
      if f / 65536 < inw - 1 {
        LerpByte(src[in0 + ch], src[in0 + 4 + ch], f % 65536);
        out[4 * j + ch] := Lerp(src[in0 + ch], src[in0 + 4 + ch], f % 65536);
      } else {
        out[4 * j + ch] := src[in0 + ch];
      }
    }
  }

  /** Output row `i` falls between two source rows; otherwise it comes from the last one alone. */
  ghost predicate Between(inh: nat, outh: nat, i: nat)
    requires outh > 0
  {
    i * FStep(inh, outh) / 65536 < inh - 1
  }

  /** Row `i` of the output is as direct interpolation makes it. */
  ghost predicate RowIs(out: array2<byte>, row: nat, img: seq<seq<byte>>, inw: nat, outw: nat, outh: nat, i: nat)
    requires IsImage(img, inw) && out.Length0 == outh && out.Length1 == 4 * outw && i < outh && row < outh
    reads out
  {
    forall j: nat, ch: nat :: j < outw && ch < 4 ==> out[row, 4 * j + ch] == Bilinear(img, inw, outw, outh, i, j, ch)
  }

  /** Blend the two buffered lines into one row of the output. */
  method BlendRow(out: array2<byte>, row: nat, row1: array<byte>, row2: array<byte>, outw: nat, lerp: nat)
    requires row < out.Length0 && out.Length1 == row1.Length == row2.Length == 4 * outw && lerp < 65536
    modifies out
    ensures forall b :: 0 <= b < 4 * outw ==> out[row, b] == Lerp(row1[b], row2[b], lerp)
    ensures forall r, b :: 0 <= r < out.Length0 && r != row && 0 <= b < 4 * outw ==> out[r, b] == old(out[r, b])
  {
    for b := 0 to 4 * outw
      invariant forall c :: 0 <= c < b ==> out[row, c] == Lerp(row1[c], row2[c], lerp)
      invariant forall r, c :: 0 <= r < out.Length0 && r != row && 0 <= c < 4 * outw ==> out[r, c] == old(out[r, c])
    {
      LerpByte(row1[b], row2[b], lerp);
      out[row, b] := Lerp(row1[b], row2[b], lerp);
    }
  }

  method CopyRow(out: array2<byte>, row: nat, row1: array<byte>, outw: nat)
    requires row < out.Length0 && out.Length1 == row1.Length == 4 * outw
    modifies out
    ensures forall b :: 0 <= b < 4 * outw ==> out[row, b] == row1[b]
    ensures forall r, b :: 0 <= r < out.Length0 && r != row && 0 <= b < 4 * outw ==> out[r, b] == old(out[r, b])
  {
    for b := 0 to 4 * outw
      invariant forall c :: 0 <= c < b ==> out[row, c] == row1[c]
      invariant forall r, c :: 0 <= r < out.Length0 && r != row && 0 <= c < 4 * outw ==> out[r, c] == old(out[r, c])
    {
      out[row, b] := row1[b];
    }
  }

  method CopyLine(dst: array<byte>, src: array<byte>)
    requires dst.Length == src.Length && dst != src
    modifies dst
    ensures dst[..] == src[..]
  {
    for b := 0 to dst.Length
      invariant forall c :: 0 <= c < b ==> dst[c] == src[c]
    {
      dst[b] := src[b];
    }
  }

  /** Bring the buffers from source row `oldy` to source row `yi`. */
  method MoveBuffers(img: seq<seq<byte>>, inw: nat, outw: nat, row1: array<byte>, row2: array<byte>, oldy: nat, yi: nat)
    requires IsImage(img, inw) && inw < 32768 && outw >= 1 && row1 != row2 && row1.Length == row2.Length == 4 * outw
    requires oldy <= yi < |img| && Buffered(img, inw, outw, row1, row2, oldy)
    modifies row1, row2
    ensures Buffered(img, inw, outw, row1, row2, yi)
  {
    hide Line;
    if yi != oldy {
      if yi == oldy + 1 {
        CopyLine(row1, row2);
        assert forall b :: 0 <= b < row1.Length ==> row1[b] == row1[..][b] == row2[..][b] == row2[b];
      } else {
        LerpLine(img[yi], row1, inw, outw);
      }
      if yi < |img| - 1 {
        LerpLine(img[yi + 1], row2, inw, outw);
      }
    }
  }

  /** row1 holds the line of source row `y`, and row2 the one after it, if there is one. */
  ghost predicate Buffered(img: seq<seq<byte>>, inw: nat, outw: nat, row1: array<byte>, row2: array<byte>, y: nat)
    requires IsImage(img, inw) && row1.Length == row2.Length == 4 * outw && y < |img|
    reads row1, row2
  {
    HoldsLine(row1, img[y], inw, outw, outw) && (y < |img| - 1 ==> HoldsLine(row2, img[y + 1], inw, outw, outw))
  }

  /** The buffers for the first two source rows. */
  method FirstBuffers(img: seq<seq<byte>>, inw: nat, behind: seq<byte>, outw: nat)
      returns (row1: array<byte>, row2: array<byte>)
    requires IsImage(img, inw) && inw < 32768 && outw >= 1 && |behind| == 4 * inw
    ensures fresh(row1) && fresh(row2) && row1 != row2 && row1.Length == row2.Length == 4 * outw
    ensures Buffered(img, inw, outw, row1, row2, 0)
  {
    hide Line;
    row1, row2 := new byte[4 * outw], new byte[4 * outw];
    LerpLine(img[0], row1, inw, outw);
    LerpLine(if |img| > 1 then img[1] else behind, row2, inw, outw);
  }

  lemma StepsGrow(inh: nat, outh: nat, i: nat, k: nat)
    requires outh > 0 && i <= k
    ensures i * FStep(inh, outh) <= k * FStep(inh, outh)
    ensures Between(inh, outh, k) ==> Between(inh, outh, i)
  {
    assert k * FStep(inh, outh) == i * FStep(inh, outh) + (k - i) * FStep(inh, outh);
  }

  lemma BlendedRow(img: seq<seq<byte>>, inw: nat, outw: nat, outh: nat, i: nat, out: array2<byte>,
        row1: array<byte>, row2: array<byte>)
    requires IsImage(img, inw) && i < outh && out.Length0 == outh
    requires out.Length1 == row1.Length == row2.Length == 4 * outw
    requires Between(|img|, outh, i) && Buffered(img, inw, outw, row1, row2, i * FStep(|img|, outh) / 65536)
    requires forall b :: 0 <= b < 4 * outw ==> out[i, b] == Lerp(row1[b], row2[b], i * FStep(|img|, outh) % 65536)
    ensures RowIs(out, i, img, inw, outw, outh, i)
  {
    hide Line, Lerp;
  }

  lemma CopiedRow(img: seq<seq<byte>>, inw: nat, outw: nat, outh: nat, i: nat, o: nat, out: array2<byte>,
        row1: array<byte>, row2: array<byte>)
    requires IsImage(img, inw) && o <= i < outh && out.Length0 == outh
    requires out.Length1 == row1.Length == row2.Length == 4 * outw
    requires !Between(|img|, outh, i) && !Between(|img|, outh, o)
    requires i * FStep(|img|, outh) / 65536 < |img|
    requires Buffered(img, inw, outw, row1, row2, i * FStep(|img|, outh) / 65536)
    requires forall b :: 0 <= b < 4 * outw ==> out[o, b] == row1[b]
    ensures RowIs(out, o, img, inw, outw, outh, o)
  {
    hide Line;
    StepInside(|img|, outh, o);
    StepInside(|img|, outh, i);
  }

  /**
   Scale `img` to outw x outh.  Returns how many rows the output pointer passed: exactly the rows
   that fall between two source rows.  They and the next row, if there is one, are as direct
   interpolation makes them; any further rows are never written.  Of an image of one row the program
   still reads a second one, from what lies `behind` it; the output does not depend on that.
   */
  method ResampleTexture(img: seq<seq<byte>>, inw: nat, behind: seq<byte>, out: array2<byte>, outw: nat, outh: nat)
      returns (o: nat)
    requires IsImage(img, inw) && inw < 32768 && |img| < 32768 && outw >= 1 && outh >= 1 && |behind| == 4 * inw
    requires out.Length0 == outh && out.Length1 == 4 * outw
    modifies out
    ensures o <= outh && forall i: nat :: i < outh ==> (i < o <==> Between(|img|, outh, i))
    ensures forall i: nat :: i < outh && i <= o ==> RowIs(out, i, img, inw, outw, outh, i)
    ensures forall i, b :: o < i < outh && 0 <= b < 4 * outw ==> out[i, b] == old(out[i, b])
  {
    hide RowIs, Between, Buffered, FStep;
    var fstep := FStep(|img|, outh);
    var row1, row2 := FirstBuffers(img, inw, behind, outw);
    var oldy, f := 0, 0;
    o := 0;
    for i := 0 to outh
      invariant 0 <= o <= i && f == i * fstep && 0 <= oldy < |img| && (i == 0 ==> oldy == 0)
      invariant i > 0 ==> oldy == (i - 1) * fstep / 65536
      invariant Buffered(img, inw, outw, row1, row2, oldy)
      invariant forall k: nat :: k < i ==> (k < o <==> Between(|img|, outh, k))
      invariant forall k: nat :: k < i && k <= o ==> RowIs(out, k, img, inw, outw, outh, k)
      invariant forall k, b :: o < k < outh && 0 <= b < 4 * outw ==> out[k, b] == old(out[k, b])
    {
      StepInside(|img|, outh, i);
      if i > 0 { StepsGrow(|img|, outh, i - 1, i); }
      var yi := f / 65536;
      MoveBuffers(img, inw, outw, row1, row2, oldy, yi);
      oldy := yi;
      o := EmitRow(img, inw, out, outw, outh, row1, row2, i, f, o);
      f := f + fstep;
    }
  }

  /** Produce output row `i` at row `o` of the output, and move on if it lies between two source rows. */
  method EmitRow(img: seq<seq<byte>>, inw: nat, out: array2<byte>, outw: nat, outh: nat,
        row1: array<byte>, row2: array<byte>, i: nat, f: nat, o: nat)
      returns (o': nat)
    requires IsImage(img, inw) && out.Length0 == outh && out.Length1 == row1.Length == row2.Length == 4 * outw
    requires o <= i < outh && f == i * FStep(|img|, outh) && f / 65536 < |img|
    requires Buffered(img, inw, outw, row1, row2, f / 65536)
    requires forall k: nat :: k < i ==> (k < o <==> Between(|img|, outh, k))
    requires forall k: nat :: k < i && k <= o ==> RowIs(out, k, img, inw, outw, outh, k)
    modifies out
    ensures o <= o' <= i + 1 && forall k: nat :: k <= i ==> (k < o' <==> Between(|img|, outh, k))
    ensures forall k: nat :: k <= i && k <= o' ==> RowIs(out, k, img, inw, outw, outh, k)
    ensures forall k, b :: o < k < outh && 0 <= b < 4 * outw ==> out[k, b] == old(out[k, b])
  {
    hide Bilinear, Line, FStep;
    o' := o;
    if f / 65536 < |img| - 1 {
      if o < i { StepsGrow(|img|, outh, o, i); assert false; }
      BlendRow(out, o, row1, row2, outw, f % 65536);
      BlendedRow(img, inw, outw, outh, i, out, row1, row2);
      o' := o + 1;
    } else {
      CopyRow(out, o, row1, outw);
      CopiedRow(img, inw, outw, outh, i, o, out, row1, row2);
    }
    forall k: nat | k < o ensures RowIs(out, k, img, inw, outw, outh, k) {
      assert old(RowIs(out, k, img, inw, outw, outh, k));
    }
  }

  // ----- Which sizes are safe ----------------------------------------------------------------------

  lemma {:induction false} PowersDivide(k: nat, n: nat) returns (q: nat)
    requires k <= n
    ensures q >= 1 && Pow2(n) == q * Pow2(k)
  {
    if k == n {
      q := 1;
    } else {
      q := PowersDivide(k, n - 1);
      q := 2 * q;
    }
  }

  lemma {:induction false} PowersGrow(k: nat, n: nat)
    requires Pow2(k) <= Pow2(n)
    ensures k <= n
  {
    if n > 0 && k > 0 { PowersGrow(k - 1, n - 1); }
  }

  lemma Pow2At16()
    ensures Pow2(16) == 65536
  {
    assert Pow2(8) == 256;
  }

  /** The smallest power of two that is not below `size`. */
  method RoundPower2(size: nat) returns (out: nat, ghost k: nat)
    requires size >= 1
    ensures out == Pow2(k) && size <= out < 2 * size
  {
    out, k := 1, 0;
    while out < size
      invariant out == Pow2(k) && (out < 2 * size)
      decreases 2 * size - out
    {
      out, k := 2 * out, k + 1;
    }
  }

  lemma ExactStep(inh: nat, outh: nat, q: nat)
    requires q * outh == 65536 && outh > 0
    ensures FStep(inh, outh) == inh * q
  {
    assert inh * 65536 == (inh * q) * outh;
    var x := inh * q;
    assert (x * outh) / outh == x;
  }

  lemma Quotient(f: int, n: int)
    ensures f / 65536 < n <==> f < 65536 * n
  {
  }

  /**
   For a power of two up to 65536: all rows but the last fall between two source rows exactly if
   the height is less than doubled; the last row never does if the height is not reduced.
   */
  lemma OnlyTheLastRow(inh: nat, outh: nat, k: nat)
    requires inh >= 1 && outh == Pow2(k) && k <= 16 && inh <= outh
    ensures !Between(inh, outh, outh - 1)
    ensures outh >= 2 ==> (Between(inh, outh, outh - 2) <==> outh < 2 * inh)
  {
    Pow2At16();
    var q := PowersDivide(k, 16);
    ExactStep(inh, outh, q);
    var s := FStep(inh, outh);
    StepSize(inh, outh, q, s);
    LastRows(inh, outh, s);
  }

  lemma StepSize(inh: nat, outh: nat, q: nat, s: nat)
    requires q * outh == 65536 && s == inh * q && inh <= outh
    ensures outh * s == inh * 65536 && s <= 65536 && (2 * s > 65536 <==> outh < 2 * inh)
  {
    assert outh * (inh * q) == inh * (q * outh);
    assert inh * q <= outh * q;
    assert (2 * inh) * q == 2 * s;
    if outh < 2 * inh {
      assert (outh + 1) * q <= (2 * inh) * q;
      assert (outh + 1) * q == outh * q + q;
    } else {
      assert (2 * inh) * q <= outh * q;
    }
  }

  lemma LastRows(inh: nat, outh: nat, s: nat)
    requires outh >= 1 && outh * s == inh * 65536 && s <= 65536
    ensures !((outh - 1) * s / 65536 < inh - 1)
    ensures outh >= 2 ==> ((outh - 2) * s / 65536 < inh - 1 <==> 2 * s > 65536)
  {
    assert (outh - 1) * s == inh * 65536 - s;
    Quotient((outh - 1) * s, inh - 1);
    assert (outh - 2) * s == inh * 65536 - 2 * s;
    Quotient((outh - 2) * s, inh - 1);
  }

  /** Scaling to the next powers of two writes every row, and leaves the pointer at the last row. */
  method ScaleToPowers(img: seq<seq<byte>>, inw: nat, behind: seq<byte>)
      returns (out: array2<byte>, outw: nat, outh: nat)
    requires IsImage(img, inw) && inw < 32768 && |img| < 32768 && |behind| == 4 * inw
    ensures inw <= outw < 2 * inw && |img| <= outh < 2 * |img|
    ensures out.Length0 == outh && out.Length1 == 4 * outw
    ensures forall i: nat :: i < outh ==> RowIs(out, i, img, inw, outw, outh, i)
    ensures forall i: nat :: i < outh ==> (Between(|img|, outh, i) <==> i < outh - 1)
  {
    ghost var kw, k;
    outw, kw := RoundPower2(inw);
    outh, k := RoundPower2(|img|);
    out := new byte[outh, 4 * outw];
    var o := ResampleTexture(img, inw, behind, out, outw, outh);
    Pow2At16();
    PowersGrow(k, 16);
    OnlyTheLastRow(|img|, outh, k);
    assert o == outh - 1;
  }
}
