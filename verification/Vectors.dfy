/** Points and vectors in space, over the reals. */
module Vectors {

  datatype Vec = Vec(x: real, y: real, z: real)

  datatype Plane = Plane(normal: Vec, dist: real)

  function Dot(a: Vec, b: Vec): real { a.x * b.x + a.y * b.y + a.z * b.z }

  function Sub(a: Vec, b: Vec): Vec { Vec(a.x - b.x, a.y - b.y, a.z - b.z) }

  function Scale(a: Vec, s: real): Vec { Vec(a.x * s, a.y * s, a.z * s) }

  function Negate(a: Vec): Vec { Vec(-a.x, -a.y, -a.z) }

  /** a + s b */
  function MultiplyAdd(a: Vec, s: real, b: Vec): Vec { Vec(a.x + s * b.x, a.y + s * b.y, a.z + s * b.z) }

  lemma DotLinear(n: Vec, a: Vec, s: real, b: Vec)
    ensures Dot(n, MultiplyAdd(Scale(a, 1.0 - s), s, b)) == (1.0 - s) * Dot(n, a) + s * Dot(n, b)
  {
    TermLinear(n.x, a.x, s, b.x);
    TermLinear(n.y, a.y, s, b.y);
    TermLinear(n.z, a.z, s, b.z);
    Distribute3(1.0 - s, n.x * a.x, n.y * a.y, n.z * a.z);
    Distribute3(s, n.x * b.x, n.y * b.y, n.z * b.z);
  }

  lemma TermLinear(n: real, a: real, s: real, b: real)
    ensures n * (a * (1.0 - s) + s * b) == (1.0 - s) * (n * a) + s * (n * b)
  {
    assert n * (a * (1.0 - s)) == (1.0 - s) * (n * a);
    assert n * (s * b) == s * (n * b);
  }

  lemma Distribute3(s: real, a: real, b: real, c: real)
    ensures s * (a + b + c) == s * a + s * b + s * c
  {
  }

  lemma DotSub(n: Vec, a: Vec, b: Vec)
    ensures Dot(n, Sub(a, b)) == Dot(n, a) - Dot(n, b)
  {
  }

  lemma DotNegate(n: Vec, a: Vec)
    ensures Dot(Negate(n), a) == -Dot(n, a)
  {
  }

  lemma Nonnegative(a: real, b: real)
    requires a >= 0.0 && b >= 0.0
    ensures a * b >= 0.0
  {
  }

  /** Where a quantity that changes from d to e, of the other sign, is zero. */
  lemma FractionBetween(d: real, e: real)
    requires (d >= 0.0 && e < 0.0) || (d < 0.0 && e > 0.0)
    ensures var t := d / (d - e); 0.0 <= t < 1.0 && (d != 0.0 ==> t > 0.0) && t * (d - e) == d
  {
    var t := d / (d - e);
    assert t * (d - e) == d && t * (e - d) == -d;
    if d >= 0.0 {
      assert t < 0.0 ==> t * (d - e) < 0.0;
      assert t >= 1.0 ==> t * (d - e) >= d - e;
    } else {
      assert t <= 0.0 ==> t * (e - d) <= 0.0;
      assert t >= 1.0 ==> t * (e - d) >= e - d;
    }
  }

  lemma FractionBalances(t: real, d: real, e: real)
    requires t * (d - e) == d
    ensures d + t * (e - d) == 0.0 && (1.0 - t) * d + t * e == 0.0
  {
    assert t * (e - d) == -(t * (d - e));
    assert (1.0 - t) * d + t * e == d - t * (d - e);
  }
}
