/**
 The deterministic random numbers that replaying a recorded run depends on: a linear
 congruential generator modulo 2^32, whose state can be captured and set again.
 */
module Rng {
  import opened Basics

  const MODULUS := 0x1_0000_0000
  const MULTIPLIER := 1103515245
  const INCREMENT := 12345

  function Step(x: nat): (y: nat)
    ensures y < MODULUS
  {
    (x * MULTIPLIER + INCREMENT) % MODULUS
  }

  /** The 15 bits handed to the caller for state `x`. */
  function Output(x: nat): nat { x / 65536 % 32768 }

  /** The state after `n` calls from state `x`. */
  ghost function After(n: nat, x: nat): nat {
    if n == 0 then x else Step(After(n - 1, x))
  }

  /** The outputs of the first `n` calls from state `x`. */
  ghost function Outputs(n: nat, x: nat): seq<nat> {
    if n == 0 then [] else Outputs(n - 1, x) + [Output(After(n, x))]
  }

  // ----- Closed form ----------------------------------------------------------------------

  ghost function Power(n: nat): int { if n == 0 then 1 else MULTIPLIER * Power(n - 1) }

  /** 1 + a + a^2 + ... + a^(n-1) */
  ghost function Geometric(n: nat): int { if n == 0 then 0 else MULTIPLIER * Geometric(n - 1) + 1 }

  lemma ModStep(t: int, x: nat)
    requires t % MODULUS == x
    ensures (t * MULTIPLIER + INCREMENT) % MODULUS == Step(x)
  {
    var q := t / MODULUS;
    assert t == q * MODULUS + x;
    assert t * MULTIPLIER + INCREMENT == (q * MULTIPLIER) * MODULUS + (x * MULTIPLIER + INCREMENT);
    ModShift(q * MULTIPLIER, x * MULTIPLIER + INCREMENT);
  }

  lemma ModShift(q: int, y: int)
    ensures (q * MODULUS + y) % MODULUS == y % MODULUS
  {
  }

  lemma AffineStep(x: int, g: int, d: int, a: int, c: int)
    requires d == (a - 1) * x + c
    ensures (x + g * d) * a + c == x + (a * g + 1) * d
  {
    assert (x + g * d) * a == x * a + a * (g * d);
    assert (a * g + 1) * d == a * (g * d) + d;
    assert (a - 1) * x == a * x - x;
  }

  /** n calls move the state by Geometric(n) ((a - 1) x + c), modulo 2^32. */
  lemma {:induction false} ClosedForm(n: nat, x: nat)
    requires x < MODULUS
    ensures After(n, x) == (x + Geometric(n) * ((MULTIPLIER - 1) * x + INCREMENT)) % MODULUS
  {
    if n > 0 {
      ClosedForm(n - 1, x);
      var d, g := (MULTIPLIER - 1) * x + INCREMENT, Geometric(n - 1);
      ModStep(x + g * d, After(n - 1, x));
      AffineStep(x, g, d, MULTIPLIER, INCREMENT);
    }
  }

  // ----- Divisibility by powers of two ------------------------------------------------------

  /** 2^k divides y, one halving at a time. */
  ghost predicate Divides2(k: nat, y: int) {
    k == 0 || (y % 2 == 0 && Divides2(k - 1, y / 2))
  }

  lemma {:induction false} Divides2IsModulo(k: nat, y: int)
    ensures Divides2(k, y) <==> y % Pow2(k) == 0
  {
    if k > 0 {
      Divides2IsModulo(k - 1, y / 2);
      HalfModulo(y, Pow2(k - 1));
    }
  }

  lemma HalfModulo(y: int, p: nat)
    requires p > 0
    ensures y % (2 * p) == 0 <==> y % 2 == 0 && (y / 2) % p == 0
  {
    if y % (2 * p) == 0 {
      var q := Exactly(y, 2 * p);
      HalfOfMultiple(y, q, p);
    } else if y % 2 == 0 && (y / 2) % p == 0 {
      var q := Exactly(y / 2, p);
      TwiceOfMultiple(y / 2, q, p);
    }
  }

  lemma Exactly(y: int, p: nat) returns (q: int)
    requires p > 0 && y % p == 0
    ensures y == q * p
  {
    q := y / p;
  }

  lemma HalfOfMultiple(y: int, q: int, p: nat)
    requires p > 0 && y == q * (2 * p)
    ensures y % 2 == 0 && (y / 2) % p == 0
  {
    assert y == 2 * (q * p);
    MultipleMod(q, p);
  }

  lemma TwiceOfMultiple(h: int, q: int, p: nat)
    requires p > 0 && h == q * p
    ensures (2 * h) % (2 * p) == 0
  {
    assert 2 * h == q * (2 * p);
    MultipleMod(q, 2 * p);
  }

  lemma MultipleMod(q: int, p: int)
    requires p > 0
    ensures (q * p) % p == 0
  {
    SmallRemainder(q, 0, p);
  }

  lemma OddProduct(a: int, b: int)
    ensures (a * b) % 2 == 1 <==> a % 2 == 1 && b % 2 == 1
  {
    var i, j := a / 2, b / 2;
    assert a * b == 2 * (i * b + (a % 2) * j) + (a % 2) * (b % 2);
  }

  /** An odd factor does not change divisibility by powers of two. */
  lemma {:induction false} OddFactor(k: nat, odd: int, y: int)
    requires odd % 2 == 1
    ensures Divides2(k, y * odd) <==> Divides2(k, y)
  {
    if k > 0 {
      OddProduct(y, odd);
      if y % 2 == 0 {
        assert y * odd == 2 * ((y / 2) * odd);
        OddFactor(k - 1, odd, y / 2);
      }
    }
  }

  lemma TimesMultiplier(p: int)
    requires p % 4 == 1
    ensures MULTIPLIER * p % 4 == 1
  {
    OneModulo4(MULTIPLIER, MULTIPLIER / 4, p / 4);
    Remainder4(MULTIPLIER * (p / 4) + MULTIPLIER / 4);
  }

  lemma OneModulo4(a: int, m: int, q: int)
    requires a == 4 * m + 1
    ensures a * (4 * q + 1) == 4 * (a * q + m) + 1
  {
    assert a * (4 * q) == 4 * (a * q);
    assert a * (4 * q + 1) == a * (4 * q) + a;
  }

  lemma Remainder4(k: int)
    ensures (4 * k + 1) % 4 == 1
  {
  }

  lemma ParityStep(g: int, n: int)
    requires g % 2 == (n - 1) % 2
    ensures (MULTIPLIER * g + 1) % 2 == n % 2
  {
    var r := g % 2;
    var k := OddMultiple(MULTIPLIER, MULTIPLIER / 2, g / 2, r);
    EvenShift(k, r + 1);
  }

  lemma OddMultiple(m: int, c: int, h: int, r: int) returns (k: int)
    requires m == 2 * c + 1
    ensures m * (2 * h + r) == 2 * k + r
  {
    k := m * h + c * r;
    assert m * (2 * h + r) == 2 * (m * h) + m * r;
    assert m * r == 2 * (c * r) + r;
  }

  lemma EvenShift(k: int, n: int)
    ensures (2 * k + n) % 2 == n % 2
  {
  }

  /** a is 1 modulo 4, so its powers are. */
  lemma {:induction false} PowerMod4(n: nat)
    ensures Power(n) % 4 == 1
  {
    if n > 0 {
      PowerMod4(n - 1);
      TimesMultiplier(Power(n - 1));
    }
  }

  lemma {:induction false} GeometricParity(n: nat)
    ensures Geometric(n) % 2 == n % 2
  {
    if n > 0 {
      GeometricParity(n - 1);
      ParityStep(Geometric(n - 1), n);
    }
  }

  lemma {:induction false} GeometricAdd(m: nat, n: nat)
    ensures Geometric(m + n) == Geometric(m) + Power(m) * Geometric(n)
  {
    if m > 0 {
      GeometricAdd(m - 1, n);
      assert MULTIPLIER * (Power(m - 1) * Geometric(n)) == Power(m) * Geometric(n);
    }
  }

  lemma Doubled(g: int, p: int, odd: int)
    requires 1 + p == 2 * odd
    ensures g + p * g == 2 * (g * odd)
  {
    assert g + p * g == g * (1 + p);
    assert g * (2 * odd) == 2 * (g * odd);
  }

  lemma HalfOf(p: int) returns (odd: int)
    requires p % 4 == 1
    ensures odd % 2 == 1 && 1 + p == 2 * odd
  {
    odd := 2 * (p / 4) + 1;
  }

  lemma EvenGeometric(h: nat) returns (odd: int)
    ensures odd % 2 == 1 && Geometric(h + h) == 2 * (Geometric(h) * odd)
  {
    hide Geometric, Power;
    GeometricAdd(h, h);
    PowerMod4(h);
    odd := HalfOf(Power(h));
    Doubled(Geometric(h), Power(h), odd);
  }

  lemma HalfDivides(k: nat, y: int)
    ensures Divides2(k + 1, 2 * y) <==> Divides2(k, y)
  {
  }

  /** The heart of the period: 1 + a + ... + a^(n-1) has exactly the factors of two that n has. */
  lemma {:induction false} SameFactorsOfTwo(k: nat, n: nat)
    ensures Divides2(k, Geometric(n)) <==> Divides2(k, n)
  {
    hide Geometric;
    if k > 0 {
      GeometricParity(n);
      if n % 2 == 0 {
        var h := n / 2;
        assert n == h + h;
        var odd := EvenGeometric(h);
        HalfDivides(k - 1, Geometric(h) * odd);
        OddFactor(k - 1, odd, Geometric(h));
        SameFactorsOfTwo(k - 1, h);
      }
    }
  }

  // ----- The period ---------------------------------------------------------------------------

  lemma Pow2At32()
    ensures Pow2(32) == MODULUS && Pow2(31) == 0x8000_0000 && Pow2(16) == 65536
  {
    assert Pow2(8) == 256;
    assert Pow2(16) == 65536;
    assert Pow2(24) == 65536 * 256;
  }

  lemma MovedBy(x: nat, d: int)
    requires x < MODULUS
    ensures (x + d) % MODULUS == x <==> d % MODULUS == 0
  {
  }

  /** How far one step moves the state, up to a power of the multiplier. */
  ghost function Drift(x: nat): int { (MULTIPLIER - 1) * x + INCREMENT }

  lemma SeedIsOdd(x: nat)
    ensures Drift(x) % 2 == 1
  {
    assert Drift(x) == 2 * (((MULTIPLIER - 1) / 2) * x + INCREMENT / 2) + 1;
  }

  lemma DividesModulus(y: int)
    ensures Divides2(32, y) <==> y % MODULUS == 0
  {
    hide Divides2, Pow2;
    Pow2At32();
    Divides2IsModulo(32, y);
  }

  lemma ReturnsIff(n: nat, x: nat)
    requires x < MODULUS
    ensures After(n, x) == x <==> Divides2(32, Geometric(n) * Drift(x))
  {
    hide Geometric, Divides2, After;
    ClosedForm(n, x);
    MovedBy(x, Geometric(n) * Drift(x));
    DividesModulus(Geometric(n) * Drift(x));
  }

  /** From every seed, the state comes back exactly after the multiples of 2^32 calls. */
  lemma FullPeriod(n: nat, x: nat)
    requires x < MODULUS
    ensures After(n, x) == x <==> n % MODULUS == 0
  {
    hide Geometric, Divides2, After, Drift;
    ReturnsIff(n, x);
    SeedIsOdd(x);
    OddFactor(32, Drift(x), Geometric(n));
    SameFactorsOfTwo(32, n);
    DividesModulus(n);
  }

  lemma {:induction false} AfterAdds(m: nat, n: nat, x: nat)
    ensures After(m + n, x) == After(m, After(n, x))
  {
    if m > 0 { AfterAdds(m - 1, n, x); }
  }

  lemma AfterBound(n: nat, x: nat)
    requires x < MODULUS
    ensures After(n, x) < MODULUS
  {
  }

  /** Two moments of one run are in the same state exactly when 2^32 divides their distance. */
  lemma SameStateIff(m: nat, n: nat, x: nat)
    requires x < MODULUS && m <= n
    ensures After(m, x) == After(n, x) <==> (n - m) % MODULUS == 0
  {
    AfterAdds(n - m, m, x);
    AfterBound(m, x);
    FullPeriod(n - m, After(m, x));
  }

  ghost function Visited(n: nat, x: nat): set<nat> {
    if n == 0 then {} else Visited(n - 1, x) + {After(n - 1, x)}
  }

  ghost function Below(n: nat): set<nat> {
    if n == 0 then {} else Below(n - 1) + {n - 1}
  }

  lemma {:induction false} BelowIs(n: nat)
    ensures |Below(n)| == n && forall y: nat :: y in Below(n) <==> y < n
  {
    if n > 0 { BelowIs(n - 1); }
  }

  lemma {:induction false} WhenVisited(n: nat, x: nat, y: nat) returns (i: nat)
    requires y in Visited(n, x)
    ensures i < n && After(i, x) == y
  {
    if y == After(n - 1, x) { i := n - 1; } else { i := WhenVisited(n - 1, x, y); }
  }

  lemma {:induction false} VisitedIs(n: nat, x: nat, all: set<nat>)
    requires x < MODULUS && n <= MODULUS && forall y: nat :: y in all <==> y < MODULUS
    ensures |Visited(n, x)| == n && Visited(n, x) <= all
  {
    hide After;
    if n > 0 {
      VisitedIs(n - 1, x, all);
      AfterBound(n - 1, x);
      if After(n - 1, x) in Visited(n - 1, x) {
        var i := WhenVisited(n - 1, x, After(n - 1, x));
        SameStateIff(i, n - 1, x);
        assert false;
      }
    }
  }

  lemma FullSubset(a: set<nat>, b: set<nat>)
    requires a <= b && |a| == |b|
    ensures a == b
  {
    assert |b - a| == 0;
  }

  lemma ReachedWithin(period: nat, x: nat, y: nat) returns (n: nat)
    requires x < MODULUS && y < MODULUS && period == MODULUS
    ensures n < period && After(n, x) == y
  {
    hide After, Visited, Below;
    BelowIs(period);
    VisitedIs(period, x, Below(period));
    FullSubset(Visited(period, x), Below(period));
    n := WhenVisited(period, x, y);
  }

  /** One period visits every 32-bit state. */
  lemma EveryStateIsReached(x: nat, y: nat) returns (n: nat)
    requires x < MODULUS && y < MODULUS
    ensures n < MODULUS && After(n, x) == y
  {
    var period :| period == MODULUS;
    n := ReachedWithin(period, x, y);
  }

  // ----- The period of the outputs --------------------------------------------------------------

  ghost predicate OutputsHavePeriod(n: nat, x: nat) {
    forall m: nat :: Output(After(m + n, x)) == Output(After(m, x))
  }

  lemma {:induction false} FewerFactors(j: nat, k: nat, y: int)
    requires j <= k && Divides2(k, y)
    ensures Divides2(j, y)
  {
    if j > 0 { FewerFactors(j - 1, k - 1, y / 2); }
  }

  /**
   A move by a multiple of 2^16 leaves the lowest bits alone, so the output shows it unless it is
   one of the top bit.
   */
  lemma OutputAfterMove(x: nat, d: int)
    requires x < MODULUS && d % 65536 == 0
    ensures Output((x + d) % MODULUS) == Output(x) <==> d % 0x8000_0000 == 0
  {
    hide Output;
    OutputIs(x);
    OutputIs((x + d) % MODULUS);
    LowBitsStay(x, d);
    MovesLowBits(x, d);
  }

  lemma LowBitsStay(x: int, d: int)
    requires d % 65536 == 0
    ensures (x + d) % MODULUS % 65536 == x % 65536
  {
    SameModulo(x, d, 65536);
    ModOfMod(x + d, 65536, 65536);
  }

  lemma MovesLowBits(x: int, d: int)
    ensures (x + d) % MODULUS % 0x8000_0000 == x % 0x8000_0000 <==> d % 0x8000_0000 == 0
  {
    SameModulo(x, d, 0x8000_0000);
    ModOfMod(x + d, 0x8000_0000, 2);
  }

  lemma SameModulo(x: int, d: int, p: nat)
    requires p > 0
    ensures (x + d) % p == x % p <==> d % p == 0
  {
    if d % p == 0 {
      var q := Exactly(d, p);
      ShiftedMod(q, x, p);
    } else if (x + d) % p == x % p {
      DifferenceIs(x, x + d, p);
      assert false;
    }
  }

  lemma DifferenceIs(x: int, y: int, p: nat)
    requires p > 0 && x % p == y % p
    ensures (y - x) % p == 0
  {
    var i, j := x / p, y / p;
    assert x == i * p + x % p && y == j * p + y % p;
    assert y - x == (j - i) * p;
    MultipleMod(j - i, p);
  }

  lemma ModOfMod(y: int, p: int, c: int)
    requires p > 0 && p * c == MODULUS
    ensures y % MODULUS % p == y % p
  {
    var q := y / MODULUS;
    assert y == (q * c) * p + y % MODULUS by { assert q * (p * c) == (q * c) * p; }
    ShiftedMod(q * c, y % MODULUS, p);
  }

  lemma ShiftedMod(q: int, r: int, p: int)
    requires p > 0
    ensures (q * p + r) % p == r % p
  {
    assert q * p + r == (q + r / p) * p + r % p by { assert r == (r / p) * p + r % p; }
    SmallRemainder(q + r / p, r % p, p);
  }

  lemma SmallRemainder(q: int, r: int, p: int)
    requires 0 <= r < p
    ensures (q * p + r) % p == r
  {
    var t, u := (q * p + r) / p, (q * p + r) % p;
    assert q * p + r == t * p + u;
    assert (q - t) * p == u - r;
    assert q - t >= 1 ==> (q - t) * p >= p;
    assert q - t <= -1 ==> (q - t) * p <= -p;
  }

  lemma OutputIs(x: nat)
    ensures x % 0x8000_0000 == Output(x) * 65536 + x % 65536 && Output(x) < 32768
  {
  }

  lemma DividesPowers(y: int)
    ensures Divides2(16, y) <==> y % 65536 == 0
    ensures Divides2(31, y) <==> y % 0x8000_0000 == 0
  {
    hide Divides2, Pow2;
    Pow2At32();
    Divides2IsModulo(16, y);
    Divides2IsModulo(31, y);
  }

  lemma SameOutputIff(n: nat, x: nat)
    requires x < MODULUS && Divides2(16, n)
    ensures Output(After(n, x)) == Output(x) <==> Divides2(31, n)
  {
    hide Geometric, Divides2, After, Pow2, Output, Drift;
    var d := Geometric(n) * Drift(x);
    MovesBy(n, x);
    SeedIsOdd(x);
    OddFactor(16, Drift(x), Geometric(n));
    OddFactor(31, Drift(x), Geometric(n));
    SameFactorsOfTwo(16, n);
    SameFactorsOfTwo(31, n);
    DividesPowers(d);
    OutputAfterMove(x, d);
  }

  lemma MovesBy(n: nat, x: nat)
    requires x < MODULUS
    ensures After(n, x) == (x + Geometric(n) * Drift(x)) % MODULUS
  {
    hide Geometric, After;
    ClosedForm(n, x);
  }

  lemma PeriodDoubles(n: nat, x: nat)
    requires OutputsHavePeriod(n, x)
    ensures OutputsHavePeriod(2 * n, x)
  {
    hide Output, After;
    forall m: nat ensures Output(After(m + 2 * n, x)) == Output(After(m, x)) {
      assert m + n + n == m + 2 * n;
      assert Output(After(m + n + n, x)) == Output(After(m + n, x));
    }
  }

  /** A period is doubled until the state moves by a multiple of 2^16; then the outputs tell. */
  lemma {:induction false} PeriodIsMultiple(n: nat, x: nat, j: nat)
    requires x < MODULUS && OutputsHavePeriod(n, x) && j <= 16 && Divides2(j, n)
    ensures Divides2(31, n)
    decreases 16 - j
  {
    hide Output, After, Divides2;
    if j == 16 || Divides2(16, n) {
      assert Output(After(0 + n, x)) == Output(After(0, x));
      AfterNone(x);
      SameOutputIff(n, x);
    } else {
      PeriodDoubles(n, x);
      HalfDivides(j, n);
      PeriodIsMultiple(2 * n, x, j + 1);
      FewerFactors(17, 31, 2 * n);
      HalfDivides(16, n);
      assert false;
    }
  }

  lemma AfterNone(x: nat)
    ensures After(0, x) == x
  {
  }

  /** The outputs leave out the top bit: from every seed their period is 2^31, and no less. */
  lemma OutputPeriod(n: nat, x: nat)
    requires x < MODULUS
    ensures OutputsHavePeriod(n, x) <==> n % 0x8000_0000 == 0
  {
    hide Output, After, Divides2;
    DividesPowers(n);
    if OutputsHavePeriod(n, x) {
      DividesNone(n);
      PeriodIsMultiple(n, x, 0);
    } else if Divides2(31, n) {
      FewerFactors(16, 31, n);
      forall m: nat ensures Output(After(m + n, x)) == Output(After(m, x)) {
        AfterAdds(n, m, x);
        assert n + m == m + n;
        AfterBound(m, x);
        SameOutputIff(n, After(m, x));
      }
    }
  }

  lemma DividesNone(y: int)
    ensures Divides2(0, y)
  {
  }

  // ----- The generator as it runs -----------------------------------------------------------

  class Generator {
    var next: nat          // unsigned 32-bit state
    var frameSeed: nat
    var prevIndex: int
    var rngIndex: int
    var count: int
    ghost var drawn: nat   // calls since the last frame that was counted, or the last reseed

    ghost predicate Valid()
      reads this
    {
      next < MODULUS && frameSeed < MODULUS && rngIndex == prevIndex + drawn
    }

    constructor ()
      ensures Valid() && next == 0
    {
      next, frameSeed, prevIndex, rngIndex, count, drawn := 0, 0, 0, 0, 0, 0;
    }

    method Rand() returns (out: nat)
      requires Valid()
      modifies `next, `rngIndex, `drawn
      ensures Valid() && next == Step(old(next)) && out == Output(next) && out < 32768
      ensures drawn == old(drawn) + 1 && rngIndex == old(rngIndex) + 1
    {
      rngIndex, drawn := rngIndex + 1, drawn + 1;
      next := (next * MULTIPLIER + INCREMENT) % MODULUS;
      out := next / 65536 % 32768;
    }

    method Srand(seed: nat)
      requires Valid() && seed < MODULUS
      modifies `next, `rngIndex, `prevIndex, `drawn
      ensures Valid() && next == seed && rngIndex == prevIndex == 0
    {
      rngIndex, prevIndex, drawn := 0, 0, 0;
      next := seed;
    }

    /** Called once a frame: remember the seed and, in a running game, count the calls of the frame. */
    method FrameRngSeed(unpaused: bool)
      requires Valid()
      modifies `frameSeed, `count, `prevIndex, `drawn
      ensures Valid() && frameSeed == next
      ensures if unpaused then count == old(drawn) && drawn == 0 else count == old(count) && drawn == old(drawn)
    {
      if unpaused {
        count := rngIndex - prevIndex;
        prevIndex := rngIndex;
        drawn := 0;
      }
      frameSeed := next;
    }

    method RandTimes(n: nat) returns (outs: seq<nat>)
      requires Valid()
      modifies `next, `rngIndex, `drawn
      ensures Valid() && next == After(n, old(next)) && outs == Outputs(n, old(next))
      ensures rngIndex == old(rngIndex) + n
    {
      outs := [];
      for i := 0 to n
        invariant Valid() && next == After(i, old(next)) && outs == Outputs(i, old(next))
        invariant rngIndex == old(rngIndex) + i
      {
        var out := Rand();
        outs := outs + [out];
      }
    }

    /** Capture the seed, play any number of calls, reseed, play again: the same outputs and state. */
    method CaptureAndReplay(unpaused: bool, n: nat) returns (first: seq<nat>, again: seq<nat>, firstEnd: nat)
      requires Valid()
      modifies this
      ensures Valid() && first == again == Outputs(n, old(next)) && |first| == n
      ensures next == firstEnd == After(n, old(next))
    {
      FrameRngSeed(unpaused);
      first := RandTimes(n);
      firstEnd := next;
      Srand(frameSeed);
      again := RandTimes(n);
      OutputCount(n, old(next));
    }
  }

  lemma {:induction false} OutputCount(n: nat, x: nat)
    ensures |Outputs(n, x)| == n
  {
    if n > 0 { OutputCount(n - 1, x); }
  }
}
