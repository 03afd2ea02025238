/** The linear congruential generator shared by the hash table and the timing
    loop, and the Hull-Dobell theorem for it: modulo 2^k, with an odd increment
    and a multiplier that is 1 modulo 4, the period is exactly 2^k.
    The program's own generator is `KNUTH`, 64 bits wide. */
module Lcg {
  import opened Finite
  import opened Words

  datatype Generator = Generator(multiplier: nat, increment: nat, width: nat) {
    function Modulus(): (m: nat)
      ensures m > 0
    {
      Pow2(width)
    }

    /** By what one step differs from `x` itself. */
    function Offset(x: nat): int {
      increment + (multiplier - 1) * x
    }

    predicate Valid() {
      multiplier % 4 == 1 && increment % 2 == 1
    }
  }

  const MULTIPLIER: nat := 6364136223846793005
  const INCREMENT: nat := 1442695040888963407
  const KNUTH := Generator(MULTIPLIER, INCREMENT, 64)

  function Step(g: Generator, x: nat): (y: nat)
    ensures y < g.Modulus()
  {
    (x * g.multiplier + g.increment) % g.Modulus()
  }

  /** The state after `d` steps from `x`. */
  function Iterate(g: Generator, x: nat, d: nat): nat {
    if d == 0 then x else Step(g, Iterate(g, x, d - 1))
  }

  lemma IterateZero(g: Generator, x: nat)
    ensures Iterate(g, x, 0) == x
  {}

  /** The 64-bit update the program writes out is a step of `KNUTH`. */
  lemma KnuthStep(x: u64)
    ensures KNUTH.Valid() && KNUTH.Modulus() == TWO_64
    ensures Wrap64(x * 6364136223846793005 + 1442695040888963407) == Step(KNUTH, x)
  {
    Pow2Known();
  }

  method Spin(work: u64, seed: u64) returns (x: u64)
    ensures x == Iterate(KNUTH, seed, work)
    ensures x == seed <==> work == 0
  {
    x := seed;
    for i := 0 to work
      invariant x == Iterate(KNUTH, seed, i)
    {
      KnuthStep(x);
      x := Wrap64(x * MULTIPLIER + INCREMENT);
    }
    KnuthStep(seed);
    FullPeriod(KNUTH, seed, work);
    DivUnique(work, TWO_64, 0, work);
  }

  // ---- Divisibility by powers of two --------------------------------------

  lemma {:induction false} OddFactor(m: nat, n: nat, q: nat)
    requires q % 2 == 1
    ensures HalvesEvenly(m, n * q) <==> HalvesEvenly(m, n)
  {
    if m > 0 {
      OddTimes(n, q);
      if n % 2 == 0 {
        OddFactor(m - 1, n / 2, q);
      }
    }
  }

  // ---- Geometric sums ------------------------------------------------------

  /** `1 + a + ... + a^(d-1)`. */
  function Geometric(a: nat, d: nat): nat {
    if d == 0 then 0 else a * Geometric(a, d - 1) + 1
  }

  lemma {:induction false} GeometricSum(a: nat, d: nat, e: nat)
    ensures Geometric(a, d + e)
         == Geometric(a, d) + Geometric(a, e) + (a - 1) * (Geometric(a, d) * Geometric(a, e))
  {
    if e > 0 {
      GeometricSum(a, d, e - 1);
      GeometricSumStep(a, Geometric(a, d), Geometric(a, e - 1));
    }
  }

  lemma GeometricSumStep(a: nat, s: nat, t: nat)
    ensures a * (s + t + (a - 1) * (s * t)) + 1 == s + (a * t + 1) + (a - 1) * (s * (a * t + 1))
  {
    var b, p := a - 1, s * t;
    assert s * (a * t + 1) == a * p + s;
    assert b * (a * p + s) == b * (a * p) + b * s;
    assert a * (b * p) == b * (a * p);
    assert a * (s + t + b * p) == a * s + a * t + a * (b * p);
  }

  lemma {:induction false} GeometricParity(a: nat, d: nat)
    requires a % 2 == 1
    ensures Geometric(a, d) % 2 == d % 2
  {
    if d > 0 {
      GeometricParity(a, d - 1);
      ParityNext(a, Geometric(a, d - 1), d);
    }
  }

  lemma ParityNext(a: nat, s: nat, d: nat)
    requires a % 2 == 1 && d > 0 && s % 2 == (d - 1) % 2
    ensures (a * s + 1) % 2 == d % 2
  {
    OddTimes(s, a);
    assert a * s == s * a;
  }

  lemma DoubleAlgebra(k: nat, s: nat)
    ensures s + s + (4 * k) * (s * s) == 2 * (s * (1 + 2 * (k * s)))
  {
    var t := k * s;
    assert s * (1 + 2 * t) == s + 2 * (s * t);
    assert s * t == k * (s * s);
    assert (4 * k) * (s * s) == 4 * (k * (s * s));
  }

  lemma GeometricDouble(a: nat, e: nat) returns (q: nat)
    requires a % 4 == 1
    ensures q % 2 == 1 && Geometric(a, e + e) == 2 * (Geometric(a, e) * q)
  {
    hide Geometric;
    var k := (a - 1) / 4;
    GeometricSum(a, e, e);
    DoubleAlgebra(k, Geometric(a, e));
    assert a - 1 == 4 * k;
    q := 1 + 2 * (k * Geometric(a, e));
  }

  lemma HalveOnce(m: nat, h: nat)
    requires m > 0
    ensures HalvesEvenly(m, 2 * h) == HalvesEvenly(m - 1, h)
  {}

  /** The geometric sum of `d` terms has as many factors two as `d` itself. */
  lemma {:induction false} GeometricValuation(a: nat, m: nat, d: nat)
    requires a % 4 == 1
    ensures HalvesEvenly(m, Geometric(a, d)) <==> HalvesEvenly(m, d)
  {
    GeometricParity(a, d);
    if m > 0 && d % 2 == 0 {
      hide Geometric, HalvesEvenly;
      var e := d / 2;
      var q := GeometricDouble(a, e);
      HalveOnce(m, Geometric(a, e) * q);
      HalveOnce(m, e);
      OddFactor(m - 1, Geometric(a, e), q);
      GeometricValuation(a, m - 1, e);
      assert d == e + e == 2 * e;
    }
  }

  // ---- The period ----------------------------------------------------------

  /** The state after `d` steps when nothing is ever reduced. */
  function Unreduced(g: Generator, x: nat, d: nat): nat {
    if d == 0 then x else Unreduced(g, x, d - 1) * g.multiplier + g.increment
  }

  lemma {:induction false} UnreducedClosedForm(g: Generator, x: nat, d: nat)
    requires g.Valid()
    ensures Unreduced(g, x, d)
         == x + Geometric(g.multiplier, d) * g.Offset(x)
  {
    if d > 0 {
      UnreducedClosedForm(g, x, d - 1);
      ClosedFormStep(g.multiplier, g.increment, Geometric(g.multiplier, d - 1), x);
    }
  }

  lemma ClosedFormStep(a: nat, c: nat, s: nat, x: nat)
    ensures (x + s * (c + (a - 1) * x)) * a + c == x + (a * s + 1) * (c + (a - 1) * x)
  {
    var q := c + (a - 1) * x;
    assert x * a + c == x + q;
    assert (x + s * q) * a == x * a + (s * q) * a;
    assert (s * q) * a == (a * s) * q;
    assert (a * s + 1) * q == (a * s) * q + q;
  }

  lemma {:induction false} IterateIsReduced(g: Generator, x: nat, d: nat)
    requires x < g.Modulus()
    ensures Iterate(g, x, d) == Unreduced(g, x, d) % g.Modulus()
  {
    if d > 0 {
      IterateIsReduced(g, x, d - 1);
      StepOfRemainder(Unreduced(g, x, d - 1), g.multiplier, g.increment, g.Modulus());
    } else {
      DivUnique(x, g.Modulus(), 0, x);
    }
  }

  lemma StepOfRemainder(u: nat, a: nat, c: nat, m: nat)
    requires m > 0
    ensures (u % m * a + c) % m == (u * a + c) % m
  {
    var q, v := u / m, u % m * a + c;
    assert u * a == (m * q + u % m) * a == m * (q * a) + u % m * a;
    DivUnique(u * a + c, m, q * a + v / m, v % m) by {
      assert m * (q * a + v / m) == m * (q * a) + m * (v / m);
    }
  }

  lemma SameRemainder(x: nat, s: nat, m: nat)
    requires x < m
    ensures (x + s) % m == x <==> s % m == 0
  {
    var q := (x + s) / m;
    if (x + s) % m == x {
      DivUnique(s, m, q, 0);
    }
    if s % m == 0 {
      DivUnique(x + s, m, s / m, x);
    }
  }

  lemma OddOffset(g: Generator, x: nat)
    requires g.Valid()
    ensures g.Offset(x) > 0 && g.Offset(x) % 2 == 1
  {
    var h := g.multiplier / 2;
    assert g.multiplier - 1 == 2 * h;
    assert (2 * h) * x == 2 * (h * x);
  }

  lemma ReturnsWhenDivisible(g: Generator, x: nat, d: nat)
    requires g.Valid() && x < g.Modulus()
    ensures Iterate(g, x, d) == x
       <==> Geometric(g.multiplier, d) * g.Offset(x) % g.Modulus() == 0
  {
    hide Geometric, Iterate, Unreduced, Pow2, Generator.Offset;
    OddOffset(g, x);
    IterateIsReduced(g, x, d);
    UnreducedClosedForm(g, x, d);
    SameRemainder(x, Geometric(g.multiplier, d) * g.Offset(x), g.Modulus());
  }

  lemma DivisibleWhenSteps(a: nat, q: nat, w: nat, d: nat)
    requires a % 4 == 1 && q % 2 == 1
    ensures Geometric(a, d) * q % Pow2(w) == 0 <==> d % Pow2(w) == 0
  {
    hide Geometric, HalvesEvenly, Pow2;
    HalvesEvenlyIsDivisibility(w, Geometric(a, d) * q);
    OddFactor(w, Geometric(a, d), q);
    GeometricValuation(a, w, d);
    HalvesEvenlyIsDivisibility(w, d);
  }

  /** `d` steps lead back to the start exactly when the modulus divides `d`. */
  lemma FullPeriod(g: Generator, x: nat, d: nat)
    requires g.Valid() && x < g.Modulus()
    ensures Iterate(g, x, d) == x <==> d % g.Modulus() == 0
  {
    hide Geometric, Iterate, Pow2, Generator.Offset;
    ReturnsWhenDivisible(g, x, d);
    OddOffset(g, x);
    DivisibleWhenSteps(g.multiplier, g.Offset(x), g.width, d);
  }

  lemma {:induction false} IterateAdd(g: Generator, x: nat, i: nat, d: nat)
    ensures Iterate(g, x, i + d) == Iterate(g, Iterate(g, x, i), d)
  {
    if d > 0 { IterateAdd(g, x, i, d - 1); }
  }

  /** Two positions of the stream carry the same key exactly when they are a multiple of the modulus apart. */
  lemma RepeatsExactly(g: Generator, x: nat, i: nat, j: nat)
    requires g.Valid() && x < g.Modulus() && i <= j
    ensures Iterate(g, x, i) == Iterate(g, x, j) <==> (j - i) % g.Modulus() == 0
  {
    IterateAdd(g, x, i, j - i);
    assert Iterate(g, x, i) < g.Modulus();
    FullPeriod(g, Iterate(g, x, i), j - i);
  }

  // ---- The keys one run of the hash table draws -----------------------------

  /** The first `n` keys drawn after `seed`. */
  function Keys(g: Generator, seed: nat, n: nat): set<nat> {
    if n == 0 then {} else Keys(g, seed, n - 1) + {Iterate(g, seed, n)}
  }

  ghost predicate DrawnWithin(g: Generator, seed: nat, n: nat, x: nat) {
    exists i :: 1 <= i <= n && DrawnAt(g, seed, i, x)
  }

  ghost predicate DrawnAt(g: Generator, seed: nat, i: nat, x: nat) {
    Iterate(g, seed, i) == x
  }

  lemma {:induction false} KeysMembers(g: Generator, seed: nat, n: nat, x: nat)
    ensures x in Keys(g, seed, n) <==> DrawnWithin(g, seed, n, x)
  {
    hide Iterate;
    if n > 0 {
      KeysMembers(g, seed, n - 1, x);
      if DrawnAt(g, seed, n, x) {
        assert DrawnWithin(g, seed, n, x);
      }
    }
  }

  /** Successive keys, up to as many as the modulus, are pairwise distinct. */
  lemma {:induction false} KeysDistinct(g: Generator, seed: nat, n: nat)
    requires g.Valid() && seed < g.Modulus() && n <= g.Modulus()
    ensures |Keys(g, seed, n)| == n
  {
    if n > 0 {
      KeysDistinct(g, seed, n - 1);
      var x := Iterate(g, seed, n);
      KeysMembers(g, seed, n - 1, x);
      if i :| 1 <= i <= n - 1 && DrawnAt(g, seed, i, x) {
        RepeatsExactly(g, seed, i, n);
        DivUnique(n - i, g.Modulus(), 0, n - i);
      }
    }
  }

  /** Every word is drawn within one period, whatever the seed. */
  lemma EveryWordIsDrawn(g: Generator, seed: nat, x: nat)
    requires g.Valid() && seed < g.Modulus() && x < g.Modulus()
    ensures DrawnWithin(g, seed, g.Modulus(), x)
  {
    var keys := Keys(g, seed, g.Modulus());
    KeysDistinct(g, seed, g.Modulus());
    KeysMembers(g, seed, g.Modulus(), x);
    if x !in keys {
      forall y | y in keys ensures y < g.Modulus() {
        KeysMembers(g, seed, g.Modulus(), y);
      }
      SizeBelow(keys + {x}, g.Modulus());
    }
  }
}
