/** Machine words as natural numbers, with the bitwise operators spelled out
    binary digit by binary digit.  The widths the program uses are subset types. */
module Words {

  type byte = x: int | 0 <= x < 256
  type u16 = x: int | 0 <= x < 0x1_0000
  type u32 = x: int | 0 <= x < 0x1_0000_0000
  type u64 = x: int | 0 <= x < 0x1_0000_0000_0000_0000

  const TWO_64: nat := 0x1_0000_0000_0000_0000

  function Pow2(n: nat): (p: nat)
    ensures p > 0
  {
    if n == 0 then 1 else 2 * Pow2(n - 1)
  }

  function Wrap64(x: nat): u64 {
    x % TWO_64
  }

  function And(a: nat, b: nat): nat {
    if a == 0 || b == 0 then 0 else 2 * And(a / 2, b / 2) + (if a % 2 == 1 && b % 2 == 1 then 1 else 0)
  }

  function Or(a: nat, b: nat): nat {
    if a == 0 && b == 0 then 0 else 2 * Or(a / 2, b / 2) + (if a % 2 == 1 || b % 2 == 1 then 1 else 0)
  }

  function Xor(a: nat, b: nat): nat {
    if a == 0 && b == 0 then 0 else 2 * Xor(a / 2, b / 2) + (if a % 2 != b % 2 then 1 else 0)
  }

  function Shr(x: nat, k: nat): nat {
    if k == 0 then x else Shr(x / 2, k - 1)
  }

  function Shl(x: nat, k: nat): nat {
    if k == 0 then x else 2 * Shl(x, k - 1)
  }

  /** Binary digit `k` of `x`, counting from the least significant. */
  predicate Bit(x: nat, k: nat) {
    Shr(x, k) % 2 == 1
  }

  lemma AndHalves(a: nat, b: nat)
    ensures And(a, b) / 2 == And(a / 2, b / 2)
    ensures And(a, b) % 2 == if a % 2 == 1 && b % 2 == 1 then 1 else 0
  {}

  lemma OrHalves(a: nat, b: nat)
    ensures Or(a, b) / 2 == Or(a / 2, b / 2)
    ensures Or(a, b) % 2 == if a % 2 == 1 || b % 2 == 1 then 1 else 0
  {}

  lemma XorHalves(a: nat, b: nat)
    ensures Xor(a, b) / 2 == Xor(a / 2, b / 2)
    ensures Xor(a, b) % 2 == if a % 2 != b % 2 then 1 else 0
  {}

  lemma {:induction false} AndBit(a: nat, b: nat, k: nat)
    ensures Bit(And(a, b), k) == (Bit(a, k) && Bit(b, k))
    decreases k
  {
    hide And;
    AndHalves(a, b);
    if k > 0 { AndBit(a / 2, b / 2, k - 1); }
  }

  lemma {:induction false} OrBit(a: nat, b: nat, k: nat)
    ensures Bit(Or(a, b), k) == (Bit(a, k) || Bit(b, k))
    decreases k
  {
    hide Or;
    OrHalves(a, b);
    if k > 0 { OrBit(a / 2, b / 2, k - 1); }
  }

  lemma {:induction false} XorBit(a: nat, b: nat, k: nat)
    ensures Bit(Xor(a, b), k) == (Bit(a, k) != Bit(b, k))
    decreases k
  {
    hide Xor;
    XorHalves(a, b);
    if k > 0 { XorBit(a / 2, b / 2, k - 1); }
  }

  lemma {:induction false} ZeroBits(k: nat)
    ensures Shr(0, k) == 0
  {
    if k > 0 { ZeroBits(k - 1); }
  }

  lemma {:induction false} ShrStep(x: nat, k: nat)
    ensures Shr(x, k + 1) == Shr(x, k) / 2
  {
    if k > 0 { ShrStep(x / 2, k - 1); }
  }

  lemma {:induction false} ShrIsDivision(x: nat, k: nat)
    ensures Shr(x, k) == x / Pow2(k)
  {
    if k > 0 {
      ShrIsDivision(x / 2, k - 1);
      DivTwice(x, Pow2(k - 1));
    }
  }

  lemma DivTwice(x: nat, m: nat)
    requires m > 0
    ensures x / 2 / m == x / (2 * m)
  {
    var q := x / 2 / m;
    var r := x / 2 - q * m;
    assert x / 2 == q * m + r && 0 <= r < m;
    assert x == (2 * m) * q + (2 * r + x % 2);
    DivUnique(x, 2 * m, q, 2 * r + x % 2);
  }

  /** Quotient and remainder are the only pair with `x == d * q + r` and `0 <= r < d`. */
  lemma DivUnique(x: int, d: nat, q: int, r: int)
    requires d > 0 && x == d * q + r && 0 <= r < d
    ensures x / d == q && x % d == r
  {
    var q', r' := x / d, x % d;
    assert x == d * q' + r';
    assert d * (q - q') == r' - r;
    if q > q' {
      assert d * (q - q') >= d by { MulGe(d, q - q'); }
    } else if q < q' {
      assert d * (q - q') == -(d * (q' - q));
      MulGe(d, q' - q);
    }
  }

  lemma MulGe(d: nat, k: int)
    requires k >= 1
    ensures d * k >= d
  {
    assert d * k == d + d * (k - 1);
  }

  /** Words that agree in every binary digit are equal. */
  lemma {:induction false} BitsDetermine(a: nat, b: nat)
    requires forall k: nat :: Bit(a, k) == Bit(b, k)
    ensures a == b
    decreases a + b
  {
    if a + b > 0 {
      assert Bit(a, 0) == Bit(b, 0);
      forall k: nat
        ensures Bit(a / 2, k) == Bit(b / 2, k)
      {
        assert Bit(a, k + 1) == Bit(b, k + 1);
      }
      BitsDetermine(a / 2, b / 2);
    }
  }

  lemma XorAssoc(a: nat, b: nat, c: nat)
    ensures Xor(Xor(a, b), c) == Xor(a, Xor(b, c))
  {
    forall k: nat
      ensures Bit(Xor(Xor(a, b), c), k) == Bit(Xor(a, Xor(b, c)), k)
    {
      XorBit(a, b, k);
      XorBit(Xor(a, b), c, k);
      XorBit(b, c, k);
      XorBit(a, Xor(b, c), k);
    }
    BitsDetermine(Xor(Xor(a, b), c), Xor(a, Xor(b, c)));
  }

  lemma {:induction false} XorComm(a: nat, b: nat)
    ensures Xor(a, b) == Xor(b, a)
  {
    if a + b > 0 { XorComm(a / 2, b / 2); }
  }

  lemma {:induction false} XorZero(a: nat)
    ensures Xor(a, 0) == a && Xor(0, a) == a && Xor(a, a) == 0
  {
    if a > 0 { XorZero(a / 2); }
  }

  /** Exclusive-or of two pairs can be regrouped freely. */
  lemma XorSwap(a: nat, b: nat, c: nat, d: nat)
    ensures Xor(Xor(a, b), Xor(c, d)) == Xor(Xor(a, c), Xor(b, d))
  {
    XorAssoc(a, b, Xor(c, d));
    XorAssoc(b, c, d);
    XorComm(b, c);
    XorAssoc(c, b, d);
    XorAssoc(a, c, Xor(b, d));
  }

  /** Masking distributes over exclusive-or. */
  lemma AndXor(a: nat, b: nat, m: nat)
    ensures And(Xor(a, b), m) == Xor(And(a, m), And(b, m))
  {
    forall k: nat
      ensures Bit(And(Xor(a, b), m), k) == Bit(Xor(And(a, m), And(b, m)), k)
    {
      XorBit(a, b, k);
      AndBit(Xor(a, b), m, k);
      AndBit(a, m, k);
      AndBit(b, m, k);
      XorBit(And(a, m), And(b, m), k);
    }
    BitsDetermine(And(Xor(a, b), m), Xor(And(a, m), And(b, m)));
  }

  lemma {:induction false} AndAtMost(a: nat, b: nat)
    ensures And(a, b) <= b
  {
    if a > 0 && b > 0 { AndAtMost(a / 2, b / 2); }
  }

  lemma {:induction false} ShrXor(a: nat, b: nat, k: nat)
    ensures Shr(Xor(a, b), k) == Xor(Shr(a, k), Shr(b, k))
  {
    hide Xor;
    if k > 0 {
      XorHalves(a, b);
      ShrXor(a / 2, b / 2, k - 1);
    }
  }

  lemma LowXor(a: nat, b: nat, k: nat)
    ensures Low(Xor(a, b), k) == Xor(Low(a, k), Low(b, k))
  {
    hide *;
    MaskIsLow(Xor(a, b), k);
    MaskIsLow(a, k);
    MaskIsLow(b, k);
    AndXor(a, b, Pow2(k) - 1);
  }

  lemma {:induction false} XorBound(a: nat, b: nat, n: nat)
    requires a < Pow2(n) && b < Pow2(n)
    ensures Xor(a, b) < Pow2(n)
  {
    if n > 0 && a + b > 0 { XorBound(a / 2, b / 2, n - 1); }
  }

  lemma {:induction false} OrBound(a: nat, b: nat, n: nat)
    requires a < Pow2(n) && b < Pow2(n)
    ensures Or(a, b) < Pow2(n)
  {
    if n > 0 && a + b > 0 { OrBound(a / 2, b / 2, n - 1); }
  }

  /** `n` can be halved `m` times without remainder. */
  predicate HalvesEvenly(m: nat, n: nat) {
    m == 0 || (n % 2 == 0 && HalvesEvenly(m - 1, n / 2))
  }

  lemma {:induction false} HalvesEvenlyIsDivisibility(m: nat, n: nat)
    ensures HalvesEvenly(m, n) <==> n % Pow2(m) == 0
  {
    if m > 0 {
      HalvesEvenlyIsDivisibility(m - 1, n / 2);
      ModTwice(n, Pow2(m - 1));
    }
  }

  lemma OddTimes(n: nat, q: nat)
    requires q % 2 == 1
    ensures n * q % 2 == n % 2
    ensures n % 2 == 0 ==> n * q / 2 == n / 2 * q
  {
    var h, k := n / 2, q / 2;
    if n % 2 == 0 {
      assert n * q == 2 * (h * q);
    } else {
      assert n * q == (2 * h + 1) * q == 2 * (h * q) + q;
    }
  }

  /** Adding to a multiple of `Pow2(n)` a number below `Pow2(n)` is exclusive-or. */
  lemma {:induction false} AddIsXor(a: nat, i: nat, n: nat)
    requires HalvesEvenly(n, a) && i < Pow2(n)
    ensures a + i == Xor(a, i)
  {
    if n == 0 {
      XorZero(a);
    } else {
      hide Xor;
      XorHalves(a, i);
      AddIsXor(a / 2, i / 2, n - 1);
    }
  }

  /** The number formed by the low `n` binary digits of `x`. */
  function Low(x: nat, n: nat): nat {
    if n == 0 then 0 else 2 * Low(x / 2, n - 1) + x % 2
  }

  lemma {:induction false} LowIsRemainder(x: nat, n: nat)
    ensures Low(x, n) == x % Pow2(n)
  {
    if n > 0 {
      LowIsRemainder(x / 2, n - 1);
      ModTwice(x, Pow2(n - 1));
    }
  }

  lemma {:induction false} MaskIsLow(x: nat, n: nat)
    ensures And(x, Pow2(n) - 1) == Low(x, n)
  {
    if n == 0 {
      AndZero(x);
    } else {
      hide And;
      MaskIsLow(x / 2, n - 1);
      AndHalves(x, Pow2(n) - 1);
    }
  }

  /** Masking with one less than a power of two is the remainder. */
  lemma MaskIsModulo(x: nat, n: nat)
    ensures And(x, Pow2(n) - 1) == x % Pow2(n)
  {
    hide *;
    MaskIsLow(x, n);
    LowIsRemainder(x, n);
  }

  lemma AndZero(x: nat)
    ensures And(x, 0) == 0
  {}

  ghost predicate IsPowerOfTwo(n: nat) {
    exists k: nat :: n == Pow2(k)
  }

  lemma {:induction false} PowerOfTwoHalf(n: nat)
    requires n > 1
    ensures IsPowerOfTwo(n) <==> n % 2 == 0 && IsPowerOfTwo(n / 2)
  {
    if k: nat :| n == Pow2(k) {
      assert n / 2 == Pow2(k - 1);
    }
    if k: nat :| n % 2 == 0 && n / 2 == Pow2(k) {
      assert n == Pow2(k + 1);
    }
  }

  /** `n & (n - 1)` is zero exactly at the powers of two. */
  lemma {:induction false} PowerOfTwoTest(n: nat)
    requires n > 0
    ensures And(n, n - 1) == 0 <==> IsPowerOfTwo(n)
  {
    if n == 1 {
      assert n == Pow2(0);
    } else {
      PowerOfTwoHalf(n);
      if n % 2 == 1 {
        AndSelf(n / 2);
      } else {
        PowerOfTwoTest(n / 2);
        assert (n - 1) / 2 == n / 2 - 1;
      }
    }
  }

  lemma {:induction false} AndSelf(n: nat)
    ensures And(n, n) == n
  {
    if n > 0 { AndSelf(n / 2); }
  }

  lemma {:induction false} Pow2Monotone(k: nat, n: nat)
    requires k <= n
    ensures Pow2(k) <= Pow2(n)
  {
    if k < n { Pow2Monotone(k, n - 1); }
  }

  /** The word of width `n` whose low `k` binary digits are clear and whose others are set. */
  function HighMask(n: nat, k: nat): nat
    requires k <= n
  {
    Pow2Monotone(k, n); Pow2(n) - Pow2(k)
  }

  lemma {:induction false} HighMaskIsRest(x: nat, k: nat, n: nat)
    requires k <= n && x < Pow2(n)
    ensures And(x, HighMask(n, k)) + Low(x, k) == x
    decreases n
  {
    if k == 0 {
      MaskIsModulo(x, n);
      DivUnique(x, Pow2(n), 0, x);
    } else {
      hide And, HighMask;
      HighMaskIsRest(x / 2, k - 1, n - 1);
      HalfMask(n, k);
      AndHalves(x, HighMask(n, k));
    }
  }

  /** Clearing the low `k` binary digits of an `n`-bit word rounds it down to a multiple of `Pow2(k)`. */
  lemma ClearLowBits(x: nat, k: nat, n: nat)
    requires k <= n && x < Pow2(n)
    ensures And(x, HighMask(n, k)) == x - x % Pow2(k)
  {
    hide *;
    HighMaskIsRest(x, k, n);
    LowIsRemainder(x, k);
  }

  lemma HalfMask(n: nat, k: nat)
    requires 0 < k <= n
    ensures HighMask(n, k) == 2 * HighMask(n - 1, k - 1)
  {}

  lemma ModTwice(x: nat, m: nat)
    requires m > 0
    ensures x % (2 * m) == 2 * (x / 2 % m) + x % 2
  {
    var q, r := x / 2 / m, x / 2 % m;
    assert x / 2 == m * q + r;
    assert x == (2 * m) * q + (2 * r + x % 2);
    DivUnique(x, 2 * m, q, 2 * r + x % 2);
  }

  lemma {:induction false} OneBit(j: nat, k: nat)
    ensures Bit(Pow2(k), j) == (j == k)
  {
    if j > 0 && k > 0 {
      OneBit(j - 1, k - 1);
    } else if k == 0 && j > 0 {
      ZeroBits(j - 1);
    }
  }

  /** `x & (1 << k)` is nonzero exactly when binary digit `k` of `x` is set. */
  lemma {:induction false} TestBit(x: nat, k: nat)
    ensures And(x, Pow2(k)) != 0 <==> Bit(x, k)
  {
    if x == 0 {
      ZeroBits(k);
    } else if k > 0 {
      TestBit(x / 2, k - 1);
    } else {
      assert And(x / 2, 0) == 0;
    }
  }

  lemma Pow2Known()
    ensures Pow2(8) == 256 && Pow2(14) == 16384 && Pow2(16) == 0x1_0000
    ensures Pow2(32) == 0x1_0000_0000 && Pow2(64) == TWO_64
  {
    Pow2Small();
    hide Pow2;
    Pow2Plus8(16);
    Pow2Plus8(24);
    Pow2Plus8(32);
    Pow2Plus8(40);
    Pow2Plus8(48);
    Pow2Plus8(56);
  }

  lemma Pow2Small()
    ensures Pow2(8) == 256 && Pow2(14) == 16384 && Pow2(16) == 0x1_0000
  {}

  lemma Pow2Plus8(n: nat)
    ensures Pow2(n + 8) == 256 * Pow2(n)
  {
    assert Pow2(n + 4) == 16 * Pow2(n) by {
      assert Pow2(n + 2) == 2 * Pow2(n + 1);
      assert Pow2(n + 4) == 2 * Pow2(n + 3);
      assert Pow2(n + 3) == 2 * Pow2(n + 2);
    }
    assert Pow2(n + 6) == 2 * Pow2(n + 5);
    assert Pow2(n + 8) == 2 * Pow2(n + 7);
    assert Pow2(n + 7) == 2 * Pow2(n + 6);
  }
}
