/** Which byte range of the object each connection requests. */
module Blocks {
  import opened Words

  /** The offsets a block may start at, less one when the block fits the object. */
  function Stride(blockSize: u64, objectSize: u64): u64 {
    Wrap64((if objectSize >= blockSize then objectSize - blockSize else 0) + 1)
  }

  function Start(block: u64, blockSize: u64, objectSize: u64): u64 {
    var stride := Stride(blockSize, objectSize);
    if stride == 0 then 0 else Wrap64(block * blockSize) % stride
  }

  /** The last byte requested. */
  function End(block: u64, blockSize: u64, objectSize: u64): int {
    Start(block, blockSize, objectSize) + blockSize - 1
  }

  /** Every requested range lies inside the object exactly when a block is no larger than it. */
  lemma RangeInsideObject(block: u64, blockSize: u64, objectSize: u64)
    requires blockSize > 0
    ensures End(block, blockSize, objectSize) < objectSize <==> blockSize <= objectSize
  {}

  // ---- Greatest common divisors --------------------------------------------

  function Gcd(a: nat, b: nat): nat
    decreases b
  {
    if b == 0 then a else Gcd(b, a % b)
  }

  /** The greatest common divisor divides both, and is a combination of them. */
  lemma {:induction false} Bezout(a: nat, b: nat) returns (p: nat, q: nat, x: int, y: int)
    requires a > 0
    ensures Gcd(a, b) > 0
    ensures a == Gcd(a, b) * p && b == Gcd(a, b) * q
    ensures p * x + q * y == 1
    decreases b
  {
    if b == 0 {
      p, q, x, y := 1, 0, 1, 0;
    } else {
      var p', q', x', y' := Bezout(b, a % b);
      var g, d := Gcd(b, a % b), a / b;
      // b == g * p' and a - b * d == g * q'
      p, q, x, y := p' * d + q', p', y', x' - d * y';
      BezoutStep(g, a, b, d, p', q', x', y');
    }
  }

  lemma BezoutStep(g: nat, a: nat, b: nat, d: nat, p: nat, q: nat, x: int, y: int)
    requires b == g * p && a - b * d == g * q && p * x + q * y == 1
    ensures a == g * (p * d + q)
    ensures (p * d + q) * y + p * (x - d * y) == 1
  {
    assert g * (p * d + q) == (g * p) * d + g * q;
    assert (p * d + q) * y == p * (d * y) + q * y;
    assert p * (x - d * y) == p * x - p * (d * y);
  }

  /** `s` without the part it has in common with `b`. */
  function Period(b: nat, s: nat): (q: nat)
    requires b > 0 && s > 0
    ensures q > 0
  {
    GcdDivides(b, s);
    s / Gcd(b, s)
  }

  lemma GcdDivides(b: nat, s: nat)
    requires b > 0 && s > 0
    ensures Gcd(b, s) > 0 && s / Gcd(b, s) > 0
  {
    var p, q, x, y := Bezout(b, s);
    DivUnique(s, Gcd(b, s), q, 0);
  }

  /** `s` divides `k * b` exactly when `Period(b, s)` divides `k`. */
  lemma DividesMultiple(b: nat, s: nat, k: nat)
    requires b > 0 && s > 0
    ensures k * b % s == 0 <==> k % Period(b, s) == 0
  {
    hide Period;
    if k * b % s == 0 { PeriodDivides(b, s, k); }
    if k % Period(b, s) == 0 { PeriodSuffices(b, s, k); }
  }

  lemma PeriodDivides(b: nat, s: nat, k: nat)
    requires b > 0 && s > 0 && k * b % s == 0
    ensures k % Period(b, s) == 0
  {
    var p, q, x, y := Bezout(b, s);
    hide Gcd;
    DivUnique(s, Gcd(b, s), q, 0);
    DivisorReduced(Gcd(b, s), p, q, x, y, k, k * b / s);
  }

  lemma PeriodSuffices(b: nat, s: nat, k: nat)
    requires b > 0 && s > 0 && k % Period(b, s) == 0
    ensures k * b % s == 0
  {
    var p, q, x, y := Bezout(b, s);
    hide Gcd;
    DivUnique(s, Gcd(b, s), q, 0);
    assert Period(b, s) == q;
    MultipleDivides(Gcd(b, s), p, q, k / q, b, s, k);
  }

  lemma DivisorReduced(g: nat, p: nat, q: nat, x: int, y: int, k: nat, m: nat)
    requires g > 0 && q > 0 && p * x + q * y == 1 && k * (g * p) == (g * q) * m
    ensures k % q == 0
  {
    CancelCommon(g, p, q, k, m);
    CoprimeDivides(p, q, x, y, k, m);
  }

  lemma CoprimeDivides(p: nat, q: nat, x: int, y: int, k: nat, m: nat)
    requires q > 0 && p * x + q * y == 1 && k * p == q * m
    ensures k % q == 0
  {
    var t := x * m + k * y;
    assert k * (p * x + q * y) == k * (p * x) + k * (q * y);
    assert k * (p * x) == x * (q * m);
    assert x * (q * m) == q * (x * m);
    assert k * (q * y) == q * (k * y);
    assert q * t == q * (x * m) + q * (k * y);
    DivUnique(k, q, t, 0);
  }

  lemma MultipleDivides(g: nat, p: nat, q: nat, t: nat, b: nat, s: nat, k: nat)
    requires b == g * p && s == g * q && k == q * t && s > 0
    ensures k * b % s == 0
  {
    assert (q * t) * (g * p) == (g * q) * (t * p);
    DivUnique(k * b, s, t * p, 0);
  }

  lemma CancelCommon(g: nat, p: nat, q: nat, k: nat, m: nat)
    requires g > 0 && k * (g * p) == (g * q) * m
    ensures k * p == q * m
  {
    var l, r := k * p, q * m;
    assert k * (g * p) == g * l;
    assert (g * q) * m == g * r;
    if l > r {
      assert g * (l - r) == 0;
      MulGe(g, l - r);
    } else if r > l {
      assert g * (r - l) == 0;
      MulGe(g, r - l);
    }
  }

  lemma OneMoreIsCoprime(b: nat, m: nat)
    requires b > 0
    ensures Gcd(b, m * b + 1) == 1
  {
    var p, q, x, y := Bezout(b, m * b + 1);
    CommonDivisorOfNext(Gcd(b, m * b + 1), b, m, p, q);
  }

  lemma CommonDivisorOfNext(g: nat, b: nat, m: nat, p: nat, q: nat)
    requires b == g * p && m * b + 1 == g * q
    ensures g == 1
  {
    assert m * (g * p) == g * (m * p);
    assert g * (q - m * p) == g * q - g * (m * p);
    UnitFactor(g, q - m * p);
  }

  lemma UnitFactor(g: nat, k: int)
    requires g * k == 1
    ensures g == 1
  {
    if k <= 0 {
      assert g * -k == -1;
    } else {
      MulGe(g, k);
    }
  }

  // ---- When two blocks coincide --------------------------------------------

  lemma StrideExact(blockSize: u64, objectSize: u64)
    requires 0 < blockSize
    ensures Stride(blockSize, objectSize) == (if objectSize >= blockSize then objectSize - blockSize else 0) + 1
  {}

  predicate SameStart(b1: u64, b2: u64, blockSize: u64, objectSize: u64) {
    Start(b1, blockSize, objectSize) == Start(b2, blockSize, objectSize)
  }

  /** How often the product the layout takes modulo 2^64 wraps. */
  function Wraps(block: u64, blockSize: u64): nat {
    block * blockSize / TWO_64
  }

  /** What wrapping takes off the distance of two blocks' products. */
  function WrappedAway(b1: u64, b2: u64, blockSize: u64): int {
    TWO_64 * (Wraps(b1, blockSize) - Wraps(b2, blockSize))
  }

  /** Wrapping takes the same off both products, up to whole strides. */
  predicate WrapsCancel(b1: u64, b2: u64, blockSize: u64, objectSize: u64)
    requires 0 < blockSize
  {
    StrideExact(blockSize, objectSize);
    WrappedAway(b1, b2, blockSize) % Stride(blockSize, objectSize) == 0
  }

  /** The distance is a multiple of the stride without its common part with the block size. */
  predicate PeriodsApart(b1: u64, b2: u64, blockSize: u64, objectSize: u64)
    requires 0 < blockSize && b2 <= b1
  {
    StrideExact(blockSize, objectSize);
    (b1 - b2) % Period(blockSize, Stride(blockSize, objectSize)) == 0
  }

  lemma SameRemainders(a: int, b: int, s: nat)
    requires s > 0
    ensures a % s == b % s <==> (a - b) % s == 0
  {
    var qa, qb := a / s, b / s;
    assert a == s * qa + a % s && b == s * qb + b % s;
    if a % s == b % s {
      assert a - b == s * (qa - qb);
      DivUnique(a - b, s, qa - qb, 0);
    }
    if (a - b) % s == 0 {
      var k := (a - b) / s;
      assert a == s * (k + qb) + b % s;
      DivUnique(a, s, k + qb, b % s);
    }
  }

  lemma WrapTakesAway(block: u64, blockSize: u64)
    ensures Wrap64(block * blockSize) == block * blockSize - TWO_64 * Wraps(block, blockSize)
  {}

  /** Whatever wraps: two blocks start at the same offset exactly when the stride divides
      the distance of their products less what wrapping takes away. */
  lemma SameStartExactly(b1: u64, b2: u64, blockSize: u64, objectSize: u64)
    requires 0 < blockSize
    ensures 0 < Stride(blockSize, objectSize)
    ensures SameStart(b1, b2, blockSize, objectSize) <==>
      ((b1 - b2) * blockSize - WrappedAway(b1, b2, blockSize)) % Stride(blockSize, objectSize) == 0
  {
    hide Stride, Wrap64, Wraps;
    StrideExact(blockSize, objectSize);
    WrapTakesAway(b1, blockSize);
    WrapTakesAway(b2, blockSize);
    var p1: int, p2: int := Wrap64(b1 * blockSize), Wrap64(b2 * blockSize);
    SameRemainders(p1, p2, Stride(blockSize, objectSize));
    assert (b1 - b2) * blockSize == b1 * blockSize - b2 * blockSize;
    assert p1 - p2 == (b1 - b2) * blockSize - WrappedAway(b1, b2, blockSize);
  }

  /** Where wrapping cancels, two blocks start at the same offset exactly when they are
      whole periods apart; and blocks whole periods apart do exactly when it cancels. */
  lemma SameOffset(b1: u64, b2: u64, blockSize: u64, objectSize: u64)
    requires 0 < blockSize && b2 <= b1
    ensures WrapsCancel(b1, b2, blockSize, objectSize) ==>
      (SameStart(b1, b2, blockSize, objectSize) <==> PeriodsApart(b1, b2, blockSize, objectSize))
    ensures PeriodsApart(b1, b2, blockSize, objectSize) ==>
      (SameStart(b1, b2, blockSize, objectSize) <==> WrapsCancel(b1, b2, blockSize, objectSize))
  {
    hide SameStart, Stride, Period, WrappedAway;
    SameStartExactly(b1, b2, blockSize, objectSize);
    var stride := Stride(blockSize, objectSize);
    SameRemainders((b1 - b2) * blockSize, WrappedAway(b1, b2, blockSize), stride);
    DividesMultiple(blockSize, stride, b1 - b2);
  }

  predicate StrideDivides(blockSize: u64, objectSize: u64)
    requires 0 < blockSize
  {
    StrideExact(blockSize, objectSize);
    TWO_64 % Stride(blockSize, objectSize) == 0
  }

  /** Wrapping cancels when both products wrap equally often, or the stride divides 2^64. */
  lemma CancelsWhen(b1: u64, b2: u64, blockSize: u64, objectSize: u64)
    requires 0 < blockSize
    requires Wraps(b1, blockSize) == Wraps(b2, blockSize) || StrideDivides(blockSize, objectSize)
    ensures WrapsCancel(b1, b2, blockSize, objectSize)
  {
    hide Stride, Wraps;
    StrideExact(blockSize, objectSize);
    var stride := Stride(blockSize, objectSize);
    if StrideDivides(blockSize, objectSize) {
      var k, d := TWO_64 / stride, Wraps(b1, blockSize) - Wraps(b2, blockSize);
      assert stride * (k * d) == (stride * k) * d;
      DivUnique(WrappedAway(b1, b2, blockSize), stride, k * d, 0);
    }
  }

  /** Wrapping need not cancel: here blocks 0 and 2^32 coincide although they are not
      whole periods apart. */
  lemma WrapBreaksSameOffset()
    ensures var (b, blockSize, objectSize) := (0x1_0000_0000, 0x1_0000_0000, 0x2_0000_0000);
      SameStart(b, 0, blockSize, objectSize) && !PeriodsApart(b, 0, blockSize, objectSize)
  {
    assert Stride(0x1_0000_0000, 0x2_0000_0000) == 0x1_0000_0001;
    assert Gcd(1, 0) == 1;
    assert Gcd(0x1_0000_0000, 1) == 1;
    assert Gcd(0x1_0000_0001, 0x1_0000_0000) == 1;
  }

  ghost predicate AllStartsDiffer(n: nat, blockSize: u64, objectSize: u64) {
    forall b1: u64, b2: u64 :: b2 < b1 < n ==> !SameStart(b1, b2, blockSize, objectSize)
  }

  /** As long as no product wraps, the first `n` blocks start at different offsets exactly
      when there are no more of them than one period. */
  lemma OffsetsDistinct(n: nat, blockSize: u64, objectSize: u64)
    requires 0 < blockSize && (n - 1) * blockSize < TWO_64
    ensures 0 < Stride(blockSize, objectSize)
    ensures AllStartsDiffer(n, blockSize, objectSize) <==> n <= Period(blockSize, Stride(blockSize, objectSize))
  {
    hide SameStart, Stride, Period, Wraps;
    StrideExact(blockSize, objectSize);
    var period := Period(blockSize, Stride(blockSize, objectSize));
    if n <= period {
      forall b1: u64, b2: u64 | b2 < b1 < n
        ensures !SameStart(b1, b2, blockSize, objectSize)
      {
        NoneWrap(b1, n, blockSize);
        NoneWrap(b2, n, blockSize);
        CancelsWhen(b1, b2, blockSize, objectSize);
        SameOffset(b1, b2, blockSize, objectSize);
        DivUnique(b1 - b2, period, 0, b1 - b2);
      }
    } else {
      NoneWrap(period, n, blockSize);
      NoneWrap(0, n, blockSize);
      CancelsWhen(period, 0, blockSize, objectSize);
      SameOffset(period, 0, blockSize, objectSize);
      DivUnique(period, period, 1, 0);
    }
  }

  lemma NoneWrap(block: nat, n: nat, blockSize: u64)
    requires 0 < blockSize && (n - 1) * blockSize < TWO_64 && block < n
    ensures block < TWO_64 && Wraps(block, blockSize) == 0
  {
    MulOrdered(block, n - 1, blockSize);
    if block > 0 { MulGe(block, blockSize); }
    assert block * blockSize >= block;
    DivUnique(block * blockSize, TWO_64, 0, block * blockSize);
  }

  /** When the block size divides the object size, one period is the whole stride. */
  lemma WholeStride(blockSize: u64, n: nat)
    requires 0 < blockSize && 0 < n && n * blockSize < TWO_64
    ensures 0 < Stride(blockSize, n * blockSize)
    ensures Period(blockSize, Stride(blockSize, n * blockSize)) == Stride(blockSize, n * blockSize)
  {
    hide Stride, Gcd;
    StrideExact(blockSize, n * blockSize);
    var stride := Stride(blockSize, n * blockSize);
    assert stride == (n - 1) * blockSize + 1 by {
      assert n * blockSize == (n - 1) * blockSize + blockSize;
      assert (n - 1) * blockSize >= 0;
    }
    OneMoreIsCoprime(blockSize, n - 1);
    DivUnique(stride, 1, stride, 0);
  }

  lemma MulOrdered(a: nat, b: nat, m: nat)
    requires a <= b
    ensures a * m <= b * m
  {
    assert b * m == a * m + (b - a) * m;
  }

  // ---- When ranges overlap ---------------------------------------------------

  predicate Covers(block: u64, blockSize: u64, objectSize: u64, at: nat) {
    Start(block, blockSize, objectSize) <= at <= End(block, blockSize, objectSize)
  }

  predicate Apart(b1: u64, b2: u64, blockSize: u64, objectSize: u64) {
    End(b1, blockSize, objectSize) < Start(b2, blockSize, objectSize)
    || End(b2, blockSize, objectSize) < Start(b1, blockSize, objectSize)
  }

  ghost predicate AllApart(n: nat, blockSize: u64, objectSize: u64) {
    forall b1: u64, b2: u64 :: b1 < b2 < n ==> Apart(b1, b2, blockSize, objectSize)
  }

  /** As long as whole blocks fit, they are laid out one after the other. */
  lemma StartInOrder(block: u64, blockSize: u64, objectSize: u64)
    requires 0 < blockSize && block < objectSize / blockSize
    ensures Start(block, blockSize, objectSize) == block * blockSize
    ensures block * blockSize + blockSize <= objectSize
  {
    var m := objectSize / blockSize;
    assert blockSize * m <= objectSize;
    MulOrdered(block + 1, m, blockSize);
    assert (block + 1) * blockSize == block * blockSize + blockSize;
    StrideExact(blockSize, objectSize);
    StartSmall(block, blockSize, objectSize, block * blockSize);
  }

  lemma StartSmall(block: u64, blockSize: u64, objectSize: u64, at: nat)
    requires 0 < blockSize && at == block * blockSize < Stride(blockSize, objectSize)
    ensures Start(block, blockSize, objectSize) == at
  {
    hide Stride;
    DivUnique(at, TWO_64, 0, at);
    DivUnique(at, Stride(blockSize, objectSize), 0, at);
  }

  /** The first block that no longer fits starts inside the range of block 0. */
  lemma NextStart(blockSize: u64, objectSize: u64)
    requires 0 < blockSize <= objectSize
    ensures Start(objectSize / blockSize, blockSize, objectSize) < blockSize
    ensures 2 * blockSize <= objectSize ==>
      Start(objectSize / blockSize, blockSize, objectSize) == blockSize - 1 - objectSize % blockSize
  {
    hide Stride;
    var m, r, stride := objectSize / blockSize, objectSize % blockSize, Stride(blockSize, objectSize);
    StrideExact(blockSize, objectSize);
    assert m * blockSize == objectSize - r;
    DivUnique(m * blockSize, TWO_64, 0, m * blockSize);
    if blockSize - 1 - r < stride {
      DivUnique(m * blockSize, stride, 1, blockSize - 1 - r);
    }
  }

  lemma AtStart(blockSize: u64, objectSize: u64)
    requires 0 < blockSize
    ensures Start(0, blockSize, objectSize) == 0
  {
    StartSmall(0, blockSize, objectSize, 0);
  }

  /** The ranges of the first `n` blocks are pairwise disjoint exactly when there is at most
      one, or the object is large enough to hold them all. */
  lemma RangesDisjoint(n: nat, blockSize: u64, objectSize: u64)
    requires 0 < blockSize && n <= TWO_64
    ensures AllApart(n, blockSize, objectSize) <==> n <= 1 || n <= objectSize / blockSize
  {
    hide Apart;
    var m := objectSize / blockSize;
    if n <= m {
      forall b1: u64, b2: u64 | b1 < b2 < n
        ensures Apart(b1, b2, blockSize, objectSize)
      {
        FittingApart(b1, b2, blockSize, objectSize);
      }
    } else if n > 1 {
      NotApart(blockSize, objectSize);
    }
  }

  lemma FittingApart(b1: u64, b2: u64, blockSize: u64, objectSize: u64)
    requires 0 < blockSize && b1 < b2 < objectSize / blockSize
    ensures Apart(b1, b2, blockSize, objectSize)
  {
    hide Start;
    StartInOrder(b1, blockSize, objectSize);
    StartInOrder(b2, blockSize, objectSize);
    MulOrdered(b1 + 1, b2, blockSize);
    assert (b1 + 1) * blockSize == b1 * blockSize + blockSize;
  }

  /** Block 0 overlaps the first block that does not fit, or block 1 if none fits. */
  lemma NotApart(blockSize: u64, objectSize: u64)
    requires 0 < blockSize
    ensures var m := objectSize / blockSize; !Apart(0, if m == 0 then 1 else m, blockSize, objectSize)
  {
    hide Start;
    AtStart(blockSize, objectSize);
    if blockSize <= objectSize {
      AtLeast(objectSize, blockSize, 1);
      NextStart(blockSize, objectSize);
    } else {
      DivUnique(objectSize, blockSize, 0, objectSize);
      StartSquashed(1, blockSize, objectSize);
    }
  }

  lemma StartSquashed(block: u64, blockSize: u64, objectSize: u64)
    requires 0 < blockSize && objectSize / blockSize == 0
    ensures Start(block, blockSize, objectSize) == 0
  {
    if blockSize <= objectSize { AtLeast(objectSize, blockSize, 1); }
    StrideExact(blockSize, objectSize);
  }

  /** Of the blocks that fit, exactly one covers each byte up to the end of the last. */
  lemma FirstBlocksTile(block: u64, blockSize: u64, objectSize: u64, at: nat)
    requires 0 < blockSize && block < objectSize / blockSize
    ensures Covers(block, blockSize, objectSize, at) <==> block == at / blockSize
  {
    hide Start;
    StartInOrder(block, blockSize, objectSize);
    if block * blockSize <= at < block * blockSize + blockSize {
      DivUnique(at, blockSize, block, at - block * blockSize);
    }
    assert at == blockSize * (at / blockSize) + at % blockSize;
  }

  ghost predicate Covered(n: nat, blockSize: u64, objectSize: u64, at: nat) {
    exists block: u64 :: block < n && Covers(block, blockSize, objectSize, at)
  }

  /** They cover the whole object exactly when the block size divides its size. */
  lemma TilesWhole(blockSize: u64, objectSize: u64)
    requires 0 < blockSize && 0 < objectSize
    ensures (forall at: nat :: at < objectSize ==> Covered(objectSize / blockSize, blockSize, objectSize, at))
       <==> objectSize % blockSize == 0
  {
    hide Covered;
    if objectSize % blockSize == 0 {
      forall at: nat | at < objectSize
        ensures Covered(objectSize / blockSize, blockSize, objectSize, at)
      {
        QuotientBelow(at, blockSize, objectSize);
        CoveredWhen(blockSize, objectSize, at);
      }
    } else {
      assert objectSize == blockSize * (objectSize / blockSize) + objectSize % blockSize;
      DivUnique(objectSize - 1, blockSize, objectSize / blockSize, objectSize % blockSize - 1);
      CoveredWhen(blockSize, objectSize, objectSize - 1);
    }
  }

  lemma CoveredWhen(blockSize: u64, objectSize: u64, at: nat)
    requires 0 < blockSize && at < objectSize
    ensures Covered(objectSize / blockSize, blockSize, objectSize, at) <==> at / blockSize < objectSize / blockSize
  {
    hide Covers;
    var m := objectSize / blockSize;
    if at / blockSize < m { FirstBlocksTile(at / blockSize, blockSize, objectSize, at); }
    if Covered(m, blockSize, objectSize, at) {
      var block: u64 :| block < m && Covers(block, blockSize, objectSize, at);
      FirstBlocksTile(block, blockSize, objectSize, at);
    }
  }

  lemma QuotientBelow(at: nat, d: nat, x: nat)
    requires d > 0 && at < x && x % d == 0
    ensures at / d < x / d
  {
    assert at == d * (at / d) + at % d && x == d * (x / d);
    if at / d >= x / d { MulOrdered(x / d, at / d, d); }
  }

  /** The first block past those does not start over at 0 but short of block 1 by one byte
      more than the object has left over: it always overlaps block 0, and it is apart from
      block 1 exactly when it repeats block 0. */
  lemma NextBlockOverlaps(blockSize: u64, objectSize: u64)
    requires 0 < blockSize && 2 * blockSize <= objectSize
    ensures var next := objectSize / blockSize;
      Start(next, blockSize, objectSize) == blockSize - 1 - objectSize % blockSize
      && !Apart(0, next, blockSize, objectSize)
      && (Apart(1, next, blockSize, objectSize) <==> objectSize % blockSize == blockSize - 1)
  {
    hide Start;
    AtLeast(objectSize, blockSize, 2);
    NextStart(blockSize, objectSize);
    AtStart(blockSize, objectSize);
    StartInOrder(1, blockSize, objectSize);
  }

  lemma AtLeast(x: nat, d: nat, k: nat)
    requires d > 0 && d * k <= x
    ensures k <= x / d
  {
    assert x == d * (x / d) + x % d && (x / d + 1) * d == d * (x / d) + d;
    if x / d < k { MulOrdered(x / d + 1, k, d); }
  }

  /** The default sizes: 160 blocks tile the object and the 192 of a default run do not. */
  lemma DefaultRunWraps()
    ensures var (block, whole) := (64 * 1024 * 1024, 10 * 1024 * 1024 * 1024);
      whole == 160 * block && Start(160, block, whole) == block - 1
      && AllApart(160, block, whole) && !AllApart(8 * 24, block, whole)
  {
    hide Start, AllApart;
    NextBlockOverlaps(64 * 1024 * 1024, 10 * 1024 * 1024 * 1024);
    RangesDisjoint(160, 64 * 1024 * 1024, 10 * 1024 * 1024 * 1024);
    RangesDisjoint(8 * 24, 64 * 1024 * 1024, 10 * 1024 * 1024 * 1024);
  }
}
