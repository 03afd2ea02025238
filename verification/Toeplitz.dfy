/** The Toeplitz hash of receive-side scaling: the sliding-window loop of the
    steering model against its definition as an exclusive-or of key windows. */
module Toeplitz {
  import opened Words

  // ---- Definition ----------------------------------------------------------

  /** Bit `j` of the key, most significant first, and 0 past its end. */
  function KeyBit(key: seq<byte>, j: nat): (b: nat)
    ensures b < 2
  {
    if j < 8 * |key| then Shr(key[j / 8], 7 - j % 8) % 2 else 0
  }

  /** Bit `i` of the hashed data, most significant first. */
  predicate DataBit(data: seq<byte>, i: nat)
    requires i < 8 * |data|
  {
    Bit(data[i / 8], 7 - i % 8)
  }

  /** The number written by the `n` key bits starting at bit `i`. */
  function Window(key: seq<byte>, i: nat, n: nat): (w: nat)
    ensures w < Pow2(n)
  {
    if n == 0 then 0 else 2 * Window(key, i, n - 1) + KeyBit(key, i + n - 1)
  }

  /** The exclusive-or, over the set bits `i` among the first `n` of the data,
      of the 32 key bits starting at bit `i`. */
  function HashBits(key: seq<byte>, data: seq<byte>, n: nat): nat
    requires n <= 8 * |data|
  {
    if n == 0 then 0
    else Xor(HashBits(key, data, n - 1), if DataBit(data, n - 1) then Window(key, n - 1, 32) else 0)
  }

  function Hash(key: seq<byte>, data: seq<byte>): nat {
    if |key| < 4 then 0 else HashBits(key, data, 8 * |data|)
  }

  /** A window really is the key read bit by bit: digit `r` from the right is key bit `i + n - 1 - r`. */
  lemma {:induction false} WindowBits(key: seq<byte>, i: nat, n: nat, r: nat)
    requires r < n
    ensures Bit(Window(key, i, n), r) == (KeyBit(key, i + n - 1 - r) == 1)
  {
    if r > 0 {
      WindowBits(key, i, n - 1, r - 1);
      assert Window(key, i, n) / 2 == Window(key, i, n - 1);
    }
  }

  // ---- Sliding the window --------------------------------------------------

  lemma WindowStep(key: seq<byte>, i: nat, n: nat)
    ensures Window(key, i, n + 1) == 2 * Window(key, i, n) + KeyBit(key, i + n)
    ensures Pow2(n + 1) == 2 * Pow2(n)
  {}

  lemma {:induction false} WindowConcat(key: seq<byte>, i: nat, m: nat, n: nat)
    ensures Window(key, i, m + n) == Shl(Window(key, i, m), n) + Window(key, i + m, n)
  {
    hide *;
    if n == 0 {
      WindowStart(key, i + m, Window(key, i, m));
    } else {
      ShlStep(Window(key, i, m), n - 1);
      WindowConcat(key, i, m, n - 1);
      WindowStep(key, i, m + n - 1);
      WindowStep(key, i + m, n - 1);
    }
  }

  lemma WindowStart(key: seq<byte>, i: nat, x: nat)
    ensures Window(key, i, 0) == 0 && Shl(x, 0) == x
  {}

  lemma ShlStep(x: nat, n: nat)
    ensures Shl(x, n + 1) == 2 * Shl(x, n)
  {}

  lemma ShlByte(x: nat)
    ensures Shl(x, 8) == 256 * x
  {
    assert Shl(x, 1) == 2 * x;
    assert Shl(x, 3) == 8 * x;
    assert Shl(x, 5) == 32 * x;
    assert Shl(x, 7) == 128 * x;
  }

  lemma {:induction false} ShlDigit(b: nat, n: nat)
    requires b < 2
    ensures Shl(b, n) == if b == 0 then 0 else Pow2(n)
  {
    if n > 0 { ShlDigit(b, n - 1); }
  }

  lemma OrDigit(a: nat, b: nat)
    requires b < 2
    ensures Or(2 * a, b) == 2 * a + b
  {
    OrHalves(2 * a, b);
    OrZero(a);
  }

  lemma {:induction false} OrZero(a: nat)
    ensures Or(a, 0) == a
  {
    if a > 0 { OrZero(a / 2); }
  }

  /** Shifting a 32-bit window left and taking in the next key bit gives the next window. */
  lemma SlideWindow(key: seq<byte>, i: nat)
    ensures Or(2 * Window(key, i, 32) % 0x1_0000_0000, KeyBit(key, i + 32)) == Window(key, i + 1, 32)
  {
    FirstBit(key, i);
    Pow31();
    hide *;
    WindowConcat(key, i, 1, 31);
    WindowStep(key, i + 1, 31);
    var v := Window(key, i + 1, 31);
    ShlDigit(KeyBit(key, i), 31);
    DropTop(KeyBit(key, i), v);
    OrDigit(v, KeyBit(key, i + 32));
  }

  lemma FirstBit(key: seq<byte>, i: nat)
    ensures Window(key, i, 1) == KeyBit(key, i) < 2
  {}

  lemma DropTop(b: nat, v: nat)
    requires b < 2 && v < 0x8000_0000
    ensures 2 * ((if b == 0 then 0 else 0x8000_0000) + v) % 0x1_0000_0000 == 2 * v
  {}

  lemma Pow31()
    ensures Pow2(31) == 0x8000_0000
  {
    Pow2Known();
    hide Pow2;
    WindowStep([], 0, 31);
  }

  lemma {:induction false} WindowInByte(key: seq<byte>, j: nat, m: nat)
    requires j < |key| && m <= 8
    ensures Window(key, 8 * j, m) == Shr(key[j], 8 - m)
  {
    if m == 0 {
      ShrIsDivision(key[j], 8);
      Pow2Known();
    } else {
      WindowInByte(key, j, m - 1);
      ShrStep(key[j], 8 - m);
      assert (8 * j + m - 1) / 8 == j && (8 * j + m - 1) % 8 == m - 1;
    }
  }

  function BigEndian(key: seq<byte>): nat
    requires |key| >= 4
  {
    0x100_0000 * (key[0] as nat) + 0x1_0000 * (key[1] as nat) + 0x100 * (key[2] as nat) + key[3]
  }

  /** The first four key bytes, read big-endian, are the window at bit 0. */
  lemma FirstWindow(key: seq<byte>)
    requires |key| >= 4
    ensures BigEndian(key) == Window(key, 0, 32)
  {
    hide Window, Shr, Shl;
    ShlByte(key[0]);
    ShlByte(Window(key, 0, 16));
    ShlByte(Window(key, 0, 24));
    WholeByte(key, 0);
    WholeByte(key, 1);
    WholeByte(key, 2);
    WholeByte(key, 3);
    WindowConcat(key, 0, 8, 8);
    WindowConcat(key, 0, 16, 8);
    WindowConcat(key, 0, 24, 8);
  }

  lemma WholeByte(key: seq<byte>, j: nat)
    requires j < |key|
    ensures Window(key, 8 * j, 8) == key[j]
  {
    WindowInByte(key, j, 8);
  }

  lemma LastDigit(x: nat)
    ensures And(x, 1) == x % 2
  {
    AndHalves(x, 1);
    AndZero(x / 2);
  }

  /** The bits one round of the loop reads are the data bit and the key bit of the definition. */
  lemma RoundBits(key: seq<byte>, data: seq<byte>, j: nat, b: nat)
    requires j < |data| && b < 8
    ensures DataBit(data, 8 * j + (7 - b)) <==> And(Shr(data[j], b), 1) == 1
    ensures KeyBit(key, 8 * j + (7 - b) + 32) == NextKeyBit(key, 8 * j + (7 - b) + 32)
  {
    var i := 8 * j + (7 - b);
    assert i / 8 == j && i % 8 == 7 - b;
    hide Shr, And;
    LastDigit(Shr(data[j], b));
    if i + 32 < 8 * |key| {
      LastDigit(Shr(key[(i + 32) / 8], 7 - (i + 32) % 8));
    }
  }

  /** The key bit as the loop reads it. */
  function NextKeyBit(key: seq<byte>, nextBit: nat): nat {
    if nextBit < 8 * |key| then And(Shr(key[nextBit / 8], 7 - nextBit % 8), 1) else 0
  }

  lemma HashStep(key: seq<byte>, data: seq<byte>, i: nat)
    requires i < 8 * |data|
    ensures HashBits(key, data, i + 1)
         == if DataBit(data, i) then Xor(HashBits(key, data, i), Window(key, i, 32)) else HashBits(key, data, i)
  {
    XorZero(HashBits(key, data, i));
  }

  /** One round of the inner loop advances hash and window by one data bit. */
  lemma Round(key: seq<byte>, data: seq<byte>, j: nat, b: nat, i: nat)
    requires j < |data| && b < 8 && i == 8 * j + (7 - b)
    ensures HashBits(key, data, i + 1)
         == if And(Shr(data[j], b), 1) == 1 then Xor(HashBits(key, data, i), Window(key, i, 32))
            else HashBits(key, data, i)
    ensures Or(2 * Window(key, i, 32) % 0x1_0000_0000, NextKeyBit(key, i + 32)) == Window(key, i + 1, 32)
  {
    hide *;
    RoundBits(key, data, j, b);
    HashStep(key, data, i);
    SlideWindow(key, i);
  }

  /** The loop of the program. */
  method Compute(key: seq<byte>, data: seq<byte>) returns (result: nat)
    ensures result == Hash(key, data)
  {
    if |key| < 4 { return 0; }
    hide *;
    HashStart(key, data);
    FirstWindow(key);
    result := 0;
    var w := BigEndian(key);
    var nextBit := 32;
    ghost var i := 0;
    for j := 0 to |data|
      invariant i == 8 * j && nextBit == i + 32
      invariant w == Window(key, i, 32) && result == HashBits(key, data, i)
    {
      for b := 8 downto 0
        invariant i == 8 * j + (8 - b) && nextBit == i + 32
        invariant w == Window(key, i, 32) && result == HashBits(key, data, i)
      {
        Round(key, data, j, b, i);
        if And(Shr(data[j], b), 1) == 1 {
          result := Xor(result, w);
        }
        w := Or(2 * w % 0x1_0000_0000, NextKeyBit(key, nextBit));
        nextBit := nextBit + 1;
        i := i + 1;
      }
    }
    HashEnd(key, data);
  }

  lemma HashEnd(key: seq<byte>, data: seq<byte>)
    requires |key| >= 4
    ensures Hash(key, data) == HashBits(key, data, 8 * |data|)
  {}

  lemma HashStart(key: seq<byte>, data: seq<byte>)
    ensures HashBits(key, data, 0) == 0
  {}

  // ---- Linearity -----------------------------------------------------------

  function XorByte(a: byte, b: byte): byte {
    Pow2Known(); XorBound(a, b, 8); Xor(a, b)
  }

  function XorBytes(a: seq<byte>, b: seq<byte>): (c: seq<byte>)
    requires |a| == |b|
    ensures |c| == |a|
  {
    seq(|a|, i requires 0 <= i < |a| => XorByte(a[i], b[i]))
  }

  lemma {:induction false} HashBitsLinear(key: seq<byte>, a: seq<byte>, b: seq<byte>, n: nat)
    requires |a| == |b| && n <= 8 * |a|
    ensures HashBits(key, XorBytes(a, b), n) == Xor(HashBits(key, a, n), HashBits(key, b, n))
  {
    hide Xor, Window, Shr, Pow2;
    if n == 0 {
      XorZero(0);
    } else {
      HashBitsLinear(key, a, b, n - 1);
      var i := n - 1;
      XorBit(a[i / 8], b[i / 8], 7 - i % 8);
      var w := Window(key, i, 32);
      XorZero(w);
      XorZero(0);
      var wa, wb := if DataBit(a, i) then w else 0, if DataBit(b, i) then w else 0;
      XorSwap(HashBits(key, a, i), HashBits(key, b, i), wa, wb);
    }
  }

  /** The hash is linear over exclusive-or. */
  lemma HashLinear(key: seq<byte>, a: seq<byte>, b: seq<byte>)
    requires |a| == |b|
    ensures Hash(key, XorBytes(a, b)) == Xor(Hash(key, a), Hash(key, b))
  {
    if |key| < 4 {
      XorZero(0);
    } else {
      HashBitsLinear(key, a, b, 8 * |a|);
    }
  }

  // ---- Data with one bit set -------------------------------------------------------

  /** `n` bytes in which only bit `i` is set, counted from the most significant bit of the first. */
  function OneBitData(n: nat, i: nat): (d: seq<byte>)
    requires i < 8 * n
    ensures |d| == n
  {
    seq(n, j requires 0 <= j < n => BitInByte(j, i))
  }

  function BitInByte(j: nat, i: nat): byte {
    Pow2Monotone(7 - i % 8, 7);
    Pow2Small();
    if j == i / 8 then Pow2(7 - i % 8) else 0
  }

  lemma OneBitSet(n: nat, i: nat, k: nat)
    requires i < 8 * n && k < 8 * n
    ensures DataBit(OneBitData(n, i), k) <==> k == i
  {
    if k / 8 == i / 8 {
      OneBit(7 - k % 8, 7 - i % 8);
      assert k == 8 * (k / 8) + k % 8 && i == 8 * (i / 8) + i % 8;
    } else {
      ZeroBits(7 - k % 8);
    }
  }

  lemma {:induction false} OneBitHash(key: seq<byte>, n: nat, i: nat, m: nat)
    requires i < 8 * n && m <= 8 * n
    ensures HashBits(key, OneBitData(n, i), m) == if i < m then Window(key, i, 32) else 0
  {
    hide *;
    if m == 0 {
      HashStart(key, OneBitData(n, i));
    } else {
      OneBitHash(key, n, i, m - 1);
      OneBitSet(n, i, m - 1);
      HashStep(key, OneBitData(n, i), m - 1);
      XorZero(Window(key, i, 32));
    }
  }

  /** The hash of data with one bit set is the window of the key at that bit; by linearity
      these determine every hash. */
  lemma HashOfOneBit(key: seq<byte>, n: nat, i: nat)
    requires |key| >= 4 && i < 8 * n
    ensures Hash(key, OneBitData(n, i)) == Window(key, i, 32)
    ensures i == 0 ==> Hash(key, OneBitData(n, i)) == BigEndian(key)
  {
    hide Window, OneBitData, BigEndian;
    HashEnd(key, OneBitData(n, i));
    OneBitHash(key, n, i, 8 * n);
    FirstWindow(key);
  }

  lemma {:induction false} HashBound(key: seq<byte>, data: seq<byte>, n: nat)
    requires n <= 8 * |data|
    ensures HashBits(key, data, n) < Pow2(32)
  {
    hide *;
    if n == 0 {
      HashStart(key, data);
    } else {
      HashBound(key, data, n - 1);
      HashStep(key, data, n - 1);
      XorBound(HashBits(key, data, n - 1), Window(key, n - 1, 32), 32);
    }
  }
}
