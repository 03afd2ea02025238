/** Decimal numbers in ASCII: reading and writing them. */
module Decimals {
  import opened Words

  const ZERO: byte := 48

  predicate IsDigit(c: byte) {
    48 <= c <= 57
  }

  /** The number spelt by the digits of `s`, other bytes skipped. */
  function Value(s: seq<byte>): nat {
    if s == [] then 0
    else
      var rest, c := Value(s[..|s| - 1]), s[|s| - 1];
      if IsDigit(c) then 10 * rest + (c - ZERO) else rest
  }

  lemma ValueAppend(s: seq<byte>, c: byte)
    ensures Value(s + [c]) == if IsDigit(c) then 10 * Value(s) + (c - ZERO) else Value(s)
  {
    assert (s + [c])[..|s|] == s;
  }

  predicate AllDigits(s: seq<byte>) {
    forall i :: 0 <= i < |s| ==> IsDigit(s[i])
  }

  function Spell(n: nat): seq<byte> {
    if n < 10 then [ZERO + n] else Spell(n / 10) + [ZERO + n % 10]
  }

  /** What is spelt is digits, at least one, and reads back as the number. */
  lemma {:induction false} SpellThenRead(n: nat)
    ensures Spell(n) != [] && AllDigits(Spell(n)) && Value(Spell(n)) == n
  {
    if n < 10 {
      ValueAppend([], ZERO + n);
      assert [] + [ZERO + n] == Spell(n);
    } else {
      hide Value;
      SpellThenRead(n / 10);
      ValueAppend(Spell(n / 10), ZERO + n % 10);
    }
  }
}
