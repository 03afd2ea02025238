/** Parsing the target address: a dotted quad, or 0.0.0.0 for anything else. */
module Ipv4 {
  import opened Decimals
  import opened Words

  const DOT: byte := 46

  type Octets = s: seq<byte> | |s| == 4 witness [0, 0, 0, 0]

  const UNSET: Octets := [0, 0, 0, 0]

  // ---- The grammar -----------------------------------------------------------

  /** The stretches between the dots. */
  function Split(s: seq<byte>): (groups: seq<seq<byte>>)
    ensures |groups| > 0
  {
    if s == [] then [[]]
    else
      var n, c := |s| - 1, s[|s| - 1];
      var init := Split(s[..n]);
      if c == DOT then init + [[]] else init[..|init| - 1] + [init[|init| - 1] + [c]]
  }

  /** All digits, however many, of value at most 255. */
  predicate Fits(g: seq<byte>) {
    AllDigits(g) && Value(g) <= 255
  }

  predicate Octet(g: seq<byte>) {
    g != [] && Fits(g)
  }

  /** Four dot-separated, nonempty groups of digits, each of value at most 255. */
  predicate Accepts(s: seq<byte>) {
    var groups := Split(s);
    |groups| == 4 && Octet(groups[0]) && Octet(groups[1]) && Octet(groups[2]) && Octet(groups[3])
  }

  function Parsed(s: seq<byte>): Octets {
    var groups := Split(s);
    if Accepts(s) then [Value(groups[0]), Value(groups[1]), Value(groups[2]), Value(groups[3])] else UNSET
  }

  // ---- The loop --------------------------------------------------------------

  /** What the loop has not yet given up on: at most four groups, all but the last complete. */
  predicate Viable(groups: seq<seq<byte>>) {
    0 < |groups| <= 4 && Fits(groups[|groups| - 1])
    && forall j :: 0 <= j < |groups| - 1 ==> Octet(groups[j])
  }

  lemma SplitNext(s: seq<byte>, c: byte)
    ensures var g := Split(s);
      Split(s + [c]) == if c == DOT then g + [[]] else g[..|g| - 1] + [g[|g| - 1] + [c]]
  {
    assert (s + [c])[..|s|] == s;
  }

  lemma FitsNext(g: seq<byte>, c: byte)
    ensures Fits(g + [c]) <==> Fits(g) && IsDigit(c) && 10 * Value(g) + (c - ZERO) <= 255
    ensures IsDigit(c) ==> Value(g + [c]) == 10 * Value(g) + (c - ZERO)
  {
    var g' := g + [c];
    assert g'[..|g|] == g;
    if Fits(g') {
      assert IsDigit(g'[|g|]);
      forall i | 0 <= i < |g| ensures IsDigit(g[i]) { assert g'[i] == g[i]; }
    }
  }

  /** One more byte keeps the input viable exactly when the loop goes on. */
  lemma ViableNext(s: seq<byte>, c: byte)
    ensures var groups := Split(s);
      var last := groups[|groups| - 1];
      Viable(Split(s + [c])) <==>
        Viable(groups)
        && if c == DOT then last != [] && |groups| < 4 else IsDigit(c) && 10 * Value(last) + (c - ZERO) <= 255
  {
    hide Fits, Split, Value;
    SplitNext(s, c);
    var groups, next := Split(s), Split(s + [c]);
    var n := |groups| - 1;
    if c == DOT {
      EmptyFits();
      if Viable(next) { assert forall j :: 0 <= j <= n ==> next[j] == groups[j]; }
    } else {
      FitsNext(groups[n], c);
      if Viable(next) { assert forall j :: 0 <= j < n ==> next[j] == groups[j]; }
    }
  }

  lemma EmptyFits()
    ensures Fits([]) && Value([]) == 0
  {}

  /** Once given up, always rejected. */
  lemma {:induction false} AcceptedWasViable(s: seq<byte>, n: nat)
    requires n <= |s| && Viable(Split(s))
    ensures Viable(Split(s[..n]))
  {
    hide Viable, Split;
    if n == |s| {
      assert s[..n] == s;
    } else {
      var m := |s| - 1;
      assert s == s[..m] + [s[m]];
      ViableNext(s[..m], s[m]);
      AcceptedWasViable(s[..m], n);
      assert s[..m][..n] == s[..n];
    }
  }

  lemma AcceptsIsViable(s: seq<byte>)
    ensures Accepts(s) <==> Viable(Split(s)) && |Split(s)| == 4 && Split(s)[3] != []
  {
    hide Split, Fits;
    var groups := Split(s);
    if Viable(groups) && |groups| == 4 && groups[3] != [] {
      assert Octet(groups[0]) && Octet(groups[1]) && Octet(groups[2]);
    }
  }

  lemma GivenUp(s: seq<byte>, n: nat)
    requires n <= |s| && !Viable(Split(s[..n]))
    ensures Parsed(s) == UNSET
  {
    hide Split, Viable;
    AcceptsIsViable(s);
    if Viable(Split(s)) { AcceptedWasViable(s, n); }
  }

  method Parse(s: seq<byte>) returns (out: Octets)
    ensures out == Parsed(s)
  {
    hide Split, Fits, Value, Accepts;
    out := UNSET;
    var oct, acc, seen := 0, 0, false;
    StartViable(s);
    for i := 0 to |s|
      invariant Viable(Split(s[..i])) && oct == |Split(s[..i])| - 1
      invariant acc == Value(Split(s[..i])[oct]) && (seen <==> Split(s[..i])[oct] != [])
      invariant forall j :: 0 <= j < oct ==> out[j] as nat == Value(Split(s[..i])[j])
    {
      var c := s[i];
      assert s[..i + 1] == s[..i] + [c];
      ghost var last := Split(s[..i])[oct];
      ViableNext(s[..i], c);
      SplitNext(s[..i], c);
      FitsNext(last, c);
      LastFits(Split(s[..i]));
      if IsDigit(c) {
        acc := acc * 10 + (c - ZERO);
        if acc > 255 { GivenUp(s, i + 1); return UNSET; }
        seen := true;
      } else if c == DOT {
        if !seen || oct >= 3 { GivenUp(s, i + 1); return UNSET; }
        EmptyFits();
        out := out[oct := acc];
        oct := oct + 1;
        acc := 0;
        seen := false;
      } else {
        GivenUp(s, i + 1);
        return UNSET;
      }
    }
    assert s[..|s|] == s;
    AcceptsIsViable(s);
    LastFits(Split(s));
    if !seen || oct != 3 { return UNSET; }
    out := out[3 := acc];
  }

  lemma StartViable(s: seq<byte>)
    ensures Split(s[..0]) == [[]] && Viable(Split(s[..0])) && Value([]) == 0
  {}

  lemma LastFits(groups: seq<seq<byte>>)
    requires Viable(groups)
    ensures Value(groups[|groups| - 1]) <= 255
  {}

  // ---- Printing and parsing back ---------------------------------------------

  function Print(o: Octets): seq<byte> {
    Spell(o[0]) + [DOT] + Spell(o[1]) + [DOT] + Spell(o[2]) + [DOT] + Spell(o[3])
  }

  /** The groups with `g` added to the end of the last. */
  function Extend(groups: seq<seq<byte>>, g: seq<byte>): seq<seq<byte>>
    requires |groups| > 0
  {
    groups[..|groups| - 1] + [groups[|groups| - 1] + g]
  }

  lemma ExtendTwice(groups: seq<seq<byte>>, g: seq<byte>, c: byte)
    requires |groups| > 0
    ensures Extend(groups, []) == groups
    ensures Extend(Extend(groups, g), [c]) == Extend(groups, g + [c])
  {
    var last := groups[|groups| - 1];
    assert last + [] == last;
    assert (last + g) + [c] == last + (g + [c]);
  }

  lemma {:induction false} SplitAppend(s: seq<byte>, g: seq<byte>)
    requires forall i :: 0 <= i < |g| ==> g[i] != DOT
    ensures Split(s + g) == Extend(Split(s), g)
  {
    hide Split;
    if g == [] {
      assert s + g == s;
      ExtendTwice(Split(s), [], DOT);
    } else {
      var m := |g| - 1;
      SplitAppend(s, g[..m]);
      ExtendTwice(Split(s), g[..m], g[m]);
      SplitNext(s + g[..m], g[m]);
      assert s + g == (s + g[..m]) + [g[m]] && g == g[..m] + [g[m]];
    }
  }

  /** Another group after a dot. */
  lemma SplitGroup(s: seq<byte>, g: seq<byte>)
    requires Octet(g)
    ensures Split(s + [DOT] + g) == Split(s) + [g]
  {
    hide Split;
    SplitNext(s, DOT);
    SplitAppend(s + [DOT], g);
    assert [] + g == g;
  }

  lemma SpellIsOctet(n: nat)
    requires n <= 255
    ensures Octet(Spell(n)) && Value(Spell(n)) == n
  {
    hide Spell, Value, AllDigits;
    SpellThenRead(n);
  }

  /** Printing any four octets and parsing gives them back. */
  lemma PrintThenParse(o: Octets)
    ensures Accepts(Print(o)) && Parsed(Print(o)) == o
  {
    var a, b, c, d := Spell(o[0]), Spell(o[1]), Spell(o[2]), Spell(o[3]);
    hide Split, Octet, Value, Spell;
    SpellIsOctet(o[0]);
    SpellIsOctet(o[1]);
    SpellIsOctet(o[2]);
    SpellIsOctet(o[3]);
    FirstGroup(a);
    SplitGroup(a, b);
    SplitGroup(a + [DOT] + b, c);
    SplitGroup(a + [DOT] + b + [DOT] + c, d);
    assert Split(Print(o)) == [a, b, c, d];
  }

  lemma FirstGroup(g: seq<byte>)
    requires Octet(g)
    ensures Split(g) == [g]
  {
    SplitAppend([], g);
    assert [] + g == g;
  }

  // ---- The inputs accepted, without splitting -----------------------------------

  /** Digits, at least one, of value at most 255. */
  predicate Group(g: seq<byte>) {
    g != [] && (forall i :: 0 <= i < |g| ==> 48 <= g[i] <= 57) && Value(g) <= 255
  }

  function Dotted(a: seq<byte>, b: seq<byte>, c: seq<byte>, d: seq<byte>): seq<byte> {
    a + [46] + b + [46] + c + [46] + d
  }

  ghost predicate DottedQuad(s: seq<byte>, a: seq<byte>, b: seq<byte>, c: seq<byte>, d: seq<byte>) {
    s == Dotted(a, b, c, d) && Group(a) && Group(b) && Group(c) && Group(d)
  }

  lemma GroupIsOctet(g: seq<byte>)
    ensures Group(g) <==> Octet(g)
  {
    hide Value;
  }

  /** The groups with dots between them. */
  function Joined(groups: seq<seq<byte>>): seq<byte>
    requires |groups| > 0
  {
    if |groups| == 1 then groups[0] else Joined(groups[..|groups| - 1]) + [DOT] + groups[|groups| - 1]
  }

  lemma JoinedPush(groups: seq<seq<byte>>, g: seq<byte>)
    requires |groups| > 0
    ensures Joined(groups + [g]) == Joined(groups) + [DOT] + g
    ensures Joined([g]) == g
  {
    assert (groups + [g])[..|groups|] == groups;
  }

  lemma JoinedDot(groups: seq<seq<byte>>)
    requires |groups| > 0
    ensures Joined(groups + [[]]) == Joined(groups) + [DOT]
  {
    hide Joined;
    JoinedPush(groups, []);
  }

  lemma JoinedLast(init: seq<seq<byte>>, last: seq<byte>, c: byte)
    ensures Joined(init + [last + [c]]) == Joined(init + [last]) + [c]
  {
    hide Joined;
    if init == [] {
      JoinedPush([last], last);
      JoinedPush([last], last + [c]);
      assert init + [last] == [last] && init + [last + [c]] == [last + [c]];
    } else {
      JoinedPush(init, last);
      JoinedPush(init, last + [c]);
      assert Joined(init) + [DOT] + (last + [c]) == Joined(init) + [DOT] + last + [c];
    }
  }

  lemma {:induction false} SplitJoins(s: seq<byte>)
    ensures Joined(Split(s)) == s
  {
    if s != [] {
      hide Split, Joined;
      var n := |s| - 1;
      assert s == s[..n] + [s[n]];
      SplitJoins(s[..n]);
      SplitNext(s[..n], s[n]);
      var groups := Split(s[..n]);
      JoinedDot(groups);
      JoinedLast(groups[..|groups| - 1], groups[|groups| - 1], s[n]);
      assert groups == groups[..|groups| - 1] + [groups[|groups| - 1]];
    }
  }

  lemma JoinFour(a: seq<byte>, b: seq<byte>, c: seq<byte>, d: seq<byte>)
    ensures Joined([a, b, c, d]) == Dotted(a, b, c, d)
  {
    hide Joined;
    JoinedPush([a], b);
    JoinedPush([a], a);
    JoinedPush([a, b], c);
    JoinedPush([a, b, c], d);
    assert [a] + [b] == [a, b] && [a, b] + [c] == [a, b, c] && [a, b, c] + [d] == [a, b, c, d];
  }

  lemma SplitDotted(a: seq<byte>, b: seq<byte>, c: seq<byte>, d: seq<byte>)
    requires Octet(a) && Octet(b) && Octet(c) && Octet(d)
    ensures Split(Dotted(a, b, c, d)) == [a, b, c, d]
  {
    hide Split, Octet;
    FirstGroup(a);
    SplitGroup(a, b);
    SplitGroup(a + [DOT] + b, c);
    SplitGroup(a + [DOT] + b + [DOT] + c, d);
  }

  /** What is accepted, and as which octets: four groups of digits with dots between. */
  lemma AcceptsExactly(s: seq<byte>)
    ensures Accepts(s) <==> exists a, b, c, d :: DottedQuad(s, a, b, c, d)
    ensures forall a, b, c, d :: DottedQuad(s, a, b, c, d) ==> Parsed(s) == [Value(a), Value(b), Value(c), Value(d)]
    ensures !Accepts(s) ==> Parsed(s) == [0, 0, 0, 0]
  {
    hide Split, Octet, Group, Value, Dotted;
    forall a, b, c, d | DottedQuad(s, a, b, c, d)
      ensures Accepts(s) && Split(s) == [a, b, c, d]
    {
      GroupIsOctet(a);
      GroupIsOctet(b);
      GroupIsOctet(c);
      GroupIsOctet(d);
      SplitDotted(a, b, c, d);
    }
    if Accepts(s) {
      var g := Split(s);
      GroupIsOctet(g[0]);
      GroupIsOctet(g[1]);
      GroupIsOctet(g[2]);
      GroupIsOctet(g[3]);
      SplitJoins(s);
      JoinFour(g[0], g[1], g[2], g[3]);
      assert g == [g[0], g[1], g[2], g[3]];
      assert DottedQuad(s, g[0], g[1], g[2], g[3]);
    }
  }
}
