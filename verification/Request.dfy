/** The request of one connection: an HTTP range request, built in a bounded buffer. */
module Request {
  import Console
  import opened Decimals
  import opened HttpReader
  import opened ResponseBody
  import opened Sequences
  import opened Words

  const BUFFER: nat := 384
  const DASH: byte := 45

  function Bytes(s: string): (b: seq<byte>)
    ensures |b| == |s|
  {
    seq(|s|, i requires 0 <= i < |s| => s[i] as int % 256)
  }

  const GET := "GET "
  const PATH := "/blob.bin"
  const VERSION := " HTTP/1.1\r\nHost: "
  const AGENT := "\r\nUser-Agent: "
  const NAME := "minidpdk-smoltcp/0.1"
  const RANGE := "\r\nRange: bytes="
  const CLOSE := "\r\nConnection: close\r\n\r\n"

  /** Up to the range. */
  function Front(host: seq<byte>): seq<seq<byte>> {
    [Bytes(GET), Bytes(PATH), Bytes(VERSION), host, Bytes(AGENT), Bytes(NAME), Bytes(RANGE)]
  }

  /** All but the closing lines. */
  function Opening(host: seq<byte>, first: nat, last: nat): seq<seq<byte>> {
    Front(host) + [Spell(first), [DASH], Spell(last)]
  }

  function Fragments(host: seq<byte>, first: nat, last: nat): seq<seq<byte>> {
    Opening(host, first, last) + [Bytes(CLOSE)]
  }

  /** The request as it is meant. */
  function Intended(host: seq<byte>, first: nat, last: nat): seq<byte> {
    Flatten(Fragments(host, first, last))
  }

  /** The request as it is sent: what the buffer holds of it. */
  function Text(host: seq<byte>, first: nat, last: nat): seq<byte> {
    Take(Intended(host, first, last), BUFFER)
  }

  method BuildRangeRequest(buf: array<byte>, host: seq<byte>, first: nat, last: nat) returns (used: nat)
    requires buf.Length == BUFFER
    modifies buf
    ensures used <= BUFFER && buf[..used] == Text(host, first, last)
  {
    var w := new Console.BufWriter(buf);
    var fragments := Fragments(host, first, last);
    hide Fragments;
    for i := 0 to |fragments|
      invariant w.Valid() && w.buf == buf && fresh(w)
      invariant w.Contents() == Take(Flatten(fragments[..i]), BUFFER)
    {
      w.WriteStr(fragments[i]);
      Console.TakeTwice(Flatten(fragments[..i]), fragments[i], BUFFER);
      assert fragments[..i + 1][..i] == fragments[..i];
    }
    assert fragments[..|fragments|] == fragments;
    used := w.used;
  }

  // ---- What a server can make of it -------------------------------------------

  predicate Fits(host: seq<byte>, first: nat, last: nat) {
    |Intended(host, first, last)| <= BUFFER
  }

  lemma FlattenPush(pieces: seq<seq<byte>>, last: seq<byte>)
    ensures Flatten(pieces + [last]) == Flatten(pieces) + last
  {
    assert (pieces + [last])[..|pieces|] == pieces;
  }

  lemma IntendedIs(host: seq<byte>, first: nat, last: nat)
    ensures Intended(host, first, last) == Flatten(Opening(host, first, last)) + Bytes(CLOSE)
    ensures Flatten(Opening(host, first, last)) == Flatten(Front(host)) + (Spell(first) + [DASH] + Spell(last))
  {
    hide Spell, Bytes, Flatten, Front;
    var f, a, b := Front(host), Spell(first), Spell(last);
    FlattenPush(f, a);
    FlattenPush(f + [a], [DASH]);
    FlattenPush(f + [a] + [[DASH]], b);
    assert Opening(host, first, last) == f + [a] + [[DASH]] + [b];
    FlattenPush(Opening(host, first, last), Bytes(CLOSE));
  }

  lemma FlattenNone()
    ensures Flatten([]) == []
  {}

  lemma FrontIs(host: seq<byte>)
    ensures Flatten(Front(host))
      == Bytes(GET) + Bytes(PATH) + Bytes(VERSION) + host + Bytes(AGENT) + Bytes(NAME) + Bytes(RANGE)
  {
    hide Bytes, Flatten;
    var f := Front(host);
    FlattenNone();
    FlattenPrefix(f, 0);
    FlattenPrefix(f, 1);
    FlattenPrefix(f, 2);
    FlattenPrefix(f, 3);
    FlattenPrefix(f, 4);
    FlattenPrefix(f, 5);
    FlattenPrefix(f, 6);
    assert f[..0] == [] && f[..7] == f;
    assert [] + Bytes(GET) == Bytes(GET);
  }

  lemma FlattenPrefix(pieces: seq<seq<byte>>, i: nat)
    requires i < |pieces|
    ensures Flatten(pieces[..i + 1]) == Flatten(pieces[..i]) + pieces[i]
  {
    assert pieces[..i + 1] == pieces[..i] + [pieces[i]];
    FlattenPush(pieces[..i], pieces[i]);
  }

  /** Room for the host name and the two numbers. */
  lemma FitsExactly(host: seq<byte>, first: nat, last: nat)
    ensures Fits(host, first, last) <==> |host| + |Spell(first)| + |Spell(last)| <= 281
  {
    hide Spell, Flatten, Bytes, Front;
    IntendedIs(host, first, last);
    FrontIs(host);
  }

  predicate NoCr(s: seq<byte>) {
    forall i :: 0 <= i < |s| ==> s[i] != CR
  }

  /** No two carriage returns with one byte between them. */
  predicate Loose(s: seq<byte>) {
    forall i :: 0 <= i < |s| - 2 && s[i] == CR ==> s[i + 2] != CR
  }

  predicate EndsPlain(s: seq<byte>) {
    |s| >= 2 && s[|s| - 1] != CR && s[|s| - 2] != CR
  }

  lemma JoinLoose(a: seq<byte>, b: seq<byte>)
    requires Loose(a) && EndsPlain(a) && Loose(b)
    ensures Loose(a + b)
    ensures NoCr(b) || EndsPlain(b) ==> EndsPlain(a + b)
  {}

  /** A fragment that can follow others. */
  predicate Harmless(s: seq<byte>) {
    Loose(s) && (NoCr(s) || EndsPlain(s))
  }

  lemma {:induction false} FlattenLoose(pieces: seq<seq<byte>>)
    requires pieces != [] && Loose(pieces[0]) && EndsPlain(pieces[0])
    requires forall i :: 0 <= i < |pieces| ==> Harmless(pieces[i])
    ensures Loose(Flatten(pieces)) && EndsPlain(Flatten(pieces))
  {
    var n := |pieces| - 1;
    if n == 0 {
      assert Flatten(pieces[..0]) == [];
      assert Flatten(pieces) == [] + pieces[0] == pieces[0];
    } else {
      hide Loose, NoCr, EndsPlain;
      FlattenLoose(pieces[..n]);
      JoinLoose(Flatten(pieces[..n]), pieces[n]);
    }
  }

  lemma GetHarmless()
    ensures Harmless(Bytes(GET)) && EndsPlain(Bytes(GET)) && Harmless(Bytes(PATH))
  {}

  lemma NameHarmless()
    ensures Harmless(Bytes(NAME))
  {}

  lemma VersionHarmless()
    ensures Harmless(Bytes(VERSION))
  {}

  lemma AgentHarmless()
    ensures Harmless(Bytes(AGENT))
  {}

  lemma RangeHarmless()
    ensures Harmless(Bytes(RANGE))
  {}

  lemma CloseLoose()
    ensures |CLOSE| == 23 && Loose(Bytes(CLOSE)[..21]) && Bytes(CLOSE)[19..] == TERMINATOR
  {}

  lemma OpeningLoose(host: seq<byte>, first: nat, last: nat)
    requires NoCr(host)
    ensures Loose(Flatten(Opening(host, first, last))) && EndsPlain(Flatten(Opening(host, first, last)))
  {
    hide Loose, EndsPlain, Bytes, Spell, Flatten;
    GetHarmless();
    VersionHarmless();
    AgentHarmless();
    NameHarmless();
    RangeHarmless();
    PlainLoose(host);
    DigitsLoose(first);
    DigitsLoose(last);
    PlainLoose([DASH]);
    FlattenLoose(Opening(host, first, last));
  }

  lemma PlainLoose(s: seq<byte>)
    requires NoCr(s)
    ensures Loose(s)
  {}

  lemma DigitsLoose(n: nat)
    ensures NoCr(Spell(n)) && Loose(Spell(n))
  {
    SpellThenRead(n);
    PlainLoose(Spell(n));
  }

  /** The request as it is meant ends in the only blank line it has. */
  lemma IntendedIsHeader(host: seq<byte>, first: nat, last: nat)
    requires NoCr(host)
    ensures HeaderLength(Intended(host, first, last), |Intended(host, first, last)|)
  {
    hide Bytes, Opening, Intended;
    IntendedIs(host, first, last);
    OpeningLoose(host, first, last);
    CloseLoose();
    OneTerminator(Flatten(Opening(host, first, last)), Bytes(CLOSE));
  }

  lemma OneTerminator(a: seq<byte>, b: seq<byte>)
    requires Loose(a) && EndsPlain(a) && |b| >= 4 && Loose(b[..|b| - 2]) && b[|b| - 4..] == TERMINATOR
    ensures HeaderLength(a + b, |a + b|)
  {
    var s, n := a + b, |b| - 2;
    JoinLoose(a, b[..n]);
    assert s[..|s| - 2] == a + b[..n];
    assert s[..|s|] == s;
    forall i | 0 <= i < 4
      ensures s[|s| - 4 + i] == TERMINATOR[i]
    {
      assert b[|b| - 4..][i] == TERMINATOR[i];
    }
    forall m | 0 <= m < |s|
      ensures !EndsWithPrefix(s[..m], 4)
    {
      LooseHasNone(s, m);
    }
  }

  lemma LooseHasNone(s: seq<byte>, m: nat)
    requires 2 <= |s| && m < |s| && Loose(s[..|s| - 2])
    ensures !EndsWithPrefix(s[..m], 4)
  {
    var t := s[..|s| - 2];
    assert m >= 4 ==> s[..m][m - 4 + 0] == t[m - 4] && s[..m][m - 4 + 2] == t[m - 4 + 2];
    assert TERMINATOR[0] == CR && TERMINATOR[2] == CR;
  }

  /** The request sent is one whole HTTP header, the blank line at its end, exactly when it
      fits the buffer; cut off there, it never gets to its blank line. */
  lemma WholeExactly(host: seq<byte>, first: nat, last: nat)
    requires NoCr(host)
    ensures Fits(host, first, last) ==> HeaderLength(Text(host, first, last), |Text(host, first, last)|)
    ensures !Fits(host, first, last) ==> forall n :: !HeaderLength(Text(host, first, last), n)
  {
    hide Intended;
    IntendedIsHeader(host, first, last);
    var whole, text := Intended(host, first, last), Text(host, first, last);
    if !Fits(host, first, last) {
      forall n | 0 <= n <= |text|
        ensures !HeaderLength(text, n)
      {
        NoEarlierHeader(whole, |whole|, n);
        assert whole[..n] == text[..n];
      }
    }
  }

  // ---- Which range it names ------------------------------------------------------

  lemma CutFront(front: seq<byte>, s: seq<byte>, t: seq<byte>, back: seq<byte>)
    requires front + s + back == front + t + back
    ensures s == t
  {
    var l, r := front + s + back, front + t + back;
    assert |s| == |t|;
    forall i | 0 <= i < |s|
      ensures s[i] == t[i]
    {
      assert l[|front| + i] == s[i] && r[|front| + i] == t[i];
    }
  }

  lemma DashSplits(a: seq<byte>, b: seq<byte>, c: seq<byte>, d: seq<byte>)
    requires AllDigits(a) && AllDigits(c) && a + [DASH] + b == c + [DASH] + d
    ensures a == c && b == d
  {
    var l, r := a + [DASH] + b, c + [DASH] + d;
    assert l[|a|] == DASH && r[|c|] == DASH;
    assert forall i :: 0 <= i < |a| ==> l[i] == a[i];
    assert forall i :: 0 <= i < |c| ==> r[i] == c[i];
    assert l[..|a|] == a && r[..|c|] == c && l[|a| + 1..] == b && r[|c| + 1..] == d;
  }

  /** Two whole requests to one host are the same only if they name the same range. */
  lemma RangeDetermined(host: seq<byte>, a: nat, b: nat, c: nat, d: nat)
    requires Fits(host, a, b) && Fits(host, c, d) && Text(host, a, b) == Text(host, c, d)
    ensures a == c && b == d
  {
    hide Bytes, Spell, Intended, Flatten, Front;
    IntendedIs(host, a, b);
    IntendedIs(host, c, d);
    CutFront(Flatten(Front(host)), Spell(a) + [DASH] + Spell(b), Spell(c) + [DASH] + Spell(d), Bytes(CLOSE));
    SpellThenRead(a);
    SpellThenRead(b);
    SpellThenRead(c);
    SpellThenRead(d);
    DashSplits(Spell(a), Spell(b), Spell(c), Spell(d));
  }

  // ---- Reading it back -------------------------------------------------------------

  function RequestLine(): seq<byte> {
    Bytes("GET") + [32] + (Bytes("/blob.bin") + [32] + Bytes("HTTP/1.1"))
  }

  function FieldLine(name: string, value: seq<byte>): seq<byte> {
    Bytes(name) + [58, 32] + value
  }

  function RangeValue(first: nat, last: nat): seq<byte> {
    Bytes("bytes=") + (Spell(first) + [DASH] + Spell(last))
  }

  lemma TextsInLines()
    ensures Bytes(GET) == Bytes("GET") + [32] && Bytes(PATH) == Bytes("/blob.bin")
    ensures Bytes(NAME) == Bytes("minidpdk-smoltcp/0.1")
    ensures Bytes(AGENT) == CRLF + (Bytes("User-Agent") + [58, 32])
  {}

  lemma VersionInLines()
    ensures Bytes(VERSION) == [32] + Bytes("HTTP/1.1") + CRLF + (Bytes("Host") + [58, 32])
  {}

  lemma RangeInLines()
    ensures Bytes(RANGE) == CRLF + (Bytes("Range") + [58, 32] + Bytes("bytes="))
  {}

  lemma CloseInLines()
    ensures Bytes(CLOSE) == CRLF + (Bytes("Connection") + [58, 32] + Bytes("close")) + CRLF + CRLF
  {}

  lemma Regroup(g: seq<byte>, p: seq<byte>, v: seq<byte>, hn: seq<byte>, host: seq<byte>, an: seq<byte>,
                n: seq<byte>, rn: seq<byte>, d: seq<byte>, c: seq<byte>)
    ensures (g + p + (v + CRLF + hn) + host + (CRLF + an) + n + (CRLF + rn)) + d + (CRLF + c + CRLF + CRLF)
      == (g + p + v) + CRLF
         + ((hn + host) + CRLF + ((an + n) + CRLF + ((rn + d) + CRLF + (c + CRLF + ([] + CRLF + [])))))
  {}

  /** The request as it is meant, line by line. */
  lemma InLines(host: seq<byte>, first: nat, last: nat)
    ensures Intended(host, first, last) ==
      RequestLine() + CRLF + (FieldLine("Host", host) + CRLF
        + (FieldLine("User-Agent", Bytes("minidpdk-smoltcp/0.1")) + CRLF
           + (FieldLine("Range", RangeValue(first, last)) + CRLF
              + (FieldLine("Connection", Bytes("close")) + CRLF + ([] + CRLF + [])))))
  {
    hide Bytes, Spell, Intended, Flatten;
    IntendedIs(host, first, last);
    FrontIs(host);
    TextsInLines();
    VersionInLines();
    RangeInLines();
    CloseInLines();
    var d := Spell(first) + [DASH] + Spell(last);
    Regroup(Bytes("GET") + [32], Bytes("/blob.bin"), [32] + Bytes("HTTP/1.1"), Bytes("Host") + [58, 32], host,
            Bytes("User-Agent") + [58, 32], Bytes(NAME), Bytes("Range") + [58, 32] + Bytes("bytes="), d,
            Bytes("Connection") + [58, 32] + Bytes("close"));
    assert RequestLine() == Bytes("GET") + [32] + Bytes("/blob.bin") + ([32] + Bytes("HTTP/1.1"));
    assert FieldLine("Range", RangeValue(first, last)) == Bytes("Range") + [58, 32] + Bytes("bytes=") + d;
  }

  lemma LinesOf(host: seq<byte>, first: nat, last: nat)
    requires NoCr(host)
    ensures Lines(Intended(host, first, last)) ==
      [RequestLine(), FieldLine("Host", host), FieldLine("User-Agent", Bytes("minidpdk-smoltcp/0.1")),
       FieldLine("Range", RangeValue(first, last)), FieldLine("Connection", Bytes("close")), []]
  {
    hide Bytes, Spell, Intended, Lines, RequestLine, FieldLine, RangeValue;
    InLines(host, first, last);
    PlainLines(host, first, last);
    var close := FieldLine("Connection", Bytes("close")) + CRLF + ([] + CRLF + []);
    var range := FieldLine("Range", RangeValue(first, last)) + CRLF + close;
    var agent := FieldLine("User-Agent", Bytes("minidpdk-smoltcp/0.1")) + CRLF + range;
    LinesNext(RequestLine(), FieldLine("Host", host) + CRLF + agent);
    LinesNext(FieldLine("Host", host), agent);
    LinesNext(FieldLine("User-Agent", Bytes("minidpdk-smoltcp/0.1")), range);
    LinesNext(FieldLine("Range", RangeValue(first, last)), close);
    LinesNext(FieldLine("Connection", Bytes("close")), [] + CRLF + []);
    LinesNext([], []);
    NoLines();
  }

  lemma NoLines()
    ensures Lines([]) == []
  {}

  lemma PlainLines(host: seq<byte>, first: nat, last: nat)
    requires NoCr(host)
    ensures NoCr(RequestLine()) && NoCr(FieldLine("Host", host))
    ensures NoCr(FieldLine("User-Agent", Bytes("minidpdk-smoltcp/0.1")))
    ensures NoCr(FieldLine("Range", RangeValue(first, last))) && NoCr(FieldLine("Connection", Bytes("close")))
  {
    hide Bytes, Spell;
    PlainTexts();
    PlainNames();
    PlainRest();
    DigitsLoose(first);
    DigitsLoose(last);
  }

  lemma PlainTexts()
    ensures NoCr(Bytes("GET")) && NoCr(Bytes("/blob.bin")) && NoCr(Bytes("HTTP/1.1")) && NoCr(Bytes("Host"))
  {}

  lemma PlainNames()
    ensures NoCr(Bytes("User-Agent")) && NoCr(Bytes("minidpdk-smoltcp/0.1"))
  {}

  lemma PlainRest()
    ensures NoCr(Bytes("Range")) && NoCr(Bytes("bytes=")) && NoCr(Bytes("Connection")) && NoCr(Bytes("close"))
  {}

  /** Whoever reads a request that fits finds five lines and a blank one: it gets /blob.bin,
      from the host named, closing the connection after the bytes from the first to the last. */
  lemma ReadsBack(host: seq<byte>, first: nat, last: nat)
    requires NoCr(host) && Fits(host, first, last)
    ensures var lines := Lines(Text(host, first, last));
      |lines| == 6 && lines[5] == []
      && Tokens(lines[0]) == [Bytes("GET"), Bytes("/blob.bin"), Bytes("HTTP/1.1")]
      && Field(lines[1]) == (Bytes("Host"), host)
      && Field(lines[2]) == (Bytes("User-Agent"), Bytes("minidpdk-smoltcp/0.1"))
      && Field(lines[3]) == (Bytes("Range"), Bytes("bytes=") + (Spell(first) + Bytes("-") + Spell(last)))
      && Field(lines[4]) == (Bytes("Connection"), Bytes("close"))
  {
    hide Bytes, Spell, Intended, Lines, Tokens, Cut, NoCr;
    LinesOf(host, first, last);
    NoMarks();
    TokensNext(Bytes("GET"), Bytes("/blob.bin") + [32] + Bytes("HTTP/1.1"));
    TokensNext(Bytes("/blob.bin"), Bytes("HTTP/1.1"));
    LastToken(Bytes("HTTP/1.1"));
    FieldIs(Bytes("Host"), host);
    FieldIs(Bytes("User-Agent"), Bytes("minidpdk-smoltcp/0.1"));
    FieldIs(Bytes("Range"), RangeValue(first, last));
    FieldIs(Bytes("Connection"), Bytes("close"));
    DashText();
  }

  lemma DashText()
    ensures Bytes("-") == [DASH]
  {}

  lemma NoMarks()
    ensures 32 !in Bytes("GET") && 32 !in Bytes("/blob.bin") && 32 !in Bytes("HTTP/1.1") && Bytes("HTTP/1.1") != []
    ensures 58 !in Bytes("Host") && 58 !in Bytes("User-Agent") && 58 !in Bytes("Range") && 58 !in Bytes("Connection")
  {}
}
