/** Counting the body bytes of an HTTP response that arrives in pieces: the
    incremental matcher for the blank line that ends the header, with the state
    it carries from one piece to the next. */
module ResponseBody {
  import opened Decimals
  import opened Sequences
  import opened Words

  const CR: byte := 13
  const LF: byte := 10
  const TERMINATOR: seq<byte> := [CR, LF, CR, LF]
  const PARTIAL_CONTENT: nat := 206

  datatype Scan = Scan(bytes: nat, headersDone: bool, hdrState: nat, status: nat, statusPos: nat)

  const START := Scan(0, false, 0, 0, 0)

  function Advance(hdrState: nat, b: byte): nat {
    if hdrState == 0 && b == CR then 1
    else if hdrState == 1 && b == LF then 2
    else if hdrState == 2 && b == CR then 3
    else if hdrState == 3 && b == LF then 4
    else if b == CR then 1
    else 0
  }

  function ScanByte(s: Scan, b: byte): Scan {
    if s.headersDone then s.(bytes := s.bytes + 1)
    else
      var next := Advance(s.hdrState, b);
      Scan(s.bytes, next == 4, next,
           if 9 <= s.statusPos < 12 && IsDigit(b) then 10 * s.status + (b - ZERO) else s.status,
           if s.statusPos < 12 then s.statusPos + 1 else s.statusPos)
  }

  /** The state after the bytes of `data`, one at a time. */
  function ScanAll(s: Scan, data: seq<byte>): Scan {
    if data == [] then s
    else ScanByte(ScanAll(s, data[..|data| - 1]), data[|data| - 1])
  }

  /** Splitting the input does not matter. */
  lemma {:induction false} ScanConcat(s: Scan, a: seq<byte>, b: seq<byte>)
    ensures ScanAll(s, a + b) == ScanAll(ScanAll(s, a), b)
  {
    if b == [] {
      assert a + b == a;
    } else {
      hide ScanByte;
      var n := |b| - 1;
      assert (a + b)[..|a| + n] == a + b[..n];
      ScanConcat(s, a, b[..n]);
    }
  }

  lemma {:induction false} ScanDone(s: Scan, data: seq<byte>)
    requires s.headersDone
    ensures ScanAll(s, data) == s.(bytes := s.bytes + |data|)
  {
    if data != [] { ScanDone(s, data[..|data| - 1]); }
  }

  // ---- What the scan means, without reference to its state ------------------

  /** The last `k` bytes of `h` are the first `k` of the terminator. */
  ghost predicate EndsWithPrefix(h: seq<byte>, k: nat) {
    k <= 4 && k <= |h| && forall i :: 0 <= i < k ==> h[|h| - k + i] == TERMINATOR[i]
  }

  ghost predicate LongestPrefix(h: seq<byte>, k: nat) {
    EndsWithPrefix(h, k) && forall j :: k < j <= 4 ==> !EndsWithPrefix(h, j)
  }

  /** The header of `stream` is its first `n` bytes: they end in the terminator and no shorter prefix does. */
  ghost predicate HeaderLength(stream: seq<byte>, n: nat) {
    n <= |stream| && EndsWithPrefix(stream[..n], 4) && NoHeader(stream[..n])
  }

  /** No proper prefix of `h` ends in the terminator. */
  ghost predicate NoHeader(h: seq<byte>) {
    forall m :: 0 <= m < |h| ==> !EndsWithPrefix(h[..m], 4)
  }

  /** The status code of a header: its digits at positions 9 to 11. */
  function StatusCode(h: seq<byte>): nat {
    if |h| <= 9 then 0 else Value(h[9..if |h| < 12 then |h| else 12])
  }

  /** In a status line whose version takes eight bytes and a space, the three digits after
      it are the status code. */
  lemma StatusLine(version: seq<byte>, code: nat, rest: seq<byte>)
    requires |version| == 9 && 100 <= code < 1000
    ensures StatusCode(version + Spell(code) + rest) == code
  {
    hide Spell, Value;
    var h := version + Spell(code) + rest;
    ThreeDigits(code);
    SpellThenRead(code);
    assert h[9..12] == Spell(code);
  }

  lemma ThreeDigits(code: nat)
    requires 100 <= code < 1000
    ensures |Spell(code)| == 3
  {
    assert |Spell(code / 10 / 10)| == 1 && |Spell(code / 10)| == 2;
  }

  lemma {:induction false} ValueBound(s: seq<byte>, n: nat)
    requires |s| <= n <= 3
    ensures Value(s) <= if n == 0 then 0 else if n == 1 then 9 else if n == 2 then 99 else 999
  {
    if s != [] { ValueBound(s[..|s| - 1], n - 1); }
  }

  lemma StatusBound(h: seq<byte>)
    ensures StatusCode(h) <= 999
  {
    if |h| > 9 { ValueBound(h[9..if |h| < 12 then |h| else 12], 3); }
  }

  /** The automaton tracks the longest prefix of the terminator that ends what was read. */
  lemma AdvanceIsLongest(h: seq<byte>, k: nat, b: byte)
    requires LongestPrefix(h, k) && k < 4
    ensures LongestPrefix(h + [b], Advance(k, b))
  {
    var h' := h + [b];
    forall j: nat | 0 < j <= 4
      ensures EndsWithPrefix(h', j) <==> EndsWithPrefix(h, j - 1) && b == TERMINATOR[j - 1]
    {
      PrefixExtends(h, b, j);
    }
    ShortPrefixes(h, k);
  }

  lemma PrefixExtends(h: seq<byte>, b: byte, j: nat)
    requires 0 < j <= 4
    ensures EndsWithPrefix(h + [b], j) <==> EndsWithPrefix(h, j - 1) && b == TERMINATOR[j - 1]
  {
    var h' := h + [b];
    if EndsWithPrefix(h', j) {
      forall i | 0 <= i < j - 1
        ensures h[|h| - (j - 1) + i] == TERMINATOR[i]
      {
        assert h'[|h'| - j + i] == TERMINATOR[i];
      }
      assert h'[|h'| - j + (j - 1)] == TERMINATOR[j - 1];
    }
  }

  /** Which shorter prefixes of the terminator end `h`, given the longest. */
  lemma ShortPrefixes(h: seq<byte>, k: nat)
    requires LongestPrefix(h, k)
    ensures EndsWithPrefix(h, 0)
    ensures EndsWithPrefix(h, 1) <==> k == 1 || k == 3
    ensures EndsWithPrefix(h, 2) <==> k == 2 || k == 4
    ensures EndsWithPrefix(h, 3) <==> k == 3
    ensures EndsWithPrefix(h, 4) <==> k == 4
  {
    if k > 0 { assert h[|h| - k + (k - 1)] == TERMINATOR[k - 1]; }
    if k == 4 { assert h[|h| - 4 + 2] == TERMINATOR[2]; }
    if EndsWithPrefix(h, 1) { assert h[|h| - 1] == TERMINATOR[0]; }
    if EndsWithPrefix(h, 2) { assert h[|h| - 1] == TERMINATOR[1]; }
    if EndsWithPrefix(h, 3) { assert h[|h| - 1] == TERMINATOR[2]; }
  }

  /** What the state is after `stream` while its header is not yet complete, or just became so. */
  ghost predicate InHeader(s: Scan, stream: seq<byte>) {
    s.bytes == 0 && LongestPrefix(stream, s.hdrState) && s.headersDone == (s.hdrState == 4)
    && s.status == StatusCode(stream) && s.statusPos == if |stream| < 12 then |stream| else 12
  }

  lemma StatusExtends(h: seq<byte>, b: byte)
    ensures StatusCode(h + [b])
         == if 9 <= |h| < 12 && IsDigit(b) then 10 * StatusCode(h) + (b - ZERO) else StatusCode(h)
  {
    var h' := h + [b];
    if 9 <= |h| < 12 {
      assert h'[9..|h'|] == h[9..|h|] + [b];
      ValueAppend(h[9..|h|], b);
    } else if 12 <= |h| {
      assert h'[9..12] == h[9..12];
    }
  }

  lemma {:induction false} ScanHeader(stream: seq<byte>)
    requires NoHeader(stream)
    ensures InHeader(ScanAll(START, stream), stream)
  {
    if stream == [] {
    } else {
      hide StatusCode;
      var n := |stream| - 1;
      var h, b := stream[..n], stream[n];
      assert stream == h + [b];
      assert forall m :: 0 <= m <= n ==> h[..m] == stream[..m];
      assert h == stream[..n] && !EndsWithPrefix(stream[..n], 4);
      ScanHeader(h);
      AdvanceIsLongest(h, ScanAll(START, h).hdrState, b);
      StatusExtends(h, b);
    }
  }

  lemma {:induction false} FindHeader(stream: seq<byte>) returns (n: nat)
    requires !NoHeader(stream) || EndsWithPrefix(stream, 4)
    ensures HeaderLength(stream, n)
  {
    if NoHeader(stream) {
      n := |stream|;
      assert stream[..n] == stream;
    } else {
      var m :| 0 <= m < |stream| && EndsWithPrefix(stream[..m], 4);
      n := FindHeader(stream[..m]);
      assert stream[..m][..n] == stream[..n];
    }
  }

  lemma HeaderUnique(stream: seq<byte>, m: nat, n: nat)
    requires HeaderLength(stream, m) && HeaderLength(stream, n)
    ensures m == n
  {
    if m < n { NoEarlierHeader(stream, n, m); }
    if n < m { NoEarlierHeader(stream, m, n); }
  }

  lemma NoEarlierHeader(stream: seq<byte>, n: nat, m: nat)
    requires HeaderLength(stream, n) && m < n
    ensures !EndsWithPrefix(stream[..m], 4)
  {
    assert stream[..n][..m] == stream[..m];
  }

  /** With the header complete: the body is everything after the first terminator,
      and the status is the one spelt in the header. */
  lemma CompleteHeader(stream: seq<byte>, n: nat)
    requires HeaderLength(stream, n)
    ensures var s := ScanAll(START, stream);
      s.headersDone && s.bytes == |stream| - n && s.status == StatusCode(stream[..n]) && s.hdrState == 4
  {
    hide ScanAll;
    var h := stream[..n];
    ScanHeader(h);
    ShortPrefixes(h, ScanAll(START, h).hdrState);
    assert stream == h + stream[n..];
    ScanConcat(START, h, stream[n..]);
    ScanDone(ScanAll(START, h), stream[n..]);
  }

  /** The scan is done with the header exactly when the stream holds a whole one. */
  lemma DoneExactly(stream: seq<byte>)
    ensures ScanAll(START, stream).headersDone <==> exists n :: HeaderLength(stream, n)
    ensures !ScanAll(START, stream).headersDone ==> InHeader(ScanAll(START, stream), stream)
  {
    hide ScanAll, InHeader;
    if n: nat :| HeaderLength(stream, n) {
      CompleteHeader(stream, n);
    } else {
      if !NoHeader(stream) || EndsWithPrefix(stream, 4) {
        var n := FindHeader(stream);
        assert false;
      }
      ScanHeader(stream);
      NotDone(ScanAll(START, stream), stream);
    }
  }

  lemma NotDone(s: Scan, stream: seq<byte>)
    requires InHeader(s, stream) && !EndsWithPrefix(stream, 4)
    ensures !s.headersDone
  {}

  /** The body bytes of a stream: all after its header, none without one. */
  ghost function BodyLength(stream: seq<byte>): nat {
    if n: nat :| HeaderLength(stream, n) then |stream| - n else 0
  }

  lemma ScanCountsBody(stream: seq<byte>)
    ensures ScanAll(START, stream).bytes == BodyLength(stream)
  {
    hide ScanAll;
    DoneExactly(stream);
    if n: nat :| HeaderLength(stream, n) {
      var m: nat :| HeaderLength(stream, m) && BodyLength(stream) == |stream| - m;
      CompleteHeader(stream, m);
    }
  }

  /** Cutting a stream short cuts its body short, unless there is none. */
  lemma BodyOfPrefix(stream: seq<byte>, n: nat)
    requires n <= |stream|
    ensures BodyLength(stream[..n]) == BodyLength(stream) <==> n == |stream| || BodyLength(stream) == 0
  {
    if n == |stream| {
      assert stream[..n] == stream;
    } else {
      if m: nat :| HeaderLength(stream[..n], m) {
        assert stream[..n][..m] == stream[..m];
        BodyIs(stream[..n], m);
        BodyIs(stream, m);
      } else if m: nat :| HeaderLength(stream, m) {
        if m <= n {
          assert stream[..n][..m] == stream[..m];
          assert HeaderLength(stream[..n], m);
          assert false;
        }
        BodyIs(stream, m);
      }
    }
  }

  lemma BodyIs(stream: seq<byte>, n: nat)
    requires HeaderLength(stream, n)
    ensures BodyLength(stream) == |stream| - n
  {
    var m: nat :| HeaderLength(stream, m) && BodyLength(stream) == |stream| - m;
    HeaderUnique(stream, m, n);
  }

  // ---- Refusals --------------------------------------------------------------

  /** A piece bumps the counter of refused requests when it completes a header with another status. */
  function Refused(before: Scan, after: Scan): nat {
    if !before.headersDone && after.headersDone && after.status != PARTIAL_CONTENT then 1 else 0
  }

  /** The state after a sequence of pieces, and how often they bumped the counter. */
  function ScanPieces(s: Scan, pieces: seq<seq<byte>>): (Scan, nat) {
    if pieces == [] then (s, 0)
    else
      var (before, bumps) := ScanPieces(s, pieces[..|pieces| - 1]);
      var after := ScanAll(before, pieces[|pieces| - 1]);
      (after, bumps + Refused(before, after))
  }

  /** The first `n` bytes of `stream` are its header, and the server did not answer with 206. */
  ghost predicate RefusesAt(stream: seq<byte>, n: nat) {
    HeaderLength(stream, n) && StatusCode(stream[..n]) != 206
  }

  ghost predicate Refuses(stream: seq<byte>) {
    exists n: nat :: RefusesAt(stream, n)
  }

  /** The counter is bumped over a stream exactly when it holds a header whose status is not
      206, and the status then is the one in the header. */
  lemma RefusedExactly(stream: seq<byte>)
    ensures Refused(START, ScanAll(START, stream)) == if Refuses(stream) then 1 else 0
    ensures forall n: nat :: HeaderLength(stream, n) ==> ScanAll(START, stream).status == StatusCode(stream[..n])
  {
    hide ScanAll, StatusCode;
    DoneExactly(stream);
    if n: nat :| HeaderLength(stream, n) {
      CompleteHeader(stream, n);
      forall m: nat | HeaderLength(stream, m)
        ensures m == n
      {
        HeaderUnique(stream, m, n);
      }
      assert RefusesAt(stream, n) <==> StatusCode(stream[..n]) != 206;
    }
  }

  /** With one state in between: what was refused by then, and what is refused later. */
  lemma RefusedOnce(s: Scan, data: seq<byte>)
    ensures var next := ScanAll(s, data);
      Refused(START, next) == Refused(START, s) + Refused(s, next)
      && (Refused(START, s) == 1 ==> next.status == s.status)
  {
    if s.headersDone { ScanDone(s, data); }
  }

  /** However a stream is cut into pieces, the state at its end is the same, and the counter is
      bumped once if the stream holds a header with a status other than 206 and never otherwise. */
  lemma {:induction false} PiecesDoNotMatter(pieces: seq<seq<byte>>)
    ensures ScanPieces(START, pieces).0 == ScanAll(START, Flatten(pieces))
    ensures ScanPieces(START, pieces).1 == if Refuses(Flatten(pieces)) then 1 else 0
  {
    RefusedExactly(Flatten(pieces));
    PiecesAddUp(pieces);
  }

  lemma {:induction false} PiecesAddUp(pieces: seq<seq<byte>>)
    ensures ScanPieces(START, pieces).0 == ScanAll(START, Flatten(pieces))
    ensures ScanPieces(START, pieces).1 == Refused(START, ScanAll(START, Flatten(pieces)))
  {
    if pieces != [] {
      var init, last := pieces[..|pieces| - 1], pieces[|pieces| - 1];
      PiecesAddUp(init);
      ScanConcat(START, Flatten(init), last);
      RefusedOnce(ScanAll(START, Flatten(init)), last);
    }
  }
}
