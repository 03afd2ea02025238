/** Reading an HTTP header: its lines, the words of one, and its fields. */
module HttpReader {
  import opened Words

  const CRLF: seq<byte> := [13, 10]

  /** What comes before the first occurrence of `mark`, and after it; all and nothing if there is none. */
  function Cut(s: seq<byte>, mark: seq<byte>): (parts: (seq<byte>, seq<byte>))
    requires mark != []
    ensures |parts.1| <= |s| && (s != [] ==> |parts.1| < |s|)
  {
    if |s| < |mark| then (s, [])
    else if s[..|mark|] == mark then ([], s[|mark|..])
    else
      var rest := Cut(s[1..], mark);
      ([s[0]] + rest.0, rest.1)
  }

  lemma {:induction false} CutAt(before: seq<byte>, mark: seq<byte>, after: seq<byte>)
    requires mark != [] && mark[0] !in before
    ensures Cut(before + mark + after, mark) == (before, after)
  {
    var s := before + mark + after;
    if before == [] {
      assert s[..|mark|] == mark && s[|mark|..] == after;
    } else {
      assert s[..|mark|][0] == before[0];
      assert s[1..] == before[1..] + mark + after;
      CutAt(before[1..], mark, after);
      assert before == [s[0]] + before[1..];
    }
  }

  lemma {:induction false} CutNone(s: seq<byte>, mark: seq<byte>)
    requires mark != [] && mark[0] !in s
    ensures Cut(s, mark) == (s, [])
  {
    if |s| >= |mark| {
      assert s[..|mark|][0] == s[0];
      CutNone(s[1..], mark);
      assert s == [s[0]] + s[1..];
    }
  }

  /** The lines of a header, the blank one included. */
  function Lines(s: seq<byte>): seq<seq<byte>>
    decreases |s|
  {
    if s == [] then [] else [Cut(s, CRLF).0] + Lines(Cut(s, CRLF).1)
  }

  lemma LinesNext(line: seq<byte>, rest: seq<byte>)
    requires 13 !in line
    ensures Lines(line + CRLF + rest) == [line] + Lines(rest)
  {
    hide Cut;
    CutAt(line, CRLF, rest);
  }

  /** The words of a line, at single spaces. */
  function Tokens(s: seq<byte>): seq<seq<byte>>
    decreases |s|
  {
    if s == [] then [] else [Cut(s, [32]).0] + Tokens(Cut(s, [32]).1)
  }

  lemma TokensNext(word: seq<byte>, rest: seq<byte>)
    requires 32 !in word
    ensures Tokens(word + [32] + rest) == [word] + Tokens(rest)
  {
    hide Cut;
    CutAt(word, [32], rest);
  }

  lemma LastToken(word: seq<byte>)
    requires 32 !in word && word != []
    ensures Tokens(word) == [word]
  {
    hide Cut;
    CutNone(word, [32]);
  }

  /** A header line: field name and value. */
  function Field(line: seq<byte>): (seq<byte>, seq<byte>) {
    Cut(line, [58, 32])
  }

  lemma FieldIs(name: seq<byte>, value: seq<byte>)
    requires 58 !in name
    ensures Field(name + [58, 32] + value) == (name, value)
  {
    hide Cut;
    CutAt(name, [58, 32], value);
  }
}
