/** Console lines: formatted whole into a bounded buffer, then written under a spin lock
    by whichever thread takes it. */
module Console {
  import opened Sequences
  import opened Words

  const LINE_MAX: nat := 256
  const NEWLINE: byte := 10

  // ---- Formatting one line ---------------------------------------------------

  lemma TakeTwice(a: seq<byte>, b: seq<byte>, n: nat)
    ensures Take(Take(a, n) + b, n) == Take(a + b, n)
  {}

  /** What one print puts on the console: at most 255 bytes of the text, and a newline. */
  function Line(fragments: seq<seq<byte>>): seq<byte> {
    Take(Flatten(fragments), LINE_MAX - 1) + [NEWLINE]
  }

  class BufWriter {
    const buf: array<byte>
    var used: nat

    ghost predicate Valid()
      reads this
    {
      used <= buf.Length
    }

    function Contents(): seq<byte>
      requires Valid()
      reads this, buf
    {
      buf[..used]
    }

    constructor (buf: array<byte>)
      ensures Valid() && this.buf == buf && Contents() == []
    {
      this.buf, used := buf, 0;
    }

    /** Appends as much as fits, silently. */
    method WriteStr(s: seq<byte>)
      requires Valid()
      modifies this`used, buf
      ensures Valid() && Contents() == Take(old(Contents()) + s, buf.Length)
    {
      var room := buf.Length - used;
      var n := if |s| < room then |s| else room;
      ghost var before := Contents();
      forall i | 0 <= i < n {
        buf[used + i] := s[i];
      }
      used := used + n;
      assert Contents() == before + s[..n];
    }
  }

  /** Fragments arrive one `WriteStr` at a time; a full buffer gives up its last byte to the newline. */
  method FormatLine(fragments: seq<seq<byte>>) returns (line: seq<byte>)
    ensures line == Line(fragments)
    ensures 1 <= |line| <= 256 && line[|line| - 1] == 10
    ensures line[..|line| - 1] == Take(Flatten(fragments), 255)
  {
    var buf := new byte[LINE_MAX](_ => 0);
    var w := new BufWriter(buf);
    for i := 0 to |fragments|
      invariant w.Valid() && w.buf == buf && fresh(w) && fresh(buf)
      invariant w.Contents() == Take(Flatten(fragments[..i]), LINE_MAX)
    {
      w.WriteStr(fragments[i]);
      TakeTwice(Flatten(fragments[..i]), fragments[i], LINE_MAX);
      assert fragments[..i + 1][..i] == fragments[..i];
    }
    assert fragments[..|fragments|] == fragments;
    var used := w.used;
    ghost var text := w.Contents();
    if used == LINE_MAX { used := used - 1; }
    assert buf[..used] == Take(Flatten(fragments), LINE_MAX - 1);
    buf[used] := NEWLINE;
    used := used + 1;
    line := buf[..used];
    assert line == line[..used - 1] + [NEWLINE];
  }

  // ---- Writing under the lock ------------------------------------------------

  /** Where a thread stands in `print_line`. */
  datatype Pc =
    | Idle
    | Spinning(line: seq<byte>)
    | Writing(line: seq<byte>, off: nat)
    | Releasing(line: seq<byte>, off: nat, failed: bool)

  /** One turn at the console: how much of the line was written, and whether a write failed. */
  datatype Turn = Turn(thread: nat, line: seq<byte>, off: nat, failed: bool)

  datatype State = State(lock: bool, out: seq<byte>, pcs: map<nat, Pc>, turns: seq<Turn>)

  datatype Step =
    | Begin(line: seq<byte>)
    | CompareExchange(succeeds: bool)
    | Write(n: int)
    | LeaveLoop
    | Release

  function PcOf(s: State, t: nat): Pc {
    if t in s.pcs then s.pcs[t] else Idle
  }

  predicate Holds(pc: Pc) {
    pc.Writing? || pc.Releasing?
  }

  /** The weak compare-exchange may fail spuriously, and never succeeds on a taken lock; a
      write takes part of what is left, or fails by returning at most 0. */
  predicate Legal(s: State, t: nat, step: Step) {
    var pc := PcOf(s, t);
    match step
    case Begin(line) => pc.Idle?
    case CompareExchange(succeeds) => pc.Spinning? && (succeeds ==> !s.lock)
    case Write(n) => pc.Writing? && pc.off < |pc.line| && n <= |pc.line| - pc.off
    case LeaveLoop => pc.Writing? && pc.off >= |pc.line|
    case Release => pc.Releasing?
  }

  function After(s: State, t: nat, step: Step): State
    requires Legal(s, t, step)
  {
    var pc := PcOf(s, t);
    match step
    case Begin(line) => s.(pcs := s.pcs[t := Spinning(line)])
    case CompareExchange(succeeds) =>
      if succeeds then s.(lock := true, pcs := s.pcs[t := Writing(pc.line, 0)]) else s
    case Write(n) =>
      if n <= 0 then s.(pcs := s.pcs[t := Releasing(pc.line, pc.off, true)])
      else s.(out := s.out + pc.line[pc.off..pc.off + n], pcs := s.pcs[t := Writing(pc.line, pc.off + n)])
    case LeaveLoop => s.(pcs := s.pcs[t := Releasing(pc.line, pc.off, false)])
    case Release =>
      s.(lock := false, pcs := s.pcs[t := Idle], turns := s.turns + [Turn(t, pc.line, pc.off, pc.failed)])
  }

  const START := State(false, [], map[], [])

  /** Steps of any threads in any order. */
  type Schedule = seq<(nat, Step)>

  ghost predicate Run(schedule: Schedule)
    decreases |schedule|, 0
  {
    schedule == [] ||
    (var init, last := schedule[..|schedule| - 1], schedule[|schedule| - 1];
     Run(init) && Legal(Reached(init), last.0, last.1))
  }

  ghost function Reached(schedule: Schedule): State
    requires Run(schedule)
    decreases |schedule|, 1
  {
    if schedule == [] then START
    else
      var init, last := schedule[..|schedule| - 1], schedule[|schedule| - 1];
      After(Reached(init), last.0, last.1)
  }

  function Printed(turns: seq<Turn>): seq<byte> {
    if turns == [] then []
    else
      var last := turns[|turns| - 1];
      Printed(turns[..|turns| - 1]) + Take(last.line, last.off)
  }

  /** A turn wrote its whole line, or a write failed and it wrote less. */
  predicate GoodTurn(turn: Turn) {
    turn.off <= |turn.line| && (turn.failed || turn.off == |turn.line|)
  }

  /** The holder's contribution so far. */
  function Partial(pc: Pc): seq<byte> {
    if Holds(pc) then Take(pc.line, pc.off) else []
  }

  predicate GoodPc(pc: Pc) {
    match pc
    case Idle => true
    case Spinning(line) => true
    case Writing(line, off) => off <= |line|
    case Releasing(line, off, failed) => off <= |line| && (failed || off == |line|)
  }

  /** At most one thread is past the lock, and the lock says whether one is; the console
      holds the finished turns in lock order, then what the holder has written. */
  ghost predicate Inv(s: State) {
    (forall t: nat :: GoodPc(PcOf(s, t)))
    && (forall i :: 0 <= i < |s.turns| ==> GoodTurn(s.turns[i]))
    && if s.lock then exists h: nat :: HeldBy(s, h)
       else (forall t: nat :: !Holds(PcOf(s, t))) && s.out == Printed(s.turns)
  }

  ghost predicate HeldBy(s: State, h: nat) {
    Holds(PcOf(s, h)) && (forall t: nat :: Holds(PcOf(s, t)) ==> t == h)
    && s.out == Printed(s.turns) + Partial(PcOf(s, h))
  }

  /** A step of a thread that does not hold the lock. */
  lemma OtherStepKeepsInv(s: State, t: nat, step: Step)
    requires Inv(s) && Legal(s, t, step) && !Holds(PcOf(s, t))
    ensures Inv(After(s, t, step))
  {
    hide Printed, Take;
    var s' := After(s, t, step);
    assert forall u: nat :: u != t ==> PcOf(s', u) == PcOf(s, u);
    if step.Begin? {
      assert !Holds(PcOf(s', t));
      if s.lock {
        var h: nat :| HeldBy(s, h);
        assert HeldBy(s', h);
      }
    } else if step.succeeds {
      TakeNone(PcOf(s, t).line);
      assert s'.out == Printed(s'.turns) + Partial(PcOf(s', t));
      assert HeldBy(s', t);
    }
  }

  /** A step of the holder. */
  lemma HolderStepKeepsInv(s: State, t: nat, step: Step)
    requires Inv(s) && Legal(s, t, step) && Holds(PcOf(s, t))
    ensures Inv(After(s, t, step))
  {
    hide Printed, Take;
    var s' := After(s, t, step);
    var pc := PcOf(s, t);
    assert GoodPc(pc);
    assert forall u: nat :: u != t ==> PcOf(s', u) == PcOf(s, u);
    var h: nat :| HeldBy(s, h);
    if step.Release? {
      PrintedNext(s.turns, Turn(t, pc.line, pc.off, pc.failed));
    } else {
      if step.Write? && step.n > 0 { TakeMore(pc.line, pc.off, step.n); }
      assert s'.out == Printed(s'.turns) + Partial(PcOf(s', t));
      assert HeldBy(s', t);
    }
  }

  lemma TakeNone(line: seq<byte>)
    ensures Take(line, 0) == []
  {}

  lemma TakeMore(line: seq<byte>, off: nat, n: nat)
    requires off + n <= |line|
    ensures Take(line, off) + line[off..off + n] == Take(line, off + n)
  {}

  lemma AfterKeepsInv(s: State, t: nat, step: Step)
    requires Inv(s) && Legal(s, t, step)
    ensures Inv(After(s, t, step))
  {
    hide Inv, After, Legal;
    if Holds(PcOf(s, t)) { HolderStepKeepsInv(s, t, step); } else { OtherStepKeepsInv(s, t, step); }
  }

  lemma PrintedNext(turns: seq<Turn>, turn: Turn)
    ensures Printed(turns + [turn]) == Printed(turns) + Take(turn.line, turn.off)
  {
    assert (turns + [turn])[..|turns|] == turns;
  }

  /** In every run, whatever the interleaving, the spurious failures and the partial writes. */
  lemma {:induction false} RunKeepsInv(schedule: Schedule)
    requires Run(schedule)
    ensures Inv(Reached(schedule))
  {
    hide Inv, After, Legal;
    if schedule == [] {
      StartInv();
    } else {
      var init, last := schedule[..|schedule| - 1], schedule[|schedule| - 1];
      RunKeepsInv(init);
      AfterKeepsInv(Reached(init), last.0, last.1);
    }
  }

  lemma StartInv()
    ensures Inv(START)
  {}

  /** No two threads are ever past the lock at once. */
  lemma MutualExclusion(schedule: Schedule, t: nat, u: nat)
    requires Run(schedule) && Holds(PcOf(Reached(schedule), t)) && Holds(PcOf(Reached(schedule), u))
    ensures t == u && Reached(schedule).lock
  {
    hide Reached, Run;
    RunKeepsInv(schedule);
  }

  // ---- Whose lines ----------------------------------------------------------------

  /** The lines a thread asked to print, in order. */
  function Begun(schedule: Schedule, t: nat): seq<seq<byte>> {
    if schedule == [] then []
    else
      var init, last := schedule[..|schedule| - 1], schedule[|schedule| - 1];
      Begun(init, t) + if last.0 == t && last.1.Begin? then [last.1.line] else []
  }

  /** The lines of a thread's finished turns, in order. */
  function TurnLines(turns: seq<Turn>, t: nat): seq<seq<byte>> {
    if turns == [] then []
    else
      var init, last := turns[..|turns| - 1], turns[|turns| - 1];
      TurnLines(init, t) + if last.thread == t then [last.line] else []
  }

  /** The line a thread is at. */
  function Current(pc: Pc): seq<seq<byte>> {
    if pc.Idle? then [] else [pc.line]
  }

  lemma TurnLinesNext(turns: seq<Turn>, turn: Turn, t: nat)
    ensures TurnLines(turns + [turn], t) == TurnLines(turns, t) + if turn.thread == t then [turn.line] else []
  {
    assert (turns + [turn])[..|turns|] == turns;
  }

  lemma LinesStep(s: State, u: nat, step: Step, t: nat)
    requires Legal(s, u, step)
    ensures var next := After(s, u, step);
      TurnLines(next.turns, t) + Current(PcOf(next, t))
      == TurnLines(s.turns, t) + Current(PcOf(s, t)) + if u == t && step.Begin? then [step.line] else []
  {
    hide TurnLines;
    var pc := PcOf(s, u);
    if step.Release? { TurnLinesNext(s.turns, Turn(u, pc.line, pc.off, pc.failed), t); }
  }

  /** In every interleaving a thread's turns print, in order, the lines it asked to print, but
      for the one it is still at. */
  lemma {:induction false} TurnsPrintWhatWasBegun(schedule: Schedule, t: nat)
    requires Run(schedule)
    ensures var s := Reached(schedule);
      Begun(schedule, t) == TurnLines(s.turns, t) + if PcOf(s, t).Idle? then [] else [PcOf(s, t).line]
  {
    if schedule != [] {
      hide After, Legal, TurnLines;
      var init, last := schedule[..|schedule| - 1], schedule[|schedule| - 1];
      TurnsPrintWhatWasBegun(init, t);
      LinesStep(Reached(init), last.0, last.1, t);
    }
  }

  function WholeLines(turns: seq<Turn>): seq<byte> {
    if turns == [] then [] else WholeLines(turns[..|turns| - 1]) + turns[|turns| - 1].line
  }

  lemma {:induction false} UnfailedPrintWhole(turns: seq<Turn>)
    requires forall i :: 0 <= i < |turns| ==> GoodTurn(turns[i]) && !turns[i].failed
    ensures Printed(turns) == WholeLines(turns)
  {
    if turns != [] { UnfailedPrintWhole(turns[..|turns| - 1]); }
  }

  /** Unless a write failed, the console is whole lines in lock order, followed by the
      beginning of the line the holder is writing. */
  lemma LinesAreWhole(schedule: Schedule)
    requires Run(schedule)
    requires forall i :: 0 <= i < |Reached(schedule).turns| ==> !Reached(schedule).turns[i].failed
    ensures var s := Reached(schedule);
      if s.lock then
        exists h: nat :: Holds(PcOf(s, h)) && s.out == WholeLines(s.turns) + Take(PcOf(s, h).line, PcOf(s, h).off)
      else s.out == WholeLines(s.turns)
  {
    hide Reached, Run, Printed, WholeLines;
    RunKeepsInv(schedule);
    var s := Reached(schedule);
    UnfailedPrintWhole(s.turns);
    if s.lock {
      var h: nat :| HeldBy(s, h);
      assert Holds(PcOf(s, h)) && s.out == WholeLines(s.turns) + Take(PcOf(s, h).line, PcOf(s, h).off);
    }
  }
}
