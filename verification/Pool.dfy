/** Where a queue's packet buffers can be, and how large its pool must be for a transmit
    allocation never to fail. */
module Pool {
  import Receive

  const DESC_NUM: nat := 4096
  const CACHE: nat := 64

  function PerQueueSize(): nat {
    DESC_NUM * 2 + CACHE + Receive.RX_BURST + 512
  }

  /** The most each holder can have: the rings, the prefetch buffer, and the tokens and
      frames in the hands of the network stack; and how many free buffers can be stranded
      in a cache. */
  datatype Limits = Limits(rxRing: nat, txRing: nat, prefetch: nat, loans: nat, cache: nat)

  /** How many buffers are where. */
  datatype Buffers = Buffers(free: nat, rxRing: nat, txRing: nat, prefetch: nat, loans: nat) {
    function Total(): nat {
      free + rxRing + txRing + prefetch + loans
    }
  }

  datatype Step =
    | Arm          // a free buffer is posted to the receive ring
    | Drain        // a good frame moves to the prefetch buffer
    | DropBad      // a frame with a bad checksum is freed
    | HandUp       // a prefetched frame becomes a token
    | Filter       // a prefetched frame fails the port filter and is freed
    | GiveBack     // a token is consumed or dropped
    | AllocTx      // a buffer is taken to write a frame into
    | Transmit     // the transmit ring takes it
    | Refuse       // the transmit ring refuses it, and it is freed
    | Reclaim      // the transmit ring is done with one

  predicate Legal(l: Limits, b: Buffers, step: Step) {
    match step
    case Arm => b.free > 0 && b.rxRing < l.rxRing
    case Drain => b.rxRing > 0 && b.prefetch < l.prefetch
    case DropBad => b.rxRing > 0
    case HandUp => b.prefetch > 0 && b.loans < l.loans
    case Filter => b.prefetch > 0
    case GiveBack => b.loans > 0
    case AllocTx => b.free > 0 && b.loans < l.loans
    case Transmit => b.loans > 0 && b.txRing < l.txRing
    case Refuse => b.loans > 0
    case Reclaim => b.txRing > 0
  }

  function After(l: Limits, b: Buffers, step: Step): Buffers
    requires Legal(l, b, step)
  {
    match step
    case Arm => b.(free := b.free - 1, rxRing := b.rxRing + 1)
    case Drain => b.(rxRing := b.rxRing - 1, prefetch := b.prefetch + 1)
    case DropBad => b.(rxRing := b.rxRing - 1, free := b.free + 1)
    case HandUp => b.(prefetch := b.prefetch - 1, loans := b.loans + 1)
    case Filter => b.(prefetch := b.prefetch - 1, free := b.free + 1)
    case GiveBack => b.(loans := b.loans - 1, free := b.free + 1)
    case AllocTx => b.(free := b.free - 1, loans := b.loans + 1)
    case Transmit => b.(loans := b.loans - 1, txRing := b.txRing + 1)
    case Refuse => b.(loans := b.loans - 1, free := b.free + 1)
    case Reclaim => b.(txRing := b.txRing - 1, free := b.free + 1)
  }

  ghost predicate Run(l: Limits, size: nat, steps: seq<Step>)
    decreases |steps|, 0
  {
    steps == [] ||
    (Run(l, size, steps[..|steps| - 1])
     && Legal(l, Reached(l, size, steps[..|steps| - 1]), steps[|steps| - 1]))
  }

  /** The buffers after a run from a pool of `size`, all free. */
  ghost function Reached(l: Limits, size: nat, steps: seq<Step>): Buffers
    requires Run(l, size, steps)
    decreases |steps|, 1
  {
    if steps == [] then Buffers(size, 0, 0, 0, 0)
    else After(l, Reached(l, size, steps[..|steps| - 1]), steps[|steps| - 1])
  }

  predicate Within(l: Limits, b: Buffers) {
    b.rxRing <= l.rxRing && b.txRing <= l.txRing && b.prefetch <= l.prefetch && b.loans <= l.loans
  }

  /** In every run no buffer is lost or invented, and no holder exceeds its limit. */
  lemma {:induction false} Conservation(l: Limits, size: nat, steps: seq<Step>)
    requires Run(l, size, steps)
    ensures Reached(l, size, steps).Total() == size && Within(l, Reached(l, size, steps))
  {
    if steps != [] { Conservation(l, size, steps[..|steps| - 1]); }
  }

  /** An allocation is attempted by a stack that may still take a loan; it can fail when all
      free buffers can be stranded. */
  predicate AllocCanFail(l: Limits, b: Buffers) {
    b.loans < l.loans && b.free <= l.cache
  }

  ghost predicate AllocNeverFails(l: Limits, size: nat) {
    forall steps :: Run(l, size, steps) ==> !AllocCanFail(l, Reached(l, size, steps))
  }

  ghost predicate CanReach(l: Limits, size: nat, b: Buffers) {
    exists steps :: Run(l, size, steps) && Reached(l, size, steps) == b
  }

  lemma ReachOneMore(l: Limits, size: nat, b: Buffers, step: Step)
    requires CanReach(l, size, b) && Legal(l, b, step)
    ensures CanReach(l, size, After(l, b, step))
  {
    var steps :| Run(l, size, steps) && Reached(l, size, steps) == b;
    var more := steps + [step];
    assert more[..|more| - 1] == steps;
    assert Run(l, size, more) && Reached(l, size, more) == After(l, b, step);
  }

  /** Any occupation within the limits can be reached. */
  lemma {:induction false} AllReachable(l: Limits, size: nat, b: Buffers)
    requires l.rxRing > 0 && l.loans > 0 && Within(l, b) && b.Total() == size
    ensures CanReach(l, size, b)
    decreases b.loans + b.rxRing + b.txRing + b.prefetch
  {
    hide CanReach;
    if b.loans > 0 {
      var c := b.(loans := b.loans - 1, free := b.free + 1);
      AllReachable(l, size, c);
      ReachOneMore(l, size, c, AllocTx);
    } else if b.rxRing > 0 {
      var c := b.(rxRing := b.rxRing - 1, free := b.free + 1);
      AllReachable(l, size, c);
      ReachOneMore(l, size, c, Arm);
    } else if b.txRing > 0 {
      var c := b.(txRing := b.txRing - 1, free := b.free + 1);
      AllReachable(l, size, c);
      ReachOneMore(l, size, c, AllocTx);
      ReachOneMore(l, size, After(l, c, AllocTx), Transmit);
    } else if b.prefetch > 0 {
      var c := b.(prefetch := b.prefetch - 1, free := b.free + 1);
      AllReachable(l, size, c);
      ReachOneMore(l, size, c, Arm);
      ReachOneMore(l, size, After(l, c, Arm), Drain);
    } else {
      StartReachable(l, size);
    }
  }

  lemma StartReachable(l: Limits, size: nat)
    ensures CanReach(l, size, Buffers(size, 0, 0, 0, 0))
  {
    assert Run(l, size, []) && Reached(l, size, []) == Buffers(size, 0, 0, 0, 0);
  }

  /** Every step moves one buffer from one place to another. */
  lemma StepMovesOne(l: Limits, b: Buffers, step: Step)
    requires Legal(l, b, step)
    ensures var c := After(l, b, step);
      c.Total() == b.Total()
      && Distance(b.free, c.free) + Distance(b.rxRing, c.rxRing) + Distance(b.txRing, c.txRing)
         + Distance(b.prefetch, c.prefetch) + Distance(b.loans, c.loans) == 2
  {}

  function Distance(a: nat, b: nat): nat {
    if a <= b then b - a else a - b
  }

  /** Wherever the buffers are, some continuation of the run brings all of them back. */
  lemma {:induction false} AllCanReturn(l: Limits, size: nat, steps: seq<Step>) returns (more: seq<Step>)
    requires Run(l, size, steps)
    ensures Run(l, size, steps + more) && Reached(l, size, steps + more) == Buffers(size, 0, 0, 0, 0)
    decreases size - Reached(l, size, steps).free
  {
    Conservation(l, size, steps);
    var b := Reached(l, size, steps);
    if b.free == size {
      more := [];
      assert steps + [] == steps;
    } else {
      var step := if b.loans > 0 then GiveBack else if b.txRing > 0 then Reclaim
        else if b.prefetch > 0 then Filter else DropBad;
      var longer := steps + [step];
      assert longer[..|steps|] == steps;
      assert Reached(l, size, longer) == After(l, b, step);
      var rest := AllCanReturn(l, size, longer);
      more := [step] + rest;
      assert steps + more == longer + rest;
    }
  }

  function Min(a: nat, b: nat): nat {
    if a <= b then a else b
  }

  /** As full as a pool of `size` can get while one more loan may still be asked for. */
  function Fullest(l: Limits, size: nat): Buffers
    requires l.loans > 0
  {
    var rx := Min(size, l.rxRing);
    var tx := Min(size - rx, l.txRing);
    var pre := Min(size - rx - tx, l.prefetch);
    var loans := Min(size - rx - tx - pre, l.loans - 1);
    Buffers(size - rx - tx - pre - loans, rx, tx, pre, loans)
  }

  /** Allocation never fails, in any run, exactly when the pool covers every holder at its
      limit and the stranded buffers besides. */
  lemma PoolSizing(l: Limits, size: nat)
    requires l.rxRing > 0 && l.loans > 0
    ensures AllocNeverFails(l, size) <==> size >= l.rxRing + l.txRing + l.prefetch + l.loans + l.cache
  {
    if size >= l.rxRing + l.txRing + l.prefetch + l.loans + l.cache {
      forall steps | Run(l, size, steps)
        ensures !AllocCanFail(l, Reached(l, size, steps))
      {
        Conservation(l, size, steps);
      }
    } else {
      var b := Fullest(l, size);
      AllReachable(l, size, b);
      var steps :| Run(l, size, steps) && Reached(l, size, steps) == b;
      assert AllocCanFail(l, Reached(l, size, steps));
    }
  }

  /** The program's size suffices for up to 513 buffers in the stack's hands; twice the
      descriptor count alone does not suffice for any. */
  lemma ProgramPool(loans: nat)
    requires loans > 0
    ensures AllocNeverFails(Limits(4095, 4096, 32, loans, 64), PerQueueSize()) <==> loans <= 513
    ensures !AllocNeverFails(Limits(4095, 4096, 32, loans, 64), 2 * 4096)
  {
    PoolSizing(Limits(DESC_NUM - 1, DESC_NUM, Receive.RX_BURST, loans, CACHE), PerQueueSize());
    PoolSizing(Limits(DESC_NUM - 1, DESC_NUM, Receive.RX_BURST, loans, CACHE), DESC_NUM * 2);
  }
}
