/** The completeness verdict: conclusions about every connection from sums over workers. */
module Verdict {
  import opened Finite
  import opened Words
  import Blocks
  import Connection
  import Decimals
  import HttpReader
  import Request
  import ResponseBody
  import Steering

  /** The receive buffer a worker leaks for each planned connection. */
  const RX_BUFFER: nat := 4 * 1024 * 1024

  /** The constants of one build, and the number of workers it runs with. */
  datatype Plan = Plan(workers: nat, conns: nat, blockSize: u64, objectSize: u64, host: seq<byte>,
                       fault: nat, stub: bool) {
    /** What the entry point demands before it starts. */
    predicate Accepted() {
      0 < workers < 65536 && 0 < conns < TWO_64 && 0 < blockSize && 0 < objectSize
    }

    /** The planned number of connections fits 64 bits. */
    predicate Fits() {
      Planned() < TWO_64
    }

    function Planned(): nat {
      workers * conns
    }

    function FirstBlock(worker: nat): u64 {
      Wrap64(worker * conns)
    }

    /** What the planned connections hold between them. */
    function PlannedBytes(): nat {
      workers * (conns * blockSize)
    }

    function PlannedConns(): u64 {
      Wrap64(Planned())
    }
  }

  /** The request for a block. */
  function Requested(plan: Plan, block: u64): seq<byte>
    requires 0 < plan.blockSize
  {
    Request.Text(plan.host, Blocks.Start(block, plan.blockSize, plan.objectSize),
                 Blocks.End(block, plan.blockSize, plan.objectSize))
  }

  /** Whoever reads the request for a block finds the range of as many bytes as a block has,
      from the block's offset on. */
  lemma RequestedRange(plan: Plan, block: u64)
    requires 0 < plan.blockSize && Request.NoCr(plan.host)
    requires var start := Blocks.Start(block, plan.blockSize, plan.objectSize);
      Request.Fits(plan.host, start, start + plan.blockSize - 1)
    ensures var lines, start := HttpReader.Lines(Requested(plan, block)),
                                Blocks.Start(block, plan.blockSize, plan.objectSize);
      |lines| == 6 && HttpReader.Field(lines[3]).1
        == Request.Bytes("bytes=") + (Decimals.Spell(start) + Request.Bytes("-")
                                      + Decimals.Spell(start + plan.blockSize - 1))
  {
    hide Request.Text, Request.Fits, Blocks.Start;
    var start := Blocks.Start(block, plan.blockSize, plan.objectSize);
    Request.ReadsBack(plan.host, start, start + plan.blockSize - 1);
  }

  /** One connection: what it was asked to fetch, and how it ended. */
  datatype ConnResult = ConnResult(block: u64, expected: nat, bytes: nat, clean: bool)

  /** A worker either returns before its connections have run, or reports on those it opened. */
  datatype Outcome = Early | Finished(conns: seq<ConnResult>)

  // ---- Sums ------------------------------------------------------------------

  function Sum(xs: seq<nat>): nat {
    if xs == [] then 0 else Sum(xs[..|xs| - 1]) + xs[|xs| - 1]
  }

  /** A sum of terms, each at most its bound, reaches the sum of the bounds only if every term does. */
  lemma {:induction false} SumsTermwise(xs: seq<nat>, ys: seq<nat>)
    requires |xs| == |ys| && forall i :: 0 <= i < |xs| ==> xs[i] <= ys[i]
    ensures Sum(xs) <= Sum(ys)
    ensures Sum(xs) == Sum(ys) <==> xs == ys
  {
    if xs != [] {
      var n := |xs| - 1;
      SumsTermwise(xs[..n], ys[..n]);
      assert xs == xs[..n] + [xs[n]] && ys == ys[..n] + [ys[n]];
    }
  }

  function Repeat(n: nat, x: nat): (s: seq<nat>)
    ensures |s| == n && forall i :: 0 <= i < n ==> s[i] == x
  {
    seq(n, _ => x)
  }

  lemma {:induction false} SumRepeat(n: nat, x: nat)
    ensures Sum(Repeat(n, x)) == n * x
  {
    if n > 0 {
      assert Repeat(n, x)[..n - 1] == Repeat(n - 1, x);
      SumRepeat(n - 1, x);
      assert n * x == (n - 1) * x + x;
    }
  }

  // ---- What a worker opens ---------------------------------------------------

  /** The connections a worker opens, given which `connect` calls were accepted: an
      accepted one fetches the block with its own index, a rejected one is skipped. */
  function Opened(plan: Plan, worker: nat, accept: seq<bool>): seq<u64> {
    if accept == [] then []
    else
      var n := |accept| - 1;
      Opened(plan, worker, accept[..n]) + if accept[n] then [Wrap64(plan.FirstBlock(worker) + n)] else []
  }

  /** How many connections are attempted. */
  function Attempts(plan: Plan, ports: nat): nat {
    var n := if plan.conns < ports then plan.conns else ports;
    if plan.fault <= n then n - plan.fault else 0
  }

  /** The request of a block, and how many bytes it should yield. */
  method BuildRequest(plan: Plan, block: u64) returns (request: seq<byte>, expected: nat)
    requires 0 < plan.blockSize
    ensures request == Requested(plan, block) && expected == plan.blockSize
  {
    hide Blocks.Start, Request.Text;
    var start := Blocks.Start(block, plan.blockSize, plan.objectSize);
    var end := start + plan.blockSize - 1;
    var buf := new byte[Request.BUFFER](_ => 0);
    var n := Request.BuildRangeRequest(buf, plan.host, start, end);
    request, expected := buf[..n], end - start + 1;
  }

  method OpenConns(plan: Plan, worker: nat, ports: nat, accept: nat -> bool)
    returns (blocks: seq<u64>, expected: seq<nat>, requests: seq<seq<byte>>)
    requires plan.Accepted() && ports <= Steering.EPH_LEN
    ensures blocks == Opened(plan, worker, seq(Attempts(plan, ports), i requires 0 <= i => accept(i)))
    ensures expected == Repeat(|blocks|, plan.blockSize)
    ensures requests == RequestsFor(plan, blocks)
    ensures (forall i: nat :: accept(i)) ==>
      var n := if plan.conns <= ports then plan.conns else ports;
      |blocks| == if plan.fault <= n then n - plan.fault else 0
  {
    hide Wrap64, Requested, Attempts, Opened;
    blocks, expected, requests := [], [], [];
    ghost var tried := [];
    OpenedNone(plan, worker);
    for i := 0 to Attempts(plan, ports)
      invariant tried == seq(i, j requires 0 <= j => accept(j))
      invariant blocks == Opened(plan, worker, tried)
      invariant expected == Repeat(|blocks|, plan.blockSize)
      invariant requests == RequestsFor(plan, blocks)
    {
      tried := tried + [accept(i)];
      assert tried[..i] == seq(i, j requires 0 <= j => accept(j));
      OpenedNext(plan, worker, tried, i);
      if !accept(i) { continue; }
      var block := Wrap64(plan.FirstBlock(worker) + i);
      var request, size := BuildRequest(plan, block);
      blocks := blocks + [block];
      expected := expected + [size];
      requests := requests + [request];
    }
    OpenedExactly(plan, worker, tried);
    AllTrue(tried);
    AttemptsExactly(plan, ports);
  }

  lemma OpenedNone(plan: Plan, worker: nat)
    ensures Opened(plan, worker, []) == []
  {}

  lemma OpenedNext(plan: Plan, worker: nat, tried: seq<bool>, n: nat)
    requires |tried| == n + 1
    ensures Opened(plan, worker, tried)
      == Opened(plan, worker, tried[..n]) + if tried[n] then [Wrap64(plan.FirstBlock(worker) + n)] else []
  {
    hide Wrap64, Plan.FirstBlock;
  }

  lemma AttemptsExactly(plan: Plan, ports: nat)
    ensures var n := if plan.conns <= ports then plan.conns else ports;
      Attempts(plan, ports) == if plan.fault <= n then n - plan.fault else 0
  {}

  /** How many of the calls were accepted. */
  function Trues(accept: seq<bool>): (n: nat)
    ensures n <= |accept|
  {
    if accept == [] then 0 else Trues(accept[..|accept| - 1]) + if accept[|accept| - 1] then 1 else 0
  }

  lemma {:induction false} AllTrue(accept: seq<bool>)
    ensures (forall i :: 0 <= i < |accept| ==> accept[i]) ==> Trues(accept) == |accept|
  {
    if accept != [] { AllTrue(accept[..|accept| - 1]); }
  }

  lemma {:induction false} TruesBefore(accept: seq<bool>, i: nat)
    requires i < |accept| && accept[i]
    ensures Trues(accept[..i]) < Trues(accept)
  {
    var n := |accept| - 1;
    if i < n {
      assert accept[..n][..i] == accept[..i];
      TruesBefore(accept[..n], i);
    }
  }

  /** One block is opened for each accepted call, in order, and it is the one with the index
      of the call among all planned connections. */
  lemma {:induction false} OpenedExactly(plan: Plan, worker: nat, accept: seq<bool>)
    ensures |Opened(plan, worker, accept)| == Trues(accept)
    ensures forall i :: 0 <= i < |accept| && accept[i] ==>
      Trues(accept[..i]) < Trues(accept)
      && Opened(plan, worker, accept)[Trues(accept[..i])] == Wrap64(worker * plan.conns + i)
  {
    if accept != [] {
      hide Wrap64, Plan.FirstBlock, Opened, Trues;
      var n := |accept| - 1;
      OpenedExactly(plan, worker, accept[..n]);
      OpenedNext(plan, worker, accept, n);
      TruesNext(accept, n);
      forall i | 0 <= i < |accept| && accept[i]
        ensures Trues(accept[..i]) < Trues(accept)
        ensures Opened(plan, worker, accept)[Trues(accept[..i])] == Wrap64(worker * plan.conns + i)
      {
        TruesBefore(accept, i);
        if i == n { BlockIndex(plan, worker, n); } else { assert accept[..n][..i] == accept[..i]; }
      }
    } else {
      OpenedNone(plan, worker);
    }
  }

  lemma TruesNext(accept: seq<bool>, n: nat)
    requires |accept| == n + 1
    ensures Trues(accept) == Trues(accept[..n]) + if accept[n] then 1 else 0
  {}

  lemma BlockIndex(plan: Plan, worker: nat, i: nat)
    ensures Wrap64(plan.FirstBlock(worker) + i) == Wrap64(worker * plan.conns + i)
  {
    SumWraps(worker * plan.conns, i);
  }

  lemma SumWraps(a: nat, b: nat)
    ensures Wrap64(Wrap64(a) + b) == Wrap64(a + b)
  {}

  function RequestsFor(plan: Plan, blocks: seq<u64>): seq<seq<byte>>
    requires 0 < plan.blockSize
  {
    seq(|blocks|, i requires 0 <= i < |blocks| => Requested(plan, blocks[i]))
  }

  lemma {:induction false} OpenedAtMost(plan: Plan, worker: nat, accept: seq<bool>)
    ensures |Opened(plan, worker, accept)| <= |accept|
    ensures |Opened(plan, worker, accept)| == |accept| ==>
      forall i :: 0 <= i < |accept| ==> Opened(plan, worker, accept)[i] == Wrap64(plan.FirstBlock(worker) + i)
  {
    if accept != [] {
      hide Wrap64;
      OpenedAtMost(plan, worker, accept[..|accept| - 1]);
    }
  }

  // ---- What a worker has to allocate first -------------------------------------

  /** Buffers at these addresses lie in the address space and do not overlap. */
  ghost predicate BuffersApart(rx: seq<u64>) {
    (forall i :: 0 <= i < |rx| ==> rx[i] + RX_BUFFER <= TWO_64)
    && forall i, j :: 0 <= i < j < |rx| ==> rx[i] + RX_BUFFER <= rx[j] || rx[j] + RX_BUFFER <= rx[i]
  }

  /** A worker can allocate a receive buffer for every planned connection, none of them ever freed. */
  ghost predicate Allocates(plan: Plan) {
    exists rx: seq<u64> :: |rx| == plan.conns && BuffersApart(rx)
  }

  /** Disjoint buffers have different addresses in units of their size. */
  lemma BuffersFit(rx: seq<u64>)
    requires BuffersApart(rx)
    ensures |rx| * RX_BUFFER <= TWO_64
  {
    var units: seq<nat> := seq(|rx|, i requires 0 <= i < |rx| => rx[i] / RX_BUFFER);
    forall i, j | 0 <= i < j < |units|
      ensures units[i] != units[j]
    {
      UnitsDiffer(rx[i], rx[j]);
    }
    hide BuffersApart;
    DistinctBelow(units, TWO_64 / RX_BUFFER);
  }

  lemma UnitsDiffer(a: u64, b: u64)
    requires a + RX_BUFFER <= b || b + RX_BUFFER <= a
    ensures a / RX_BUFFER != b / RX_BUFFER
  {}

  lemma RowApart(n: nat)
    requires n * RX_BUFFER <= TWO_64
    ensures forall i :: 0 <= i < n ==> 0 <= i * RX_BUFFER < TWO_64
    ensures BuffersApart(seq(n, i requires 0 <= i < n => i * RX_BUFFER))
  {}

  lemma AllocatesExactly(plan: Plan)
    ensures Allocates(plan) <==> plan.conns <= 0x400_0000_0000
  {
    hide BuffersApart;
    if rx: seq<u64> :| |rx| == plan.conns && BuffersApart(rx) {
      BuffersFit(rx);
    }
    if plan.conns * RX_BUFFER <= TWO_64 {
      var n := plan.conns;
      RowApart(n);
      var rx: seq<u64> := seq(n, i requires 0 <= i < n => i * RX_BUFFER);
      assert |rx| == plan.conns && BuffersApart(rx);
    }
  }

  /** Once a worker has its buffers, the planned number of connections fits 64 bits. */
  lemma PlanFits(plan: Plan)
    requires plan.Accepted() && Allocates(plan)
    ensures plan.Fits()
  {
    AllocatesExactly(plan);
    Blocks.MulOrdered(plan.workers, 65536, plan.conns);
  }

  /** What `OpenConns` and the run of the connections can leave behind, for a worker that
      owns `ports` ports and that got past its allocations. */
  ghost predicate Legal(plan: Plan, worker: nat, ports: nat, outcome: Outcome) {
    outcome.Early? ||
    (Allocates(plan) && exists accept: seq<bool> ::
       |accept| == Attempts(plan, ports) && BlocksOf(outcome.conns) == Opened(plan, worker, accept)
       && forall i :: 0 <= i < |outcome.conns| ==> outcome.conns[i].expected == plan.blockSize)
  }

  function BlocksOf(conns: seq<ConnResult>): (s: seq<u64>)
    ensures |s| == |conns|
  {
    seq(|conns|, i requires 0 <= i < |conns| => conns[i].block)
  }

  lemma LegalAtMost(plan: Plan, worker: nat, ports: nat, outcome: Outcome)
    requires plan.Accepted() && Legal(plan, worker, ports, outcome) && outcome.Finished?
    ensures |outcome.conns| <= plan.conns && |outcome.conns| <= ports
    ensures plan.fault > 0 ==> |outcome.conns| < plan.conns
    ensures |outcome.conns| == plan.conns ==>
      forall i :: 0 <= i < plan.conns ==> outcome.conns[i].block == Wrap64(plan.FirstBlock(worker) + i)
  {
    hide Wrap64, Opened, Allocates;
    var accept: seq<bool> :|
      |accept| == Attempts(plan, ports) && BlocksOf(outcome.conns) == Opened(plan, worker, accept);
    OpenedAtMost(plan, worker, accept);
    assert forall i :: 0 <= i < |outcome.conns| ==> outcome.conns[i].block == BlocksOf(outcome.conns)[i];
  }

  // ---- Reports and their sums ------------------------------------------------

  function Opens(outcome: Outcome): nat {
    if outcome.Early? then 0 else |outcome.conns|
  }

  function CleanCount(conns: seq<ConnResult>): nat {
    if conns == [] then 0
    else CleanCount(conns[..|conns| - 1]) + if conns[|conns| - 1].clean then 1 else 0
  }

  function Cleans(outcome: Outcome): nat {
    if outcome.Early? then 0 else CleanCount(outcome.conns)
  }

  function BytesOf(conns: seq<ConnResult>): (s: seq<nat>)
    ensures |s| == |conns|
  {
    seq(|conns|, i requires 0 <= i < |conns| => conns[i].bytes)
  }

  function ExpectedOf(conns: seq<ConnResult>): (s: seq<nat>)
    ensures |s| == |conns|
  {
    seq(|conns|, i requires 0 <= i < |conns| => conns[i].expected)
  }

  function Received(outcome: Outcome): nat {
    if outcome.Early? then 0
    else Sum(BytesOf(outcome.conns))
  }

  function Expected(outcome: Outcome): nat {
    if outcome.Early? then 0
    else Sum(ExpectedOf(outcome.conns))
  }

  lemma {:induction false} CleanAtMost(conns: seq<ConnResult>)
    ensures CleanCount(conns) <= |conns|
    ensures CleanCount(conns) == |conns| <==> forall i :: 0 <= i < |conns| ==> conns[i].clean
  {
    if conns != [] { CleanAtMost(conns[..|conns| - 1]); }
  }

  function Map(outcomes: seq<Outcome>, f: Outcome -> nat): (s: seq<nat>)
    ensures |s| == |outcomes| && forall i :: 0 <= i < |s| ==> s[i] == f(outcomes[i])
  {
    seq(|outcomes|, i requires 0 <= i < |outcomes| => f(outcomes[i]))
  }

  lemma MapNext(outcomes: seq<Outcome>, f: Outcome -> nat, n: nat)
    requires n < |outcomes|
    ensures Sum(Map(outcomes[..n + 1], f)) == Sum(Map(outcomes[..n], f)) + f(outcomes[n])
  {
    assert Map(outcomes[..n + 1], f)[..n] == Map(outcomes[..n], f);
  }

  lemma WrapAdd(a: nat, b: nat)
    ensures Wrap64(Wrap64(a) + Wrap64(b)) == Wrap64(a + b)
  {}

  /** A total as the 64-bit counters hold it after the first `n` workers. */
  ghost function TotalUpTo(outcomes: seq<Outcome>, n: nat, f: Outcome -> nat): u64
    requires n <= |outcomes|
  {
    Wrap64(Sum(Map(outcomes[..n], f)))
  }

  lemma TotalNext(outcomes: seq<Outcome>, n: nat, f: Outcome -> nat)
    requires n < |outcomes|
    ensures TotalUpTo(outcomes, n + 1, f) == Wrap64(TotalUpTo(outcomes, n, f) + Wrap64(f(outcomes[n])))
  {
    hide Wrap64;
    MapNext(outcomes, f, n);
    WrapAdd(Sum(Map(outcomes[..n], f)), f(outcomes[n]));
  }

  lemma TotalEnds(outcomes: seq<Outcome>, f: Outcome -> nat)
    ensures TotalUpTo(outcomes, 0, f) == 0
    ensures TotalUpTo(outcomes, |outcomes|, f) == Total(outcomes, f)
  {
    assert Map(outcomes[..0], f) == [];
    assert outcomes[..|outcomes|] == outcomes;
  }

  /** The four numbers a worker stores, and the verdict drawn from their sums. */
  method Decide(plan: Plan, outcomes: seq<Outcome>, misrouted: nat) returns (complete: bool)
    requires plan.Accepted() && |outcomes| == plan.workers
    ensures complete <==> PrintsComplete(plan, outcomes, misrouted)
  {
    hide Wrap64, TotalUpTo, Total, Received, Expected, Opens, Cleans;
    var totalBytes, totalExpected, connsTotal, connsClean := 0, 0, 0, 0;
    TotalEnds(outcomes, Received);
    TotalEnds(outcomes, Expected);
    TotalEnds(outcomes, Opens);
    TotalEnds(outcomes, Cleans);
    for w := 0 to plan.workers
      invariant totalBytes == TotalUpTo(outcomes, w, Received)
      invariant totalExpected == TotalUpTo(outcomes, w, Expected)
      invariant connsTotal == TotalUpTo(outcomes, w, Opens)
      invariant connsClean == TotalUpTo(outcomes, w, Cleans)
    {
      TotalNext(outcomes, w, Received);
      TotalNext(outcomes, w, Expected);
      TotalNext(outcomes, w, Opens);
      TotalNext(outcomes, w, Cleans);
      totalBytes := Wrap64(totalBytes + Wrap64(Received(outcomes[w])));
      totalExpected := Wrap64(totalExpected + Wrap64(Expected(outcomes[w])));
      connsTotal := Wrap64(connsTotal + Wrap64(Opens(outcomes[w])));
      connsClean := Wrap64(connsClean + Wrap64(Cleans(outcomes[w])));
    }
    var rangesOk := connsClean == connsTotal && connsTotal > 0;
    var covered := connsTotal == plan.PlannedConns();
    var bytesOk := if plan.stub then totalBytes >= totalExpected else totalBytes == totalExpected;
    complete := rangesOk && covered && bytesOk && misrouted == 0;
  }

  ghost function Total(outcomes: seq<Outcome>, f: Outcome -> nat): u64 {
    Wrap64(Sum(Map(outcomes, f)))
  }

  ghost predicate BytesAgree(plan: Plan, outcomes: seq<Outcome>) {
    var received, expected := Total(outcomes, Received), Total(outcomes, Expected);
    if plan.stub then received >= expected else received == expected
  }

  ghost predicate PrintsComplete(plan: Plan, outcomes: seq<Outcome>, misrouted: nat) {
    var opens := Total(outcomes, Opens);
    Total(outcomes, Cleans) == opens && opens > 0 && opens == plan.PlannedConns()
    && BytesAgree(plan, outcomes) && misrouted == 0
  }

  // ---- What COMPLETE means ---------------------------------------------------

  /** A worker that opened all its connections and saw every one close cleanly. */
  predicate Full(plan: Plan, outcome: Outcome) {
    outcome.Finished? && |outcome.conns| == plan.conns
    && forall i :: 0 <= i < |outcome.conns| ==> outcome.conns[i].clean
  }

  predicate AllFull(plan: Plan, outcomes: seq<Outcome>) {
    forall w :: 0 <= w < |outcomes| ==> Full(plan, outcomes[w])
  }

  /** The workers' outcomes, given how many ports each owns of the ephemeral range. */
  ghost predicate AllLegal(plan: Plan, ports: seq<nat>, outcomes: seq<Outcome>) {
    |ports| == plan.workers == |outcomes|
    && forall w :: 0 <= w < |outcomes| ==> ports[w] <= Steering.EPH_LEN && Legal(plan, w, ports[w], outcomes[w])
  }

  lemma OutcomeBounds(plan: Plan, worker: nat, ports: nat, outcome: Outcome)
    requires plan.Accepted() && Legal(plan, worker, ports, outcome)
    ensures Cleans(outcome) <= Opens(outcome) <= plan.conns
    ensures Opens(outcome) == plan.conns && Cleans(outcome) == Opens(outcome) <==> Full(plan, outcome)
  {
    hide Legal;
    if outcome.Finished? {
      LegalAtMost(plan, worker, ports, outcome);
      CleanAtMost(outcome.conns);
    }
  }

  lemma PlannedPositive(plan: Plan)
    requires plan.Accepted()
    ensures plan.Planned() > 0
  {
    MulGe(plan.conns, plan.workers);
  }

  lemma SmallWraps(x: nat)
    requires x < TWO_64
    ensures Wrap64(x) == x
  {}

  /** COMPLETE is printed exactly when every worker is full, the byte totals agree and
      nothing was misrouted. */
  lemma CompleteExactly(plan: Plan, ports: seq<nat>, outcomes: seq<Outcome>, misrouted: nat)
    requires plan.Accepted() && AllLegal(plan, ports, outcomes)
    ensures PrintsComplete(plan, outcomes, misrouted) <==>
      AllFull(plan, outcomes) && BytesAgree(plan, outcomes) && misrouted == 0
    ensures AllFull(plan, outcomes) ==> plan.Fits()
  {
    hide *;
    if w :| 0 <= w < |outcomes| && outcomes[w].Finished? {
      FinisherFits(plan, ports, outcomes, w);
      CompleteWhenFitting(plan, ports, outcomes, misrouted);
    } else {
      NoneFinished(plan, ports, outcomes, misrouted);
    }
  }

  lemma FinisherFits(plan: Plan, ports: seq<nat>, outcomes: seq<Outcome>, w: nat)
    requires plan.Accepted() && AllLegal(plan, ports, outcomes) && w < |outcomes| && outcomes[w].Finished?
    ensures plan.Fits()
  {
    hide Allocates, Plan.Fits;
    assert Legal(plan, w, ports[w], outcomes[w]);
    PlanFits(plan);
  }

  lemma NoneFinished(plan: Plan, ports: seq<nat>, outcomes: seq<Outcome>, misrouted: nat)
    requires plan.Accepted() && AllLegal(plan, ports, outcomes)
    requires forall w :: 0 <= w < |outcomes| ==> !outcomes[w].Finished?
    ensures !PrintsComplete(plan, outcomes, misrouted) && !AllFull(plan, outcomes)
  {
    hide Legal;
    assert Map(outcomes, Opens) == Repeat(plan.workers, 0);
    SumRepeat(plan.workers, 0);
    assert !Full(plan, outcomes[0]);
  }

  lemma CompleteWhenFitting(plan: Plan, ports: seq<nat>, outcomes: seq<Outcome>, misrouted: nat)
    requires plan.Accepted() && AllLegal(plan, ports, outcomes) && plan.Fits()
    ensures PrintsComplete(plan, outcomes, misrouted) <==>
      AllFull(plan, outcomes) && BytesAgree(plan, outcomes) && misrouted == 0
  {
    hide Full, Legal, Opens, Cleans, BytesAgree, Wrap64;
    var opens, cleans := Map(outcomes, Opens), Map(outcomes, Cleans);
    var bound := Repeat(plan.workers, plan.conns);
    forall w | 0 <= w < |outcomes|
      ensures cleans[w] <= opens[w] <= bound[w]
      ensures opens[w] == bound[w] && cleans[w] == opens[w] <==> Full(plan, outcomes[w])
    {
      OutcomeBounds(plan, w, ports[w], outcomes[w]);
    }
    SumsTermwise(cleans, opens);
    SumsTermwise(opens, bound);
    SumRepeat(plan.workers, plan.conns);
    SmallWraps(plan.Planned());
    SmallWraps(Sum(opens));
    SmallWraps(Sum(cleans));
    PlannedPositive(plan);
    if AllFull(plan, outcomes) {
      assert opens == bound && cleans == opens;
    }
    if cleans == opens && opens == bound {
      assert forall w :: 0 <= w < |outcomes| ==> cleans[w] == opens[w] && opens[w] == bound[w];
    }
  }

  /** A run of full workers in which nothing was misrouted is COMPLETE exactly when as many
      bytes came as the planned blocks hold, or with the stub at least as many, both as 64
      bits hold them. */
  lemma FullRunVerdict(plan: Plan, ports: seq<nat>, outcomes: seq<Outcome>)
    requires plan.Accepted() && AllLegal(plan, ports, outcomes) && AllFull(plan, outcomes)
    ensures var received, planned := Sum(Map(outcomes, Received)), plan.workers * (plan.conns * plan.blockSize);
      PrintsComplete(plan, outcomes, 0) <==>
        if plan.stub then received % TWO_64 >= planned % TWO_64 else received % TWO_64 == planned % TWO_64
  {
    hide Legal, Full, PrintsComplete, Received, Expected;
    CompleteExactly(plan, ports, outcomes, 0);
    FullTotal(plan, ports, outcomes);
  }

  /** No run with fault injection, and none with a worker that returned early, prints COMPLETE. */
  lemma FaultsAreSeen(plan: Plan, ports: seq<nat>, outcomes: seq<Outcome>, misrouted: nat, w: nat)
    requires plan.Accepted() && AllLegal(plan, ports, outcomes)
    requires w < |outcomes| && (plan.fault > 0 || outcomes[w].Early?)
    ensures !PrintsComplete(plan, outcomes, misrouted)
  {
    hide Legal, PrintsComplete, BytesAgree;
    CompleteExactly(plan, ports, outcomes, misrouted);
    if PrintsComplete(plan, outcomes, misrouted) {
      assert Full(plan, outcomes[w]);
      LegalAtMost(plan, w, ports[w], outcomes[w]);
      assert false;
    }
  }

  /** All blocks requested, worker by worker. */
  function AllBlocks(outcomes: seq<Outcome>): seq<u64> {
    if outcomes == [] then []
    else
      var last := outcomes[|outcomes| - 1];
      AllBlocks(outcomes[..|outcomes| - 1]) + if last.Early? then [] else BlocksOf(last.conns)
  }

  /** `s` is 0, 1, 2, ... up to `n`. */
  ghost predicate CountsUp(s: seq<u64>, n: nat) {
    |s| == n && forall b :: 0 <= b < n ==> s[b] == b
  }

  lemma CountsOn(s: seq<u64>, n: nat, more: seq<u64>)
    requires CountsUp(s, n) && forall i :: 0 <= i < |more| ==> more[i] == n + i
    ensures CountsUp(s + more, n + |more|)
  {}

  lemma FirstBlockExact(plan: Plan, v: nat)
    requires v < plan.workers && plan.Fits()
    ensures plan.FirstBlock(v) == v * plan.conns && v * plan.conns + plan.conns <= TWO_64
  {
    hide Plan.Accepted;
    Blocks.MulOrdered(v + 1, plan.workers, plan.conns);
    assert (v + 1) * plan.conns == v * plan.conns + plan.conns;
  }

  lemma FullWorkerBlocks(plan: Plan, v: nat, ports: nat, outcome: Outcome, base: nat)
    requires plan.Accepted() && v < plan.workers && plan.Fits() && base == v * plan.conns
    requires Legal(plan, v, ports, outcome) && Full(plan, outcome)
    ensures forall i :: 0 <= i < plan.conns ==> BlocksOf(outcome.conns)[i] == base + i
  {
    FirstBlockExact(plan, v);
    LegalAtMost(plan, v, ports, outcome);
    hide Legal, Wrap64, Plan.Fits, Plan.Accepted, Plan.FirstBlock;
    forall i | 0 <= i < plan.conns
      ensures BlocksOf(outcome.conns)[i] == base + i
    {
      SmallWraps(base + i);
    }
  }

  lemma OneLess(w: nat, conns: nat, n: nat)
    requires w > 0 && n == w * conns
    ensures n - conns == (w - 1) * conns >= 0
  {}

  lemma {:induction false} FullBlocks(plan: Plan, ports: seq<nat>, outcomes: seq<Outcome>, w: nat, n: nat)
    requires plan.Accepted() && AllLegal(plan, ports, outcomes) && plan.Fits()
    requires AllFull(plan, outcomes) && w <= |outcomes| && n == w * plan.conns
    ensures CountsUp(AllBlocks(outcomes[..w]), n)
  {
    if w > 0 {
      hide Legal, Full, CountsUp, BlocksOf, Plan.Fits, Plan.Accepted;
      var v := w - 1;
      assert outcomes[..w][..v] == outcomes[..v];
      OneLess(w, plan.conns, n);
      FullBlocks(plan, ports, outcomes, v, n - plan.conns);
      FullWorkerBlocks(plan, v, ports[v], outcomes[v], n - plan.conns);
      CountsOn(AllBlocks(outcomes[..v]), n - plan.conns, BlocksOf(outcomes[v].conns));
    }
  }

  /** COMPLETE: every block index below workers times connections was requested exactly
      once, in order; and byte for byte as much was received as those blocks hold. */
  lemma CompleteIsSound(plan: Plan, ports: seq<nat>, outcomes: seq<Outcome>, misrouted: nat)
    requires plan.Accepted() && AllLegal(plan, ports, outcomes)
    requires PrintsComplete(plan, outcomes, misrouted)
    ensures CountsUp(AllBlocks(outcomes), plan.Planned())
    ensures Sum(Map(outcomes, Expected)) == plan.PlannedBytes()
    ensures !plan.stub ==> Wrap64(Sum(Map(outcomes, Received))) == Wrap64(plan.PlannedBytes())
  {
    CompleteExactly(plan, ports, outcomes, misrouted);
    hide *;
    EveryBlock(plan, ports, outcomes);
    FullTotal(plan, ports, outcomes);
    if !plan.stub { ExactBytes(plan, outcomes); }
  }

  /** After COMPLETE the ranges requested are pairwise disjoint exactly when the object is
      large enough for all planned blocks, or there is only one. */
  lemma CompleteRangesDisjoint(plan: Plan, ports: seq<nat>, outcomes: seq<Outcome>, misrouted: nat)
    requires plan.Accepted() && AllLegal(plan, ports, outcomes)
    requires PrintsComplete(plan, outcomes, misrouted)
    ensures RangesApart(plan, AllBlocks(outcomes)) <==>
      plan.Planned() <= 1 || plan.Planned() <= plan.objectSize / plan.blockSize
  {
    CompleteIsSound(plan, ports, outcomes, misrouted);
    CompleteExactly(plan, ports, outcomes, misrouted);
    hide Legal, PrintsComplete, AllBlocks, Blocks.Apart;
    var all := AllBlocks(outcomes);
    Blocks.RangesDisjoint(plan.Planned(), plan.blockSize, plan.objectSize);
    if RangesApart(plan, all) {
      forall b1: u64, b2: u64 | b1 < b2 < plan.Planned()
        ensures Blocks.Apart(b1, b2, plan.blockSize, plan.objectSize)
      {
        assert all[b1] == b1 && all[b2] == b2;
      }
    }
  }

  ghost predicate RangesApart(plan: Plan, blocks: seq<u64>) {
    forall i, j :: 0 <= i < j < |blocks| ==> Blocks.Apart(blocks[i], blocks[j], plan.blockSize, plan.objectSize)
  }

  lemma ExactBytes(plan: Plan, outcomes: seq<Outcome>)
    requires BytesAgree(plan, outcomes) && !plan.stub
    ensures Wrap64(Sum(Map(outcomes, Received))) == Wrap64(Sum(Map(outcomes, Expected)))
  {
    hide Wrap64, Sum;
  }

  lemma EveryBlock(plan: Plan, ports: seq<nat>, outcomes: seq<Outcome>)
    requires plan.Accepted() && AllLegal(plan, ports, outcomes) && plan.Fits() && AllFull(plan, outcomes)
    ensures CountsUp(AllBlocks(outcomes), plan.Planned())
  {
    hide Legal, Full, AllBlocks, CountsUp, Plan.Fits, Plan.Accepted;
    FullBlocks(plan, ports, outcomes, plan.workers, plan.Planned());
    assert outcomes[..plan.workers] == outcomes;
  }

  lemma FullTotal(plan: Plan, ports: seq<nat>, outcomes: seq<Outcome>)
    requires AllLegal(plan, ports, outcomes) && AllFull(plan, outcomes)
    ensures Sum(Map(outcomes, Expected)) == plan.PlannedBytes()
  {
    hide Legal, Expected, Full;
    var each := plan.conns * plan.blockSize;
    var expected := Map(outcomes, Expected);
    forall w | 0 <= w < |outcomes|
      ensures expected[w] == each
    {
      FullExpects(plan, w, ports[w], outcomes[w]);
    }
    assert expected == Repeat(plan.workers, each);
    SumRepeat(plan.workers, each);
  }

  lemma FullExpects(plan: Plan, worker: nat, ports: nat, outcome: Outcome)
    requires Legal(plan, worker, ports, outcome) && Full(plan, outcome)
    ensures Expected(outcome) == plan.conns * plan.blockSize
  {
    hide Opened;
    assert ExpectedOf(outcome.conns) == Repeat(plan.conns, plan.blockSize);
    SumRepeat(plan.conns, plan.blockSize);
  }

  // ---- From the verdict back to the connections --------------------------------

  /** The run of one connection, from which its line in the report was taken. */
  datatype Trace = Trace(peer: seq<byte>, events: seq<Connection.Event>) {
    function Ends(plan: Plan, conn: ConnResult): Connection.Ends
      requires 0 < plan.blockSize
    {
      Connection.Ends(Requested(plan, conn.block), peer)
    }

    ghost predicate Explains(plan: Plan, conn: ConnResult)
      requires 0 < plan.blockSize
    {
      var e := Ends(plan, conn);
      Connection.Run(e, events)
      && conn.clean == Connection.Reached(e, events).app.closedCleanly
      && conn.bytes == Connection.Reached(e, events).app.scan.bytes
    }

    /** The request for its block went out whole and once, and the bytes reported are the
        body received: the peer's whole body exactly when the peer's whole stream arrived,
        or it has no body. */
    ghost predicate Delivered(plan: Plan, conn: ConnResult)
      requires 0 < plan.blockSize && Connection.Run(Ends(plan, conn), events)
    {
      var sock := Connection.Reached(Ends(plan, conn), events).sock;
      sock.sent == Requested(plan, conn.block)
      && conn.bytes == ResponseBody.BodyLength(peer[..sock.arrived])
      && (conn.bytes == ResponseBody.BodyLength(peer) <==>
            sock.arrived == |peer| || ResponseBody.BodyLength(peer) == 0)
      && (sock.fin ==> sock.arrived == |peer|)
    }
  }

  ghost predicate AllExplained(plan: Plan, outcomes: seq<Outcome>, traces: seq<seq<Trace>>)
    requires 0 < plan.blockSize
  {
    |traces| == |outcomes|
    && forall w, i :: 0 <= w < |outcomes| && outcomes[w].Finished? && 0 <= i < |outcomes[w].conns| ==>
         |traces[w]| == |outcomes[w].conns| && traces[w][i].Explains(plan, outcomes[w].conns[i])
  }

  /** COMPLETE, whatever the runs of the connections were: every worker has all its planned
      connections, the i-th for the i-th of its blocks, and each of them delivered. */
  lemma CompleteDelivers(plan: Plan, ports: seq<nat>, outcomes: seq<Outcome>, misrouted: nat,
                         traces: seq<seq<Trace>>, w: nat, i: nat)
    requires plan.Accepted() && AllLegal(plan, ports, outcomes)
    requires PrintsComplete(plan, outcomes, misrouted) && AllExplained(plan, outcomes, traces)
    requires w < plan.workers && i < plan.conns
    ensures outcomes[w].Finished? && |traces[w]| == |outcomes[w].conns| == plan.conns
    ensures outcomes[w].conns[i].block == w * plan.conns + i
    ensures traces[w][i].Explains(plan, outcomes[w].conns[i]) && traces[w][i].Delivered(plan, outcomes[w].conns[i])
  {
    hide Legal, PrintsComplete, BytesAgree, Connection.Run, Connection.Reached, Requested;
    CompleteExactly(plan, ports, outcomes, misrouted);
    var conn := outcomes[w].conns[i];
    assert Full(plan, outcomes[w]) && conn.clean;
    FullWorkerBlocks(plan, w, ports[w], outcomes[w], w * plan.conns);
    assert conn.block == BlocksOf(outcomes[w].conns)[i];
    assert traces[w][i].Explains(plan, conn);
    Connection.CleanCloseIsComplete(traces[w][i].Ends(plan, conn), traces[w][i].events);
  }

  // ---- Whether a run can be COMPLETE at all ------------------------------------

  /** Connections that all closed cleanly and received so many bytes each. */
  function Served(plan: Plan, worker: nat, sizes: seq<nat>): seq<ConnResult> {
    seq(|sizes|, i requires 0 <= i < |sizes| =>
      ConnResult(Wrap64(plan.FirstBlock(worker) + i), plan.blockSize, sizes[i], true))
  }

  lemma {:induction false} OpenedAll(plan: Plan, worker: nat, sizes: seq<nat>)
    ensures Opened(plan, worker, seq(|sizes|, _ => true)) == BlocksOf(Served(plan, worker, sizes))
  {
    hide Wrap64, Plan.FirstBlock;
    if sizes != [] {
      var n := |sizes| - 1;
      OpenedAll(plan, worker, sizes[..n]);
      assert seq(n + 1, _ => true)[..n] == seq(n, _ => true);
      assert BlocksOf(Served(plan, worker, sizes))
          == BlocksOf(Served(plan, worker, sizes[..n])) + [Wrap64(plan.FirstBlock(worker) + n)];
    }
  }

  lemma ServedOutcome(plan: Plan, worker: nat, ports: nat, sizes: seq<nat>)
    requires plan.fault == 0 && |sizes| == plan.conns <= ports && Allocates(plan)
    ensures var o := Finished(Served(plan, worker, sizes));
      Legal(plan, worker, ports, o) && Full(plan, o) && Received(o) == Sum(sizes)
  {
    hide Wrap64, Plan.FirstBlock, Opened, Sum, Allocates;
    OpenedAll(plan, worker, sizes);
    var conns, accept := Served(plan, worker, sizes), seq(|sizes|, _ => true);
    assert |accept| == Attempts(plan, ports) && BlocksOf(conns) == Opened(plan, worker, accept);
    assert BytesOf(conns) == sizes;
  }

  /** Every worker owns a port for each of its connections, and no fault is injected. */
  predicate Provided(plan: Plan, ports: seq<nat>) {
    plan.fault == 0 && forall w :: 0 <= w < |ports| ==> plan.conns <= ports[w]
  }

  predicate WithinRange(plan: Plan, ports: seq<nat>) {
    |ports| == plan.workers && forall w :: 0 <= w < |ports| ==> ports[w] <= Steering.EPH_LEN
  }

  /** A run in which each connection receives what `sizes` says, with the totals as expected. */
  lemma ServedRun(plan: Plan, ports: seq<nat>, sizes: seq<seq<nat>>, bytes: seq<nat>) returns (outcomes: seq<Outcome>)
    requires plan.Accepted() && WithinRange(plan, ports) && Provided(plan, ports)
    requires |sizes| == |bytes| == plan.workers
    requires forall w :: 0 <= w < |sizes| ==> |sizes[w]| == plan.conns && Sum(sizes[w]) == bytes[w]
    requires Wrap64(Sum(bytes)) == Wrap64(plan.PlannedBytes())
    ensures AllLegal(plan, ports, outcomes) && PrintsComplete(plan, outcomes, 0)
    ensures Map(outcomes, Received) == bytes
  {
    hide Legal, PrintsComplete, Served, Full, Received, Expected, Allocates, Sum, Wrap64;
    AllocatesExactly(plan);
    assert plan.conns <= ports[0];
    outcomes := seq(plan.workers, w requires 0 <= w < plan.workers => Finished(Served(plan, w, sizes[w])));
    forall w | 0 <= w < |outcomes|
      ensures Legal(plan, w, ports[w], outcomes[w]) && Full(plan, outcomes[w])
      ensures Received(outcomes[w]) == bytes[w]
    {
      ServedOutcome(plan, w, ports[w], sizes[w]);
    }
    assert Map(outcomes, Received) == bytes;
    FullTotal(plan, ports, outcomes);
    CompleteExactly(plan, ports, outcomes, 0);
  }

  /** For workers that own so many ports: some run prints COMPLETE exactly when no fault is
      injected and every worker owns enough ports for all its connections. */
  lemma CompletePossible(plan: Plan, ports: seq<nat>)
    requires plan.Accepted() && WithinRange(plan, ports)
    ensures (exists outcomes, misrouted :: AllLegal(plan, ports, outcomes) && PrintsComplete(plan, outcomes, misrouted))
       <==> Provided(plan, ports)
  {
    hide AllLegal, PrintsComplete, Provided;
    if outcomes, misrouted :| AllLegal(plan, ports, outcomes) && PrintsComplete(plan, outcomes, misrouted) {
      CompleteNeedsPorts(plan, ports, outcomes, misrouted);
    }
    if Provided(plan, ports) {
      var each := plan.conns * plan.blockSize;
      SumRepeat(plan.conns, plan.blockSize);
      SumRepeat(plan.workers, each);
      var sizes := seq(plan.workers, _ => Repeat(plan.conns, plan.blockSize));
      var outcomes := ServedRun(plan, ports, sizes, Repeat(plan.workers, each));
    }
  }

  lemma CompleteNeedsPorts(plan: Plan, ports: seq<nat>, outcomes: seq<Outcome>, misrouted: nat)
    requires plan.Accepted() && AllLegal(plan, ports, outcomes) && PrintsComplete(plan, outcomes, misrouted)
    ensures Provided(plan, ports)
  {
    hide Legal, PrintsComplete;
    CompleteExactly(plan, ports, outcomes, misrouted);
    forall w | 0 <= w < |ports|
      ensures plan.fault == 0 && plan.conns <= ports[w]
    {
      assert Full(plan, outcomes[w]);
      LegalAtMost(plan, w, ports[w], outcomes[w]);
    }
  }

  // ---- When COMPLETE is byte-exact -----------------------------------------------

  /** `x` and then zeros. */
  function FirstOnly(n: nat, x: nat): (s: seq<nat>)
    ensures |s| == n
  {
    seq(n, i => if i == 0 then x else 0)
  }

  lemma {:induction false} SumFirstOnly(n: nat, x: nat)
    requires n > 0
    ensures Sum(FirstOnly(n, x)) == x
  {
    if n > 1 {
      assert FirstOnly(n, x)[..n - 1] == FirstOnly(n - 1, x);
      SumFirstOnly(n - 1, x);
    } else {
      assert FirstOnly(1, x)[..0] == [];
    }
  }

  /** The bytes received are those of the planned blocks whenever COMPLETE is printed and
      fewer than 2^64 were received. */
  ghost predicate ByteExact(plan: Plan, ports: seq<nat>) {
    forall outcomes, misrouted ::
      AllLegal(plan, ports, outcomes) && PrintsComplete(plan, outcomes, misrouted)
      && Sum(Map(outcomes, Received)) < TWO_64
      ==> Sum(Map(outcomes, Received)) == plan.PlannedBytes()
  }

  /** With the stub off, COMPLETE is byte-exact in all runs exactly when the planned blocks
      hold fewer than 2^64 bytes between them, or no run prints COMPLETE at all. */
  lemma BytesExactly(plan: Plan, ports: seq<nat>)
    requires plan.Accepted() && WithinRange(plan, ports) && !plan.stub
    ensures ByteExact(plan, ports) <==> plan.PlannedBytes() < TWO_64 || !Provided(plan, ports)
  {
    hide AllLegal, PrintsComplete, Provided, Sum, Plan.PlannedBytes;
    if !Provided(plan, ports) {
      CompletePossible(plan, ports);
    } else if plan.PlannedBytes() < TWO_64 {
      forall outcomes, misrouted | AllLegal(plan, ports, outcomes) && PrintsComplete(plan, outcomes, misrouted)
          && Sum(Map(outcomes, Received)) < TWO_64
        ensures Sum(Map(outcomes, Received)) == plan.PlannedBytes()
      {
        CompleteIsSound(plan, ports, outcomes, misrouted);
        SmallWraps(plan.PlannedBytes());
        SmallWraps(Sum(Map(outcomes, Received)));
      }
    } else {
      var outcomes := ShortRun(plan, ports);
    }
  }

  /** All that is received, in this run, is what the planned bytes leave modulo 2^64. */
  lemma ShortRun(plan: Plan, ports: seq<nat>) returns (outcomes: seq<Outcome>)
    requires plan.Accepted() && WithinRange(plan, ports) && Provided(plan, ports)
    ensures AllLegal(plan, ports, outcomes) && PrintsComplete(plan, outcomes, 0)
    ensures Sum(Map(outcomes, Received)) == Wrap64(plan.PlannedBytes())
  {
    hide AllLegal, PrintsComplete, Provided, WithinRange, Sum, Plan.PlannedBytes, Wrap64;
    var left: nat := Wrap64(plan.PlannedBytes());
    var bytes := FirstOnly(plan.workers, left);
    var sizes := seq(plan.workers, w requires 0 <= w < plan.workers => FirstOnly(plan.conns, bytes[w]));
    SumFirstOnly(plan.workers, left);
    forall w | 0 <= w < |sizes|
      ensures Sum(sizes[w]) == bytes[w]
    {
      SumFirstOnly(plan.conns, bytes[w]);
    }
    SmallWraps(left);
    outcomes := ServedRun(plan, ports, sizes, bytes);
  }
}
