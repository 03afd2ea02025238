/** The receive-side-scaling model: which queue a return frame lands on, and its
    inversion into one bitmap of ephemeral ports per worker. */
module Steering {
  import opened Finite
  import opened Words
  import opened Toeplitz

  const EPH_BASE: nat := 49152
  const EPH_LEN: nat := 16384
  const OWNED_BITMAP_BYTES: nat := 2048
  const NO_QUEUE: u16 := 65535

  /** What the device was found to use.  A single queue is never hashed. */
  datatype Rss = Rss(single: bool, key: seq<byte>, reta: seq<u16>) {
    /** As `load_rss_config` accepts it. */
    ghost predicate Loaded() {
      single || (key != [] && reta != [] && IsPowerOfTwo(|reta|))
    }

    predicate EntriesBelow(queues: nat) {
      if single then queues == 1 else forall e :: 0 <= e < |reta| ==> reta[e] < queues
    }
  }

  type Ip = s: seq<byte> | |s| == 4 witness [0, 0, 0, 0]

  /** The fixed end points of every flow: the target, and our address. */
  datatype Flow = Flow(target: Ip, targetPort: u16, ours: Ip)

  datatype Option<T> = None | Some(value: T)

  /** Accepts what the device reports unless key or table is missing or the table length
      fails the test `n & (n - 1) == 0`, that is, is no power of two.  One queue needs neither. */
  function LoadRss(queues: nat, key: seq<byte>, reta: seq<u16>): (r: Option<Rss>)
    ensures r.Some? <==> queues == 1 || (key != [] && reta != [] && IsPowerOfTwo(|reta|))
    ensures r.Some? ==> r.value.Loaded() && r.value.single == (queues == 1)
    ensures r.Some? && queues != 1 ==> r.value.key == key && r.value.reta == reta
  {
    if queues == 1 then Some(Rss(true, [], []))
    else if key == [] || reta == [] then None
    else
      PowerOfTwoTest(|reta|);
      if And(|reta|, |reta| - 1) != 0 then None else Some(Rss(false, key, reta))
  }

  // ---- Predicting the queue ------------------------------------------------

  /** The table entry a hash selects. */
  function Entry(hash: nat, tableLen: nat): (e: nat)
    requires tableLen > 0
    ensures e < tableLen
  {
    AndAtMost(hash, tableLen - 1);
    And(hash, tableLen - 1)
  }

  lemma EntryIsModulo(hash: nat, tableLen: nat)
    requires tableLen > 0 && IsPowerOfTwo(tableLen)
    ensures Entry(hash, tableLen) == hash % tableLen
  {
    var k: nat :| tableLen == Pow2(k);
    MaskIsModulo(hash, k);
  }

  function PredictQueue(rss: Rss, tuple: seq<byte>): u16 {
    if rss.single then 0
    else if rss.key == [] || rss.reta == [] then NO_QUEUE
    else rss.reta[Entry(Hash(rss.key, tuple), |rss.reta|)]
  }

  function Be16(x: u16): (b: seq<byte>)
    ensures |b| == 2
  {
    [x / 256, x % 256]
  }

  /** Source address, destination address, source port, destination port in wire order. */
  function Tuple(flow: Flow, port: u16): (t: seq<byte>)
    ensures |t| == 12
  {
    flow.target + flow.ours + Be16(flow.targetPort) + Be16(port)
  }

  function QueueForLocalPort(rss: Rss, flow: Flow, port: u16): u16 {
    PredictQueue(rss, Tuple(flow, port))
  }

  /** The queue of the `i`-th ephemeral port. */
  function QueueOf(rss: Rss, flow: Flow, i: nat): u16
    requires i < EPH_LEN
  {
    QueueForLocalPort(rss, flow, EPH_BASE + i)
  }

  // ---- Bitmaps of owned ports ----------------------------------------------

  type Bitmap = s: seq<byte> | |s| == OWNED_BITMAP_BYTES
    witness seq(OWNED_BITMAP_BYTES, _ => 0)

  /** Bit `i` of a bitmap, least significant first within a byte. */
  predicate Marked(bitmap: seq<byte>, i: nat)
    requires i < 8 * |bitmap|
  {
    Bit(bitmap[i / 8], i % 8)
  }

  predicate OwnsPort(bitmap: Bitmap, port: u16) {
    if port < EPH_BASE then true
    else
      var i := port - EPH_BASE;
      And(bitmap[i / 8], Pow2(i % 8)) != 0
  }

  lemma OwnsMarked(bitmap: Bitmap, i: nat)
    requires i < EPH_LEN
    ensures OwnsPort(bitmap, EPH_BASE + i) <==> Marked(bitmap, i)
  {
    TestBit(bitmap[i / 8], i % 8);
  }

  function SetMark(x: byte, k: nat): byte
    requires k < 8
  {
    Pow2Small();
    Pow2Monotone(k, 7);
    OrBound(x, Pow2(k), 8);
    Or(x, Pow2(k))
  }

  lemma SetMarkBit(x: byte, k: nat, j: nat)
    requires k < 8
    ensures Bit(SetMark(x, k), j) <==> Bit(x, j) || j == k
  {
    OrBit(x, Pow2(k), j);
    OneBit(j, k);
  }

  lemma MarkOne(before: seq<byte>, after: seq<byte>, i: nat)
    requires |after| == |before| && i < 8 * |before|
    requires after == before[i / 8 := SetMark(before[i / 8], i % 8)]
    ensures forall j :: 0 <= j < 8 * |before| ==> (Marked(after, j) <==> Marked(before, j) || j == i)
  {
    hide Bit, SetMark;
    forall j | 0 <= j < 8 * |before|
      ensures Marked(after, j) <==> Marked(before, j) || j == i
    {
      SetMarkBit(before[i / 8], i % 8, j % 8);
      assert j == 8 * (j / 8) + j % 8 && i == 8 * (i / 8) + i % 8;
    }
  }

  /** Positions of the ephemeral ports steered to `queue`. */
  function Steered(rss: Rss, flow: Flow, queue: u16, n: nat): set<nat>
    requires n <= EPH_LEN
  {
    set i: nat | i < n && QueueOf(rss, flow, i) == queue
  }

  lemma SteeredNext(rss: Rss, flow: Flow, queue: u16, n: nat)
    requires n < EPH_LEN
    ensures Steered(rss, flow, queue, n + 1) == Steered(rss, flow, queue, n)
         + if QueueOf(rss, flow, n) == queue then {n} else {}
  {
    hide QueueOf;
  }

  /** The bitmap `bitmap` marks exactly the ports steered to `queue`. */
  ghost predicate BuiltFor(bitmap: Bitmap, rss: Rss, flow: Flow, queue: u16) {
    forall i: nat :: i < EPH_LEN ==>
      (Marked(bitmap, i) <==> QueueOf(rss, flow, i) == queue)
  }

  method BuildOwnedPorts(rss: Rss, flow: Flow, queue: u16, bitmap: array<byte>) returns (count: nat)
    requires bitmap.Length == OWNED_BITMAP_BYTES
    modifies bitmap
    ensures forall i: nat :: i < EPH_LEN ==>
      (Marked(bitmap[..], i) <==>
        old(Marked(bitmap[..], i)) || QueueOf(rss, flow, i) == queue)
    ensures count == |Steered(rss, flow, queue, EPH_LEN)|
  {
    hide QueueForLocalPort, Steered, Marked, SetMark;
    count := 0;
    ghost var before := bitmap[..];
    SteeredNone(rss, flow, queue);
    for i := 0 to EPH_LEN
      invariant count == |Steered(rss, flow, queue, i)|
      invariant forall j: nat :: j < EPH_LEN ==>
        (Marked(bitmap[..], j) <==>
          Marked(before, j) || (j < i && QueueOf(rss, flow, j) == queue))
    {
      SteeredNext(rss, flow, queue, i);
      SteeredBelow(rss, flow, queue, i);
      if QueueForLocalPort(rss, flow, EPH_BASE + i) == queue {
        ghost var was := bitmap[..];
        bitmap[i / 8] := SetMark(bitmap[i / 8], i % 8);
        MarkOne(was, bitmap[..], i);
        count := count + 1;
      }
    }
  }

  lemma SteeredNone(rss: Rss, flow: Flow, queue: u16)
    ensures Steered(rss, flow, queue, 0) == {}
  {}

  lemma SteeredBelow(rss: Rss, flow: Flow, queue: u16, n: nat)
    requires n <= EPH_LEN
    ensures n !in Steered(rss, flow, queue, n)
  {}

  /** A worker builds its bitmap from all zeros. */
  method WorkerBitmap(rss: Rss, flow: Flow, queue: u16) returns (bitmap: array<byte>, count: nat)
    ensures fresh(bitmap) && bitmap.Length == OWNED_BITMAP_BYTES
    ensures BuiltFor(bitmap[..], rss, flow, queue)
    ensures count == |Steered(rss, flow, queue, EPH_LEN)|
  {
    bitmap := new byte[OWNED_BITMAP_BYTES](_ => 0);
    forall i: nat | i < EPH_LEN
      ensures !Marked(bitmap[..], i)
    {
      ZeroBits(i % 8);
    }
    count := BuildOwnedPorts(rss, flow, queue, bitmap);
  }

  // ---- The workers partition the ephemeral range ---------------------------

  /** With every table entry below the number of queues, each ephemeral port is
      owned by exactly one worker. */
  lemma OwnershipPartition(rss: Rss, flow: Flow, bitmaps: seq<Bitmap>, i: nat)
    requires rss.Loaded() && rss.EntriesBelow(|bitmaps|) && |bitmaps| < 65536
    requires forall q :: 0 <= q < |bitmaps| ==> BuiltFor(bitmaps[q], rss, flow, q)
    requires i < EPH_LEN
    ensures var owner := QueueForLocalPort(rss, flow, EPH_BASE + i);
      owner < |bitmaps| && forall q :: 0 <= q < |bitmaps| ==> (OwnsPort(bitmaps[q], EPH_BASE + i) <==> q == owner)
  {
    hide Marked, OwnsPort;
    forall q | 0 <= q < |bitmaps|
      ensures OwnsPort(bitmaps[q], EPH_BASE + i) <==> q == QueueOf(rss, flow, i)
    {
      OwnsMarked(bitmaps[q], i);
      assert BuiltFor(bitmaps[q], rss, flow, q);
    }
  }

  function OwnedTotal(rss: Rss, flow: Flow, queues: nat): nat
    requires queues <= 65536
  {
    if queues == 0 then 0
    else OwnedTotal(rss, flow, queues - 1) + |Steered(rss, flow, queues - 1, EPH_LEN)|
  }

  /** The workers' counts add up to the whole range. */
  lemma OwnedCountsSum(rss: Rss, flow: Flow, queues: nat)
    requires rss.Loaded() && rss.EntriesBelow(queues) && queues < 65536
    ensures OwnedTotal(rss, flow, queues) == EPH_LEN
  {
    hide QueueForLocalPort;
    var all := SteeredUnder(rss, flow, queues);
    TotalIsUnder(rss, flow, queues);
    forall i: nat | i < EPH_LEN
      ensures i in all
    {
      QueueInRange(rss, flow, EPH_BASE + i, queues);
      assert QueueOf(rss, flow, i) < queues;
    }
    assert all == Finite.Below(EPH_LEN);
  }

  lemma QueueInRange(rss: Rss, flow: Flow, port: u16, queues: nat)
    requires rss.Loaded() && rss.EntriesBelow(queues)
    ensures QueueForLocalPort(rss, flow, port) < queues
  {}

  function SteeredUnder(rss: Rss, flow: Flow, queues: nat): set<nat> {
    set i: nat | i < EPH_LEN && QueueOf(rss, flow, i) < queues
  }

  lemma {:induction false} TotalIsUnder(rss: Rss, flow: Flow, queues: nat)
    requires queues <= 65536
    ensures OwnedTotal(rss, flow, queues) == |SteeredUnder(rss, flow, queues)|
  {
    if queues == 0 {
      assert SteeredUnder(rss, flow, 0) == {};
    } else {
      hide QueueOf;
      TotalIsUnder(rss, flow, queues - 1);
      assert SteeredUnder(rss, flow, queues)
          == SteeredUnder(rss, flow, queues - 1) + Steered(rss, flow, queues - 1, EPH_LEN);
    }
  }
}
