/** How a worker picks its source ports: evenly spread over the ones it owns. */
module PortChoice {
  import opened Words
  import opened Steering

  /** The positions below `n` a bitmap marks, in ascending order. */
  function MarkedList(bitmap: Bitmap, n: nat): (list: seq<nat>)
    requires n <= EPH_LEN
    ensures forall k :: 0 <= k < |list| ==> list[k] < n && Marked(bitmap, list[k])
    ensures forall j, k :: 0 <= j < k < |list| ==> list[j] < list[k]
  {
    if n == 0 then []
    else MarkedList(bitmap, n - 1) + if Marked(bitmap, n - 1) then [n - 1] else []
  }

  lemma {:induction false} MarkedListComplete(bitmap: Bitmap, n: nat, i: nat)
    requires i < n <= EPH_LEN
    ensures i in MarkedList(bitmap, n) <==> Marked(bitmap, i)
  {
    hide Marked;
    if i < n - 1 { MarkedListComplete(bitmap, n - 1, i); }
  }

  lemma {:induction false} MarkedListGrows(bitmap: Bitmap, m: nat, n: nat)
    requires m <= n <= EPH_LEN
    ensures MarkedList(bitmap, m) <= MarkedList(bitmap, n)
  {
    hide Marked;
    if m < n { MarkedListGrows(bitmap, m, n - 1); }
  }

  /** The list has as many positions as the count `BuildOwnedPorts` returned. */
  lemma {:induction false} MarkedListLength(bitmap: Bitmap, rss: Rss, flow: Flow, queue: u16, n: nat)
    requires n <= EPH_LEN && BuiltFor(bitmap, rss, flow, queue)
    ensures |MarkedList(bitmap, n)| == |Steered(rss, flow, queue, n)|
  {
    hide Marked, QueueOf;
    if n == 0 {
      SteeredNone(rss, flow, queue);
    } else {
      MarkedListLength(bitmap, rss, flow, queue, n - 1);
      SteeredNext(rss, flow, queue, n - 1);
      SteeredBelow(rss, flow, queue, n - 1);
      assert Marked(bitmap, n - 1) <==> QueueOf(rss, flow, n - 1) == queue;
    }
  }

  function Stride(owned: nat, conns: nat): (s: nat)
    requires conns > 0
    ensures s >= 1
  {
    if owned / conns > 1 then owned / conns else 1
  }

  /** What the choice must be: every `stride`-th owned port, at most `conns` of them. */
  ghost predicate Spread(ports: seq<u16>, owned: seq<nat>, stride: nat) {
    forall k :: 0 <= k < |ports| ==>
      k * stride < |owned| && ports[k] as int == EPH_BASE + owned[k * stride]
  }

  /** After `seen` owned ports, `picked` of them, at most `conns`, have been picked. */
  ghost predicate KeepsUp(seen: nat, picked: nat, conns: nat, stride: nat) {
    if picked < conns then seen <= picked * stride < seen + stride
    else picked == conns && (picked - 1) * stride < seen
  }

  /** The stride is the widest that leaves room for all connections, and 1 if none does. */
  lemma StrideIsWidest(owned: nat, conns: nat)
    requires conns > 0
    ensures conns <= owned ==> conns * Stride(owned, conns) <= owned < conns * (Stride(owned, conns) + 1)
    ensures owned < conns ==> Stride(owned, conns) == 1
  {
    var q := owned / conns;
    assert owned == conns * q + owned % conns && conns * (q + 1) == conns * q + conns;
    if owned < conns { DivUnique(owned, conns, 0, owned); }
  }

  /** The ports chosen are the owned ones of rank 0, `gap`, twice `gap` and so on, where `gap`
      is the widest that leaves room for all connections. */
  method ChoosePorts(bitmap: Bitmap, ownedCount: nat, conns: nat) returns (ports: seq<u16>, ghost gap: nat)
    requires conns > 0
    requires ownedCount == |MarkedList(bitmap, EPH_LEN)|
    ensures gap >= 1 && Spread(ports, MarkedList(bitmap, EPH_LEN), gap)
    ensures conns <= ownedCount ==> |ports| == conns && conns * gap <= ownedCount < conns * (gap + 1)
    ensures ownedCount < conns ==> |ports| == ownedCount && gap == 1
  {
    hide OwnsPort, Marked, MarkedList, Spread, KeepsUp, Stride;
    ports := [];
    var stride := Stride(ownedCount, conns);
    gap := stride;
    StrideIsWidest(ownedCount, conns);
    var seen := 0;
    var i := 0;
    ChoiceStarts(bitmap, conns, stride);
    while i < EPH_LEN && |ports| != conns
      invariant i <= EPH_LEN && seen == |MarkedList(bitmap, i)|
      invariant |ports| <= conns && Spread(ports, MarkedList(bitmap, i), stride)
      invariant KeepsUp(seen, |ports|, conns, stride)
    {
      OwnsMarked(bitmap, i);
      MarkedListStep(bitmap, i);
      if OwnsPort(bitmap, EPH_BASE + i) {
        KeepsUpStep(seen, |ports|, conns, stride);
        SpreadStep(ports, MarkedList(bitmap, i), stride, i);
        if seen % stride == 0 {
          ports := ports + [EPH_BASE + i];
        }
        seen := seen + 1;
      }
      i := i + 1;
    }
    MarkedListGrows(bitmap, i, EPH_LEN);
    SpreadGrows(ports, MarkedList(bitmap, i), MarkedList(bitmap, EPH_LEN), stride);
    ChoiceCount(ownedCount, conns, |ports|, seen, i == EPH_LEN);
  }

  lemma ChoiceStarts(bitmap: Bitmap, conns: nat, stride: nat)
    requires conns > 0 && stride >= 1
    ensures MarkedList(bitmap, 0) == [] && Spread([], [], stride) && KeepsUp(0, 0, conns, stride)
  {}

  lemma MarkedListStep(bitmap: Bitmap, i: nat)
    requires i < EPH_LEN
    ensures MarkedList(bitmap, i + 1)
         == if Marked(bitmap, i) then MarkedList(bitmap, i) + [i] else MarkedList(bitmap, i)
  {
    hide Marked;
  }

  lemma SpreadGrows(ports: seq<u16>, owned: seq<nat>, more: seq<nat>, stride: nat)
    requires Spread(ports, owned, stride) && owned <= more
    ensures Spread(ports, more, stride)
  {}

  lemma SpreadStep(ports: seq<u16>, owned: seq<nat>, stride: nat, i: nat)
    requires Spread(ports, owned, stride) && i < EPH_LEN
    ensures Spread(ports, owned + [i], stride)
    ensures |owned| == |ports| * stride ==> Spread(ports + [EPH_BASE + i], owned + [i], stride)
  {
    SpreadGrows(ports, owned, owned + [i], stride);
  }

  /** While picks keep up with the stride, the next owned port is picked exactly when its turn comes. */
  lemma KeepsUpStep(seen: nat, picked: nat, conns: nat, stride: nat)
    requires stride >= 1 && picked < conns && KeepsUp(seen, picked, conns, stride)
    ensures seen % stride == 0 <==> seen == picked * stride
    ensures KeepsUp(seen + 1, if seen % stride == 0 then picked + 1 else picked, conns, stride)
  {
    var q, r := seen / stride, seen % stride;
    assert seen == stride * q + r;
    if seen == picked * stride {
      DivUnique(seen, stride, picked, 0);
    } else {
      var gap := picked * stride - seen;
      assert 0 < gap < stride;
      assert seen == stride * (picked - 1) + (stride - gap);
      DivUnique(seen, stride, picked - 1, stride - gap);
    }
    assert (picked + 1) * stride == picked * stride + stride;
  }

  lemma ChoiceCount(owned: nat, conns: nat, picked: nat, seen: nat, exhausted: bool)
    requires conns > 0 && picked <= conns && seen <= owned && (exhausted ==> seen == owned)
    requires KeepsUp(seen, picked, conns, Stride(owned, conns)) && (picked < conns ==> exhausted)
    ensures picked == if conns <= owned then conns else owned
  {
    var stride := Stride(owned, conns);
    if picked == conns {
      MulGrows(conns - 1, stride);
    } else if conns <= owned {
      StrideIsWidest(owned, conns);
      MulGrows(conns - picked, stride);
      assert conns * stride == picked * stride + (conns - picked) * stride;
      assert (conns - picked) * stride < stride;
      MulGe(stride, conns - picked);
    } else {
      DivUnique(owned, conns, 0, owned);
    }
  }

  lemma MulGrows(n: nat, stride: nat)
    requires stride >= 1
    ensures n * stride >= n
  {
    assert n * stride == n + n * (stride - 1);
  }

  /** The chosen ports are owned and strictly increasing. */
  lemma ChosenOwnedAscending(bitmap: Bitmap, ports: seq<u16>, stride: nat)
    requires stride >= 1 && Spread(ports, MarkedList(bitmap, EPH_LEN), stride)
    ensures forall k :: 0 <= k < |ports| ==> ports[k] >= EPH_BASE && OwnsPort(bitmap, ports[k])
    ensures forall j, k :: 0 <= j < k < |ports| ==> ports[j] < ports[k]
  {
    hide Marked, OwnsPort;
    var owned := MarkedList(bitmap, EPH_LEN);
    forall k | 0 <= k < |ports|
      ensures ports[k] >= EPH_BASE && OwnsPort(bitmap, ports[k])
    {
      OwnsMarked(bitmap, owned[k * stride]);
    }
    forall j, k | 0 <= j < k < |ports|
      ensures ports[j] < ports[k]
    {
      assert (k - j) * stride >= stride by { MulGe(stride, k - j); }
      assert j * stride + (k - j) * stride == k * stride;
      assert owned[j * stride] < owned[k * stride];
    }
  }

  /** What a worker does before it connects: mark the ports steered to its queue, and choose
      among them. */
  method PrepareWorker(rss: Rss, flow: Flow, queue: u16, conns: nat) 
    returns (bitmap: array<byte>, ports: seq<u16>, ghost gap: nat)
    requires conns > 0
    ensures fresh(bitmap) && bitmap.Length == OWNED_BITMAP_BYTES && BuiltFor(bitmap[..], rss, flow, queue)
    ensures var owned := |Steered(rss, flow, queue, EPH_LEN)|;
      Spread(ports, MarkedList(bitmap[..], EPH_LEN), gap)
      && (conns <= owned ==> |ports| == conns && conns * gap <= owned < conns * (gap + 1))
      && (owned < conns ==> |ports| == owned && gap == 1)
    ensures forall k :: 0 <= k < |ports| ==>
      ports[k] >= EPH_BASE && QueueForLocalPort(rss, flow, ports[k]) == queue
    ensures forall j, k :: 0 <= j < k < |ports| ==> ports[j] < ports[k]
  {
    hide BuiltFor, Marked, OwnsPort, QueueForLocalPort, Spread, MarkedList, Steered, Stride;
    var count;
    bitmap, count := WorkerBitmap(rss, flow, queue);
    MarkedListLength(bitmap[..], rss, flow, queue, EPH_LEN);
    ports, gap := ChoosePorts(bitmap[..], count, conns);
    ChosenOwnedAscending(bitmap[..], ports, gap);
    forall k | 0 <= k < |ports|
      ensures QueueForLocalPort(rss, flow, ports[k]) == queue
    {
      OwnedIsSteered(bitmap[..], rss, flow, queue, ports[k]);
    }
  }

  lemma OwnedIsSteered(bitmap: Bitmap, rss: Rss, flow: Flow, queue: u16, port: u16)
    requires BuiltFor(bitmap, rss, flow, queue) && port >= EPH_BASE
    ensures OwnsPort(bitmap, port) <==> QueueForLocalPort(rss, flow, port) == queue
  {
    hide QueueForLocalPort, Marked, OwnsPort;
    OwnsMarked(bitmap, port - EPH_BASE);
    assert QueueOf(rss, flow, port - EPH_BASE) == QueueForLocalPort(rss, flow, port);
  }

  /** No port is chosen by two workers. */
  lemma ChoicesDisjoint(rss: Rss, flow: Flow, bitmaps: seq<Bitmap>, p: nat, q: nat,
                        portsP: seq<u16>, strideP: nat, portsQ: seq<u16>, strideQ: nat, port: u16)
    requires rss.Loaded() && rss.EntriesBelow(|bitmaps|) && |bitmaps| < 65536
    requires forall w :: 0 <= w < |bitmaps| ==> BuiltFor(bitmaps[w], rss, flow, w)
    requires p < |bitmaps| && q < |bitmaps| && p != q
    requires strideP >= 1 && Spread(portsP, MarkedList(bitmaps[p], EPH_LEN), strideP)
    requires strideQ >= 1 && Spread(portsQ, MarkedList(bitmaps[q], EPH_LEN), strideQ)
    ensures port !in portsP || port !in portsQ
  {
    hide BuiltFor, Marked, OwnsPort, QueueForLocalPort, Spread, MarkedList;
    if port in portsP && port in portsQ {
      ChosenOwnedAscending(bitmaps[p], portsP, strideP);
      ChosenOwnedAscending(bitmaps[q], portsQ, strideQ);
      OwnershipPartition(rss, flow, bitmaps, port - EPH_BASE);
      assert false;
    }
  }
}
