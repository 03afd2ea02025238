/** The receive path: a burst of frames from the NIC, the checksum filter in the
    shim, the prefetch buffer, the port filter, and the tokens handed up. */
module Receive {
  import opened Words
  import opened Steering
  import PortChoice

  const RX_BURST: nat := 32

  /** One frame in one loan of a packet buffer; `serial` tells loans apart. */
  datatype Mbuf = Mbuf(serial: nat, data: seq<byte>, ipBad: bool, l4Bad: bool)

  // ---- Filters ---------------------------------------------------------------

  predicate ChecksumsGood(m: Mbuf) {
    !m.ipBad && !m.l4Bad
  }

  /** Where the TCP header starts. */
  function L4Offset(data: seq<byte>): nat
    requires |data| >= 54
  {
    14 + 4 * And(data[14], 0x0f)
  }

  /** A frame the port filter looks into: IPv4, TCP, and long enough to name its ports. */
  predicate Filterable(data: seq<byte>) {
    |data| >= 54 && data[12] == 0x08 && data[13] == 0x00 && data[23] == 6
    && L4Offset(data) + 4 <= |data|
  }

  function DstPort(data: seq<byte>): u16
    requires Filterable(data)
  {
    var l4 := L4Offset(data);
    256 * (data[l4 + 2] as nat) + data[l4 + 3]
  }

  predicate Passes(owned: Option<Bitmap>, m: Mbuf) {
    Filterable(m.data) && owned.Some? ==> OwnsPort(owned.value, DstPort(m.data))
  }

  function Good(ms: seq<Mbuf>): seq<Mbuf> {
    if ms == [] then []
    else Good(ms[..|ms| - 1]) + if ChecksumsGood(ms[|ms| - 1]) then [ms[|ms| - 1]] else []
  }

  function Bad(ms: seq<Mbuf>): seq<Mbuf> {
    if ms == [] then []
    else Bad(ms[..|ms| - 1]) + if ChecksumsGood(ms[|ms| - 1]) then [] else [ms[|ms| - 1]]
  }

  function Passing(owned: Option<Bitmap>, ms: seq<Mbuf>): seq<Mbuf> {
    if ms == [] then []
    else Passing(owned, ms[..|ms| - 1]) + if Passes(owned, ms[|ms| - 1]) then [ms[|ms| - 1]] else []
  }

  lemma GoodNext(ms: seq<Mbuf>, i: nat)
    requires i < |ms|
    ensures Good(ms[..i + 1]) == if ChecksumsGood(ms[i]) then Good(ms[..i]) + [ms[i]] else Good(ms[..i])
    ensures Bad(ms[..i + 1]) == if ChecksumsGood(ms[i]) then Bad(ms[..i]) else Bad(ms[..i]) + [ms[i]]
  {
    assert ms[..i + 1] == ms[..i] + [ms[i]];
    GoodPush(ms[..i], ms[i]);
  }

  lemma {:induction false} GoodConcat(a: seq<Mbuf>, b: seq<Mbuf>)
    ensures Good(a + b) == Good(a) + Good(b)
  {
    if b == [] {
      assert a + b == a;
    } else {
      assert (a + b)[..|a + b| - 1] == a + b[..|b| - 1];
      GoodConcat(a, b[..|b| - 1]);
    }
  }

  lemma {:induction false} PassingConcat(owned: Option<Bitmap>, a: seq<Mbuf>, b: seq<Mbuf>)
    ensures Passing(owned, a + b) == Passing(owned, a) + Passing(owned, b)
  {
    hide Passes;
    if b == [] {
      assert a + b == a;
    } else {
      assert (a + b)[..|a + b| - 1] == a + b[..|b| - 1];
      PassingConcat(owned, a, b[..|b| - 1]);
    }
  }

  lemma MultisetPush(s: seq<Mbuf>, x: Mbuf)
    ensures multiset(s + [x]) == multiset(s) + multiset{x}
  {}

  lemma GoodPush(ms: seq<Mbuf>, x: Mbuf)
    ensures Good(ms + [x]) == if ChecksumsGood(x) then Good(ms) + [x] else Good(ms)
    ensures Bad(ms + [x]) == if ChecksumsGood(x) then Bad(ms) else Bad(ms) + [x]
  {
    assert (ms + [x])[..|ms|] == ms;
  }

  /** Every drained frame is good or bad, never both. */
  lemma {:induction false} GoodOrBad(ms: seq<Mbuf>)
    ensures multiset(ms) == multiset(Good(ms)) + multiset(Bad(ms))
  {
    if ms != [] {
      hide *;
      var init, last := ms[..|ms| - 1], ms[|ms| - 1];
      assert init + [last] == ms;
      GoodOrBad(init);
      GoodPush(init, last);
      MultisetPush(init, last);
      if ChecksumsGood(last) { MultisetPush(Good(init), last); } else { MultisetPush(Bad(init), last); }
    }
  }

  /** A frame is handed on when neither checksum is bad, and freed when one is. */
  lemma {:induction false} SortedByChecksum(ms: seq<Mbuf>)
    ensures forall m :: m in Good(ms) <==> m in ms && !m.ipBad && !m.l4Bad
    ensures forall m :: m in Bad(ms) <==> m in ms && (m.ipBad || m.l4Bad)
  {
    if ms != [] {
      var n := |ms| - 1;
      SortedByChecksum(ms[..n]);
      assert ms == ms[..n] + [ms[n]];
    }
  }

  // ---- The NIC queue and the shim --------------------------------------------

  /** One receive queue.  `pending` has arrived and not been drained; `drained` and
      `freed` record every buffer handed out and every one given back. */
  class Queue {
    var pending: seq<Mbuf>
    ghost var drained: seq<Mbuf>
    ghost var freed: seq<Mbuf>

    constructor (pending: seq<Mbuf>)
      ensures this.pending == pending && drained == [] && freed == []
    {
      this.pending := pending;
      drained, freed := [], [];
    }

    /** The driver: hands out some of what has arrived, at most `max`. */
    method Burst(max: nat) returns (bufs: seq<Mbuf>)
      modifies this`pending, this`drained
      ensures |bufs| <= max && old(pending) == bufs + pending && drained == old(drained) + bufs
    {
      var n: nat :| n <= max && n <= |pending|;
      bufs := pending[..n];
      pending := pending[n..];
      drained := drained + bufs;
    }

    method Free(m: Mbuf)
      modifies this`freed
      ensures freed == old(freed) + [m]
    {
      freed := freed + [m];
    }

    /** Fills three parallel arrays with the good frames of a burst, in order and without
        gaps, leaves the rest of each array alone, and frees the other frames. */
    method RxBurst(handles: array<Mbuf>, data: array<seq<byte>>, lens: array<nat>, max: nat)
      returns (n: nat, ghost bufs: seq<Mbuf>)
      requires handles.Length >= max && data.Length >= max && lens.Length >= max
      modifies this`pending, this`drained, this`freed, handles, data, lens
      ensures |bufs| <= max && |bufs| <= RX_BURST
      ensures old(pending) == bufs + pending && drained == old(drained) + bufs
      ensures n <= max && handles[..n] == Good(bufs)
      ensures handles[n..] == old(handles[n..]) && data[n..] == old(data[n..]) && lens[n..] == old(lens[n..])
      ensures forall i :: 0 <= i < n ==> data[i] == handles[i].data && lens[i] == |handles[i].data|
      ensures freed == old(freed) + Bad(bufs)
    {
      hide Good, Bad;
      var got := Burst(if max > RX_BURST then RX_BURST else max);
      bufs := got;
      n := 0;
      GoodStart(bufs);
      for i := 0 to |got|
        invariant n <= i && handles[..n] == Good(bufs[..i])
        invariant forall j :: n <= j < handles.Length ==> handles[j] == old(handles[j])
        invariant forall j :: n <= j < data.Length ==> data[j] == old(data[j])
        invariant forall j :: n <= j < lens.Length ==> lens[j] == old(lens[j])
        invariant forall j :: 0 <= j < n ==> data[j] == handles[j].data && lens[j] == |handles[j].data|
        invariant freed == old(freed) + Bad(bufs[..i])
        modifies this`freed, handles, data, lens
      {
        var m := got[i];
        GoodNext(bufs, i);
        if m.ipBad || m.l4Bad {
          Free(m);
          continue;
        }
        ghost var before := handles[..n];
        handles[n], data[n], lens[n] := m, m.data, |m.data|;
        n := n + 1;
        assert handles[..n] == before + [m];
      }
      assert bufs[..|bufs|] == bufs;
    }
  }

  lemma GoodStart(ms: seq<Mbuf>)
    ensures Good(ms[..0]) == [] && Bad(ms[..0]) == []
  {}

  // ---- The accounts of a device ------------------------------------------------

  /** Every buffer a device has drained, by where it went.  `examined` frames have been
      through the port filter; `handed` are those of them handed up; `outstanding` the
      tokens not yet given back. */
  datatype Books = Books(drained: seq<Mbuf>, freed: seq<Mbuf>, prefetched: seq<Mbuf>,
                         examined: seq<Mbuf>, handed: seq<Mbuf>, outstanding: multiset<Mbuf>, misrouted: nat)

  /** Order: what was examined and what is prefetched are the good drained frames; what
      was handed up is what passes the port filter; the rest is the misrouted count.
      Ownership: every drained buffer is prefetched, outstanding or freed, and only one of these. */
  ghost predicate Balanced(owned: Option<Bitmap>, b: Books) {
    Good(b.drained) == b.examined + b.prefetched
    && b.handed == Passing(owned, b.examined)
    && b.misrouted == |b.examined| - |b.handed|
    && multiset(b.drained) == multiset(b.freed) + b.outstanding + multiset(b.prefetched)
  }

  ghost function AfterRefill(b: Books, bufs: seq<Mbuf>): Books {
    b.(drained := b.drained + bufs, freed := b.freed + Bad(bufs), prefetched := Good(bufs))
  }

  ghost function AfterExamine(owned: Option<Bitmap>, b: Books): Books
    requires b.prefetched != []
  {
    var m := b.prefetched[0];
    var next := b.(prefetched := b.prefetched[1..], examined := b.examined + [m]);
    if Passes(owned, m) then next.(handed := b.handed + [m], outstanding := b.outstanding + multiset{m})
    else next.(freed := b.freed + [m], misrouted := b.misrouted + 1)
  }

  ghost function AfterDrop(b: Books, m: Mbuf): Books {
    b.(freed := b.freed + [m], outstanding := b.outstanding - multiset{m})
  }

  lemma RefillBalances(owned: Option<Bitmap>, b: Books, bufs: seq<Mbuf>)
    requires Balanced(owned, b) && b.prefetched == []
    ensures Balanced(owned, AfterRefill(b, bufs))
  {
    hide Good, Bad, Passing;
    GoodConcat(b.drained, bufs);
    GoodOrBad(bufs);
    assert b.examined + [] == b.examined;
  }

  lemma ExamineBalances(owned: Option<Bitmap>, b: Books)
    requires Balanced(owned, b) && b.prefetched != []
    ensures Balanced(owned, AfterExamine(owned, b))
  {
    hide Good, Passing, Passes;
    var m, rest := b.prefetched[0], b.prefetched[1..];
    assert b.prefetched == [m] + rest;
    assert b.examined + b.prefetched == (b.examined + [m]) + rest;
    PassingNext(owned, b.examined, m);
  }

  lemma DropBalances(owned: Option<Bitmap>, b: Books, m: Mbuf)
    requires Balanced(owned, b) && m in b.outstanding
    ensures Balanced(owned, AfterDrop(b, m))
  {
    hide Good, Passing;
  }

  // ---- The device ------------------------------------------------------------

  datatype RxToken = Loan(m: Mbuf, data: seq<byte>, len: nat) | Synth(frame: seq<byte>)

  class Device {
    const queue: Queue
    const owned: Option<Bitmap>
    const handles: array<Mbuf>
    const data: array<seq<byte>>
    const lens: array<nat>
    var pendingSynth: Option<seq<byte>>
    var pos: nat
    var len: nat
    var misrouted: nat
    ghost var examined: seq<Mbuf>
    ghost var handed: seq<Mbuf>
    ghost var outstanding: multiset<Mbuf>

    ghost predicate Shape()
      reads this, handles, data, lens
    {
      handles.Length == RX_BURST && data.Length == RX_BURST && lens.Length == RX_BURST
      && pos <= len <= RX_BURST
      && forall i :: pos <= i < len ==> data[i] == handles[i].data && lens[i] == |handles[i].data|
    }

    ghost function Account(): Books
      requires Shape()
      reads this, queue, handles, data, lens
    {
      Books(queue.drained, queue.freed, handles[pos..len], examined, handed, outstanding, misrouted)
    }

    ghost predicate Valid()
      reads this, queue, handles, data, lens
    {
      Shape() && Balanced(owned, Account())
    }

    constructor (queue: Queue, owned: Option<Bitmap>, synth: Option<seq<byte>>)
      requires queue.drained == [] && queue.freed == []
      ensures Valid() && this.queue == queue && this.owned == owned && pendingSynth == synth
      ensures fresh(handles) && fresh(data) && fresh(lens)
    {
      this.queue, this.owned, pendingSynth := queue, owned, synth;
      handles := new Mbuf[RX_BURST];
      data := new seq<byte>[RX_BURST](_ => []);
      lens := new nat[RX_BURST](_ => 0);
      pos, len, misrouted := 0, 0, 0;
      examined, handed, outstanding := [], [], multiset{};
    }

    method Receive() returns (token: Option<RxToken>)
      requires Valid()
      modifies this`pendingSynth, this`pos, this`len, this`misrouted, this`examined, this`handed, this`outstanding
      modifies queue, handles, data, lens
      ensures Valid() && pendingSynth == None
      ensures old(pendingSynth).Some? ==>
        token == Some(Synth(old(pendingSynth).value)) && Account() == old(Account())
      ensures old(pendingSynth).None? ==>
        match token
        case None => handed == old(handed) && outstanding == old(outstanding) && pos == len
        case Some(t) =>
          t.Loan? && t == Loan(t.m, t.m.data, |t.m.data|) && Passes(owned, t.m)
          && handed == old(handed) + [t.m] && outstanding == old(outstanding) + multiset{t.m}
    {
      hide Balanced, Passes;
      if pendingSynth.Some? {
        token := Some(Synth(pendingSynth.value));
        pendingSynth := None;
      } else {
        var found := Next();
        token := if found.None? then None else Some(Loan(found.value, found.value.data, |found.value.data|));
      }
    }

    /** The refill-and-filter loop: the next frame that passes, or none when a burst brings nothing. */
    method Next() returns (found: Option<Mbuf>)
      requires Valid()
      modifies this`pos, this`len, this`misrouted, this`examined, this`handed, this`outstanding
      modifies queue, handles, data, lens
      ensures Valid()
      ensures found.None? ==> handed == old(handed) && outstanding == old(outstanding) && pos == len
      ensures found.Some? ==>
        Passes(owned, found.value) && handed == old(handed) + [found.value]
        && outstanding == old(outstanding) + multiset{found.value}
    {
      hide Balanced, Passes, AfterRefill, AfterExamine;
      while true
        invariant Valid() && handed == old(handed) && outstanding == old(outstanding)
        decreases |queue.pending|, len - pos
      {
        if pos == len {
          var got, bufs := Refill();
          if got == 0 { return None; }
        }
        var m, ok := Examine();
        if ok { return Some(m); }
      }
    }

    /** Replaces an empty prefetch buffer by the next burst. */
    method Refill() returns (got: nat, ghost bufs: seq<Mbuf>)
      requires Valid() && pos == len
      modifies this`pos, this`len, queue, handles, data, lens
      ensures Valid() && Account() == AfterRefill(old(Account()), bufs)
      ensures old(queue.pending) == bufs + queue.pending
      ensures got == len - pos && (got > 0 ==> bufs != [])
      ensures examined == old(examined) && handed == old(handed) && outstanding == old(outstanding)
      ensures queue.drained == old(queue.drained) + bufs
    {
      hide Balanced, Good, Bad;
      ghost var before := Account();
      got, bufs := queue.RxBurst(handles, data, lens, RX_BURST);
      RefillBalances(owned, before, bufs);
      GoodNonempty(bufs);
      if got == 0 {
        assert handles[..0] == [] && handles[pos..len] == [];
        return;
      }
      pos := 0;
      len := got;
    }

    /** Takes the next prefetched frame through the port filter; a frame that fails is
        counted and freed. */
    method Examine() returns (m: Mbuf, ok: bool)
      requires Valid() && pos < len
      modifies this`pos, this`misrouted, this`examined, this`handed, this`outstanding, queue`freed
      ensures Valid() && pos == old(pos) + 1
      ensures m == old(handles[pos]) && ok == Passes(owned, m)
      ensures Account() == AfterExamine(owned, old(Account()))
      ensures examined == old(examined) + [m] && handed == old(handed) + (if ok then [m] else [])
      ensures outstanding == old(outstanding) + (if ok then multiset{m} else multiset{})
    {
      hide Balanced, DstPort, Filterable, OwnsPort;
      ghost var before := Account();
      ExamineBalances(owned, before);
      m := handles[pos];
      pos := pos + 1;
      examined := examined + [m];
      ok := true;
      if Filterable(m.data) {
        ok := owned.None? || OwnsPort(owned.value, DstPort(m.data));
        if !ok { misrouted := misrouted + 1; }
      }
      if ok {
        handed := handed + [m];
        outstanding := outstanding + multiset{m};
      } else {
        queue.Free(m);
      }
      assert handles[pos..len] == before.prefetched[1..];
    }

    /** A token is given back once, consumed or dropped; either way its buffer is freed. */
    method Consume(token: RxToken) returns (frame: seq<byte>)
      requires Valid() && (token.Loan? ==> token.m in outstanding && token.data == token.m.data)
      modifies this`outstanding, queue`freed
      ensures Valid()
      ensures token.Loan? ==> frame == token.m.data && Account() == AfterDrop(old(Account()), token.m)
      ensures token.Synth? ==> frame == token.frame && Account() == old(Account())
    {
      match token
      case Loan(m, data, len) =>
        frame := data;
        Drop(token);
      case Synth(f) =>
        frame := f;
    }

    method Drop(token: RxToken)
      requires Valid() && (token.Loan? ==> token.m in outstanding)
      modifies this`outstanding, queue`freed
      ensures Valid()
      ensures token.Loan? ==> Account() == AfterDrop(old(Account()), token.m)
      ensures token.Synth? ==> Account() == old(Account())
    {
      hide Balanced;
      if token.Loan? {
        DropBalances(owned, Account(), token.m);
        outstanding := outstanding - multiset{token.m};
        queue.Free(token.m);
      }
    }
  }

  // ---- What balanced accounts mean ---------------------------------------------

  /** What was handed up is, in order, the beginning of the drained frames that pass both filters. */
  lemma HandedIsPrefix(owned: Option<Bitmap>, b: Books)
    requires Balanced(owned, b)
    ensures b.handed <= Passing(owned, Good(b.drained))
    ensures b.prefetched == [] ==> b.handed == Passing(owned, Good(b.drained))
  {
    hide Good, Passing;
    PassingConcat(owned, b.examined, b.prefetched);
    assert b.examined + [] == b.examined;
  }

  /** With distinct loans, every drained buffer is in exactly one place, and freed at most once. */
  lemma OnePlace(owned: Option<Bitmap>, b: Books, m: Mbuf)
    requires Balanced(owned, b) && m in b.drained
    requires forall i, j :: 0 <= i < j < |b.drained| ==> b.drained[i] != b.drained[j]
    ensures multiset(b.freed)[m] + b.outstanding[m] + multiset(b.prefetched)[m] == 1
  {
    hide Good, Passing;
    CountDistinct(b.drained, m);
  }

  /** When the NIC places every frame by the hash, nothing is misrouted. */
  lemma NothingMisrouted(bitmap: Bitmap, b: Books, rss: Rss, flow: Flow, q: u16)
    requires Balanced(Some(bitmap), b) && BuiltFor(bitmap, rss, flow, q)
    requires forall m :: m in b.drained ==> PlacedByHash(rss, flow, q, m.data)
    ensures b.misrouted == 0 && b.handed == b.examined
  {
    hide Passes, Good, Passing, PlacedByHash, BuiltFor;
    forall m | m in b.examined
      ensures Passes(Some(bitmap), m)
    {
      assert m in Good(b.drained);
      GoodOnly(b.drained, m);
      PlacedPasses(rss, flow, q, bitmap, m);
    }
    PassingAll(Some(bitmap), b.examined);
  }

  lemma PassingNext(owned: Option<Bitmap>, ms: seq<Mbuf>, m: Mbuf)
    ensures Passing(owned, ms + [m]) == if Passes(owned, m) then Passing(owned, ms) + [m] else Passing(owned, ms)
  {
    assert (ms + [m])[..|ms|] == ms;
  }

  lemma {:induction false} PassingAll(owned: Option<Bitmap>, ms: seq<Mbuf>)
    requires forall m :: m in ms ==> Passes(owned, m)
    ensures Passing(owned, ms) == ms
  {
    if ms != [] {
      hide Passes, Passing;
      var init, last := ms[..|ms| - 1], ms[|ms| - 1];
      assert ms == init + [last];
      PassingAll(owned, init);
      PassingNext(owned, init, last);
    }
  }

  lemma GoodNonempty(ms: seq<Mbuf>)
    ensures Good(ms) != [] ==> ms != []
  {}

  lemma {:induction false} GoodOnly(ms: seq<Mbuf>, m: Mbuf)
    requires m in Good(ms)
    ensures m in ms
  {
    if m in Good(ms[..|ms| - 1]) { GoodOnly(ms[..|ms| - 1], m); }
  }

  lemma {:induction false} CountDistinct<T>(s: seq<T>, x: T)
    requires x in s && forall i, j :: 0 <= i < j < |s| ==> s[i] != s[j]
    ensures multiset(s)[x] == 1
  {
    var n := |s| - 1;
    assert s == s[..n] + [s[n]];
    if s[n] == x {
      assert x !in s[..n];
    } else {
      CountDistinct(s[..n], x);
    }
  }

  // ---- Frames placed by the hash ---------------------------------------------

  /** The addresses and ports of a frame, in the order the NIC hashes them. */
  function FrameTuple(data: seq<byte>): seq<byte>
    requires Filterable(data)
  {
    data[26..34] + data[L4Offset(data)..L4Offset(data) + 4]
  }

  /** A TCP frame comes from the target to us, and arrives on the queue its hash selects. */
  ghost predicate PlacedByHash(rss: Rss, flow: Flow, q: u16, data: seq<byte>) {
    Filterable(data) ==>
      data[26..30] == flow.target && data[30..34] == flow.ours
      && data[L4Offset(data)..L4Offset(data) + 2] == Be16(flow.targetPort)
      && PredictQueue(rss, FrameTuple(data)) == q
  }

  lemma PlacedPasses(rss: Rss, flow: Flow, q: u16, bitmap: Bitmap, m: Mbuf)
    requires BuiltFor(bitmap, rss, flow, q) && PlacedByHash(rss, flow, q, m.data)
    ensures Passes(Some(bitmap), m)
  {
    hide PredictQueue, OwnsPort, Marked, And;
    if Filterable(m.data) && DstPort(m.data) >= EPH_BASE {
      var data, l4, port := m.data, L4Offset(m.data), DstPort(m.data);
      assert data[26..34] == data[26..30] + data[30..34];
      assert data[l4..l4 + 4] == data[l4..l4 + 2] + data[l4 + 2..l4 + 4];
      DstPortBytes(data);
      assert FrameTuple(data) == Tuple(flow, port);
      OwnsMarked(bitmap, port - EPH_BASE);
      assert QueueOf(rss, flow, port - EPH_BASE) == q;
    } else if Filterable(m.data) {
      LowPortOwned(bitmap, DstPort(m.data));
    }
  }

  lemma DstPortBytes(data: seq<byte>)
    requires Filterable(data)
    ensures var l4 := L4Offset(data); data[l4 + 2..l4 + 4] == Be16(DstPort(data))
  {
    hide L4Offset;
    var l4, port := L4Offset(data), DstPort(data);
    assert port / 256 == data[l4 + 2] && port % 256 == data[l4 + 3];
  }

  lemma LowPortOwned(bitmap: Bitmap, port: u16)
    requires port < EPH_BASE
    ensures OwnsPort(bitmap, port)
  {}

  /** No return frame of a chosen port is filtered, wherever the other frames go. */
  lemma ChosenPortPasses(bitmap: Bitmap, ports: seq<u16>, stride: nat, m: Mbuf)
    requires stride >= 1 && PortChoice.Spread(ports, PortChoice.MarkedList(bitmap, EPH_LEN), stride)
    requires Filterable(m.data) && DstPort(m.data) in ports
    ensures Passes(Some(bitmap), m)
  {
    hide PortChoice.Spread, PortChoice.MarkedList, OwnsPort;
    PortChoice.ChosenOwnedAscending(bitmap, ports, stride);
  }
}
