/** One plain-HTTP connection: the step that drives it, the socket it drives, and
    what holds in every run of polls and steps. */
module Connection {
  import opened Decimals
  import opened ResponseBody
  import opened Words

  const SYN_TIMEOUT_MS: int := 5000

  datatype TcpState =
    | Closed | SynSent | Established | FinWait1 | FinWait2 | CloseWait | Closing | LastAck | TimeWait

  /** The peer's FIN has been taken in order, after its last byte. */
  predicate FinSeen(s: TcpState) {
    s == CloseWait || s == Closing || s == LastAck || s == TimeWait
  }

  predicate MaySend(s: TcpState) {
    s == Established || s == CloseWait
  }

  predicate Ended(s: TcpState) {
    s == Closed || s == CloseWait || s == TimeWait
  }

  // ---- One connection and its socket, as a value -----------------------------

  /** What never changes: the request, and all the peer sends before its FIN. */
  datatype Ends = Ends(request: seq<byte>, peer: seq<byte>)

  /** The socket's side. `arrived` bytes of the peer's stream are in, `read` of them
      handed up; `sent` is what the socket took from the application. */
  datatype Sock = Sock(state: TcpState, arrived: nat, read: nat, sent: seq<byte>, fin: bool) {
    predicate Valid(peer: seq<byte>) {
      read <= arrived <= |peer| && (fin ==> arrived == |peer|) && (FinSeen(state) ==> fin)
    }
  }

  /** The application's side. */
  datatype App = App(outgoing: seq<byte>, requestQueued: bool, handshakeDone: bool,
                     done: bool, closedCleanly: bool, settled: bool, scan: Scan)

  datatype Link = Link(sock: Sock, app: App)

  const NEW_APP := App([], false, false, false, false, false, START)
  const NEW_LINK := Link(Sock(SynSent, 0, 0, [], false), NEW_APP)

  /** Something happens: the interface is polled, or the connection is stepped.  A step
      times out, or lets the socket accept and hand up some number of bytes. */
  datatype Event =
    | Poll(state: TcpState, arrived: nat, fin: bool)
    | Step(timedOut: bool, accepted: nat, taken: nat)

  /** What the socket is offered: all that is outstanding, and the request once it may go. */
  function ToSend(e: Ends, a: Link): seq<byte> {
    a.app.outgoing + if !a.app.requestQueued && MaySend(a.sock.state) then e.request else []
  }

  /** What the environment can do.  A poll only brings in more of the peer's stream and
      marks its end; a closed socket takes in nothing more. */
  predicate Legal(e: Ends, a: Link, event: Event) {
    match event
    case Poll(state, arrived, fin) =>
      a.sock.arrived <= arrived <= |e.peer| && (a.sock.fin ==> fin) && (fin ==> arrived == |e.peer|)
      && (FinSeen(state) ==> fin)
      && (a.sock.state == Closed ==> state == Closed && arrived == a.sock.arrived && fin == a.sock.fin)
    case Step(timedOut, accepted, taken) =>
      !a.app.done ==>
        if timedOut then a.sock.state == SynSent
        else
          accepted <= |ToSend(e, a)| && (accepted > 0 ==> MaySend(a.sock.state))
          && a.sock.read + taken <= a.sock.arrived
  }

  // The four phases of a step.

  function AfterSettle(a: Link, timedOut: bool): Link {
    if timedOut then Link(a.sock.(state := Closed), a.app.(settled := true, done := true))
    else a.(app := a.app.(settled := a.app.settled || a.sock.state == Established))
  }

  function AfterTransmit(e: Ends, a: Link, accepted: nat): Link
    requires accepted <= |ToSend(e, a)|
  {
    var out, open := ToSend(e, a), MaySend(a.sock.state);
    Link(a.sock.(sent := a.sock.sent + out[..accepted]),
         a.app.(outgoing := out[accepted..],
                requestQueued := a.app.requestQueued || open,
                handshakeDone := a.app.handshakeDone || (open && !a.app.requestQueued)))
  }

  function AfterDrain(e: Ends, a: Link, taken: nat): Link
    requires a.sock.read + taken <= |e.peer|
  {
    Link(a.sock.(read := a.sock.read + taken),
         a.app.(scan := ScanAll(a.app.scan, e.peer[a.sock.read..a.sock.read + taken])))
  }

  /** Finished once the request is out, the peer has closed and the socket is empty. */
  function AfterFinish(a: Link): Link {
    if a.app.handshakeDone && a.app.requestQueued && Ended(a.sock.state)
       && a.app.outgoing == [] && a.sock.read >= a.sock.arrived
    then a.(app := a.app.(closedCleanly := true, done := true))
    else a
  }

  function After(e: Ends, a: Link, event: Event): Link
    requires a.sock.Valid(e.peer) && Legal(e, a, event)
  {
    match event
    case Poll(state, arrived, fin) =>
      a.(sock := a.sock.(state := state, arrived := arrived, fin := fin))
    case Step(timedOut, accepted, taken) =>
      if a.app.done then a
      else if timedOut then AfterSettle(a, true)
      else AfterFinish(AfterDrain(e, AfterTransmit(e, AfterSettle(a, false), accepted), taken))
  }

  /** What a step adds to the counters of established and of failed connections. */
  function AddsEstablished(a: Link, event: Event): nat {
    if event.Step? && !a.app.done && !a.app.settled && a.sock.state == Established then 1 else 0
  }

  function AddsFailed(a: Link, event: Event): nat {
    if event.Step? && !a.app.done && event.timedOut && !a.app.settled then 1 else 0
  }

  /** The first bad status after the scan went on, where 0 stands for none so far. */
  function FirstBad(first: nat, before: Scan, after: Scan): nat {
    if first == 0 && Refused(before, after) == 1 then after.status else first
  }

  // ---- Runs ------------------------------------------------------------------

  ghost predicate Run(e: Ends, events: seq<Event>)
    decreases |events|, 0
  {
    events == [] ||
    var init := events[..|events| - 1];
    Run(e, init) && Legal(e, Reached(e, init), events[|events| - 1])
  }

  /** The link after a run from a fresh connection. */
  ghost function Reached(e: Ends, events: seq<Event>): (a: Link)
    requires Run(e, events)
    ensures a.sock.Valid(e.peer)
    decreases |events|, 1
  {
    if events == [] then NEW_LINK
    else After(e, Reached(e, events[..|events| - 1]), events[|events| - 1])
  }

  /** What the run added to the counters. */
  ghost function Settlements(e: Ends, events: seq<Event>): nat
    requires Run(e, events)
  {
    if events == [] then 0
    else
      var init, last := events[..|events| - 1], events[|events| - 1];
      var a := Reached(e, init);
      Settlements(e, init) + AddsEstablished(a, last) + AddsFailed(a, last)
  }

  ghost predicate Inv(e: Ends, a: Link) {
    a.sock.Valid(e.peer)
    && a.sock.sent + a.app.outgoing == (if a.app.requestQueued then e.request else [])
    && a.app.handshakeDone == a.app.requestQueued
    && a.app.scan == ScanAll(START, e.peer[..a.sock.read])
    && (a.app.closedCleanly ==>
          a.app.done && a.app.requestQueued && a.app.outgoing == []
          && a.sock.read == a.sock.arrived && (a.sock.fin || a.sock.state == Closed))
  }

  lemma TransmitKeepsInv(e: Ends, a: Link, accepted: nat)
    requires Inv(e, a) && !a.app.done && accepted <= |ToSend(e, a)|
    ensures Inv(e, AfterTransmit(e, a, accepted))
  {
    hide ScanAll;
    var out := ToSend(e, a);
    assert out[..accepted] + out[accepted..] == out;
  }

  lemma DrainKeepsInv(e: Ends, a: Link, taken: nat)
    requires Inv(e, a) && !a.app.done && a.sock.read + taken <= a.sock.arrived
    ensures Inv(e, AfterDrain(e, a, taken))
  {
    hide ScanAll;
    var read := a.sock.read + taken;
    assert e.peer[..a.sock.read] + e.peer[a.sock.read..read] == e.peer[..read];
    ScanConcat(START, e.peer[..a.sock.read], e.peer[a.sock.read..read]);
  }

  lemma AfterKeepsInv(e: Ends, a: Link, event: Event)
    requires Inv(e, a) && Legal(e, a, event)
    ensures Inv(e, After(e, a, event))
    ensures a.app.done ==> After(e, a, event).app == a.app
  {
    hide ScanAll;
    if event.Step? && !a.app.done && !event.timedOut {
      var b := AfterSettle(a, false);
      assert ToSend(e, b) == ToSend(e, a);
      TransmitKeepsInv(e, b, event.accepted);
      DrainKeepsInv(e, AfterTransmit(e, b, event.accepted), event.taken);
    }
  }

  lemma SettlesOnce(e: Ends, a: Link, event: Event)
    requires a.sock.Valid(e.peer) && Legal(e, a, event)
    ensures AddsEstablished(a, event) + AddsFailed(a, event) + (if a.app.settled then 1 else 0)
         == if After(e, a, event).app.settled then 1 else 0
  {
    hide ScanAll;
  }

  /** Every run keeps: bytes sent and still to send make up the request or nothing, the
      scan is that of the bytes read so far, and a connection settles at most once. */
  lemma {:induction false} RunKeepsInv(e: Ends, events: seq<Event>)
    requires Run(e, events)
    ensures Inv(e, Reached(e, events))
    ensures Settlements(e, events) == if Reached(e, events).app.settled then 1 else 0
  {
    if events != [] {
      hide Inv, After, Legal, AddsEstablished, AddsFailed;
      var init, last := events[..|events| - 1], events[|events| - 1];
      RunKeepsInv(e, init);
      AfterKeepsInv(e, Reached(e, init), last);
      SettlesOnce(e, Reached(e, init), last);
    } else {
      NewLinkInv(e);
    }
  }

  lemma NewLinkInv(e: Ends)
    ensures Inv(e, NEW_LINK)
  {
    assert e.peer[..0] == [];
  }

  /** Once done, a connection's own state never changes again. */
  lemma {:induction false} DoneIsAbsorbing(e: Ends, events: seq<Event>, k: nat)
    requires Run(e, events) && k <= |events|
    ensures Run(e, events[..k])
    ensures Reached(e, events[..k]).app.done ==> Reached(e, events).app == Reached(e, events[..k]).app
  {
    if k == |events| {
      assert events[..k] == events;
    } else {
      hide Inv, After, Legal;
      var init := events[..|events| - 1];
      DoneIsAbsorbing(e, init, k);
      assert init[..k] == events[..k];
      RunKeepsInv(e, init);
      AfterKeepsInv(e, Reached(e, init), events[|events| - 1]);
    }
  }

  /** A connection closed cleanly sent its whole request once and counted the body of what
      it received.  That is the whole body exactly when the whole stream arrived, as it has
      after a FIN, or there is no body at all. */
  lemma CleanCloseIsComplete(e: Ends, events: seq<Event>)
    requires Run(e, events) && Reached(e, events).app.closedCleanly
    ensures var a := Reached(e, events);
      a.sock.sent == e.request
      && a.app.scan.bytes == BodyLength(e.peer[..a.sock.arrived])
      && (a.app.scan.bytes == BodyLength(e.peer) <==> a.sock.arrived == |e.peer| || BodyLength(e.peer) == 0)
      && (a.sock.fin ==> a.sock.arrived == |e.peer|)
  {
    RunKeepsInv(e, events);
    var a := Reached(e, events);
    ScanCountsBody(e.peer[..a.sock.read]);
    BodyOfPrefix(e.peer, a.sock.arrived);
  }

  /** A reset ends a connection cleanly as soon as the request is out: of a stream with a
      body, none of which arrives before the reset, nothing is counted. */
  lemma ResetLooksClean(e: Ends)
    ensures var events := [Poll(Established, 0, false), Step(false, |e.request|, 0),
                           Poll(Closed, 0, false), Step(false, 0, 0)];
      Run(e, events) && Reached(e, events).app.closedCleanly && Reached(e, events).app.scan.bytes == 0
  {
    hide ScanAll;
    var p, s := Poll(Established, 0, false), Step(false, |e.request|, 0);
    var c, t := Poll(Closed, 0, false), Step(false, 0, 0);
    RunOnce(e, [], p);
    RunOnce(e, [p], s);
    RunOnce(e, [p, s], c);
    RunOnce(e, [p, s, c], t);
    ScanNothing(START);
    assert e.peer[0..0] == [];
    assert [] + [p] == [p] && [p] + [s] == [p, s] && [p, s] + [c] == [p, s, c] && [p, s, c] + [t] == [p, s, c, t];
  }

  lemma ScanNothing(s: Scan)
    ensures ScanAll(s, []) == s
  {}

  lemma RunOnce(e: Ends, init: seq<Event>, last: Event)
    ensures Run(e, init + [last]) <==> Run(e, init) && Legal(e, Reached(e, init), last)
    ensures Run(e, init + [last]) ==> Reached(e, init + [last]) == After(e, Reached(e, init), last)
    ensures Run(e, []) && Reached(e, []) == NEW_LINK
  {
    assert (init + [last])[..|init|] == init;
  }

  // ---- What a run counts as refused ------------------------------------------

  /** What the run added to the counter of refusals. */
  ghost function Refusals(e: Ends, events: seq<Event>): nat
    requires Run(e, events)
  {
    if events == [] then 0
    else
      var init := events[..|events| - 1];
      Refusals(e, init) + Refused(Reached(e, init).app.scan, Reached(e, events).app.scan)
  }

  /** The first bad status after the run, if it was `first` before. */
  ghost function FirstBadAfter(e: Ends, events: seq<Event>, first: nat): nat
    requires Run(e, events)
  {
    if events == [] then first
    else
      var init := events[..|events| - 1];
      FirstBad(FirstBadAfter(e, init, first), Reached(e, init).app.scan, Reached(e, events).app.scan)
  }

  lemma ScanGoesOn(e: Ends, a: Link, event: Event)
    requires a.sock.Valid(e.peer) && Legal(e, a, event)
    ensures var s, next := a.app.scan, After(e, a, event).app.scan;
      Refused(START, next) == Refused(START, s) + Refused(s, next)
      && (Refused(START, s) == 1 ==> next.status == s.status)
  {
    hide ScanAll;
    if event.Step? && !a.app.done && !event.timedOut {
      RefusedOnce(a.app.scan, e.peer[a.sock.read..a.sock.read + event.taken]);
    }
  }

  lemma {:induction false} RefusalsAddUp(e: Ends, events: seq<Event>, first: nat)
    requires Run(e, events)
    ensures var s := Reached(e, events).app.scan;
      Refusals(e, events) == Refused(START, s)
      && FirstBadAfter(e, events, first) == if first == 0 && Refused(START, s) == 1 then s.status else first
  {
    if events != [] {
      hide After, Legal, Refused;
      var init, last := events[..|events| - 1], events[|events| - 1];
      RefusalsAddUp(e, init, first);
      ScanGoesOn(e, Reached(e, init), last);
    } else {
      NotRefused(START, first);
    }
  }

  /** Over a run a connection is counted as refused once, if what it read of the peer's stream
      holds a header with a status other than 206, and never otherwise; and that status is
      recorded as the first bad one if there was none before. */
  lemma RunRefusals(e: Ends, events: seq<Event>, first: nat)
    requires Run(e, events)
    ensures var stream := e.peer[..Reached(e, events).sock.read];
      Refusals(e, events) == (if Refuses(stream) then 1 else 0)
      && (first != 0 || !Refuses(stream) ==> FirstBadAfter(e, events, first) == first)
      && (first == 0 ==> forall n: nat :: RefusesAt(stream, n) ==>
            FirstBadAfter(e, events, first) == StatusCode(stream[..n]))
  {
    hide Run, Reached, ScanAll, StatusCode, Refused;
    RunKeepsInv(e, events);
    RefusalsAddUp(e, events, first);
    RefusedExactly(e.peer[..Reached(e, events).sock.read]);
  }

  // ---- When a connection opens and when it ends -------------------------------

  /** A step queues the request exactly when the socket is open. */
  lemma QueuedWhenOpen(e: Ends, a: Link, event: Event)
    requires a.sock.Valid(e.peer) && Legal(e, a, event) && event.Step? && !event.timedOut && !a.app.done
    ensures After(e, a, event).app.requestQueued <==>
      a.app.requestQueued || a.sock.state == Established || a.sock.state == CloseWait
  {
    hide ScanAll;
  }

  predicate NeverOpen(events: seq<Event>) {
    forall i :: 0 <= i < |events| && events[i].Poll? ==>
      events[i].state != Established && events[i].state != CloseWait
  }

  /** Nothing is queued or sent in a run in which the socket never opens. */
  lemma {:induction false} NothingBeforeOpen(e: Ends, events: seq<Event>)
    requires Run(e, events) && NeverOpen(events)
    ensures var a := Reached(e, events);
      !a.app.requestQueued && a.app.outgoing == [] && a.sock.sent == []
      && a.sock.state != Established && a.sock.state != CloseWait
  {
    if events != [] {
      hide ScanAll;
      var init, last := events[..|events| - 1], events[|events| - 1];
      NothingBeforeOpen(e, init);
      NothingMoves(e, Reached(e, init), last);
      assert last == events[|events| - 1];
    }
  }

  lemma NothingMoves(e: Ends, a: Link, event: Event)
    requires a.sock.Valid(e.peer) && Legal(e, a, event)
    requires !a.app.requestQueued && a.app.outgoing == [] && a.sock.sent == []
    requires a.sock.state != Established && a.sock.state != CloseWait
    ensures var b := After(e, a, event); !b.app.requestQueued && b.app.outgoing == [] && b.sock.sent == []
    ensures event.Step? ==>
      After(e, a, event).sock.state == if event.timedOut && !a.app.done then Closed else a.sock.state
  {
    hide ScanAll;
  }

  /** A closed socket stays closed. */
  lemma {:induction false} ClosedForGood(e: Ends, events: seq<Event>, k: nat)
    requires Run(e, events) && k <= |events| && Run(e, events[..k])
    requires Reached(e, events[..k]).sock.state == Closed
    ensures Reached(e, events).sock.state == Closed
  {
    if k == |events| {
      assert events[..k] == events;
    } else {
      hide ScanAll;
      var init := events[..|events| - 1];
      assert init[..k] == events[..k];
      ClosedForGood(e, init, k);
    }
  }

  /** A SYN timeout ends the connection: not cleanly, and with the socket closed for good. */
  lemma TimeoutCloses(e: Ends, events: seq<Event>, k: nat)
    requires Run(e, events) && k < |events| && Run(e, events[..k])
    requires events[k].Step? && events[k].timedOut && !Reached(e, events[..k]).app.done
    ensures var b := Reached(e, events);
      b.sock.state == Closed && b.app.done && !b.app.closedCleanly && b.app.settled
  {
    hide ScanAll, Inv;
    var upTo := events[..k + 1];
    assert upTo[..k] == events[..k];
    DoneIsAbsorbing(e, events, k + 1);
    RunOnce(e, events[..k], events[k]);
    assert upTo == events[..k] + [events[k]];
    RunKeepsInv(e, events[..k]);
    NotYetClean(e, Reached(e, events[..k]));
    ClosedForGood(e, events, k + 1);
  }

  lemma NotYetClean(e: Ends, a: Link)
    requires Inv(e, a) && !a.app.done
    ensures !a.app.closedCleanly
  {}

  /** A step that does not time out finishes the connection exactly when the socket is in one
      of three states, has taken the whole request, and has handed up all that arrived. */
  lemma StepFinishesExactly(e: Ends, events: seq<Event>, step: Event)
    requires Run(e, events) && Legal(e, Reached(e, events), step)
    requires step.Step? && !step.timedOut && !Reached(e, events).app.done
    ensures var a, b := Reached(e, events), After(e, Reached(e, events), step);
      (b.app.done <==> b.app.closedCleanly)
      && (b.app.done <==>
            (a.sock.state == Closed || a.sock.state == CloseWait || a.sock.state == TimeWait)
            && b.app.requestQueued && b.sock.sent == e.request && b.sock.read == b.sock.arrived)
  {
    hide Run, Reached, ScanAll;
    RunKeepsInv(e, events);
    FinishesWhen(e, Reached(e, events), step);
  }

  lemma FinishesWhen(e: Ends, a: Link, step: Event)
    requires Inv(e, a) && Legal(e, a, step) && step.Step? && !step.timedOut && !a.app.done
    ensures var b := After(e, a, step);
      (b.app.done <==> b.app.closedCleanly)
      && (b.app.done <==>
            (a.sock.state == Closed || a.sock.state == CloseWait || a.sock.state == TimeWait)
            && b.app.requestQueued && b.sock.sent == e.request && b.sock.read == b.sock.arrived)
  {
    hide ScanAll;
    AfterKeepsInv(e, a, step);
    var b := After(e, a, step);
    if b.sock.sent == e.request && b.app.requestQueued {
      assert |b.sock.sent + b.app.outgoing| == |b.sock.sent| + |b.app.outgoing|;
    }
    if b.app.outgoing == [] {
      assert b.sock.sent + b.app.outgoing == b.sock.sent;
    }
  }

  /** After the peer's FIN, the step that sends and reads all that is left finishes, with the
      whole body counted. */
  lemma FinThenFinish(e: Ends, events: seq<Event>)
    requires Run(e, events) && !Reached(e, events).app.done && Reached(e, events).sock.state == CloseWait
    ensures var a := Reached(e, events);
      |a.sock.sent| <= |e.request| && a.sock.read <= |e.peer|
      && var step := Step(false, |e.request| - |a.sock.sent|, |e.peer| - a.sock.read);
      Legal(e, a, step) && After(e, a, step).app.closedCleanly
      && After(e, a, step).app.scan.bytes == BodyLength(e.peer)
  {
    hide Run, Reached, ScanAll;
    RunKeepsInv(e, events);
    var a := Reached(e, events);
    AllLeft(e, a);
    var step := Step(false, |e.request| - |a.sock.sent|, |e.peer| - a.sock.read);
    AfterKeepsInv(e, a, step);
    FinishesWhen(e, a, step);
    ScanCountsBody(e.peer);
    assert e.peer[..|e.peer|] == e.peer;
  }

  lemma AllLeft(e: Ends, a: Link)
    requires Inv(e, a) && !a.app.done && a.sock.state == CloseWait
    ensures |a.sock.sent| + |ToSend(e, a)| == |e.request| && a.sock.arrived == |e.peer|
    ensures a.sock.sent + ToSend(e, a) == e.request
  {
    hide ScanAll;
    assert |a.sock.sent + a.app.outgoing| == |a.sock.sent| + |a.app.outgoing|;
    if a.app.requestQueued { assert ToSend(e, a) == a.app.outgoing; }
    else { assert ToSend(e, a) == e.request && a.sock.sent == []; }
  }

  // ---- Which connections can still finish ------------------------------------

  /** Reset before the socket took the whole request. */
  predicate Stuck(a: Link) {
    !a.app.done && a.sock.state == Closed && (!a.app.requestQueued || a.app.outgoing != [])
  }

  lemma StuckStays(e: Ends, a: Link, event: Event)
    requires a.sock.Valid(e.peer) && Legal(e, a, event) && Stuck(a)
    ensures Stuck(After(e, a, event))
  {
    hide ScanAll;
  }

  lemma {:induction false} StuckForGood(e: Ends, events: seq<Event>, more: seq<Event>)
    requires Run(e, events) && Stuck(Reached(e, events)) && Run(e, events + more)
    ensures Stuck(Reached(e, events + more))
  {
    if more == [] {
      assert events + more == events;
    } else {
      hide Stuck, After, Legal;
      var n := |more| - 1;
      assert events + more == (events + more[..n]) + [more[n]];
      RunOnce(e, events + more[..n], more[n]);
      StuckForGood(e, events, more[..n]);
      StuckStays(e, Reached(e, events + more[..n]), more[n]);
    }
  }

  ghost predicate CanFinish(e: Ends, events: seq<Event>) {
    exists more :: Finishes(e, events, more)
  }

  ghost predicate Finishes(e: Ends, events: seq<Event>, more: seq<Event>) {
    Run(e, events + more) && Reached(e, events + more).app.done
  }

  /** A step that takes all there is finishes a connection whose request is out or can go
      out whole, and whose peer has closed. */
  lemma LastStep(e: Ends, a: Link)
    requires Inv(e, a) && Ended(a.sock.state)
    requires MaySend(a.sock.state) || (a.app.requestQueued && a.app.outgoing == [])
    ensures var step := Step(false, |ToSend(e, a)|, a.sock.arrived - a.sock.read);
      Legal(e, a, step) && After(e, a, step).app.done
  {
    hide ScanAll;
    var out := ToSend(e, a);
    assert out[|out|..] == [];
  }

  /** The peer sends the rest of its stream and its FIN. */
  lemma PeerCloses(e: Ends, a: Link)
    requires Inv(e, a) && a.sock.state != Closed
    ensures var poll := Poll(CloseWait, |e.peer|, true);
      Legal(e, a, poll) && After(e, a, poll).sock.state == CloseWait
  {}

  /** Some continuation finishes the connection exactly when it was not reset before the
      socket took the whole request. */
  lemma CanFinishExactly(e: Ends, events: seq<Event>)
    requires Run(e, events)
    ensures CanFinish(e, events) <==> !Stuck(Reached(e, events))
  {
    hide Run, Reached, Inv, CanFinish;
    var a := Reached(e, events);
    RunKeepsInv(e, events);
    if Stuck(a) {
      NeverFinishes(e, events);
    } else if a.app.done {
      AlreadyFinished(e, events);
    } else if a.sock.state == Closed {
      FinishesNow(e, events);
    } else {
      FinishesAfterClose(e, events);
    }
  }

  lemma NeverFinishes(e: Ends, events: seq<Event>)
    requires Run(e, events) && Stuck(Reached(e, events))
    ensures !CanFinish(e, events)
  {
    hide Run, Reached;
    forall more | Run(e, events + more)
      ensures !Reached(e, events + more).app.done
    {
      StuckForGood(e, events, more);
    }
  }

  lemma AlreadyFinished(e: Ends, events: seq<Event>)
    requires Run(e, events) && Reached(e, events).app.done
    ensures CanFinish(e, events)
  {
    assert events + [] == events;
    assert Finishes(e, events, []);
  }

  lemma FinishesAfterClose(e: Ends, events: seq<Event>)
    requires Run(e, events) && Inv(e, Reached(e, events)) && Reached(e, events).sock.state != Closed
    ensures CanFinish(e, events)
  {
    hide After, Legal, Inv, ScanAll;
    var a := Reached(e, events);
    var poll := Poll(CloseWait, |e.peer|, true);
    PeerCloses(e, a);
    RunOnce(e, events, poll);
    AfterKeepsInv(e, a, poll);
    FinishesNow(e, events + [poll]);
    var more :| Finishes(e, events + [poll], more);
    assert (events + [poll]) + more == events + ([poll] + more);
    assert Finishes(e, events, [poll] + more);
  }

  lemma FinishesNow(e: Ends, events: seq<Event>)
    requires Run(e, events) && Inv(e, Reached(e, events))
    requires var a := Reached(e, events);
      a.sock.state == CloseWait || (a.sock.state == Closed && a.app.requestQueued && a.app.outgoing == [])
    ensures CanFinish(e, events)
  {
    hide After, Legal, Inv, ScanAll;
    var a := Reached(e, events);
    var step := Step(false, |ToSend(e, a)|, a.sock.arrived - a.sock.read);
    LastStep(e, a);
    RunOnce(e, events, step);
    assert Finishes(e, events, [step]);
  }

  /** Two runs after which a connection never finishes, and its worker never stops: a reset
      before the request is queued, and one after it is queued but before any of it is sent. */
  lemma ResetsThatHang(e: Ends)
    requires e.request != []
    ensures var early := [Poll(Closed, 0, false)];
      Run(e, early) && !CanFinish(e, early)
    ensures var late := [Poll(Established, 0, false), Step(false, 0, 0), Poll(Closed, 0, false)];
      Run(e, late) && !CanFinish(e, late)
  {
    hide ScanAll, CanFinish;
    var p, s, c := Poll(Established, 0, false), Step(false, 0, 0), Poll(Closed, 0, false);
    RunOnce(e, [], c);
    RunOnce(e, [], p);
    RunOnce(e, [p], s);
    RunOnce(e, [p, s], c);
    assert [] + [p] == [p] && [] + [c] == [c] && [p] + [s] == [p, s] && [p, s] + [c] == [p, s, c];
    CanFinishExactly(e, [c]);
    CanFinishExactly(e, [p, s, c]);
  }

  // ---- The program's objects -------------------------------------------------

  class Counters {
    var established: nat
    var failed: nat
    var badStatus: nat
    var firstBadStatus: nat

    constructor ()
      ensures established == 0 && failed == 0 && badStatus == 0 && firstBadStatus == 0
    {
      established, failed, badStatus, firstBadStatus := 0, 0, 0, 0;
    }
  }

  /** The TCP socket, as far as the application sees it: it may accept any part of what
      is written, and hands up any nonempty part of what has arrived, or nothing. */
  class Socket {
    const peer: seq<byte>
    var state: TcpState
    var arrived: nat
    var read: nat
    var sent: seq<byte>
    var fin: bool

    function View(): Sock
      reads this
    {
      Sock(state, arrived, read, sent, fin)
    }

    constructor (peer: seq<byte>)
      ensures this.peer == peer && View() == NEW_LINK.sock
    {
      this.peer := peer;
      state, arrived, read, sent, fin := SynSent, 0, 0, [], false;
    }

    method SendSlice(data: seq<byte>) returns (n: nat)
      requires MaySend(state)
      modifies this`sent
      ensures n <= |data| && sent == old(sent) + data[..n]
    {
      n :| 0 <= n <= |data|;
      sent := sent + data[..n];
    }

    method Recv() returns (chunk: seq<byte>)
      requires read < arrived <= |peer|
      modifies this`read
      ensures old(read) + |chunk| == read <= arrived && chunk == peer[old(read)..read]
    {
      var n: nat :| 0 <= n <= arrived - read;
      chunk := peer[read..read + n];
      read := read + n;
    }

    method Abort()
      modifies this`state
      ensures state == Closed
    {
      state := Closed;
    }
  }

  class Conn {
    const request: seq<byte>
    const connectStartMs: int
    var incoming: seq<byte>
    var outgoing: seq<byte>
    var requestQueued: bool
    var handshakeDone: bool
    var done: bool
    var closedCleanly: bool
    var settled: bool
    var bytesReceived: nat
    var headersDone: bool
    var hdrState: nat
    var status: nat
    var statusPos: nat

    function ScanState(): Scan
      reads this
    {
      Scan(bytesReceived, headersDone, hdrState, status, statusPos)
    }

    function View(): App
      reads this
    {
      App(outgoing, requestQueued, handshakeDone, done, closedCleanly, settled, ScanState())
    }

    constructor (request: seq<byte>, connectStartMs: int)
      ensures this.request == request && this.connectStartMs == connectStartMs
      ensures incoming == [] && View() == NEW_APP
    {
      this.request, this.connectStartMs := request, connectStartMs;
      incoming, outgoing := [], [];
      requestQueued, handshakeDone, done, closedCleanly, settled := false, false, false, false, false;
      bytesReceived, headersDone, hdrState, status, statusPos := 0, false, 0, 0, 0;
    }

    method CountBody(counters: Counters, data: seq<byte>)
      modifies this`bytesReceived, this`headersDone, this`hdrState, this`status, this`statusPos
      modifies counters`badStatus, counters`firstBadStatus
      ensures ScanState() == ScanAll(old(ScanState()), data)
      ensures counters.badStatus
        == old(counters.badStatus) + if !old(headersDone) && headersDone && status != 206 then 1 else 0
      ensures counters.firstBadStatus == FirstBad(old(counters.firstBadStatus), old(ScanState()), ScanState())
    {
      ghost var start := ScanState();
      if headersDone {
        ScanDone(start, data);
        bytesReceived := bytesReceived + |data|;
        return;
      }
      hide ScanAll;
      ScanNothing(start);
      for i := 0 to |data|
        invariant !headersDone && ScanState() == ScanAll(start, data[..i])
        invariant bytesReceived == start.bytes
        invariant counters.badStatus == old(counters.badStatus)
        invariant counters.firstBadStatus == old(counters.firstBadStatus)
      {
        var b := data[i];
        ScanNext(start, data, i);
        if statusPos < 12 {
          if statusPos >= 9 && IsDigit(b) {
            status := status * 10 + (b - ZERO);
          }
          statusPos := statusPos + 1;
        }
        hdrState := Advance(hdrState, b);
        if hdrState == 4 {
          headersDone := true;
          if status != PARTIAL_CONTENT {
            counters.badStatus := counters.badStatus + 1;
            if counters.firstBadStatus == 0 { counters.firstBadStatus := status; }
          }
          ScanRest(start, data, i + 1);
          bytesReceived := bytesReceived + (|data| - (i + 1));
          return;
        }
      }
      assert data[..|data|] == data;
    }

    function LinkTo(socket: Socket): Link
      reads this, socket
    {
      Link(socket.View(), View())
    }

    /** Records the moment the connection settles, and gives up on a SYN left unanswered. */
    method Settle(socket: Socket, counters: Counters, nowMs: int) returns (timedOut: bool)
      requires !done
      modifies this`settled, this`done, counters`established, counters`failed, socket`state
      ensures timedOut <==> old(socket.state) == SynSent && nowMs - connectStartMs > SYN_TIMEOUT_MS
      ensures LinkTo(socket) == AfterSettle(old(LinkTo(socket)), timedOut)
      ensures counters.established
        == old(counters.established) + if !old(settled) && old(socket.state) == Established then 1 else 0
      ensures counters.failed == old(counters.failed) + if !old(settled) && timedOut then 1 else 0
    {
      if !settled && socket.state == Established {
        settled := true;
        counters.established := counters.established + 1;
      }
      timedOut := socket.state == SynSent && nowMs - connectStartMs > SYN_TIMEOUT_MS;
      if timedOut {
        socket.Abort();
        if !settled {
          settled := true;
          counters.failed := counters.failed + 1;
        }
        done := true;
      }
    }

    /** Queues the request once the socket is open, and offers it what is outstanding. */
    method Transmit(socket: Socket) returns (accepted: nat)
      modifies this`outgoing, this`requestQueued, this`handshakeDone, socket`sent
      ensures accepted <= |ToSend(Ends(request, socket.peer), old(LinkTo(socket)))|
      ensures accepted > 0 ==> MaySend(socket.state)
      ensures LinkTo(socket) == AfterTransmit(Ends(request, socket.peer), old(LinkTo(socket)), accepted)
    {
      hide ScanAll;
      ghost var out, before := ToSend(Ends(request, socket.peer), LinkTo(socket)), socket.sent;
      if !requestQueued && MaySend(socket.state) {
        outgoing := outgoing + request;
        requestQueued := true;
        handshakeDone := true;
      }
      assert outgoing == out;
      accepted := 0;
      if outgoing != [] && MaySend(socket.state) {
        accepted := socket.SendSlice(outgoing);
        outgoing := outgoing[accepted..];
      }
      assert outgoing == out[accepted..] && socket.sent == before + out[..accepted];
    }

    /** Empties the socket as far as it lets itself be emptied, and counts what came. */
    method Drain(socket: Socket, counters: Counters) returns (ghost taken: nat)
      requires incoming == [] && socket.read <= socket.arrived <= |socket.peer|
      modifies this`incoming, this`bytesReceived, this`headersDone, this`hdrState, this`status, this`statusPos
      modifies counters`badStatus, counters`firstBadStatus, socket`read
      ensures incoming == [] && old(socket.read) + taken <= socket.arrived
      ensures LinkTo(socket) == AfterDrain(Ends(request, socket.peer), old(LinkTo(socket)), taken)
      ensures counters.badStatus == old(counters.badStatus) + Refused(old(ScanState()), ScanState())
      ensures counters.firstBadStatus == FirstBad(old(counters.firstBadStatus), old(ScanState()), ScanState())
    {
      hide ScanAll, Refused, FirstBad;
      ghost var start, before := socket.read, ScanState();
      while socket.read < socket.arrived
        invariant start <= socket.read <= socket.arrived
        invariant incoming == socket.peer[start..socket.read]
        modifies this`incoming, socket`read
      {
        var chunk := socket.Recv();
        incoming := incoming + chunk;
        assert incoming == socket.peer[start..socket.read];
        if chunk == [] { break; }
      }
      taken := socket.read - start;
      assert ScanState() == before;
      if incoming != [] {
        CountBody(counters, incoming);
        RefusedIs(before, ScanState());
        incoming := [];
      } else {
        ScanNothing(before);
        NotRefused(before, counters.firstBadStatus);
      }
    }

    /** Done once the request is out, the peer has closed and the socket is empty. */
    method Finish(socket: Socket)
      modifies this`closedCleanly, this`done
      ensures ScanState() == old(ScanState())
      ensures LinkTo(socket) == AfterFinish(old(LinkTo(socket)))
    {
      if handshakeDone && requestQueued && Ended(socket.state) && outgoing == [] && !(socket.read < socket.arrived) {
        closedCleanly := true;
        done := true;
      }
    }

    /** All of a step but the timeout. */
    method Pump(socket: Socket, counters: Counters) returns (ghost accepted: nat, ghost taken: nat)
      requires incoming == [] && socket.read <= socket.arrived <= |socket.peer|
      modifies this, counters`badStatus, counters`firstBadStatus, socket`read, socket`sent
      ensures incoming == []
      ensures accepted <= |ToSend(Ends(request, socket.peer), old(LinkTo(socket)))|
      ensures (accepted > 0 ==> MaySend(socket.state)) && old(socket.read) + taken <= socket.arrived
      ensures var e := Ends(request, socket.peer);
        LinkTo(socket) == AfterFinish(AfterDrain(e, AfterTransmit(e, old(LinkTo(socket)), accepted), taken))
      ensures counters.badStatus == old(counters.badStatus) + Refused(old(ScanState()), ScanState())
      ensures counters.firstBadStatus == FirstBad(old(counters.firstBadStatus), old(ScanState()), ScanState())
    {
      hide ScanAll, Refused, FirstBad, ToSend, AfterTransmit, AfterDrain, AfterFinish;
      accepted := Transmit(socket);
      taken := Drain(socket, counters);
      Finish(socket);
    }

    /** One step.  `event` records what the socket did. */
    method ConnStep(socket: Socket, counters: Counters, nowMs: int) returns (finished: bool, ghost event: Event)
      requires incoming == [] && socket.View().Valid(socket.peer)
      modifies this, counters, socket`state, socket`read, socket`sent
      ensures incoming == [] && socket.View().Valid(socket.peer)
      ensures event.Step? && Legal(Ends(request, socket.peer), old(LinkTo(socket)), event)
      ensures LinkTo(socket) == After(Ends(request, socket.peer), old(LinkTo(socket)), event)
      ensures !old(done) ==>
        (event.timedOut <==> old(socket.state) == SynSent && nowMs - connectStartMs > 5000)
      ensures counters.established == old(counters.established) + AddsEstablished(old(LinkTo(socket)), event)
      ensures counters.failed == old(counters.failed) + AddsFailed(old(LinkTo(socket)), event)
      ensures counters.badStatus == old(counters.badStatus) + Refused(old(ScanState()), ScanState())
      ensures counters.firstBadStatus == FirstBad(old(counters.firstBadStatus), old(ScanState()), ScanState())
      ensures finished == done
    {
      hide ScanAll, Refused, FirstBad, ToSend, AfterSettle, AfterTransmit, AfterDrain, AfterFinish, After, Legal;
      ghost var e, before := Ends(request, socket.peer), LinkTo(socket);
      event := Step(false, 0, 0);
      NotRefused(ScanState(), counters.firstBadStatus);
      if done {
        StepWhenDone(e, before, event);
        return true, event;
      }
      var timedOut := Settle(socket, counters, nowMs);
      if timedOut {
        event := Step(true, 0, 0);
        StepTimesOut(e, before, event);
        return true, event;
      }
      ghost var accepted, taken := Pump(socket, counters);
      event := Step(false, accepted, taken);
      StepInParts(e, before, event);
      return done, event;
    }
  }

  lemma StepWhenDone(e: Ends, a: Link, event: Event)
    requires a.sock.Valid(e.peer) && a.app.done && event.Step?
    ensures Legal(e, a, event) && After(e, a, event) == a
  {}

  lemma StepTimesOut(e: Ends, a: Link, event: Event)
    requires a.sock.Valid(e.peer) && !a.app.done && a.sock.state == SynSent && event.Step? && event.timedOut
    ensures Legal(e, a, event) && After(e, a, event) == AfterSettle(a, true)
    ensures After(e, a, event).sock.Valid(e.peer) && After(e, a, event).app.done
  {}

  lemma StepInParts(e: Ends, a: Link, event: Event)
    requires a.sock.Valid(e.peer) && !a.app.done && event.Step? && !event.timedOut
    requires event.accepted <= |ToSend(e, AfterSettle(a, false))| && a.sock.read + event.taken <= a.sock.arrived
    requires event.accepted > 0 ==> MaySend(AfterSettle(a, false).sock.state)
    ensures Legal(e, a, event)
    ensures var b := AfterDrain(e, AfterTransmit(e, AfterSettle(a, false), event.accepted), event.taken);
      b.sock.Valid(e.peer) && AfterFinish(b).sock == b.sock && After(e, a, event) == AfterFinish(b)
  {
    hide ScanAll;
    assert ToSend(e, AfterSettle(a, false)) == ToSend(e, a);
  }

  lemma RefusedIs(s: Scan, next: Scan)
    ensures Refused(s, next) == if !s.headersDone && next.headersDone && next.status != 206 then 1 else 0
  {}

  lemma NotRefused(s: Scan, first: nat)
    ensures Refused(s, s) == 0 && FirstBad(first, s, s) == first
  {}

  lemma ScanNext(s: Scan, data: seq<byte>, i: nat)
    requires i < |data|
    ensures ScanAll(s, data[..i + 1]) == ScanByte(ScanAll(s, data[..i]), data[i])
  {
    assert data[..i + 1][..i] == data[..i];
  }

  /** The bytes after the one that completes the header are all body. */
  lemma ScanRest(s: Scan, data: seq<byte>, n: nat)
    requires n <= |data| && ScanAll(s, data[..n]).headersDone
    ensures ScanAll(s, data) == ScanAll(s, data[..n]).(bytes := ScanAll(s, data[..n]).bytes + (|data| - n))
  {
    assert data == data[..n] + data[n..];
    ScanConcat(s, data[..n], data[n..]);
    ScanDone(ScanAll(s, data[..n]), data[n..]);
  }
}
