/** The output side of one server connection without compression, as a state machine over
    its two buffers, its flags and its poll entry. */
module Output {
  import opened ConnPoll

  /** max_outbuf_size, max_unblock_size and max_outfill_size. */
  datatype Limits = Limits(maxBuffer: nat, unblock: nat, outfill: nat)

  datatype OutState = OutState(
    ok: bool, writable: bool,
    send: string, flush: string,
    closeAfter: int,            // microseconds, 0 while no deadline is set
    entry: PollFd)
  {
    function Pending(): string { send + flush }

    /** What holds between events: the buffers respect the cap, and the poll entry tells a
        live connection from a closed one. */
    predicate Valid(cfg: Limits, sock: int) {
      && |send| + |flush| <= cfg.maxBuffer
      && (if ok then entry.Watched(sock) else entry.Marked(sock) && !writable)
    }
  }

  /** How one SendAll ended: everything taken, a temporary error, or any other error. */
  datatype SendEnd = Done | Again | Hard
  datatype SendOutcome = SendOutcome(sent: nat, end: SendEnd) {
    predicate Of(len: nat) {
      if end == Done then sent == len else sent < len
    }
  }

  /** Any outcome, brought into the range that n offered bytes allow. */
  function Clamp(o: SendOutcome, n: nat): (r: SendOutcome)
    ensures n > 0 || o.end == Done ==> r.Of(n)
  {
    if o.end == Done || n == 0 then SendOutcome(n, o.end)
    else if o.sent < n then o
    else SendOutcome(n - 1, o.end)
  }

  function Closed(s: OutState, sock: int): OutState {
    s.(ok := false, writable := false, entry := OptInFd(OptOutFd(s.entry, CC_ALL), sock, CC_CLOSE))
  }

  predicate Overfills(cfg: Limits, s: OutState, data: string) {
    |s.flush| + |s.send| + |data| > cfg.maxBuffer
  }

  /** Whether this call hands bytes to the socket. */
  predicate Flushes(cfg: Limits, s: OutState, data: string, flush: bool) {
    var size := |s.send| + |s.flush| + |data|;
    !Overfills(cfg, s, data) && size > 0 && (flush || size > cfg.maxBuffer / 2)
  }

  function AfterSend(cfg: Limits, sock: int, s: OutState, o: SendOutcome): OutState
    requires s.flush == "" && o.Of(|s.send|)
  {
    match o.end
    case Hard => Closed(s, sock)
    case Again =>
      var left := if o.sent > 0 then s.(send := s.send[o.sent..])
                  else if s.closeAfter != 0 then Closed(s, sock)
                  else s;
      if !left.ok then left
      else
        var e := OptInFd(left.entry, sock, CC_OUTPUT);
        left.(entry := if |left.send| < cfg.unblock then OptInFd(e, sock, CC_INPUT)
                       else if |left.send| >= cfg.outfill then OptOutFd(e, CC_INPUT)
                       else e)
    case Done =>
      var empty := s.(send := "");
      var left := if s.closeAfter != 0 then Closed(empty, sock) else empty;
      if left.ok then left.(entry := OptOutFd(left.entry, CC_OUTPUT)) else left
  }

  function Write(cfg: Limits, sock: int, s: OutState, data: string, flush: bool, o: SendOutcome): OutState
    requires Flushes(cfg, s, data, flush) ==> o.Of(|s.send| + |s.flush| + |data|)
  {
    if Overfills(cfg, s, data) then Closed(s, sock)
    else if !Flushes(cfg, s, data, flush) then s.(flush := s.flush + data)
    else AfterSend(cfg, sock, s.(send := s.send + s.flush + data, flush := ""), o)
  }

  /** The bytes of this call that reach the socket, and those the connection takes on. */
  function TakenBy(cfg: Limits, s: OutState, data: string, flush: bool, o: SendOutcome): string
    requires Flushes(cfg, s, data, flush) ==> o.Of(|s.send| + |s.flush| + |data|)
  {
    if !Flushes(cfg, s, data, flush) then ""
    else (s.send + s.flush + data)[..o.sent]
  }

  function AcceptedBy(cfg: Limits, s: OutState, data: string): string {
    if Overfills(cfg, s, data) then "" else data
  }

  // ---- one write ----

  /** No byte is lost, invented or reordered by a write the connection survives; and bytes
      only ever reach the socket in order, even when it does not survive. */
  lemma WriteConserves(cfg: Limits, sock: int, s: OutState, data: string, flush: bool, o: SendOutcome)
    requires sock >= 0 && s.ok
    requires Flushes(cfg, s, data, flush) ==> o.Of(|s.send| + |s.flush| + |data|)
    ensures var t := Write(cfg, sock, s, data, flush, o);
            var all := s.Pending() + AcceptedBy(cfg, s, data);
            && TakenBy(cfg, s, data, flush, o) <= all
            && (t.ok ==> TakenBy(cfg, s, data, flush, o) + t.Pending() == all)
  {
    hide AfterSend, Closed;
    var all := s.send + s.flush + data;
    assert s.Pending() + data == all && s.Pending() + "" == s.Pending();
    assert s.send + (s.flush + data) == all && "" + all == all;
    ClosedIsDead(s, sock);
    if Flushes(cfg, s, data, flush) {
      AfterSendConserves(cfg, sock, s.(send := all, flush := ""), o);
    }
  }

  lemma ClosedIsDead(s: OutState, sock: int)
    ensures !Closed(s, sock).ok && Closed(s, sock).Pending() == s.Pending()
  {
  }

  lemma AfterSendConserves(cfg: Limits, sock: int, s: OutState, o: SendOutcome)
    requires s.ok && s.flush == "" && o.Of(|s.send|)
    ensures var t := AfterSend(cfg, sock, s, o); t.ok ==> s.send[..o.sent] + t.Pending() == s.send
  {
    hide OptInFd, OptOutFd;
    assert s.send + "" == s.send && s.send[o.sent..] + "" == s.send[o.sent..];
    assert s.send[..o.sent] + s.send[o.sent..] == s.send;
  }

  lemma WriteKeepsValid(cfg: Limits, sock: int, s: OutState, data: string, flush: bool, o: SendOutcome)
    requires sock >= 0 && s.ok && s.Valid(cfg, sock)
    requires Flushes(cfg, s, data, flush) ==> o.Of(|s.send| + |s.flush| + |data|)
    ensures Write(cfg, sock, s, data, flush, o).Valid(cfg, sock)
  {
  }

  /** A write that keeps everything back leaves at most half of the cap. */
  lemma UnflushedIsHalf(cfg: Limits, sock: int, s: OutState, data: string, flush: bool, o: SendOutcome)
    requires !Overfills(cfg, s, data) && !Flushes(cfg, s, data, flush)
    ensures |Write(cfg, sock, s, data, flush, o).Pending()| <= cfg.maxBuffer / 2
  {
  }

  /** Input is throttled only after a partial send: on below the unblock size, off from the
      fill size (the first rule wins when the sizes are crossed), and left alone between. */
  lemma ThrottleAfterPartialSend(cfg: Limits, sock: int, s: OutState, data: string, flush: bool, o: SendOutcome)
    requires sock >= 0 && s.ok && s.Valid(cfg, sock)
    requires Flushes(cfg, s, data, flush)
    requires o.end == Again && o.Of(|s.send| + |s.flush| + |data|)
    ensures var t := Write(cfg, sock, s, data, flush, o);
            t.ok ==>
              && t.entry.events.out && |t.send| > 0 && t.flush == ""
              && t.entry.events.inp == (if |t.send| < cfg.unblock then true
                                        else if |t.send| >= cfg.outfill then false
                                        else s.entry.events.inp)
  {
  }

  /** Input that was blocked comes back through a partial send below the unblock size and in
      no other way: a write that drains both buffers does not bring it back. */
  lemma OnlyPartialSendUnblocks(cfg: Limits, sock: int, s: OutState, data: string, flush: bool, o: SendOutcome)
    requires sock >= 0 && s.ok && s.Valid(cfg, sock) && !s.entry.events.inp
    requires Flushes(cfg, s, data, flush) ==> o.Of(|s.send| + |s.flush| + |data|)
    ensures var t := Write(cfg, sock, s, data, flush, o);
            t.entry.events.inp <==>
              && Flushes(cfg, s, data, flush)
              && o.end == Again && (o.sent > 0 || s.closeAfter == 0)
              && |s.send| + |s.flush| + |data| - o.sent < cfg.unblock
  {
  }

  // ---- runs ----

  datatype Event =
    | Send(data: string, flush: bool, outcome: SendOutcome)   // a handler sends; dropped once not writable
    | Timer(now: int, outcome: SendOutcome)                   // the connection timer, live connections only
    | Writable(outcome: SendOutcome)                          // poll() reports room
    | CloseNice(now: int, msec: int)
    | CloseNow

  datatype History = History(s: OutState, accepted: string, taken: string)

  function WriteStep(cfg: Limits, sock: int, h: History, data: string, flush: bool, o: SendOutcome): History {
    var out := Clamp(o, |h.s.send| + |h.s.flush| + |data|);
    History(Write(cfg, sock, h.s, data, flush, out),
            h.accepted + AcceptedBy(cfg, h.s, data),
            h.taken + TakenBy(cfg, h.s, data, flush, out))
  }

  function FlushStep(cfg: Limits, sock: int, h: History, o: SendOutcome): History {
    if h.s.Pending() == "" then h else WriteStep(cfg, sock, h, "", true, o)
  }

  function CloseNiceOf(s: OutState, sock: int, now: int, msec: int): OutState {
    if msec <= 0 || s.Pending() == "" then Closed(s, sock)
    else s.(writable := false, closeAfter := now + 1000 * msec)
  }

  predicate DeadlineCloses(s: OutState, now: int) {
    s.closeAfter != 0 && s.closeAfter > now
  }

  function Step(cfg: Limits, sock: int, h: History, e: Event): History {
    match e
    case Send(data, flush, o) => if h.s.writable then WriteStep(cfg, sock, h, data, flush, o) else h
    case Timer(now, o) =>
      if !h.s.ok then h
      else if DeadlineCloses(h.s, now) then h.(s := Closed(h.s, sock))
      else FlushStep(cfg, sock, h, o)
    case Writable(o) => if h.s.ok then FlushStep(cfg, sock, h, o) else h
    case CloseNice(now, msec) => h.(s := CloseNiceOf(h.s, sock, now, msec))
    case CloseNow => h.(s := Closed(h.s, sock))
  }

  function Run(cfg: Limits, sock: int, h: History, es: seq<Event>): History
    decreases |es|
  {
    if es == [] then h else Run(cfg, sock, Step(cfg, sock, h, es[0]), es[1..])
  }

  predicate Fifo(cfg: Limits, sock: int, h: History) {
    && h.s.Valid(cfg, sock)
    && (h.s.writable ==> h.s.ok)
    && h.taken <= h.accepted
    && (h.s.ok ==> h.taken + h.s.Pending() == h.accepted)
  }

  lemma QueueExtends(taken: string, pending: string, accepted: string, more: string, took: string)
    requires taken + pending == accepted && took <= pending + more
    ensures taken + took <= accepted + more
    ensures forall left :: took + left == pending + more ==> taken + took + left == accepted + more
  {
    assert accepted + more == taken + (pending + more);
    forall left | took + left == pending + more ensures taken + took + left == accepted + more {
      assert taken + took + left == taken + (took + left);
    }
  }

  lemma WriteStepFifo(cfg: Limits, sock: int, h: History, data: string, flush: bool, o: SendOutcome)
    requires sock >= 0 && Fifo(cfg, sock, h) && h.s.ok
    ensures Fifo(cfg, sock, WriteStep(cfg, sock, h, data, flush, o))
  {
    var out := Clamp(o, |h.s.send| + |h.s.flush| + |data|);
    WriteConserves(cfg, sock, h.s, data, flush, out);
    WriteKeepsValid(cfg, sock, h.s, data, flush, out);
    QueueExtends(h.taken, h.s.Pending(), h.accepted, AcceptedBy(cfg, h.s, data), TakenBy(cfg, h.s, data, flush, out));
    WritableNeedsOk(cfg, sock, h.s, data, flush, out);
  }

  lemma WritableNeedsOk(cfg: Limits, sock: int, s: OutState, data: string, flush: bool, o: SendOutcome)
    requires s.ok && (Flushes(cfg, s, data, flush) ==> o.Of(|s.send| + |s.flush| + |data|))
    ensures var t := Write(cfg, sock, s, data, flush, o); t.writable ==> t.ok
  {
  }

  lemma StepFifo(cfg: Limits, sock: int, h: History, e: Event)
    requires sock >= 0 && Fifo(cfg, sock, h)
    ensures Fifo(cfg, sock, Step(cfg, sock, h, e))
  {
    match e
    case Send(data, flush, o) => if h.s.writable { WriteStepFifo(cfg, sock, h, data, flush, o); }
    case Timer(now, o) => if h.s.ok && h.s.Pending() != "" { WriteStepFifo(cfg, sock, h, "", true, o); }
    case Writable(o) => if h.s.ok && h.s.Pending() != "" { WriteStepFifo(cfg, sock, h, "", true, o); }
    case CloseNice(now, msec) =>
    case CloseNow =>
  }

  /** No event revives a connection, or makes it writable again. */
  lemma StepNeverRevives(cfg: Limits, sock: int, h: History, e: Event)
    ensures var t := Step(cfg, sock, h, e).s; (t.ok ==> h.s.ok) && (t.writable ==> h.s.writable)
  {
  }

  /** What poll() reported for an entry stays reported, or the entry is close-marked. */
  lemma StepKeepsReport(cfg: Limits, sock: int, h: History, e: Event)
    requires sock >= 0 && h.s.Valid(cfg, sock) && (h.s.writable ==> h.s.ok) && RevTestFd(h.s.entry)
    ensures RevTestFd(Step(cfg, sock, h, e).s.entry)
  {
    hide AfterSend, OptInFd, OptOutFd;
    ClosedReports(h.s, sock);
    match e
    case Send(data, flush, o) => if h.s.writable { WriteKeepsReport(cfg, sock, h.s, data, flush, Clamp(o, |h.s.Pending()| + |data|)); }
    case Timer(now, o) => if h.s.ok { WriteKeepsReport(cfg, sock, h.s, "", true, Clamp(o, |h.s.Pending()|)); }
    case Writable(o) => if h.s.ok { WriteKeepsReport(cfg, sock, h.s, "", true, Clamp(o, |h.s.Pending()|)); }
    case CloseNice(now, msec) =>
    case CloseNow =>
  }

  lemma ClosedReports(s: OutState, sock: int)
    requires sock >= 0
    ensures RevTestFd(Closed(s, sock).entry)
  {
  }

  lemma WriteKeepsReport(cfg: Limits, sock: int, s: OutState, data: string, flush: bool, o: SendOutcome)
    requires sock >= 0 && s.ok && s.entry.Watched(sock) && RevTestFd(s.entry)
    requires Flushes(cfg, s, data, flush) ==> o.Of(|s.send| + |s.flush| + |data|)
    ensures RevTestFd(Write(cfg, sock, s, data, flush, o).entry)
  {
    hide AfterSend, OptInFd, OptOutFd;
    ClosedReports(s, sock);
    if Flushes(cfg, s, data, flush) {
      AfterSendKeepsReport(cfg, sock, s.(send := s.send + s.flush + data, flush := ""), o);
    }
  }

  lemma AfterSendKeepsReport(cfg: Limits, sock: int, s: OutState, o: SendOutcome)
    requires sock >= 0 && s.ok && s.entry.Watched(sock) && RevTestFd(s.entry)
    requires s.flush == "" && o.Of(|s.send|)
    ensures RevTestFd(AfterSend(cfg, sock, s, o).entry)
  {
  }

  /** The output law: over any run of sends, timer ticks, partial sends, errors and closes,
      the socket has taken a prefix of what was accepted, in order; while the connection
      lives, the rest is exactly what the two buffers hold, and they never exceed the cap. */
  lemma {:induction false} RunIsFifo(cfg: Limits, sock: int, h: History, es: seq<Event>)
    requires sock >= 0 && Fifo(cfg, sock, h)
    ensures Fifo(cfg, sock, Run(cfg, sock, h, es))
    decreases |es|
  {
    if es != [] {
      StepFifo(cfg, sock, h, es[0]);
      RunIsFifo(cfg, sock, Step(cfg, sock, h, es[0]), es[1..]);
    }
  }

  /** The state that addConnection leaves a new connection in. */
  function Fresh(sock: int): History {
    History(OutState(true, true, "", "", 0, OptInFd(RESET_FD, sock, Mask(true, false, true, false))), "", "")
  }

  /** Of a new connection input and errors are watched, and nothing is pending. */
  lemma FreshWatches(sock: int)
    requires sock >= 0
    ensures var f := Fresh(sock);
            && f.s == OutState(true, true, "", "", 0, PollFd(sock, Events(true, false, true), NO_EVENTS))
            && f.accepted == "" && f.taken == ""
  {
  }

  lemma FreshRunIsFifo(cfg: Limits, sock: int, es: seq<Event>)
    requires sock >= 0
    ensures Fifo(cfg, sock, Run(cfg, sock, Fresh(sock), es))
  {
    RunIsFifo(cfg, sock, Fresh(sock), es);
  }

  /** A closed connection stays closed and keeps its close mark through every later event. */
  lemma {:induction false} ClosedForGood(cfg: Limits, sock: int, h: History, es: seq<Event>)
    requires sock >= 0 && Fifo(cfg, sock, h) && !h.s.ok
    ensures var e := Run(cfg, sock, h, es);
            !e.s.ok && e.s.entry.Marked(sock) && e.taken == h.taken && e.accepted == h.accepted
    decreases |es|
  {
    if es != [] {
      StepFifo(cfg, sock, h, es[0]);
      ClosedForGood(cfg, sock, Step(cfg, sock, h, es[0]), es[1..]);
    }
  }

  /** The deadline of a nice close works backwards: the timer drops the connection, with
      everything it still holds, exactly while the deadline lies ahead, and never because
      the deadline has passed. */
  lemma NiceCloseIsEarly(cfg: Limits, sock: int, h: History, now: int, msec: int, tick: int, o: SendOutcome)
    requires sock >= 0 && Fifo(cfg, sock, h) && h.s.ok && h.s.Pending() != "" && msec > 0 && now >= 0
    ensures var c := Step(cfg, sock, h, CloseNice(now, msec));
            var t := Step(cfg, sock, c, Timer(tick, o));
            && (tick < now + 1000 * msec ==> !t.s.ok && t.taken == h.taken && t.s.Pending() == h.s.Pending())
            && (tick >= now + 1000 * msec ==> t == Step(cfg, sock, c, Writable(o)))
  {
  }

  // ---- what each event comes to, case by case ----

  /** What a send of a handler, a timed flush or a flush on readiness comes to. More than the
      cap in all closes, and takes nothing on. Nothing at all, or a send that asks for no flush
      and stays within half of the cap, is only kept. Everything else is offered to the socket:
      the connection survives if all is taken and no nice close waits for that, or if the socket
      is busy and either took something or no nice close waits. What was not taken stays, output
      is watched as long as there is any, and input follows the two sizes. */
  lemma WriteDecides(cfg: Limits, sock: int, h: History, e: Event, data: string, flush: bool, o: SendOutcome)
    requires sock >= 0 && Fifo(cfg, sock, h) && h.s.ok && o.Of(|h.s.Pending()| + |data|)
    requires
      || (e == Send(data, flush, o) && h.s.writable)
      || (data == "" && flush && e == Writable(o))
      || (data == "" && flush && e.Timer? && e.outcome == o && (h.s.closeAfter == 0 || h.s.closeAfter <= e.now))
    ensures var t := Step(cfg, sock, h, e);
            var all := h.s.Pending() + data;
            && t.s.closeAfter == h.s.closeAfter && (t.s.writable <==> t.s.ok && h.s.writable)
            && if |all| > cfg.maxBuffer then
                 !t.s.ok && t.s.Pending() == h.s.Pending() && t.accepted == h.accepted && t.taken == h.taken
               else if all == "" || (!flush && |all| <= cfg.maxBuffer / 2) then
                 t.s.ok && t.s.Pending() == all && t.s.entry == h.s.entry && t.accepted == h.accepted + data && t.taken == h.taken
               else
                 && t.accepted == h.accepted + data && t.taken == h.taken + all[..o.sent]
                 && t.s.Pending() == (if o.end == Hard then all else all[o.sent..])
                 && (t.s.ok <==> (o.end == Done && h.s.closeAfter == 0) || (o.end == Again && (o.sent > 0 || h.s.closeAfter == 0)))
                 && (t.s.ok ==>
                       && (t.s.entry.events.out <==> o.end == Again)
                       && (t.s.entry.events.inp <==>
                             if o.end == Again && |all| - o.sent < cfg.unblock then true
                             else if o.end == Again && |all| - o.sent >= cfg.outfill then false
                             else h.s.entry.events.inp))
  {
    hide AfterSend, OptInFd, OptOutFd;
    var s, all := h.s, h.s.Pending() + data;
    assert s.send + s.flush + data == all && s.send + (s.flush + data) == all && |all| == |s.send| + |s.flush| + |data|;
    assert data == "" ==> h.accepted + data == h.accepted && all == s.Pending();
    assert h.taken + "" == h.taken && h.accepted + "" == h.accepted;
    if Flushes(cfg, s, data, flush) {
      SentDecides(cfg, sock, s.(send := all, flush := ""), o);
    }
  }

  lemma SentDecides(cfg: Limits, sock: int, s: OutState, o: SendOutcome)
    requires sock >= 0 && s.ok && s.entry.Watched(sock) && s.flush == "" && s.send != "" && o.Of(|s.send|)
    ensures var t := AfterSend(cfg, sock, s, o);
            && t.closeAfter == s.closeAfter && (t.writable <==> t.ok && s.writable)
            && t.Pending() == (if o.end == Hard then s.send else s.send[o.sent..])
            && (t.ok <==> (o.end == Done && s.closeAfter == 0) || (o.end == Again && (o.sent > 0 || s.closeAfter == 0)))
            && (t.ok ==>
                  && (t.entry.events.out <==> o.end == Again)
                  && (t.entry.events.inp <==>
                        if o.end == Again && |s.send| - o.sent < cfg.unblock then true
                        else if o.end == Again && |s.send| - o.sent >= cfg.outfill then false
                        else s.entry.events.inp))
  {
    assert s.send + "" == s.send && s.send[o.sent..] + "" == s.send[o.sent..];
  }

  /** Closing at once leaves what is pending unsent, for good. A nice close with nothing to send
      or without a deadline is the same; otherwise the connection stays open and only refuses
      what handlers send from then on. */
  lemma ClosingDecides(cfg: Limits, sock: int, h: History, now: int, msec: int, data: string, flush: bool, o: SendOutcome)
    requires sock >= 0 && Fifo(cfg, sock, h) && h.s.ok
    ensures var t := Step(cfg, sock, h, CloseNow);
            && !t.s.ok && !t.s.writable && t.s.Pending() == h.s.Pending() && t.accepted == h.accepted && t.taken == h.taken
            && t.s.entry.fd == sock && t.s.entry.events == NO_EVENTS
    ensures var t := Step(cfg, sock, h, CloseNice(now, msec));
            if msec <= 0 || h.s.Pending() == "" then t == Step(cfg, sock, h, CloseNow)
            else
              && t == h.(s := h.s.(writable := false, closeAfter := now + 1000 * msec))
              && Step(cfg, sock, t, Send(data, flush, o)) == t
  {
  }

  /** A nice close ends as soon as the socket is offered what was pending: with everything sent,
      the connection closes; it closes too on an error, or when the socket takes nothing; and it
      stays open, with the rest still to be sent, only after a partial send. */
  lemma NiceCloseEnds(cfg: Limits, sock: int, h: History, now: int, msec: int, o: SendOutcome)
    requires sock >= 0 && Fifo(cfg, sock, h) && h.s.ok && h.s.Pending() != "" && msec > 0 && now >= 0
    requires o.Of(|h.s.Pending()|)
    ensures var t := Step(cfg, sock, Step(cfg, sock, h, CloseNice(now, msec)), Writable(o));
            && t.taken == h.taken + h.s.Pending()[..o.sent]
            && (t.s.ok <==> o.end == Again && o.sent > 0)
            && (o.end == Done ==> !t.s.ok && t.taken == h.accepted && t.s.Pending() == "")
            && (t.s.ok ==> t.s.Pending() == h.s.Pending()[o.sent..] && t.s.entry.events.out)
  {
    hide AfterSend, OptInFd, OptOutFd;
    var c := Step(cfg, sock, h, CloseNice(now, msec));
    assert h.s.Pending() + "" == h.s.Pending() && h.s.Pending()[..|h.s.Pending()|] == h.s.Pending();
    assert c.s.Pending() == h.s.Pending();
    WriteDecides(cfg, sock, c, Writable(o), "", true, o);
  }

  /** Once input is blocked, sends that always succeed in full keep it blocked for good. */
  predicate FullSends(es: seq<Event>) {
    forall e <- es :: match e
      case Send(_, _, o) => o.end == Done
      case Timer(_, o) => o.end == Done
      case Writable(o) => o.end == Done
      case _ => true
  }

  lemma FullStepKeepsBlocked(cfg: Limits, sock: int, h: History, e: Event)
    requires sock >= 0 && Fifo(cfg, sock, h) && !h.s.entry.events.inp && FullSends([e])
    ensures !Step(cfg, sock, h, e).s.entry.events.inp
  {
    assert e in [e];
  }

  lemma {:induction false} DrainKeepsInputBlocked(cfg: Limits, sock: int, h: History, es: seq<Event>)
    requires sock >= 0 && Fifo(cfg, sock, h) && !h.s.entry.events.inp && FullSends(es)
    ensures !Run(cfg, sock, h, es).s.entry.events.inp
    decreases |es|
  {
    if es != [] {
      assert es[0] in es && forall e :: e in es[1..] ==> e in es;
      StepFifo(cfg, sock, h, es[0]);
      FullStepKeepsBlocked(cfg, sock, h, es[0]);
      DrainKeepsInputBlocked(cfg, sock, Step(cfg, sock, h, es[0]), es[1..]);
    }
  }

  /** So a connection can end up deaf: a partial send that leaves at least the fill size (and the
      unblock size) turns its input off, and once the rest is sent it is alive, has nothing to
      send, and its input is still off. */
  lemma DrainedAndDeaf(cfg: Limits, sock: int, data: string, sent: nat)
    requires sock >= 0 && sent < |data| <= cfg.maxBuffer
    requires |data| - sent >= cfg.outfill && |data| - sent >= cfg.unblock
    ensures var e := Run(cfg, sock, Fresh(sock), [Send(data, true, SendOutcome(sent, Again)), Writable(SendOutcome(|data| - sent, Done))]);
            e.s.ok && e.s.writable && e.s.Pending() == "" && e.taken == data && !e.s.entry.events.inp && !e.s.entry.events.out
  {
    var a, b := Send(data, true, SendOutcome(sent, Again)), Writable(SendOutcome(|data| - sent, Done));
    var h1 := Step(cfg, sock, Fresh(sock), a);
    TurnsDeaf(cfg, sock, data, sent);
    StaysDeaf(cfg, sock, h1);
    assert data[..sent] + data[sent..] == data;
    hide Step;
    assert [a, b][1..] == [b] && [b][1..] == [];
    assert Run(cfg, sock, h1, [b]) == Run(cfg, sock, Step(cfg, sock, h1, b), []);
  }

  lemma TurnsDeaf(cfg: Limits, sock: int, data: string, sent: nat)
    requires sock >= 0 && sent < |data| <= cfg.maxBuffer
    requires |data| - sent >= cfg.outfill && |data| - sent >= cfg.unblock
    ensures var h := Step(cfg, sock, Fresh(sock), Send(data, true, SendOutcome(sent, Again)));
            && h.s.ok && h.s.writable && h.s.send == data[sent..] && h.s.flush == "" && h.s.closeAfter == 0
            && h.s.entry.Watched(sock) && !h.s.entry.events.inp && h.taken == data[..sent]
  {
    assert "" + "" + data == data && "" + data[..sent] == data[..sent];
  }

  lemma StaysDeaf(cfg: Limits, sock: int, h: History)
    requires h.s.ok && h.s.writable && h.s.flush == "" && 0 < |h.s.send| <= cfg.maxBuffer && h.s.closeAfter == 0
    requires h.s.entry.Watched(sock) && !h.s.entry.events.inp
    ensures var e := Step(cfg, sock, h, Writable(SendOutcome(|h.s.send|, Done)));
            && e.s.ok && e.s.writable && e.s.Pending() == "" && e.taken == h.taken + h.s.send
            && !e.s.entry.events.inp && !e.s.entry.events.out
  {
    assert h.s.send + h.s.flush + "" == h.s.send && h.s.send[..|h.s.send|] == h.s.send && h.s.Pending() == h.s.send;
  }
}
