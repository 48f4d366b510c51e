/** What one connection goes through, as functions of what its surroundings do: what recv()
    and send() answer, and what the handlers of messages do. The server's methods are proved
    against these functions; the lemmas say when a connection is still served, and that it
    has then been handed exactly the messages of the stream it has sent. */
module Service {
  import opened ConnPoll
  import opened Framing
  import Output

  const MAX_MESS_SIZE: nat := 524288

  // ---- what the system answers ----

  /** One call of recv(): bytes (none at the end of the stream), or an error. */
  datatype Recv = Bytes(data: string) | Fails(again: bool)

  /** What one ReadAll brings in. */
  datatype ReadResult = NotRead | Hangup | TlsHello | Data(bytes: string)

  predicate LooksLikeTls(s: string) {
    |s| > 2 && s[0] == 0x16 as char && s[1] == 0x03 as char
  }

  /** The k-th answer of recv(), which never fills more than the buffer. */
  function Answer(recvs: seq<Recv>, k: nat): Recv {
    if k >= |recvs| then Fails(false)
    else if recvs[k].Bytes? && |recvs[k].data| > MAX_MESS_SIZE then Bytes(recvs[k].data[..MAX_MESS_SIZE])
    else recvs[k]
  }

  function ReadFrom(recvs: seq<Recv>, k: nat, retries: nat): ReadResult
    decreases retries
  {
    match Answer(recvs, k)
    case Fails(again) => if again && retries > 0 then ReadFrom(recvs, k + 1, retries - 1) else Hangup
    case Bytes(data) => if data == "" then Hangup else if LooksLikeTls(data) then TlsHello else Data(data)
  }

  function ReadOf(recvs: seq<Recv>, tries: nat): ReadResult {
    ReadFrom(recvs, 0, tries + 1)
  }

  lemma {:induction false} ReadFromBrings(recvs: seq<Recv>, k: nat, retries: nat)
    ensures ReadFrom(recvs, k, retries) != NotRead
    decreases retries
  {
    if retries > 0 {
      ReadFromBrings(recvs, k + 1, retries - 1);
    }
  }

  lemma ReadBrings(recvs: seq<Recv>, tries: nat)
    ensures ReadOf(recvs, tries) != NotRead
  {
    ReadFromBrings(recvs, 0, tries + 1);
  }

  /** A read outlasts up to `tries + 1` temporary failures in a row. What decides is the first
      answer that is none: no bytes or another error is a hang-up, and more than two bytes that
      start with 0x16 0x03 are the hello of a TLS client. */
  lemma ReadOutlasts(recvs: seq<Recv>, tries: nat, j: nat)
    requires j <= |recvs| && forall i :: 0 <= i < j ==> recvs[i] == Fails(true)
    requires j < |recvs| ==> recvs[j] != Fails(true)
    ensures ReadOf(recvs, tries) ==
              if j > tries + 1 || j == |recvs| || recvs[j].Fails? || recvs[j].data == "" then Hangup
              else
                var data := recvs[j].data[..if |recvs[j].data| <= MAX_MESS_SIZE then |recvs[j].data| else MAX_MESS_SIZE];
                if |data| >= 3 && data[..2] == ['\U{0016}', '\U{0003}'] then TlsHello else Data(data)
  {
    ReadFromOutlasts(recvs, 0, tries + 1, j);
  }

  lemma {:induction false} ReadFromOutlasts(recvs: seq<Recv>, k: nat, retries: nat, j: nat)
    requires k <= j <= |recvs| && forall i :: k <= i < j ==> recvs[i] == Fails(true)
    requires j < |recvs| ==> recvs[j] != Fails(true)
    ensures ReadFrom(recvs, k, retries) ==
              if j > k + retries || j == |recvs| || recvs[j].Fails? || recvs[j].data == "" then Hangup
              else
                var data := recvs[j].data[..if |recvs[j].data| <= MAX_MESS_SIZE then |recvs[j].data| else MAX_MESS_SIZE];
                if |data| >= 3 && data[..2] == ['\U{0016}', '\U{0003}'] then TlsHello else Data(data)
    decreases retries
  {
    if k < j && retries > 0 {
      ReadFromOutlasts(recvs, k + 1, retries - 1, j);
    }
  }

  /** What the calls of send() within one write answer: a number of bytes, or, once a number
      is out of range or there is none, an error that is temporary or not. */
  datatype SocketSays = SocketSays(sends: seq<int>, again: bool)

  function Sent(sends: seq<int>, k: nat, left: nat): (n: nat)
    ensures n <= left
    decreases left
  {
    if left == 0 || k >= |sends| || !(1 <= sends[k] <= left) then 0
    else sends[k] + Sent(sends, k + 1, left - sends[k])
  }

  function OutcomeOf(says: SocketSays, size: nat): (o: Output.SendOutcome)
    ensures o.Of(size)
  {
    var n := Sent(says.sends, 0, size);
    Output.SendOutcome(n, if n == size then Output.Done else if says.again then Output.Again else Output.Hard)
  }

  function Sum(ns: seq<int>): int {
    if ns == [] then 0 else ns[0] + Sum(ns[1..])
  }

  /** What the socket takes in one write is the sum of its answers, up to the first that is no
      number of bytes from 1 to those still on offer. */
  lemma {:induction false} SentIsSum(sends: seq<int>, k: nat, left: nat, j: nat)
    requires k <= j <= |sends| && (forall i :: k <= i < j ==> sends[i] >= 1) && Sum(sends[k..j]) <= left
    requires Sum(sends[k..j]) == left || j == |sends| || !(1 <= sends[j] <= left - Sum(sends[k..j]))
    ensures Sent(sends, k, left) == Sum(sends[k..j])
    decreases j - k
  {
    if k < j {
      assert sends[k..j][1..] == sends[k + 1..j];
      SumOfSome(sends[k + 1..j]);
      SentIsSum(sends, k + 1, left - sends[k], j);
    }
  }

  lemma {:induction false} SumOfSome(ns: seq<int>)
    requires forall i :: 0 <= i < |ns| ==> ns[i] >= 1
    ensures Sum(ns) >= |ns|
  {
    if ns != [] {
      SumOfSome(ns[1..]);
    }
  }

  /** So a write ends with everything taken, or with what the answers add up to and an error. */
  lemma AnswersAmountTo(says: SocketSays, size: nat, j: nat)
    requires j <= |says.sends| && (forall i :: 0 <= i < j ==> says.sends[i] >= 1) && Sum(says.sends[..j]) <= size
    requires Sum(says.sends[..j]) == size || j == |says.sends| || !(1 <= says.sends[j] <= size - Sum(says.sends[..j]))
    ensures var o := OutcomeOf(says, size);
            && o.sent == Sum(says.sends[..j])
            && (o.end == Output.Done <==> o.sent == size) && (o.end == Output.Again <==> o.sent < size && says.again)
  {
    assert says.sends[0..j] == says.sends[..j];
    SentIsSum(says.sends, 0, size, j);
  }

  // ---- what handlers do ----

  /** An operation of a handler on a connection. */
  datatype Action =
    | Send(data: string, flush: bool, says: SocketSays)
    | Nice(msec: int)
    | Now
    | Drop                     // delConnection on the connection that is being treated

  datatype Aimed = Aimed(sock: int, action: Action)

  /** What one handler does: operations on connections of its choice. */
  type Script = seq<Aimed>

  predicate Aims(script: Script, sock: int) {
    exists i :: 0 <= i < |script| && script[i].sock == sock
  }

  predicate AnyAims(scripts: seq<Script>, sock: int) {
    exists i :: 0 <= i < |scripts| && Aims(scripts[i], sock)
  }

  function ScriptAt(scripts: seq<Script>, k: nat): Script {
    if k < |scripts| then scripts[k] else []
  }

  /** The first k handlers, one after the other. */
  function Flat(scripts: seq<Script>, k: nat): Script {
    if k == 0 then [] else Flat(scripts, k - 1) + ScriptAt(scripts, k - 1)
  }

  lemma {:induction false} FlatAims(scripts: seq<Script>, k: nat, sock: int)
    requires !AnyAims(scripts, sock)
    ensures !Aims(Flat(scripts, k), sock)
  {
    if k > 0 {
      FlatAims(scripts, k - 1, sock);
      var a: Script, b: Script := Flat(scripts, k - 1), ScriptAt(scripts, k - 1);
      forall i | 0 <= i < |a + b| ensures (a + b)[i].sock != sock {
        assert (a + b)[i] == if i < |a| then a[i] else b[i - |a|];
      }
    }
  }

  // ---- the standing of a connection ----

  /** Why a connection is no longer served, other than for an overlong line: a handler closed
      it, its output failed, or its peer hung up, failed, spoke TLS or was reported in error. */
  datatype Ending = Running | ByHandler | ByOutput | ByPeer

  datatype Standing = Standing(h: Output.History, ending: Ending) {
    predicate Serving() { h.s.ok && h.s.writable }

    function To(h2: Output.History, cause: Ending): Standing {
      var moved := Standing(h2, ending);
      if Serving() && !moved.Serving() then moved.(ending := cause) else moved
    }
  }

  /** The settings of the server, the socket, whether it is the connection under treatment,
      and the time. */
  datatype Site = Site(limits: Output.Limits, sock: int, treated: bool, now: int)

  function Stepped(site: Site, st: Standing, e: Output.Event, cause: Ending): Standing {
    st.To(Output.Step(site.limits, site.sock, st.h, e), cause)
  }

  function Dropped(st: Standing, cause: Ending): Standing {
    st.To(st.h.(s := st.h.s.(ok := false)), cause)
  }

  /** Closed for an overlong line, which is no reason to note. */
  function CutOff(site: Site, st: Standing): Standing {
    Standing(Output.Step(site.limits, site.sock, st.h, Output.CloseNow), st.ending)
  }

  function SendEvent(s: Output.OutState, data: string, flush: bool, says: SocketSays): Output.Event {
    Output.Send(data, flush, OutcomeOf(says, |s.send| + |s.flush| + |data|))
  }

  function Performed(site: Site, st: Standing, a: Action): Standing {
    match a
    case Send(data, flush, says) => Stepped(site, st, SendEvent(st.h.s, data, flush, says), ByOutput)
    case Nice(msec) => Stepped(site, st, Output.CloseNice(site.now, msec), ByHandler)
    case Now => Stepped(site, st, Output.CloseNow, ByHandler)
    case Drop => if site.treated then Dropped(st, ByHandler) else st
  }

  function Handled(site: Site, st: Standing, script: Script): Standing
    decreases |script|
  {
    if script == [] then st
    else
      var n := |script| - 1;
      var before := Handled(site, st, script[..n]);
      if script[n].sock == site.sock then Performed(site, before, script[n].action) else before
  }

  function Flushed(site: Site, st: Standing, says: SocketSays): Standing {
    if st.h.s.ok then
      Stepped(site, st, Output.Writable(OutcomeOf(says, |st.h.s.send| + |st.h.s.flush|)), ByOutput)
    else st
  }

  function Ticked(site: Site, st: Standing, says: SocketSays): Standing {
    if st.h.s.ok then
      Stepped(site, st, Output.Timer(site.now, OutcomeOf(says, |st.h.s.send| + |st.h.s.flush|)), ByOutput)
    else st
  }

  /** The tick of one connection: what its socket answers, and what its timer handler does. */
  datatype Tick = Tick(says: SocketSays, script: Script)

  function TickAt(ticks: seq<Tick>, k: nat): Tick {
    if k < |ticks| then ticks[k] else Tick(SocketSays([], false), [])
  }

  predicate TickAims(ticks: seq<Tick>, sock: int) {
    exists i :: 0 <= i < |ticks| && Aims(ticks[i].script, sock)
  }

  /** Its output side is a state of the output model; under treatment it may also be dead
      without a close mark. */
  predicate Sound(limits: Output.Limits, sock: int, treated: bool, st: Standing) {
    Output.Fifo(limits, sock, st.h) || (treated && !st.h.s.ok)
  }

  /** What holds of every change of standing: nothing is revived, and service ends for a cause. */
  predicate Continues(st: Standing, after: Standing) {
    && (after.h.s.ok ==> st.h.s.ok) && (after.h.s.writable ==> st.h.s.writable)
    && (if st.Serving() && !after.Serving() then after.ending != Running else after.ending == st.ending)
  }

  lemma StepContinues(site: Site, st: Standing, e: Output.Event, cause: Ending)
    requires cause != Running
    ensures Continues(st, Stepped(site, st, e, cause))
  {
    hide Output.Step;
    Output.StepNeverRevives(site.limits, site.sock, st.h, e);
  }

  lemma PerformedContinues(site: Site, st: Standing, a: Action)
    ensures Continues(st, Performed(site, st, a))
  {
    hide Output.Step, Stepped;
    match a
    case Send(data, flush, says) => StepContinues(site, st, SendEvent(st.h.s, data, flush, says), ByOutput);
    case Nice(msec) => StepContinues(site, st, Output.CloseNice(site.now, msec), ByHandler);
    case Now => StepContinues(site, st, Output.CloseNow, ByHandler);
    case Drop =>
  }

  lemma {:induction false} HandledContinues(site: Site, st: Standing, script: Script)
    ensures Continues(st, Handled(site, st, script))
    decreases |script|
  {
    hide Performed;
    if script != [] {
      var n := |script| - 1;
      HandledContinues(site, st, script[..n]);
      PerformedContinues(site, Handled(site, st, script[..n]), script[n].action);
    }
  }

  lemma {:induction false} HandledOn(site: Site, st: Standing, a: Script, b: Script)
    ensures Handled(site, st, a + b) == Handled(site, Handled(site, st, a), b)
    decreases |b|
  {
    hide Performed;
    if b == [] {
      assert a + b == a;
    } else {
      var n := |b| - 1;
      assert (a + b)[..|a| + n] == a + b[..n] && (a + b)[|a| + n] == b[n];
      HandledOn(site, st, a, b[..n]);
    }
  }

  lemma HandledNone(site: Site, st: Standing)
    ensures Handled(site, st, []) == st
  {
  }

  lemma OneAimed(site: Site, st: Standing, aimed: Aimed)
    ensures Handled(site, st, [aimed]) == if aimed.sock == site.sock then Performed(site, st, aimed.action) else st
  {
    assert [aimed][..0] == [];
  }

  /** Handlers that do not aim at a connection leave it as it was. */
  lemma {:induction false} HandledElsewhere(site: Site, st: Standing, script: Script)
    requires !Aims(script, site.sock)
    ensures Handled(site, st, script) == st
    decreases |script|
  {
    hide Performed;
    if script != [] {
      var n := |script| - 1;
      assert script[n].sock != site.sock;
      assert forall i :: 0 <= i < n ==> script[..n][i] == script[i];
      HandledElsewhere(site, st, script[..n]);
    }
  }

  lemma StepSound(site: Site, st: Standing, e: Output.Event, cause: Ending)
    requires site.sock >= 0 && Sound(site.limits, site.sock, site.treated, st)
    ensures Sound(site.limits, site.sock, site.treated, Stepped(site, st, e, cause))
    ensures !site.treated && RevTestFd(st.h.s.entry) ==> RevTestFd(Stepped(site, st, e, cause).h.s.entry)
  {
    hide Output.Step, RevTestFd;
    if Output.Fifo(site.limits, site.sock, st.h) {
      Output.StepFifo(site.limits, site.sock, st.h, e);
      if RevTestFd(st.h.s.entry) {
        Output.StepKeepsReport(site.limits, site.sock, st.h, e);
      }
    }
    Output.StepNeverRevives(site.limits, site.sock, st.h, e);
  }

  lemma PerformedSound(site: Site, st: Standing, a: Action)
    requires site.sock >= 0 && Sound(site.limits, site.sock, site.treated, st)
    ensures Sound(site.limits, site.sock, site.treated, Performed(site, st, a))
    ensures !site.treated && RevTestFd(st.h.s.entry) ==> RevTestFd(Performed(site, st, a).h.s.entry)
  {
    hide Output.Step, Output.Fifo, Stepped, RevTestFd;
    match a
    case Send(data, flush, says) => StepSound(site, st, SendEvent(st.h.s, data, flush, says), ByOutput);
    case Nice(msec) => StepSound(site, st, Output.CloseNice(site.now, msec), ByHandler);
    case Now => StepSound(site, st, Output.CloseNow, ByHandler);
    case Drop =>
  }

  // ---- what the operations of handlers, readiness and the timer do, case by case ----

  /** Closing at once leaves what is pending unsent. A nice close is the same without anything
      to send or without a deadline, and otherwise only ends the service. Dropping the connection
      that is being treated kills it as it stands, and any other is not affected. */
  lemma ClosedByHandler(site: Site, st: Standing, msec: int)
    requires site.sock >= 0 && Output.Fifo(site.limits, site.sock, st.h) && st.h.s.ok
    ensures var t := Performed(site, st, Now);
            && !t.h.s.ok && !t.h.s.writable && t.h.s.Pending() == st.h.s.Pending()
            && t.h.taken == st.h.taken && t.h.accepted == st.h.accepted
            && t.ending == if st.h.s.writable then ByHandler else st.ending
    ensures var t := Performed(site, st, Nice(msec));
            if msec <= 0 || st.h.s.Pending() == "" then t == Performed(site, st, Now)
            else
              && t.h == st.h.(s := st.h.s.(writable := false, closeAfter := site.now + 1000 * msec))
              && t.ending == if st.h.s.writable then ByHandler else st.ending
    ensures var t := Performed(site, st, Drop);
            if !site.treated then t == st
            else t == Standing(st.h.(s := st.h.s.(ok := false)), if st.h.s.writable then ByHandler else st.ending)
  {
  }

  /** What a handler sends is dropped once the connection is not writable. Before that, more than
      the cap in all closes it; and a send that flushes, or fills more than half of the cap, hands
      the socket as many bytes as its answers amount to, in order. */
  lemma SentByHandler(site: Site, st: Standing, data: string, flush: bool, says: SocketSays)
    requires site.sock >= 0 && Output.Fifo(site.limits, site.sock, st.h)
    ensures var t := Performed(site, st, Send(data, flush, says));
            var all := st.h.s.Pending() + data;
            var n := Sent(says.sends, 0, |all|);
            if !st.h.s.writable then t == st
            else if |all| > site.limits.maxBuffer then !t.h.s.ok && t.h.taken == st.h.taken && t.ending == ByOutput
            else
              && t.h.accepted == st.h.accepted + data
              && if all == "" || (!flush && |all| <= site.limits.maxBuffer / 2) then
                   t.h.s.ok && t.h.taken == st.h.taken && t.h.s.Pending() == all && t.ending == st.ending
                 else
                   && t.h.taken == st.h.taken + all[..n]
                   && (t.h.s.ok <==> if n == |all| then st.h.s.closeAfter == 0 else says.again && (n > 0 || st.h.s.closeAfter == 0))
                   && (t.h.s.ok ==> t.h.s.Pending() == all[n..] && (t.h.s.entry.events.out <==> n < |all|))
                   && t.ending == if t.h.s.ok then st.ending else ByOutput
  {
    hide Output.Step, Sent;
    var s := st.h.s;
    if s.writable {
      var all := s.Pending() + data;
      var o := OutcomeOf(says, |all|);
      assert |all| == |s.send| + |s.flush| + |data|;
      Output.WriteDecides(site.limits, site.sock, st.h, Output.Send(data, flush, o), data, flush, o);
      assert all[|all|..] == "";
    } else {
      SendDropped(site, st, data, flush, says);
    }
  }

  lemma SendDropped(site: Site, st: Standing, data: string, flush: bool, says: SocketSays)
    requires !st.h.s.writable
    ensures Performed(site, st, Send(data, flush, says)) == st
  {
  }

  /** Readiness and the timer offer the socket all that is pending. The connection survives if
      all is taken and no nice close waits for that, or if the socket is busy and either took
      something or no nice close waits; what was not taken stays pending. */
  predicate Drains(st: Standing, says: SocketSays, t: Standing) {
    var all := st.h.s.Pending();
    var n := Sent(says.sends, 0, |all|);
    && t.h.accepted == st.h.accepted && t.h.taken == st.h.taken + all[..n]
    && (t.h.s.ok <==> if n == |all| then all == "" || st.h.s.closeAfter == 0 else says.again && (n > 0 || st.h.s.closeAfter == 0))
    && (t.h.s.writable <==> t.h.s.ok && st.h.s.writable)
    && (t.h.s.ok ==> t.h.s.Pending() == all[n..])
    && (t.h.s.ok && all != "" ==> (t.h.s.entry.events.out <==> n < |all|))
    && t.ending == if st.h.s.writable && !t.h.s.ok then ByOutput else st.ending
  }

  lemma FlushedDrains(site: Site, st: Standing, says: SocketSays)
    requires site.sock >= 0 && Output.Fifo(site.limits, site.sock, st.h) && st.h.s.ok
    ensures Drains(st, says, Flushed(site, st, says))
  {
    hide Output.Step, Sent;
    var all := st.h.s.Pending();
    var o := OutcomeOf(says, |all|);
    assert all + "" == all && all[|all|..] == "" && st.h.accepted + "" == st.h.accepted && st.h.taken + "" == st.h.taken;
    Output.WriteDecides(site.limits, site.sock, st.h, Output.Writable(o), "", true, o);
  }

  /** The timer does so unless the deadline of a nice close lies ahead: then it closes. */
  lemma TickedDrains(site: Site, st: Standing, says: SocketSays)
    requires site.sock >= 0 && Output.Fifo(site.limits, site.sock, st.h) && st.h.s.ok
    ensures var t := Ticked(site, st, says);
            if st.h.s.closeAfter != 0 && st.h.s.closeAfter > site.now then
              !t.h.s.ok && t.h.taken == st.h.taken && t.ending == if st.h.s.writable then ByOutput else st.ending
            else Drains(st, says, t)
  {
    hide Output.Step, Sent;
    var all := st.h.s.Pending();
    var o := OutcomeOf(says, |all|);
    if st.h.s.closeAfter != 0 && st.h.s.closeAfter > site.now {
      TickCloses(site, st, o);
    } else {
      assert all + "" == all && all[|all|..] == "" && st.h.accepted + "" == st.h.accepted && st.h.taken + "" == st.h.taken;
      Output.WriteDecides(site.limits, site.sock, st.h, Output.Timer(site.now, o), "", true, o);
    }
  }

  lemma TickCloses(site: Site, st: Standing, o: Output.SendOutcome)
    requires st.h.s.ok && st.h.s.closeAfter != 0 && st.h.s.closeAfter > site.now
    ensures var t := Output.Step(site.limits, site.sock, st.h, Output.Timer(site.now, o)); !t.s.ok && !t.s.writable && t.taken == st.h.taken
  {
  }

  // ---- a turn ----

  /** A connection as far as its peer and its handlers can tell: its standing, what it has
      read, the unfinished line while it is served, and the messages handed over. */
  datatype Life = Life(st: Standing, received: seq<string>, line: string, delivered: seq<string>) {
    function With(st2: Standing): Life {
      Life(st2, received, if st.Serving() && !st2.Serving() then "" else line, delivered)
    }
  }

  /** A connection after handlers of other connections, or of its own messages, have run. */
  function LedBy(site: Site, v: Life, script: Script): Life {
    v.With(Handled(site, v.st, script))
  }

  lemma LedByNone(site: Site, v: Life)
    ensures LedBy(site, v, []) == v
  {
    HandledNone(site, v.st);
  }

  lemma LedByOn(site: Site, v: Life, a: Script, b: Script)
    ensures LedBy(site, v, a + b) == LedBy(site, LedBy(site, v, a), b)
  {
    hide Handled;
    HandledOn(site, v.st, a, b);
    HandledContinues(site, v.st, a);
    HandledContinues(site, Handled(site, v.st, a), b);
  }

  lemma LedByElsewhere(site: Site, v: Life, script: Script)
    requires !Aims(script, site.sock)
    ensures LedBy(site, v, script) == v
  {
    hide Handled;
    HandledElsewhere(site, v.st, script);
  }

  /** Handlers do not revive a connection, and what poll() reported stays reported. */
  lemma {:induction false} HandledSound(site: Site, st: Standing, script: Script)
    requires site.sock >= 0 && Sound(site.limits, site.sock, site.treated, st)
    ensures Sound(site.limits, site.sock, site.treated, Handled(site, st, script))
    ensures !site.treated && RevTestFd(st.h.s.entry) ==> RevTestFd(Handled(site, st, script).h.s.entry)
    decreases |script|
  {
    hide Performed, Sound, RevTestFd;
    if script != [] {
      var n := |script| - 1;
      HandledSound(site, st, script[..n]);
      PerformedSound(site, Handled(site, st, script[..n]), script[n].action);
    }
  }

  /** What handlers of others cannot do to a connection: revive it, take back what poll()
      reported, or have it read or be handed anything. */
  predicate Bears(v: Life, w: Life) {
    && (w.st.h.s.ok ==> v.st.h.s.ok)
    && (RevTestFd(v.st.h.s.entry) ==> RevTestFd(w.st.h.s.entry))
    && w.received == v.received && w.delivered == v.delivered
  }

  lemma LedByBears(site: Site, v: Life, script: Script)
    requires site.sock >= 0 && !site.treated && Sound(site.limits, site.sock, false, v.st)
    ensures Bears(v, LedBy(site, v, script))
  {
    hide Handled, Sound, RevTestFd;
    HandledSound(site, v.st, script);
    HandledContinues(site, v.st, script);
  }

  /** How many of the first n messages are handed over: up to and including the first whose
      handler ends the service. */
  function Reached(site: Site, st: Standing, scripts: seq<Script>, n: nat): (k: nat)
    ensures k <= n
  {
    if n == 0 then 0
    else
      var k := Reached(site, st, scripts, n - 1);
      if k == n - 1 && Handled(site, st, Flat(scripts, k)).Serving() then n else k
  }

  /** Each of these messages found the connection served, and after the last one it is served no
      longer if it is not the last of all. */
  lemma {:induction false} ReachedCounts(site: Site, st: Standing, scripts: seq<Script>, n: nat)
    ensures var k := Reached(site, st, scripts, n);
            && (forall j :: 0 <= j < k ==> Handled(site, st, Flat(scripts, j)).Serving())
            && (k < n ==> !Handled(site, st, Flat(scripts, k)).Serving())
  {
    hide Handled, Flat;
    if n > 0 {
      ReachedCounts(site, st, scripts, n - 1);
    }
  }

  /** What the input loop makes of the bytes of one read. */
  function Taken(site: Site, max: nat, v: Life, bytes: string, scripts: seq<Script>): Life {
    var f := Frame(v.line, bytes);
    var n := Reached(site, v.st, scripts, |f.msgs|);
    var st := Handled(site, v.st, Flat(scripts, n));
    var end := if st.Serving() && |f.tail| > max then CutOff(site, st) else st;
    Life(end, v.received, if end.Serving() then f.tail else "", v.delivered + f.msgs[..n])
  }

  datatype Arrival = Arrival(sock: int, refused: bool, tlsProxy: bool, greeting: Script, turnedAway: bool)

  /** What the hub's handlers do to greet the first k arrivals: nothing for those that are
      refused, or that wait behind the TLS proxy. */
  function Greetings(arrivals: seq<Arrival>, k: nat): Script {
    if k == 0 then [] else Greetings(arrivals, k - 1) + Greeting(ArrivalAt(arrivals, k - 1))
  }

  function ArrivalAt(arrivals: seq<Arrival>, k: nat): Arrival {
    if k < |arrivals| then arrivals[k] else Arrival(INVALID_SOCKET, true, false, [], false)
  }

  function Greeting(a: Arrival): Script {
    if a.refused || a.tlsProxy then [] else a.greeting
  }

  lemma {:induction false} GreetingsAim(arrivals: seq<Arrival>, k: nat, sock: int)
    requires !GreetingAims(arrivals, sock)
    ensures !Aims(Greetings(arrivals, k), sock)
  {
    if k > 0 {
      GreetingsAim(arrivals, k - 1, sock);
      var a: Script, b: Script := Greetings(arrivals, k - 1), Greeting(ArrivalAt(arrivals, k - 1));
      forall i | 0 <= i < |a + b| ensures (a + b)[i].sock != sock {
        assert (a + b)[i] == if i < |a| then a[i] else b[i - |a|];
      }
    }
  }

  /** What the surroundings do during the turn of one socket. */
  datatype Turn = Turn(recvs: seq<Recv>, scripts: seq<Script>, says: SocketSays, arrivals: seq<Arrival>)

  predicate GreetingAims(arrivals: seq<Arrival>, sock: int) {
    exists i :: 0 <= i < |arrivals| && Aims(arrivals[i].greeting, sock)
  }

  predicate TurnAims(turn: Turn, sock: int) {
    AnyAims(turn.scripts, sock) || GreetingAims(turn.arrivals, sock)
  }

  function InputTurn(site: Site, max: nat, tries: nat, v: Life, turn: Turn): Life {
    if !v.st.Serving() then v.With(Dropped(v.st, ByPeer))
    else
      match ReadOf(turn.recvs, tries)
      case Data(bytes) => Taken(site, max, v.(received := v.received + [bytes]), bytes, turn.scripts)
      case _ => v.With(Stepped(site, v.st, Output.CloseNow, ByPeer))
  }

  /** The turn of a client: its input if it is ready, then its output if it is ready. */
  function TurnOf(site: Site, max: nat, tries: nat, v: Life, turn: Turn, activity: Mask): Life {
    var v1 := if v.st.h.s.ok && activity.input then InputTurn(site, max, tries, v, turn) else v;
    if v1.st.h.s.ok && activity.output then v1.With(Flushed(site, v1.st, turn.says)) else v1
  }

  /** After its turn a client stays exactly if it is alive and nothing bad was reported. */
  predicate Stays(v: Life, activity: Mask) {
    v.st.h.s.ok && !activity.error && !activity.close
  }

  /** A connection for which poll() has reported something. */
  function Heard(v: Life, report: Events): Life {
    v.(st := v.st.(h := v.st.h.(s := v.st.h.s.(entry := v.st.h.s.entry.(revents := report)))))
  }

  /** A report changes nothing else, and is what the sweep then finds of a live connection. */
  lemma HeardIsReported(v: Life, report: Events, sock: int)
    requires v.st.h.s.entry.Watched(sock) && sock >= 0
    ensures var w := Heard(v, report);
            && w.received == v.received && w.delivered == v.delivered && w.line == v.line && w.st.ending == v.st.ending
            && w.st.h.taken == v.st.h.taken && w.st.h.s.Pending() == v.st.h.s.Pending() && w.st.h.s.ok == v.st.h.s.ok
            && w.st.h.s.entry.events == v.st.h.s.entry.events
            && RevGetFd(w.st.h.s.entry, sock) == Mask(report.inp, report.out, report.err, false)
            && (RevTestFd(w.st.h.s.entry) <==> report != NO_EVENTS)
  {
  }

  /** What there is to be known of a connection: whether the server lists it, whether it has
      freed it, and its life. */
  datatype Status = Status(listed: bool, freed: bool, life: Life)

  /** How a client comes out of its turn. */
  predicate Leaves(x: Status, t: Life, activity: Mask) {
    && (x.listed <==> Stays(t, activity)) && (x.listed <==> !x.freed)
    && (x.listed ==> x.life == t)
    && x.life.received == t.received && x.life.delivered == t.delivered
    && x.life.st.ending == if t.st.Serving() && !Stays(t, activity) then ByPeer else t.st.ending
  }

  /** Nothing happens to the dead, but they do not stay. */
  lemma DeadTurn(site: Site, max: nat, tries: nat, v: Life, turn: Turn, activity: Mask)
    requires !v.st.h.s.ok
    ensures TurnOf(site, max, tries, v, turn, activity) == v && !Stays(v, activity)
  {
  }

  /** No turn of another socket aims at this one. */
  ghost predicate Undisturbed(turns: int -> Turn, sock: int) {
    forall s: int :: s != sock ==> !TurnAims(turns(s), sock)
  }

  lemma {:induction false} ReachedStops(site: Site, st: Standing, scripts: seq<Script>, k: nat, n: nat)
    requires k <= n && Reached(site, st, scripts, k) == k
    requires k == n || !Handled(site, st, Flat(scripts, k)).Serving()
    ensures Reached(site, st, scripts, n) == k
    decreases n
  {
    if k < n {
      ReachedStops(site, st, scripts, k, n - 1);
    }
  }

  // ---- the input loop, one piece after the other ----

  /** Where the loop is: how many messages it has handed over, and, while the connection is
      served, the line being filled and what is left in the buffer. */
  datatype Cursor = Cursor(k: nat, st: Standing, delivered: seq<string>, line: string, rest: string)

  predicate Along(site: Site, max: nat, v: Life, bytes: string, scripts: seq<Script>, c: Cursor) {
    var f := Frame(v.line, bytes);
    var st := Handled(site, v.st, Flat(scripts, c.k));
    && c.k <= |f.msgs| && Reached(site, v.st, scripts, c.k) == c.k
    && c.delivered == v.delivered + f.msgs[..c.k]
    && (c.st == st || (st.Serving() && c.k == |f.msgs| && |f.tail| > max && c.st == CutOff(site, st)))
    && (c.st.Serving() ==> Frame(c.line, c.rest) == Framed(f.msgs[c.k..], f.tail))
    && (c.st.Serving() && c.rest == "" ==> |c.line| <= max)
  }

  lemma AlongFromStart(site: Site, max: nat, v: Life, bytes: string, scripts: seq<Script>)
    requires v.st.Serving() && bytes != ""
    ensures Along(site, max, v, bytes, scripts, Cursor(0, v.st, v.delivered, v.line, bytes))
  {
    hide Frame;
    var f := Frame(v.line, bytes);
    assert f.msgs[0..] == f.msgs && v.delivered + f.msgs[..0] == v.delivered;
  }

  lemma AlongHanded(site: Site, max: nat, v: Life, bytes: string, scripts: seq<Script>, c: Cursor, msg: string, left: string)
    requires Along(site, max, v, bytes, scripts, c) && c.st.Serving()
    requires Frame(c.line, c.rest) == Prepend(msg, Frame("", left))
    ensures Along(site, max, v, bytes, scripts,
              Cursor(c.k + 1, Handled(site, c.st, ScriptAt(scripts, c.k)), c.delivered + [msg], "", left))
  {
    hide Frame, Handled, Output.Step;
    var f := Frame(v.line, bytes);
    NextOf(f, c.k, msg, Frame("", left));
    HandledOn(site, v.st, Flat(scripts, c.k), ScriptAt(scripts, c.k));
    assert v.delivered + f.msgs[..c.k] + [msg] == v.delivered + (f.msgs[..c.k] + [msg]);
    TakenEnds(site, Handled(site, v.st, Flat(scripts, c.k)));
  }

  lemma AlongUnfinished(site: Site, max: nat, v: Life, bytes: string, scripts: seq<Script>, c: Cursor)
    requires Along(site, max, v, bytes, scripts, c) && c.st.Serving()
    requires Frame(c.line, c.rest) == Framed([], c.line + c.rest)
    ensures Along(site, max, v, bytes, scripts,
              c.(st := if |c.line + c.rest| <= max then c.st else CutOff(site, c.st), line := c.line + c.rest, rest := ""))
  {
    hide Frame, Handled, Output.Step;
    TakenEnds(site, Handled(site, v.st, Flat(scripts, c.k)));
    TakenEnds(site, c.st);
    FrameToEnd(c.line + c.rest, "");
    assert c.line + c.rest + "" == c.line + c.rest;
    assert Frame(v.line, bytes).msgs[c.k..] == [];
  }

  lemma AlongToEnd(site: Site, max: nat, v: Life, bytes: string, scripts: seq<Script>, c: Cursor)
    requires Along(site, max, v, bytes, scripts, c) && (!c.st.Serving() || c.rest == "")
    ensures Taken(site, max, v, bytes, scripts) == Life(c.st, v.received, if c.st.Serving() then c.line else "", c.delivered)
  {
    hide Frame, Handled, Output.Step;
    var st := Handled(site, v.st, Flat(scripts, c.k));
    var f := Frame(v.line, bytes);
    TakenEnds(site, st);
    if c.st.Serving() {
      FrameToEnd(c.line, "");
      assert c.line + "" == c.line && f.msgs[c.k..] == [];
    }
    ReachedStops(site, v.st, scripts, c.k, |f.msgs|);
  }

  // ---- in step with the stream ----

  /** What was handed over is part of the split of all that was read, in order. As long as
      only overlong lines have ended the service, the connection is where the framing model
      is after the same reads: served exactly if the model is, with the same messages and the
      same unfinished line. */
  predicate InStep(max: nat, v: Life) {
    && v.delivered <= Frame("", Concat(v.received)).msgs
    && (v.st.Serving() ==> v.st.ending == Running)
    && (v.st.ending == Running ==>
          var r := ReceiveAll(NEW_READER, max, v.received);
          && v.delivered == r.delivered
          && (v.st.Serving() <==> r.ok)
          && (r.ok ==> v.line == r.line))
  }

  lemma ContinuesInStep(max: nat, v: Life, after: Standing)
    requires InStep(max, v) && Continues(v.st, after)
    ensures InStep(max, v.With(after))
  {
    hide Frame, ReceiveAll;
  }

  /** The service law. A connection whose service no handler ended, and neither its output nor
      its peer, is served exactly if none of its reads ended inside an overlong line; it has
      then been handed exactly the messages of the stream, and keeps its tail. */
  lemma ServedUntilEnded(max: nat, v: Life)
    requires InStep(max, v) && v.st.ending == Running
    ensures v.st.Serving() <==> NoLongTail("", max, v.received)
    ensures v.st.Serving() ==> Framed(v.delivered, v.line) == Frame("", Concat(v.received))
  {
    hide Frame, ReceiveAll, NoLongTail;
    RunOfReads(NEW_READER, max, v.received);
    assert [] + Frame("", Concat(v.received)).msgs == Frame("", Concat(v.received)).msgs;
  }

  lemma {:induction false} ConcatLast(chunks: seq<string>, c: string)
    ensures Concat(chunks + [c]) == Concat(chunks) + c
  {
    if chunks == [] {
      assert [] + [c] == [c] && [c][1..] == [] && "" + c == c && c + "" == c;
    } else {
      ConcatLast(chunks[1..], c);
      assert (chunks + [c])[1..] == chunks[1..] + [c];
      assert chunks[0] + (Concat(chunks[1..]) + c) == chunks[0] + Concat(chunks[1..]) + c;
    }
  }

  lemma {:induction false} ReceiveLast(r: Reader, max: nat, chunks: seq<string>, c: string)
    ensures ReceiveAll(r, max, chunks + [c]) == Receive(ReceiveAll(r, max, chunks), max, c)
    decreases |chunks|
  {
    hide Frame, Receive;
    if chunks == [] {
      assert [] + [c] == [c] && [c][1..] == [];
    } else {
      ReceiveLast(Receive(r, max, chunks[0]), max, chunks[1..], c);
      assert (chunks + [c])[1..] == chunks[1..] + [c];
    }
  }

  /** One more read, through any handlers, keeps a connection in step. */
  lemma TakenInStep(site: Site, max: nat, v: Life, bytes: string, scripts: seq<Script>)
    requires InStep(max, v) && v.st.Serving()
    ensures InStep(max, Taken(site, max, v.(received := v.received + [bytes]), bytes, scripts))
  {
    hide Frame, ReceiveAll, NoLongTail, Handled, Reached, Output.Step;
    ServedUntilEnded(max, v);
    ConcatLast(v.received, bytes);
    ReceiveLast(NEW_READER, max, v.received, bytes);
    FrameOfConcat("", Concat(v.received), bytes);
    var f := Frame(v.line, bytes);
    var n := Reached(site, v.st, scripts, |f.msgs|);
    HandledContinues(site, v.st, Flat(scripts, n));
    ReachedAll(site, v.st, scripts, |f.msgs|);
    TakenEnds(site, Handled(site, v.st, Flat(scripts, n)));
    assert f.msgs[..|f.msgs|] == f.msgs;
  }

  lemma TakenEnds(site: Site, st: Standing)
    ensures !CutOff(site, st).Serving() && CutOff(site, st).ending == st.ending
  {
  }

  /** Only an ended service stops the handing over. */
  lemma {:induction false} ReachedAll(site: Site, st: Standing, scripts: seq<Script>, n: nat)
    ensures var k := Reached(site, st, scripts, n);
            Handled(site, st, Flat(scripts, k)).Serving() ==> k == n
  {
    hide Handled;
    if n > 0 {
      ReachedAll(site, st, scripts, n - 1);
    }
  }

  /** Every turn of a client keeps it in step with its stream. */
  lemma TurnInStep(site: Site, max: nat, tries: nat, v: Life, turn: Turn, activity: Mask)
    requires InStep(max, v)
    ensures InStep(max, TurnOf(site, max, tries, v, turn, activity))
  {
    hide Taken, Output.Step, InStep, ReadOf, Stepped;
    if v.st.h.s.ok && activity.input {
      InputInStep(site, max, tries, v, turn);
    }
    var v1 := if v.st.h.s.ok && activity.input then InputTurn(site, max, tries, v, turn) else v;
    if v1.st.h.s.ok && activity.output {
      StepContinues(site, v1.st, Output.Writable(OutcomeOf(turn.says, |v1.st.h.s.send| + |v1.st.h.s.flush|)), ByOutput);
      ContinuesInStep(max, v1, Flushed(site, v1.st, turn.says));
    }
  }

  lemma InputInStep(site: Site, max: nat, tries: nat, v: Life, turn: Turn)
    requires InStep(max, v)
    ensures InStep(max, InputTurn(site, max, tries, v, turn))
  {
    hide Taken, Output.Step, InStep, ReadOf, Stepped;
    if !v.st.Serving() {
      ContinuesInStep(max, v, Dropped(v.st, ByPeer));
    } else {
      match ReadOf(turn.recvs, tries)
      case Data(bytes) => TakenInStep(site, max, v, bytes, turn.scripts);
      case _ => StepContinues(site, v.st, Output.CloseNow, ByPeer);
                ContinuesInStep(max, v, Stepped(site, v.st, Output.CloseNow, ByPeer));
    }
  }

  /** The input law. A served connection is still served after its input exactly if the read
      brought bytes, no handler of the messages they complete ends the service, and what is
      left of them is no overlong line. All these messages are then handed over. */
  lemma InputServes(site: Site, max: nat, tries: nat, v: Life, turn: Turn)
    requires v.st.Serving()
    ensures var r, t := ReadOf(turn.recvs, tries), InputTurn(site, max, tries, v, turn);
            var f := if r.Data? then Frame(v.line, r.bytes) else Framed([], "");
            var st := Handled(site, v.st, Flat(turn.scripts, |f.msgs|));
            && (t.st.Serving() <==> r.Data? && st.Serving() && |f.tail| <= max)
            && (t.st.Serving() ==> t == Life(st, v.received + [r.bytes], f.tail, v.delivered + f.msgs))
  {
    hide Frame, Handled, Reached, Output.Step;
    var r := ReadOf(turn.recvs, tries);
    if r.Data? {
      var f := Frame(v.line, r.bytes);
      var k := Reached(site, v.st, turn.scripts, |f.msgs|);
      ReachedAll(site, v.st, turn.scripts, |f.msgs|);
      FlatContinues(site, v.st, turn.scripts, k, |f.msgs|);
      TakenEnds(site, Handled(site, v.st, Flat(turn.scripts, k)));
      assert f.msgs[..|f.msgs|] == f.msgs;
    } else {
      StepEnds(site, v.st);
    }
  }

  /** The bytes of a read are handed over message by message: each message found the connection
      served, and only a handler that ended the service keeps the next one back. */
  lemma InputHandsOver(site: Site, max: nat, tries: nat, v: Life, turn: Turn)
    requires v.st.Serving() && ReadOf(turn.recvs, tries).Data?
    ensures var bytes, t := ReadOf(turn.recvs, tries).bytes, InputTurn(site, max, tries, v, turn);
            var f := Frame(v.line, bytes);
            var k := |t.delivered| - |v.delivered|;
            && t.received == v.received + [bytes]
            && 0 <= k <= |f.msgs| && t.delivered == v.delivered + f.msgs[..k]
            && (forall j :: 0 <= j < k ==> Handled(site, v.st, Flat(turn.scripts, j)).Serving())
            && (k < |f.msgs| ==> !Handled(site, v.st, Flat(turn.scripts, k)).Serving())
  {
    hide Frame, Handled, Reached, Flat, Output.Step;
    var f := Frame(v.line, ReadOf(turn.recvs, tries).bytes);
    ReachedCounts(site, v.st, turn.scripts, |f.msgs|);
  }

  /** Input that cannot be served ends the connection: when it is closing nicely, when the read
      brings no bytes, and when what is left of them is an overlong line. Only in the last case
      anything has been read or handed over. */
  lemma InputEnds(site: Site, max: nat, tries: nat, v: Life, turn: Turn)
    requires v.st.h.s.ok
    ensures var r, t := ReadOf(turn.recvs, tries), InputTurn(site, max, tries, v, turn);
            if !v.st.Serving() || !r.Data? then
              && !t.st.h.s.ok && t.received == v.received && t.delivered == v.delivered
              && t.st.ending == if v.st.Serving() then ByPeer else v.st.ending
            else
              var f := Frame(v.line, r.bytes);
              var st := Handled(site, v.st, Flat(turn.scripts, |f.msgs|));
              st.Serving() && |f.tail| > max ==>
                !t.st.h.s.ok && t.delivered == v.delivered + f.msgs && t.st.ending == v.st.ending
  {
    hide Frame, Handled, Reached, Output.Step;
    var r := ReadOf(turn.recvs, tries);
    if v.st.Serving() && r.Data? {
      var f := Frame(v.line, r.bytes);
      var k := Reached(site, v.st, turn.scripts, |f.msgs|);
      ReachedAll(site, v.st, turn.scripts, |f.msgs|);
      FlatContinues(site, v.st, turn.scripts, k, |f.msgs|);
      HandledContinues(site, v.st, Flat(turn.scripts, k));
      CutOffKills(site, Handled(site, v.st, Flat(turn.scripts, k)));
      assert f.msgs[..|f.msgs|] == f.msgs;
    } else {
      StepEnds(site, v.st);
    }
  }

  lemma CutOffKills(site: Site, st: Standing)
    ensures !CutOff(site, st).h.s.ok && CutOff(site, st).ending == st.ending
  {
  }

  lemma StepEnds(site: Site, st: Standing)
    ensures var t := Stepped(site, st, Output.CloseNow, ByPeer);
            !t.h.s.ok && !t.Serving() && t.ending == if st.Serving() then ByPeer else st.ending
  {
  }

  lemma {:induction false} FlatContinues(site: Site, st: Standing, scripts: seq<Script>, k: nat, n: nat)
    requires k <= n
    ensures Continues(Handled(site, st, Flat(scripts, k)), Handled(site, st, Flat(scripts, n)))
    decreases n
  {
    hide Handled;
    if k < n {
      FlatContinues(site, st, scripts, k, n - 1);
      HandledOn(site, st, Flat(scripts, n - 1), ScriptAt(scripts, n - 1));
      HandledContinues(site, Handled(site, st, Flat(scripts, n - 1)), ScriptAt(scripts, n - 1));
    }
  }
}
