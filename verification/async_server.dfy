/** The server loop: accepting, treating, timing out and reaping connections. What poll(),
    accept(), recv() and send() answer and what handlers do are parameters; a handler is any
    sequence of the operations that handlers have, aimed at any connections. */
module AsyncServer {
  import opened Wrappers
  import opened ConnPoll
  import opened Framing
  import opened Service
  import opened AsyncConns
  import Output

  class AsyncSocketServer {
    const poll: ConnPoll<AsyncConn>
    const msBuffer: array<char>
    const limits: Output.Limits
    const maxLineLength: nat
    const maxSock: nat                    // the system's descriptor limit
    const acceptNum: nat
    const readTries: nat

    var connList: seq<AsyncConn>
    var listList: seq<AsyncConn>
    var nowTreating: AsyncConn?
    ghost var freed: seq<AsyncConn>

    // ---- the invariant ----

    /** A connection of this server that sits in its chooser slot. */
    ghost predicate Seated(c: AsyncConn)
      reads this, poll, c
    {
      && c.poll == poll && c.buffer == msBuffer && c.limits == limits
      && 4 <= c.sock <= maxSock
      && poll.Holds(c.sock, c) && c.Registered()
    }

    ghost function SiteOf(c: AsyncConn, now: int): Site
      reads this`nowTreating
    {
      Site(limits, c.sock, c == nowTreating, now)
    }

    ghost predicate SoundBut(c: AsyncConn, exempt: AsyncConn?)
      reads poll, c, c.poll
    {
      Service.Sound(limits, c.sock, c == exempt, c.Standing())
    }

    ghost predicate Sound(c: AsyncConn)
      reads this, poll, c, c.poll
    {
      SoundBut(c, nowTreating)
    }

    /** Between reads: no line, or one being filled under this server's limit. */
    ghost predicate LineReady(c: AsyncConn)
      reads c
    {
      c.LineValid() && (c.lineStatus == Partly ==> c.lineSizeMax == maxLineLength)
    }

    /** Between turns a connection is in step with the stream of its peer. */
    ghost predicate Settled(c: AsyncConn)
      reads poll, c, c.poll
    {
      LineReady(c) && InStep(maxLineLength, c.Life())
    }

    /** A listening socket waits for input, and neither output nor errors are reported for it. */
    ghost predicate Listening(p: PollFd, sock: int) {
      p.fd == sock && p.events == Events(true, false, true) && !p.revents.out && !p.revents.err
    }

    ghost predicate ValidBut(exempt: AsyncConn?)
      reads this, poll, connList, listList
    {
      && poll.Valid() && poll.lastSock <= maxSock
      && msBuffer.Length == MAX_MESS_SIZE + 1
      && Distinct(connList) && Distinct(freed)
      && (forall c <- connList :: c.kind == Client && Seated(c) && SoundBut(c, exempt) && c !in freed)
      && (forall c <- connList :: c != exempt ==> Settled(c))
      && (forall l <- listList :: l.kind == ConnType.Listen && Seated(l) && l.ok && Listening(l.Entry(), l.sock))
      && (forall s :: poll.At(s).Some? ==>
            poll.At(s).value.sock == s && (poll.At(s).value in connList || poll.At(s).value in listList))
      && (forall s :: 0 < s < |poll.fds| && poll.At(s).None? ==> poll.fds[s] == RESET_FD)
      && (nowTreating == null || nowTreating in connList || nowTreating in listList)
    }

    /** A connection is in the server's list exactly when it holds its chooser slot; it is then
        live and watched or dead and close-marked, its output is in the state of some run of the
        output model, and it is in step with its stream: unless a handler, its output or its
        peer has ended the service, it is served exactly if none of its reads ended inside an
        overlong line, and has been handed exactly the messages it has sent (`InStep` and
        `ServedUntilEnded`). The connection under treatment is exempt from the last point. */
    ghost predicate Valid()
      reads this, poll, connList, listList
    {
      ValidBut(nowTreating)
    }

    constructor (poll: ConnPoll<AsyncConn>, msBuffer: array<char>, limits: Output.Limits,
                 maxLineLength: nat, maxSock: nat, acceptNum: nat, readTries: nat)
      requires poll.Valid() && poll.connList == [] && poll.fds == [] && poll.lastSock <= maxSock
      requires msBuffer.Length == MAX_MESS_SIZE + 1
      ensures Valid() && connList == [] && listList == [] && freed == [] && nowTreating == null
    {
      this.poll, this.msBuffer, this.limits := poll, msBuffer, limits;
      this.maxLineLength, this.maxSock, this.acceptNum, this.readTries := maxLineLength, maxSock, acceptNum, readTries;
      connList, listList, nowTreating, freed := [], [], null, [];
    }

    /** What handlers and timers leave alone, seen from a state before them. */
    twostate predicate TablesKept()
      reads this, poll
    {
      && connList == old(connList) && listList == old(listList)
      && nowTreating == old(nowTreating) && freed == old(freed)
      && poll.connList == old(poll.connList) && poll.lastSock == old(poll.lastSock)
      && |poll.fds| == |old(poll.fds)|
    }

    // ---- all connections at two moments ----

    ghost function Lives(): map<AsyncConn, Life>
      reads this, poll, connList
    {
      map d | d in connList && d.poll == poll :: d.Life()
    }

    lemma LifeIn(c: AsyncConn)
      requires Valid() && c in connList
      ensures c in Lives() && Lives()[c] == c.Life()
    {
      assert Seated(c);
    }

    /** All but c are still there, and where they were. */
    ghost predicate Same(was: map<AsyncConn, Life>, after: map<AsyncConn, Life>, c: AsyncConn?) {
      forall d <- was.Keys :: d != c ==> d in after && after[d] == was[d]
    }

    /** All but c are still there, and where this script has led them. */
    ghost predicate Led(was: map<AsyncConn, Life>, after: map<AsyncConn, Life>, c: AsyncConn?, script: Script, now: int) {
      forall d <- was.Keys :: d != c ==> d in after && after[d] == LedBy(Site(limits, d.sock, false, now), was[d], script)
    }

    lemma LedNowhere(was: map<AsyncConn, Life>, after: map<AsyncConn, Life>, c: AsyncConn?, now: int)
      requires Same(was, after, c)
      ensures Led(was, after, c, [], now)
    {
      hide LedBy;
      forall d | d in was.Keys ensures LedBy(Site(limits, d.sock, false, now), was[d], []) == was[d] {
        LedByNone(Site(limits, d.sock, false, now), was[d]);
      }
    }

    lemma LedAtFirst(was: map<AsyncConn, Life>, c: AsyncConn?, now: int)
      ensures Led(was, was, c, [], now)
    {
      LedNowhere(was, was, c, now);
    }

    lemma SameOn(was: map<AsyncConn, Life>, mid: map<AsyncConn, Life>, after: map<AsyncConn, Life>, c: AsyncConn?)
      requires Same(was, mid, c) && Same(mid, after, c)
      ensures Same(was, after, c)
    {
    }

    lemma LedOn(was: map<AsyncConn, Life>, mid: map<AsyncConn, Life>, after: map<AsyncConn, Life>,
                c: AsyncConn?, a: Script, b: Script, now: int)
      requires Led(was, mid, c, a, now) && Led(mid, after, c, b, now)
      ensures Led(was, after, c, a + b, now)
    {
      hide LedBy;
      forall d | d in was.Keys && d != c
        ensures d in after && after[d] == LedBy(Site(limits, d.sock, false, now), was[d], a + b)
      {
        LedByOn(Site(limits, d.sock, false, now), was[d], a, b);
      }
    }

    lemma LedThenSame(was: map<AsyncConn, Life>, mid: map<AsyncConn, Life>, after: map<AsyncConn, Life>,
                      c: AsyncConn?, script: Script, now: int)
      requires Led(was, mid, c, script, now) && Same(mid, after, c)
      ensures Led(was, after, c, script, now)
    {
      hide LedBy;
    }

    lemma SameThenLed(was: map<AsyncConn, Life>, mid: map<AsyncConn, Life>, after: map<AsyncConn, Life>,
                      c: AsyncConn?, script: Script, now: int)
      requires Same(was, mid, c) && Led(mid, after, c, script, now)
      ensures Led(was, after, c, script, now)
    {
      hide LedBy;
    }

    /** An operation that moved one connection and its own poll entry keeps the invariant of the
        whole server, if it keeps that connection sound and, between turns, settled. */
    twostate lemma OneMoved(c: AsyncConn)
      requires old(Valid()) && c in old(connList)
      requires unchanged(this) && unchanged(poll`connList, poll`lastSock)
      requires forall d <- old(connList) :: d != c ==> unchanged(d)
      requires forall d <- old(listList) :: unchanged(d)
      requires |poll.fds| == |old(poll.fds)|
      requires forall s :: 0 <= s < |poll.fds| && s != c.sock ==> poll.fds[s] == old(poll.fds[s])
      requires Seated(c) && Sound(c) && (c != nowTreating ==> Settled(c))
      ensures Valid() && Same(old(Lives()), Lives(), c)
    {
      hide InStep, Service.Sound;
      forall d | d in connList && d != c
        ensures Seated(d) && Sound(d) && (d != nowTreating ==> Settled(d)) && d.Life() == old(d.Life())
      {
        assert old(Seated(d)) && old(Sound(d)) && d.sock != c.sock;
      }
      forall d | d in listList
        ensures Seated(d) && d.Entry() == old(d.Entry())
      {
        assert old(Seated(d)) && d != c && d.sock != c.sock;
      }
    }

    /** A connection that only changed its standing, as everything changes it, stays settled. */
    twostate lemma OnlyStanding(c: AsyncConn)
      requires unchanged(c`line, c`lineStatus, c`lineSizeMax, c`separator, c`bufReadPos, c`bufEnd, c`received, c`delivered)
      requires Continues(old(c.Standing()), c.Standing())
      ensures c.Life() == old(c.Life()).With(c.Standing())
      ensures old(Settled(c)) ==> Settled(c)
    {
      hide InStep;
      if old(Settled(c)) {
        ContinuesInStep(maxLineLength, old(c.Life()), c.Standing());
      }
    }

    // ---- handlers ----

    method Perform(c: AsyncConn, a: Action, now: int)
      requires Valid() && c in connList
      modifies c`ok, c`writable, c`bufSend, c`bufFlush, c`closeAfter, c`taken, c`accepted, c`ending, poll`fds
      ensures Valid() && TablesKept() && Same(old(Lives()), Lives(), c)
      ensures c.Life() == old(c.Life()).With(Performed(SiteOf(c, now), old(c.Standing()), a))
    {
      hide Performed, InStep, Service.Sound, RevTestFd, Lives, Same;
      ghost var st, site := c.Standing(), SiteOf(c, now);
      c.Perform(a, c == nowTreating, now);
      PerformedSound(site, st, a);
      PerformedContinues(site, st, a);
      OnlyStanding(c);
      OneMoved(c);
    }

    /** What a script has made of the connection under treatment. */
    twostate predicate TreatedLed(script: Script, now: int)
      reads this, poll, connList
    {
      var c := nowTreating;
      c != null && c in connList && c == old(nowTreating) ==>
        c.poll == poll && c.Life() == LedBy(SiteOf(c, now), old(c.Life()), script)
    }

    method PerformAimed(aimed: Aimed, now: int)
      requires Valid()
      modifies connList`ok, connList`writable, connList`bufSend, connList`bufFlush, connList`closeAfter,
               connList`taken, connList`accepted, connList`ending, poll`fds
      ensures Valid() && TablesKept() && TreatedLed([aimed], now)
      ensures Led(old(Lives()), Lives(), nowTreating, [aimed], now)
    {
      hide InStep, Service.Sound, Performed, Handled;
      var c := poll.At(aimed.sock);
      if c.Some? && c.value.kind == Client {
        Perform(c.value, aimed.action, now);
      }
      forall d | d in connList
        ensures d.poll == poll && d.Life() == LedBy(SiteOf(d, now), old(d.Life()), [aimed])
      {
        OneAimed(SiteOf(d, now), old(d.Life()).st, aimed);
        assert old(Seated(d)) && d in old(Lives()) && d in Lives();
      }
    }

    /** Any handler: operations on any connections, one after the other. */
    method RunHandler(script: Script, now: int)
      requires Valid()
      modifies connList`ok, connList`writable, connList`bufSend, connList`bufFlush, connList`closeAfter,
               connList`taken, connList`accepted, connList`ending, poll`fds
      ensures Valid() && TablesKept() && TreatedLed(script, now)
      ensures Led(old(Lives()), Lives(), nowTreating, script, now)
    {
      hide ValidBut, Led, Lives, LedBy, AsyncConn.Life;
      ghost var was, c := Lives(), nowTreating;
      TreatedAtFirst(now);
      LedAtFirst(was, c, now);
      var i := 0;
      while i < |script|
        invariant 0 <= i <= |script| && Valid() && TablesKept() && TreatedLed(script[..i], now)
        invariant Led(was, Lives(), c, script[..i], now)
      {
        ghost var mid := Lives();
        PerformAimed(script[i], now);
        LedOn(was, mid, Lives(), c, script[..i], [script[i]], now);
        assert script[..i + 1] == script[..i] + [script[i]];
        if c != null && c in connList {
          LedByOn(SiteOf(c, now), old(c.Life()), script[..i], [script[i]]);
        }
        i := i + 1;
      }
      assert script[..|script|] == script;
    }

    lemma TreatedAtFirst(now: int)
      requires Valid()
      ensures var c := nowTreating; c != null && c in connList ==> c.poll == poll && c.Life() == LedBy(SiteOf(c, now), c.Life(), [])
    {
      var c := nowTreating;
      if c != null && c in connList {
        assert Seated(c);
        LedByNone(SiteOf(c, now), c.Life());
      }
    }

    /** The handler of a message, which is counted as handed over. */
    method OnNewMessage(conn: AsyncConn, msg: string, script: Script, now: int)
      requires Valid() && conn in connList && conn == nowTreating
      modifies conn`delivered
      modifies connList`ok, connList`writable, connList`bufSend, connList`bufFlush, connList`closeAfter,
               connList`taken, connList`accepted, connList`ending, poll`fds
      ensures Valid() && TablesKept()
      ensures Led(old(Lives()), Lives(), conn, script, now)
      ensures conn.Standing() == Handled(SiteOf(conn, now), old(conn.Standing()), script)
      ensures conn.delivered == old(conn.delivered) + [msg]
    {
      hide InStep, Service.Sound, Handled, Led, Lives, Same;
      conn.delivered := conn.delivered + [msg];
      OneMoved(conn);
      ghost var mid := Lives();
      RunHandler(script, now);
      SameThenLed(old(Lives()), mid, Lives(), conn, script, now);
    }

    // ---- input ----

    /** ReadLineLocal, seen from the server. */
    method ReadLine(conn: AsyncConn, ghost now: int) returns (n: nat)
      requires Valid() && conn in connList && conn == nowTreating && conn.ok && conn.writable
      requires LineReady(conn) && conn.lineStatus == Partly && !conn.Drained()
      modifies conn`ok, conn`writable, conn`bufReadPos, conn`bufEnd, conn`line, conn`lineStatus, poll`fds
      ensures Valid() && TablesKept() && Same(old(Lives()), Lives(), conn)
      ensures conn.bufReadPos <= conn.bufEnd <= MAX_MESS_SIZE
      ensures conn.line.Some? && (conn.lineStatus == LineDone || conn.lineStatus == Partly)
      ensures conn.lineStatus == LineDone ==>
                Frame(old(conn.line).value, old(conn.Unread())) == Prepend(conn.line.value, Frame("", conn.Unread()))
      ensures conn.lineStatus == Partly ==>
                && Frame(old(conn.line).value, old(conn.Unread())) == Framed([], old(conn.line).value + old(conn.Unread()))
                && (conn.ok <==> |old(conn.line).value| + |old(conn.Unread())| <= maxLineLength)
                && (conn.ok ==> conn.Drained() && conn.line.value == old(conn.line).value + old(conn.Unread()))
      ensures conn.ok ==> n > 0 && conn.bufEnd - conn.bufReadPos < old(conn.bufEnd - conn.bufReadPos)
      ensures conn.Standing() == if conn.ok then old(conn.Standing()) else CutOff(SiteOf(conn, now), old(conn.Standing()))
      ensures !conn.ok ==> conn.lineStatus == Partly
    {
      hide InStep, Output.Fifo, Frame, Lives, Same;
      ghost var st := conn.Standing();
      n := conn.ReadLineLocal();
      if !conn.ok {
        StepSound(SiteOf(conn, now), st, Output.CloseNow, ByPeer);
      }
      OneMoved(conn);
    }

    method Read(conn: AsyncConn, recvs: seq<Recv>, ghost now: int) returns (n: int, ghost result: ReadResult)
      requires Valid() && conn in connList && conn == nowTreating && LineReady(conn)
      modifies conn`ok, conn`writable, conn`bufReadPos, conn`bufEnd, conn`received, conn`ending, msBuffer, poll`fds
      ensures Valid() && TablesKept() && LineReady(conn)
      ensures Same(old(Lives()), Lives(), conn)
      ensures result == if old(conn.ok && conn.writable) then ReadOf(recvs, readTries) else NotRead
      ensures if result.Data? then n > 0 else n == -1
      ensures result.Data? ==>
                && conn.ok && conn.writable && conn.Unread() == result.bytes != ""
                && conn.Life() == old(conn.Life()).(received := old(conn.received) + [result.bytes])
      ensures !result.Data? ==> conn.received == old(conn.received)
      ensures !result.Data? && result != NotRead ==> !conn.ok
      ensures !result.Data? ==>
                conn.Standing() == if result == NotRead then old(conn.Standing())
                                   else Stepped(SiteOf(conn, now), old(conn.Standing()), Output.CloseNow, ByPeer)
    {
      hide InStep, Output.Fifo, Frame, ReadOf, Lives, Same;
      ghost var st := conn.Standing();
      n, result := conn.ReadAll(recvs, readTries);
      StepSound(SiteOf(conn, now), st, Output.CloseNow, ByPeer);
      OneMoved(conn);
    }

    method StartLine(conn: AsyncConn)
      requires Valid() && conn in connList && conn == nowTreating && LineReady(conn)
      modifies conn`line, conn`lineStatus, conn`lineSizeMax, conn`separator
      ensures Valid() && TablesKept()
      ensures Same(old(Lives()), Lives(), conn) && conn.Standing() == old(conn.Standing())
      ensures LineReady(conn) && conn.lineStatus == Partly && conn.PendingLine() == old(conn.PendingLine())
    {
      hide InStep, Service.Sound;
      if conn.lineStatus == NoLine {
        conn.SetLineToRead(SEPARATOR, maxLineLength);
        OneMoved(conn);
      }
    }

    method FillLine(conn: AsyncConn, ghost line: string, ghost rest: string, ghost now: int) returns (n: nat, ghost left: string)
      requires Valid() && conn in connList && conn == nowTreating && conn.ok && conn.writable
      requires LineReady(conn) && !conn.Drained() && line == conn.PendingLine() && rest == conn.Unread()
      modifies conn`ok, conn`writable, conn`bufReadPos, conn`bufEnd, conn`line, conn`lineStatus,
               conn`lineSizeMax, conn`separator, poll`fds
      ensures Valid() && TablesKept()
      ensures Same(old(Lives()), Lives(), conn)
      ensures conn.bufReadPos <= conn.bufEnd <= MAX_MESS_SIZE && conn.line.Some? && left == conn.Unread()
      ensures conn.lineStatus == LineDone || conn.lineStatus == Partly
      ensures conn.lineStatus == Partly && conn.ok ==> LineReady(conn)
      ensures conn.lineStatus == LineDone ==> Frame(line, rest) == Prepend(conn.line.value, Frame("", left))
      ensures conn.lineStatus == Partly ==>
                && Frame(line, rest) == Framed([], line + rest)
                && (conn.ok <==> |line + rest| <= maxLineLength)
                && (conn.ok ==> conn.Drained() && conn.line.value == line + rest)
      ensures conn.ok ==> n > 0 && |left| < |rest|
      ensures conn.Standing() == if conn.ok then old(conn.Standing()) else CutOff(SiteOf(conn, now), old(conn.Standing()))
      ensures !conn.ok ==> conn.lineStatus == Partly
    {
      hide ValidBut, Frame, CutOff, Lives, AsyncConn.Standing;
      StartLine(conn);
      n := ReadLine(conn, now);
      left := conn.Unread();
    }

    method ForgetLine(conn: AsyncConn)
      requires Valid() && conn in connList && conn == nowTreating
      requires conn.bufReadPos <= conn.bufEnd <= MAX_MESS_SIZE
      modifies conn`line, conn`lineStatus, conn`lineSizeMax, conn`separator
      ensures Valid() && TablesKept() && Same(old(Lives()), Lives(), conn) && conn.Standing() == old(conn.Standing())
      ensures conn.line == None && LineReady(conn)
    {
      hide InStep, Service.Sound, Lives, Same;
      conn.ClearLine();
      OneMoved(conn);
    }

    method HandOver(conn: AsyncConn, script: Script, now: int)
      requires Valid() && conn in connList && conn == nowTreating && conn.line.Some?
      requires conn.bufReadPos <= conn.bufEnd <= MAX_MESS_SIZE
      modifies conn`delivered, conn`line, conn`lineStatus, conn`lineSizeMax, conn`separator
      modifies connList`ok, connList`writable, connList`bufSend, connList`bufFlush, connList`closeAfter,
               connList`taken, connList`accepted, connList`ending, poll`fds
      ensures Valid() && TablesKept()
      ensures Led(old(Lives()), Lives(), conn, script, now)
      ensures conn.Standing() == Handled(SiteOf(conn, now), old(conn.Standing()), script)
      ensures conn.delivered == old(conn.delivered) + [old(conn.line).value]
      ensures conn.line == None && LineReady(conn) && conn.Unread() == old(conn.Unread())
    {
      hide ValidBut, Handled, Led, Same, Lives, AsyncConn.Standing;
      OnNewMessage(conn, conn.line.value, script, now);
      ghost var mid := Lives();
      ForgetLine(conn);
      LedThenSame(old(Lives()), mid, Lives(), conn, script, now);
    }

    /** One turn of the input loop: one more piece is taken out of the buffer, and if that
        completed a message, it is handed over to its handler. */
    method InputStep(conn: AsyncConn, script: Script, now: int, ghost line: string, ghost rest: string)
      returns (len: nat, handed: bool, ghost left: string, ghost msg: string)
      requires Valid() && conn in connList && conn == nowTreating && conn.ok && conn.writable
      requires LineReady(conn) && !conn.Drained() && line == conn.PendingLine() && rest == conn.Unread()
      modifies conn`bufReadPos, conn`bufEnd, conn`delivered, conn`line, conn`lineStatus, conn`lineSizeMax, conn`separator
      modifies connList`ok, connList`writable, connList`bufSend, connList`bufFlush, connList`closeAfter,
               connList`taken, connList`accepted, connList`ending, poll`fds
      ensures Valid() && TablesKept()
      ensures conn.bufReadPos <= conn.bufEnd <= MAX_MESS_SIZE && left == conn.Unread()
      ensures conn.ok || handed ==> LineReady(conn) && len > 0 && |left| < |rest|
      ensures Led(old(Lives()), Lives(), conn, if handed then script else [], now)
      ensures handed ==>
                && Frame(line, rest) == Prepend(msg, Frame("", left))
                && conn.delivered == old(conn.delivered) + [msg] && conn.line == None
                && conn.Standing() == Handled(SiteOf(conn, now), old(conn.Standing()), script)
      ensures !handed ==>
                && Frame(line, rest) == Framed([], line + rest)
                && conn.delivered == old(conn.delivered)
                && (conn.ok <==> |line + rest| <= maxLineLength)
                && (conn.ok ==> conn.Drained() && conn.PendingLine() == line + rest)
                && conn.Standing() == if conn.ok then old(conn.Standing()) else CutOff(SiteOf(conn, now), old(conn.Standing()))
    {
      hide ValidBut, Frame, CutOff, Handled, AsyncConn.Standing, Led, Same, Lives;
      len, left := FillLine(conn, line, rest, now);
      handed := conn.lineStatus == LineDone;
      msg := conn.line.value;
      ghost var mid := Lives();
      if handed {
        HandOver(conn, script, now);
        SameThenLed(old(Lives()), mid, Lives(), conn, script, now);
      } else {
        LedNowhere(old(Lives()), mid, conn, now);
      }
    }

    /** Where the input loop is in its read, and what it finds there. */
    ghost predicate StandsAt(conn: AsyncConn, at: Cursor)
      reads conn, conn.poll, conn.buffer
    {
      && conn.bufReadPos <= conn.bufEnd <= MAX_MESS_SIZE < conn.buffer.Length
      && at.st == conn.Standing() && at.delivered == conn.delivered
      && (conn.ok && conn.writable ==> at.line == conn.PendingLine() && at.rest == conn.Unread())
    }

    method Advance(conn: AsyncConn, script: Script, now: int,
                   ghost v: Life, ghost bytes: string, ghost scripts: seq<Script>, ghost at: Cursor)
      returns (len: nat, handed: bool, ghost next: Cursor)
      requires Valid() && conn in connList && conn == nowTreating && conn.ok && conn.writable && LineReady(conn)
      requires StandsAt(conn, at) && at.rest != ""
      requires script == ScriptAt(scripts, at.k) && Along(SiteOf(conn, now), maxLineLength, v, bytes, scripts, at)
      modifies conn`bufReadPos, conn`bufEnd, conn`delivered, conn`line, conn`lineStatus, conn`lineSizeMax, conn`separator
      modifies connList`ok, connList`writable, connList`bufSend, connList`bufFlush, connList`closeAfter,
               connList`taken, connList`accepted, connList`ending, poll`fds
      ensures Valid() && TablesKept() && StandsAt(conn, next)
      ensures Along(SiteOf(conn, now), maxLineLength, v, bytes, scripts, next)
      ensures conn.ok || handed ==> LineReady(conn) && len > 0
      ensures |next.rest| < |at.rest| && (conn.Drained() ==> next.rest == "")
      ensures conn.ok && conn.writable && !conn.Drained() ==> next.rest != ""
      ensures next.k == (if handed then at.k + 1 else at.k) && |conn.delivered| == |old(conn.delivered)| + (next.k - at.k)
      ensures Led(old(Lives()), Lives(), conn, if handed then script else [], now)
    {
      hide Along, Frame, Handled, CutOff, AsyncConn.Standing, ValidBut, Led, Lives;
      ghost var left, msg;
      len, handed, left, msg := InputStep(conn, script, now, at.line, at.rest);
      if handed {
        AlongHanded(SiteOf(conn, now), maxLineLength, v, bytes, scripts, at, msg, left);
        next := Cursor(at.k + 1, conn.Standing(), conn.delivered, "", left);
      } else {
        AlongUnfinished(SiteOf(conn, now), maxLineLength, v, bytes, scripts, at);
        next := at.(st := conn.Standing(), line := at.line + at.rest, rest := "");
      }
    }

    /** The input loop over what one read left in the buffer. It hands over the messages of the
        split, each to its handler, up to the first handler that ends the service. */
    method InputLoop(conn: AsyncConn, scripts: seq<Script>, now: int, ghost rest0: string) returns (justRead: nat)
      requires Valid() && conn in connList && conn == nowTreating && LineReady(conn)
      requires conn.ok && conn.writable && rest0 == conn.Unread() && rest0 != ""
      modifies conn`bufReadPos, conn`bufEnd, conn`delivered, conn`line, conn`lineStatus, conn`lineSizeMax, conn`separator
      modifies connList`ok, connList`writable, connList`bufSend, connList`bufFlush, connList`closeAfter,
               connList`taken, connList`accepted, connList`ending, poll`fds
      ensures Valid() && TablesKept()
      ensures conn.Life() == Taken(SiteOf(conn, now), maxLineLength, old(conn.Life()), rest0, scripts)
      ensures |old(conn.delivered)| <= |conn.delivered|
      ensures Led(old(Lives()), Lives(), conn, Flat(scripts, |conn.delivered| - |old(conn.delivered)|), now)
      ensures conn.ok ==> LineReady(conn) && justRead > 0
      ensures conn.ok && conn.writable ==> conn.Drained()
    {
      hide Along, Taken, Frame, Handled, CutOff, AsyncConn.Standing, AsyncConn.Life, ValidBut, Led, Lives, StandsAt, LineReady;
      StartsAt(conn);
      ghost var site, v, was := SiteOf(conn, now), conn.Life(), Lives();
      ghost var at := Cursor(0, v.st, v.delivered, v.line, rest0);
      AlongFromStart(site, maxLineLength, v, rest0, scripts);
      LedAtFirst(was, conn, now);
      var k := 0;
      justRead := 0;
      while conn.ok && conn.writable
        invariant Valid() && TablesKept() && StandsAt(conn, at) && at.k == k
        invariant Along(site, maxLineLength, v, rest0, scripts, at)
        invariant |conn.delivered| == |v.delivered| + k && Led(was, Lives(), conn, Flat(scripts, k), now)
        invariant conn.ok ==> LineReady(conn) && (justRead > 0 || conn.writable)
        invariant conn.ok && conn.writable ==> at.rest != ""
        decreases |at.rest|
      {
        ghost var mid := Lives();
        var len, handed;
        len, handed, at := Advance(conn, ScriptAt(scripts, k), now, v, rest0, scripts, at);
        justRead := justRead + len;
        LedOn(was, mid, Lives(), conn, Flat(scripts, k), if handed then ScriptAt(scripts, k) else [], now);
        if handed {
          k := k + 1;
        } else {
          assert Flat(scripts, k) + [] == Flat(scripts, k);
        }
        if conn.Drained() {
          break;
        }
      }
      LifeAt(conn, at);
      AlongToEnd(site, maxLineLength, v, rest0, scripts, at);
    }

    lemma StartsAt(conn: AsyncConn)
      requires Valid() && LineReady(conn) && conn.ok && conn.writable
      ensures var v := conn.Life();
              && v.st.Serving() && v.delivered == conn.delivered && v.received == conn.received
              && StandsAt(conn, Cursor(0, v.st, v.delivered, v.line, conn.Unread()))
    {
    }

    lemma LifeAt(conn: AsyncConn, at: Cursor)
      requires StandsAt(conn, at)
      ensures conn.Life() == Service.Life(at.st, conn.received, if at.st.Serving() then at.line else "", at.delivered)
      ensures !at.st.Serving() <==> !(conn.ok && conn.writable)
    {
    }

    /** Treats one read of the connection. */
    method Input(conn: AsyncConn, recvs: seq<Recv>, scripts: seq<Script>, now: int) returns (justRead: nat, ghost result: ReadResult)
      requires Valid() && conn in connList && conn == nowTreating && LineReady(conn)
      modifies conn`bufReadPos, conn`bufEnd, conn`received, conn`delivered,
               conn`line, conn`lineStatus, conn`lineSizeMax, conn`separator, msBuffer
      modifies connList`ok, connList`writable, connList`bufSend, connList`bufFlush, connList`closeAfter,
               connList`taken, connList`accepted, connList`ending, poll`fds
      ensures Valid() && TablesKept()
      ensures result == if old(conn.ok && conn.writable) then ReadOf(recvs, readTries) else NotRead
      ensures result.Data? ==>
                var v := old(conn.Life()).(received := old(conn.received) + [result.bytes]);
                conn.Life() == Taken(SiteOf(conn, now), maxLineLength, v, result.bytes, scripts)
      ensures !result.Data? ==> justRead == 0 && conn.received == old(conn.received) && conn.delivered == old(conn.delivered)
      ensures !result.Data? && result != NotRead ==> !conn.ok
      ensures !result.Data? ==>
                conn.Standing() == if result == NotRead then old(conn.Standing())
                                   else Stepped(SiteOf(conn, now), old(conn.Standing()), Output.CloseNow, ByPeer)
      ensures |old(conn.delivered)| <= |conn.delivered|
      ensures Led(old(Lives()), Lives(), conn, Flat(scripts, |conn.delivered| - |old(conn.delivered)|), now)
      ensures conn.ok ==> LineReady(conn)
      ensures conn.ok && justRead == 0 ==> result == NotRead
    {
      hide ValidBut, Taken, Handled, Led, Same, Lives, ReadOf, Stepped, AsyncConn.Standing, AsyncConn.Life, LineReady;
      var n;
      n, result := Read(conn, recvs, now);
      ghost var mid := Lives();
      LedNowhere(old(Lives()), mid, conn, now);
      if n <= 0 {
        return 0, result;
      }
      justRead := InputLoop(conn, scripts, now, result.bytes);
      ghost var k := |conn.delivered| - |old(conn.delivered)|;
      LedOn(old(Lives()), mid, Lives(), conn, [], Flat(scripts, k), now);
      assert [] + Flat(scripts, k) == Flat(scripts, k);
    }

    method MarkDead(conn: AsyncConn)
      requires Valid() && conn in connList && conn == nowTreating && !(conn.ok && conn.writable)
      modifies conn`ok
      ensures Valid() && TablesKept() && !conn.ok && Same(old(Lives()), Lives(), conn)
      ensures conn.Standing() == Dropped(old(conn.Standing()), ByPeer)
    {
      hide InStep, Output.Fifo, Same, Lives;
      conn.ok := false;
      OneMoved(conn);
    }

    /** Input that brought nothing ends the connection. */
    method TreatInput(conn: AsyncConn, turn: Turn, now: int)
      requires Valid() && conn in connList && conn == nowTreating && conn.ok && LineReady(conn)
      modifies conn`bufReadPos, conn`bufEnd, conn`received, conn`delivered,
               conn`line, conn`lineStatus, conn`lineSizeMax, conn`separator, msBuffer
      modifies connList`ok, connList`writable, connList`bufSend, connList`bufFlush, connList`closeAfter,
               connList`taken, connList`accepted, connList`ending, poll`fds
      ensures Valid() && TablesKept()
      ensures conn.Life() == InputTurn(SiteOf(conn, now), maxLineLength, readTries, old(conn.Life()), turn)
      ensures |old(conn.delivered)| <= |conn.delivered|
      ensures Led(old(Lives()), Lives(), conn, Flat(turn.scripts, |conn.delivered| - |old(conn.delivered)|), now)
      ensures conn.ok ==> LineReady(conn)
    {
      hide ValidBut, Taken, Handled, Led, Same, Lives, ReadOf, Stepped, Dropped, AsyncConn.Standing, LineReady;
      ghost var v := conn.Life();
      ReadBrings(turn.recvs, readTries);
      var justRead;
      ghost var result;
      justRead, result := Input(conn, turn.recvs, turn.scripts, now);
      if justRead == 0 && conn.ok {
        ghost var mid := Lives();
        MarkDead(conn);
        LedThenSame(old(Lives()), mid, Lives(), conn, Flat(turn.scripts, 0), now);
      }
      assert !result.Data? ==> conn.Life() == v.With(conn.Standing());
    }

    /** poll() reported room: flush what is pending. */
    method FlushOf(conn: AsyncConn, says: SocketSays, now: int)
      requires Valid() && conn in connList && conn == nowTreating && conn.ok
      modifies conn`ok, conn`writable, conn`bufSend, conn`bufFlush, conn`taken, conn`accepted, conn`ending, poll`fds
      ensures Valid() && TablesKept() && Same(old(Lives()), Lives(), conn)
      ensures conn.Life() == old(conn.Life()).With(Flushed(SiteOf(conn, now), old(conn.Standing()), says))
      ensures old(LineReady(conn)) ==> LineReady(conn)
    {
      hide InStep, Output.Fifo, Output.Step, OutcomeOf, Same, Lives;
      ghost var st, site := conn.Standing(), SiteOf(conn, now);
      conn.WriteOut(says);
      StepSound(site, st, Output.Writable(OutcomeOf(says, |st.h.s.send| + |st.h.s.flush|)), ByOutput);
      StepContinues(site, st, Output.Writable(OutcomeOf(says, |st.h.s.send| + |st.h.s.flush|)), ByOutput);
      OnlyStanding(conn);
      OneMoved(conn);
    }

    /** Input and output of a client during its turn. */
    method TreatClient(conn: AsyncConn, activity: Mask, turn: Turn, now: int)
      requires Valid() && conn in connList && conn == nowTreating && LineReady(conn)
      modifies conn`bufReadPos, conn`bufEnd, conn`received, conn`delivered,
               conn`line, conn`lineStatus, conn`lineSizeMax, conn`separator, msBuffer
      modifies connList`ok, connList`writable, connList`bufSend, connList`bufFlush, connList`closeAfter,
               connList`taken, connList`accepted, connList`ending, poll`fds
      ensures Valid() && TablesKept()
      ensures conn.Life() == TurnOf(SiteOf(conn, now), maxLineLength, readTries, old(conn.Life()), turn, activity)
      ensures |old(conn.delivered)| <= |conn.delivered|
      ensures Led(old(Lives()), Lives(), conn, Flat(turn.scripts, |conn.delivered| - |old(conn.delivered)|), now)
      ensures conn.ok ==> LineReady(conn)
    {
      hide ValidBut, InputTurn, Flushed, Led, Lives, AsyncConn.Standing, LineReady;
      LedAtFirst(Lives(), conn, now);
      if conn.ok && activity.input {
        TreatInput(conn, turn, now);
      }
      if conn.ok && activity.output {
        ghost var mid := Lives();
        FlushOf(conn, turn.says, now);
        LedThenSame(old(Lives()), mid, Lives(), conn, Flat(turn.scripts, |conn.delivered| - |old(conn.delivered)|), now);
      }
    }

    method TimerOf(conn: AsyncConn, now: int, says: SocketSays)
      requires Valid() && conn in connList && conn != nowTreating && conn.ok
      modifies conn`ok, conn`writable, conn`bufSend, conn`bufFlush, conn`taken, conn`accepted, conn`ending, poll`fds
      ensures Valid() && TablesKept() && Same(old(Lives()), Lives(), conn)
      ensures conn.Life() == old(conn.Life()).With(Ticked(SiteOf(conn, now), old(conn.Standing()), says))
    {
      hide InStep, Output.Fifo, Output.Step, OutcomeOf, Same, Lives;
      ghost var st, site := conn.Standing(), SiteOf(conn, now);
      conn.OnTimerBase(now, says);
      StepSound(site, st, Output.Timer(now, OutcomeOf(says, |st.h.s.send| + |st.h.s.flush|)), ByOutput);
      StepContinues(site, st, Output.Timer(now, OutcomeOf(says, |st.h.s.send| + |st.h.s.flush|)), ByOutput);
      OnlyStanding(conn);
      OneMoved(conn);
    }

    /** The connection timer walks the list; the handlers it calls may do anything to any
        connection. A connection that none of them aims at has exactly its own tick. */
    method OnTimerBase(now: int, ticks: seq<Tick>)
      requires Valid() && nowTreating == null
      modifies connList`ok, connList`writable, connList`bufSend, connList`bufFlush, connList`closeAfter,
               connList`taken, connList`accepted, connList`ending, poll`fds
      ensures Valid() && TablesKept()
      ensures forall k :: 0 <= k < |connList| && !TickAims(ticks, connList[k].sock) ==>
                connList[k].Life() == TickedLife(connList[k], old(connList[k].Life()), TickAt(ticks, k), now)
    {
      hide ValidBut, TickedLife, AsyncConn.Life;
      var i := 0;
      while i < |connList|
        invariant 0 <= i <= |connList| && Valid() && TablesKept()
        invariant forall k :: 0 <= k < |connList| && !TickAims(ticks, connList[k].sock) ==>
                    connList[k].Life() == if k < i then TickedLife(connList[k], old(connList[k].Life()), TickAt(ticks, k), now)
                                          else old(connList[k].Life())
      {
        TickConn(i, now, TickAt(ticks, i));
        i := i + 1;
      }
    }

    ghost function TickedLife(c: AsyncConn, v: Life, tick: Tick, now: int): Life {
      v.With(Ticked(Site(limits, c.sock, false, now), v.st, tick.says))
    }

    /** A tick of the timer drains as readiness does, unless the deadline of a nice close lies
        ahead: then it closes the connection, with everything unsent. */
    lemma TimerDrains(c: AsyncConn, v: Life, tick: Tick, now: int)
      requires c.sock >= 0 && Output.Fifo(limits, c.sock, v.st.h) && v.st.h.s.ok
      ensures var t := TickedLife(c, v, tick, now);
              && t.received == v.received && t.delivered == v.delivered
              && if v.st.h.s.closeAfter != 0 && v.st.h.s.closeAfter > now then !t.st.h.s.ok && t.st.h.taken == v.st.h.taken
                 else Drains(v.st, tick.says, t.st)
    {
      hide Drains, Ticked;
      TickedDrains(Site(limits, c.sock, false, now), v.st, tick.says);
    }

    method TickConn(i: nat, now: int, tick: Tick)
      requires Valid() && nowTreating == null && i < |connList|
      modifies connList`ok, connList`writable, connList`bufSend, connList`bufFlush, connList`closeAfter,
               connList`taken, connList`accepted, connList`ending, poll`fds
      ensures Valid() && TablesKept()
      ensures forall k :: 0 <= k < |connList| && !Aims(tick.script, connList[k].sock) ==>
                connList[k].Life() == if k == i then TickedLife(connList[k], old(connList[k].Life()), tick, now)
                                      else old(connList[k].Life())
    {
      hide ValidBut, Lives, Led, AsyncConn.Life, AsyncConn.Standing, Ticked;
      LivesOf();
      ghost var was := Lives();
      if connList[i].ok {
        LiveTicks(connList[i]);
        TimerOf(connList[i], now, tick.says);
        LivesOf();
        ghost var mid := Lives();
        RunHandler(tick.script, now);
        LivesOf();
        Elsewhere(mid, Lives(), null, tick.script, now);
      } else {
        DeadTicksNot(connList[i], now, tick);
      }
    }

    /** Whom no operation is aimed at stays where it was. */
    lemma Elsewhere(was: map<AsyncConn, Life>, after: map<AsyncConn, Life>, c: AsyncConn?, script: Script, now: int)
      requires Led(was, after, c, script, now)
      ensures forall d <- was.Keys :: d != c && !Aims(script, d.sock) ==> d in after && after[d] == was[d]
    {
      hide LedBy;
      forall d | d in was.Keys && d != c && !Aims(script, d.sock)
        ensures LedBy(Site(limits, d.sock, false, now), was[d], script) == was[d]
      {
        LedByElsewhere(Site(limits, d.sock, false, now), was[d], script);
      }
    }

    lemma LiveTicks(c: AsyncConn)
      ensures c.Life().st == c.Standing()
    {
    }

    lemma LivesOf()
      requires Valid()
      ensures Distinct(connList)
      ensures forall d <- connList :: d in Lives() && Lives()[d] == d.Life()
      ensures forall d <- Lives().Keys :: d in connList
    {
      forall d | d in connList ensures d in Lives() && Lives()[d] == d.Life() {
        LifeIn(d);
      }
    }

    lemma DeadTicksNot(c: AsyncConn, now: int, tick: Tick)
      requires !c.ok
      ensures TickedLife(c, c.Life(), tick, now) == c.Life()
    {
    }

    // ---- adding and reaping ----

    /** Frees a connection, unless it is the one under treatment: that one is only marked dead
        and the sweep frees it when its turn is over. */
    method DelConnection(c: AsyncConn, ghost cause: Ending)
      requires ValidBut(c) && c in connList
      modifies this`connList, this`freed, c`ok, c`writable, c`ending, poll`connList, poll`fds
      ensures listList == old(listList) && nowTreating == old(nowTreating)
      ensures ValidBut(if c == nowTreating then c else null)
      ensures Same(old(Lives()), Lives(), c)
      ensures c.ending == if old(c.ok && c.writable) then cause else old(c.ending)
      ensures c == nowTreating ==> connList == old(connList) && freed == old(freed) && !c.ok && poll.fds == old(poll.fds)
      ensures c != nowTreating ==>
                && freed == old(freed) + [c] && c !in old(freed) && !c.ok && !c.writable
                && (forall d :: d in connList <==> d in old(connList) && d != c)
                && poll.At(c.sock) == None
      ensures poll.lastSock == old(poll.lastSock)
    {
      hide InStep, Output.Fifo, Same, Lives;
      ghost var was := c.ok && c.writable;
      if nowTreating == c {
        c.ok := false;
        c.Note(was, cause);
        OneMoved(c);
      } else {
        Remove(c, cause);
      }
    }

    method Remove(c: AsyncConn, ghost cause: Ending)
      requires ValidBut(c) && c in connList && c != nowTreating
      modifies this`connList, this`freed, c`ok, c`writable, c`ending, poll`connList, poll`fds
      ensures ValidBut(null) && Same(old(Lives()), Lives(), c)
      ensures c.ending == if old(c.ok && c.writable) then cause else old(c.ending)
      ensures freed == old(freed) + [c] && c !in old(freed) && !c.ok && !c.writable
      ensures forall d :: d in connList <==> d in old(connList) && d != c
      ensures poll.At(c.sock) == None && poll.lastSock == old(poll.lastSock)
    {
      hide InStep, Output.Fifo, Same, Lives, SoundBut, Settled;
      ghost var was := c.ok && c.writable;
      var k := IndexOf(connList, c);
      ErasedElements(connList, k);
      var removed := poll.DelConn(c.sock);
      connList := connList[..k] + connList[k + 1..];
      // DeleteConn closes the socket; the slot is already empty then
      c.writable := false;
      c.ok := false;
      c.Note(was, cause);
      removed := poll.DelConn(c.sock);
      freed := freed + [c];
      StillSeated(c);
    }

    /** Taking one connection out of both tables leaves every other one seated, and as it was. */
    twostate lemma StillSeated(c: AsyncConn)
      requires old(ValidBut(c)) && c in old(connList) && c != nowTreating
      requires unchanged(`listList, `nowTreating) && unchanged(poll`lastSock)
      requires freed == old(freed) + [c]
      requires Distinct(connList) && forall d :: d in connList <==> d in old(connList) && d != c
      requires forall d <- old(connList) :: d != c ==> unchanged(d)
      requires forall l <- old(listList) :: unchanged(l)
      requires |poll.connList| == |old(poll.connList)| && |poll.fds| == |old(poll.fds)|
      requires forall s :: poll.At(s) == if s == c.sock then None else old(poll.At(s))
      requires forall s :: 0 <= s < |poll.fds| ==> poll.fds[s] == if s == c.sock then RESET_FD else old(poll.fds[s])
      ensures ValidBut(null) && Same(old(Lives()), Lives(), c)
    {
      hide InStep, Output.Fifo;
      forall s | 0 <= s < |poll.connList| && poll.connList[s].Some?
        ensures s <= poll.lastSock < |poll.fds|
      {
        assert poll.At(s) == old(poll.At(s)) == poll.connList[s];
      }
      forall d | d in connList
        ensures d.kind == Client && Seated(d) && SoundBut(d, null) && d !in freed && Settled(d) && d.Life() == old(d.Life())
      {
        assert d in old(connList) && old(Seated(d)) && old(Seated(c)) && old(SoundBut(d, c)) && d.sock != c.sock;
        assert poll.At(d.sock) == old(poll.At(d.sock));
      }
      forall l | l in listList
        ensures l.kind == ConnType.Listen && Seated(l) && l.Entry() == old(l.Entry())
      {
        assert old(Seated(l)) && old(Seated(c)) && l.sock != c.sock;
        assert poll.At(l.sock) == old(poll.At(l.sock));
      }
    }

    /** A connection as accept() or socket() hands it over: on a descriptor that no open
        connection has. */
    ghost predicate Newborn(c: AsyncConn)
      reads this, poll, c
    {
      && c.poll == poll && c.buffer == msBuffer && c.limits == limits
      && 4 <= c.sock <= maxSock && poll.At(c.sock) == None
      && c.writable && c.bufSend == "" && c.bufFlush == "" && c.closeAfter == 0 && c.taken == "" && c.accepted == ""
      && LineReady(c) && c.line == None && c.received == [] && c.delivered == [] && c.ending == Running
      && c !in connList && c !in listList && c !in freed
    }

    /** The life of a connection that has just been seated. */
    ghost function NewLife(sock: int): Life {
      Service.Life(Service.Standing(Output.Fresh(sock), Running), [], "", [])
    }

    /** It is served, watches input and errors, and has neither read nor sent anything. */
    lemma NewIsIdle(sock: int)
      requires sock >= 0
      ensures var v := NewLife(sock);
              && v.st.Serving() && v.st.ending == Running && v.st.h.s.Pending() == "" && v.st.h.taken == "" && v.st.h.accepted == ""
              && v.st.h.s.entry == PollFd(sock, Events(true, false, true), NO_EVENTS) && v.st.h.s.closeAfter == 0
              && v.received == [] && v.line == "" && v.delivered == []
    {
    }

    /** What adding, treating and reaping may do to the tables: only new connections join, and
        of the others only c leaves. */
    twostate predicate OthersStay(c: AsyncConn?)
      reads this, poll
    {
      && listList == old(listList)
      && old(poll.lastSock) <= poll.lastSock
      && (forall d <- old(connList) :: d != c ==> d in connList)
      && (forall k :: 0 <= k < |connList| ==> connList[k] in old(connList) || connList[k] == c || fresh(connList[k]))
      && old(freed) <= freed
      && (forall i :: |old(freed)| <= i < |freed| ==> freed[i] == c || fresh(freed[i]))
    }

    /** Takes a free slot of the chooser, and watches input and errors. */
    method TakeSlot(c: AsyncConn)
      requires poll.Valid() && poll.lastSock <= maxSock && 4 <= c.sock <= maxSock && poll.At(c.sock) == None
      requires c.sock < |poll.fds| ==> poll.fds[c.sock] == RESET_FD
      modifies poll
      ensures poll.Valid() && old(poll.lastSock) <= poll.lastSock <= maxSock
      ensures forall s :: poll.At(s) == if s == c.sock then Some(c) else old(poll.At(s))
      ensures |old(poll.fds)| <= |poll.fds| && c.sock < |poll.fds|
      ensures forall s :: 0 <= s < |poll.fds| ==>
                poll.fds[s] == if s == c.sock then Output.Fresh(c.sock).s.entry
                               else if s < |old(poll.fds)| then old(poll.fds)[s] else RESET_FD
    {
      hide OptInFd;
      var added := poll.AddConn(c, c.sock);
      poll.OptIn(c.sock, Mask(true, false, true, false));
    }

    method Seat(c: AsyncConn)
      requires Valid() && Newborn(c) && c.kind == Client && c.ok
      modifies this`connList, poll
      ensures Valid() && connList == [c] + old(connList)
      ensures c in connList && c.Life() == NewLife(c.sock) && OthersStay(c) && Same(old(Lives()), Lives(), c)
    {
      hide InStep, Output.Fifo, Same, Lives, SoundBut, Settled, OptInFd, Distinct, Listening, AsyncConn.Life, AsyncConn.Standing,
           NewLife, LineReady;
      TakeSlot(c);
      connList := [c] + connList;
      NewlySeated(c);
    }

    /** One more descriptor in use leaves every other one as it was. */
    twostate lemma Joined(c: AsyncConn)
      requires old(Valid()) && old(Newborn(c)) && c.ok
      requires unchanged(`nowTreating, `freed)
      requires forall d <- old(connList) + old(listList) :: unchanged(d)
      requires poll.Valid() && old(poll.lastSock) <= poll.lastSock <= maxSock
      requires forall s :: poll.At(s) == if s == c.sock then Some(c) else old(poll.At(s))
      requires |old(poll.fds)| <= |poll.fds| && c.sock < |poll.fds|
      requires forall s :: 0 < s < |poll.fds| ==>
                 poll.fds[s] == if s == c.sock then Output.Fresh(c.sock).s.entry
                                else if s < |old(poll.fds)| then old(poll.fds)[s] else RESET_FD
      ensures forall d <- old(connList) ::
                && d.kind == Client && Seated(d) && Sound(d) && d !in freed
                && d.Life() == old(d.Life()) && (d != nowTreating ==> Settled(d))
      ensures forall l <- old(listList) :: l.kind == ConnType.Listen && Seated(l) && l.ok && Listening(l.Entry(), l.sock)
      ensures forall s :: 0 < s < |poll.fds| && poll.At(s).None? ==> poll.fds[s] == RESET_FD
      ensures forall s :: poll.At(s).Some? && s != c.sock ==>
                poll.At(s).value.sock == s && (poll.At(s).value in old(connList) || poll.At(s).value in old(listList))
    {
      hide InStep, Output.Fifo;
      forall d | d in old(connList)
        ensures Seated(d) && Sound(d) && d.Life() == old(d.Life()) && (d != nowTreating ==> Settled(d))
      {
        assert d in old(connList) + old(listList);
        assert old(Seated(d)) && old(Sound(d)) && d.sock != c.sock;
        assert poll.At(d.sock) == old(poll.At(d.sock));
      }
      forall l | l in old(listList)
        ensures Seated(l) && l.Entry() == old(l.Entry()) && l.ok
      {
        assert l in old(connList) + old(listList);
        assert old(Seated(l)) && l.sock != c.sock;
        assert poll.At(l.sock) == old(poll.At(l.sock));
      }
      forall s | 0 < s < |poll.fds| && poll.At(s).None? ensures poll.fds[s] == RESET_FD {
        assert old(poll.At(s)) == None && s != c.sock;
      }
      forall s | poll.At(s).Some? && s != c.sock
        ensures poll.At(s).value.sock == s && (poll.At(s).value in old(connList) || poll.At(s).value in old(listList))
      {
        assert poll.At(s) == old(poll.At(s));
      }
    }

    twostate lemma NewlySeated(c: AsyncConn)
      requires old(Valid()) && old(Newborn(c)) && c.ok && c.kind == Client
      requires unchanged(`nowTreating, `freed, `listList) && connList == [c] + old(connList)
      requires unchanged(c) && forall d <- old(connList) + old(listList) :: unchanged(d)
      requires poll.Valid() && old(poll.lastSock) <= poll.lastSock <= maxSock
      requires forall s :: poll.At(s) == if s == c.sock then Some(c) else old(poll.At(s))
      requires |old(poll.fds)| <= |poll.fds| && c.sock < |poll.fds|
      requires forall s :: 0 < s < |poll.fds| ==>
                 poll.fds[s] == if s == c.sock then Output.Fresh(c.sock).s.entry
                                else if s < |old(poll.fds)| then old(poll.fds)[s] else RESET_FD
      ensures Valid() && c.Life() == NewLife(c.sock) && Same(old(Lives()), Lives(), c)
    {
      hide InStep, Output.Fifo, OptInFd, RESET_FD, CC_ALL;
      Joined(c);
      assert poll.At(c.sock) == Some(c);
      assert c.Life() == NewLife(c.sock);
      NewIsFine(c.sock);
    }

    lemma NewIsFine(sock: int)
      requires sock >= 0
      ensures InStep(maxLineLength, NewLife(sock)) && Service.Sound(limits, sock, false, NewLife(sock).st)
    {
      assert Output.Run(limits, sock, Output.Fresh(sock), []) == Output.Fresh(sock);
      Output.FreshRunIsFifo(limits, sock, []);
    }

    twostate lemma NewlyListening(l: AsyncConn)
      requires old(Valid()) && old(Newborn(l)) && l.ok && l.kind == ConnType.Listen
      requires unchanged(`nowTreating, `freed, `connList) && listList == old(listList) + [l]
      requires unchanged(l) && forall d <- old(connList) + old(listList) :: unchanged(d)
      requires poll.Valid() && old(poll.lastSock) <= poll.lastSock <= maxSock
      requires forall s :: poll.At(s) == if s == l.sock then Some(l) else old(poll.At(s))
      requires |old(poll.fds)| <= |poll.fds| && l.sock < |poll.fds|
      requires forall s :: 0 < s < |poll.fds| ==>
                 poll.fds[s] == if s == l.sock then Output.Fresh(l.sock).s.entry
                                else if s < |old(poll.fds)| then old(poll.fds)[s] else RESET_FD
      ensures Valid() && Same(old(Lives()), Lives(), null)
    {
      hide InStep, Output.Fifo;
      Joined(l);
      assert poll.At(l.sock) == Some(l);
    }

    method ListenWithConn(l: AsyncConn)
      requires Valid() && Newborn(l) && l.ok && l.kind == ConnType.Listen
      modifies this`listList, poll
      ensures Valid() && old(poll.lastSock) <= poll.lastSock && listList == old(listList) + [l]
      ensures poll.Holds(l.sock, l) && l.Entry().events == Events(true, false, true)
      ensures Same(old(Lives()), Lives(), null)
    {
      hide InStep, Output.Fifo, Same, Lives;
      TakeSlot(l);
      listList := listList + [l];
      NewlyListening(l);
    }

    /** The object of a listening socket is made with descriptor 0 and closed there before it
        gets its own: this leaves a close mark on descriptor 0, which no connection has. */
    method CloseZero()
      requires Valid()
      modifies poll`fds
      ensures Valid() && Same(old(Lives()), Lives(), null)
      ensures poll.fds == if old(poll.fds) == [] then [] else old(poll.fds)[0 := PollFd(0, NO_EVENTS, NO_EVENTS)]
    {
      hide InStep, Output.Fifo, Same, Lives;
      poll.OptOut(0, CC_ALL);
      poll.OptIn(0, CC_CLOSE);
      SlotZeroMoved();
    }

    /** A new listening socket, if the system has a descriptor for it. */
    method Listen(sock: int) returns (l: AsyncConn?)
      requires Valid()
      modifies this`listList, poll
      ensures Valid() && old(poll.lastSock) <= poll.lastSock
      ensures l != null <==> 4 <= sock <= maxSock && old(poll.At(sock)) == None
      ensures l == null ==> listList == old(listList)
      ensures l != null ==> fresh(l) && l.sock == sock && l.kind == ConnType.Listen && listList == old(listList) + [l]
      ensures l != null ==> poll.Holds(sock, l) && l.Entry().events == Events(true, false, true)
      ensures Same(old(Lives()), Lives(), null)
    {
      hide Same, Lives, InStep, Output.Fifo;
      var conn := new AsyncConn(poll, msBuffer, limits, sock, ConnType.Listen);
      CloseZero();
      ghost var mid := Lives();
      if !(4 <= sock <= maxSock && poll.At(sock) == None) {
        return null;
      }
      ListenWithConn(conn);
      SameOn(old(Lives()), mid, Lives(), null);
      return conn;
    }

    twostate lemma SlotZeroMoved()
      requires old(Valid()) && unchanged(this) && unchanged(poll`connList, poll`lastSock)
      requires forall d <- connList + listList :: unchanged(d)
      requires |poll.fds| == |old(poll.fds)| && forall s :: 0 < s < |poll.fds| ==> poll.fds[s] == old(poll.fds)[s]
      ensures Valid() && Same(old(Lives()), Lives(), null)
    {
      hide InStep, Output.Fifo;
      forall d | d in connList
        ensures Seated(d) && Sound(d) && d.Life() == old(d.Life()) && (d != nowTreating ==> Settled(d))
      {
        assert d in connList + listList;
        assert old(Seated(d)) && old(Sound(d));
      }
      forall l | l in listList
        ensures Seated(l) && l.Entry() == old(l.Entry()) && l.ok
      {
        assert l in connList + listList;
        assert old(Seated(l));
      }
    }

    method Refuse(c: AsyncConn)
      requires Valid() && Newborn(c) && c.kind == Client
      modifies this`freed, poll`connList, poll`fds, c`writable
      ensures Valid() && freed == old(freed) + [c] && OthersStay(c) && Same(old(Lives()), Lives(), c)
      ensures c in freed && c !in connList && !c.writable
    {
      hide InStep, Output.Fifo, Listening;
      c.writable := false;
      var removed := poll.DelConn(c.sock);
      freed := freed + [c];
      forall d | d in connList
        ensures Seated(d) && Sound(d) && d !in freed && d.Life() == old(d.Life()) && (d != nowTreating ==> Settled(d))
      {
        assert old(Seated(d)) && old(Sound(d));
      }
    }

    /** OnNewConn: any handler, which may turn the connection away. */
    method Greet(c: AsyncConn, arrival: Arrival, now: int)
      requires Valid() && c in connList && (nowTreating == null || nowTreating in listList)
      modifies this`connList, this`freed, poll`connList, poll`fds
      modifies connList`ok, connList`writable, connList`bufSend, connList`bufFlush, connList`closeAfter,
               connList`taken, connList`accepted, connList`ending
      ensures Valid() && nowTreating == old(nowTreating) && OthersStay(c)
      ensures Led(old(Lives()), Lives(), c, arrival.greeting, now)
      ensures (c in freed <==> arrival.turnedAway) && (c in connList <==> !arrival.turnedAway)
      ensures c in connList ==> c.Life() == LedBy(Site(limits, c.sock, false, now), old(c.Life()), arrival.greeting)
    {
      hide ValidBut, Led, LedBy, Same, Lives, AsyncConn.Life;
      Apart(c);
      ghost var was := Lives();
      RunHandler(arrival.greeting, now);
      Apart(c);
      ghost var mid := Lives();
      LedAmong(was, mid, nowTreating, c, arrival.greeting, now);
      if arrival.turnedAway {
        Dismiss(c, ByHandler);
        LedThenSame(was, mid, Lives(), c, arrival.greeting, now);
      }
    }

    lemma Apart(c: AsyncConn)
      requires Valid() && c in connList && (nowTreating == null || nowTreating in listList)
      ensures c !in freed && c != nowTreating && nowTreating !in Lives()
      ensures c in Lives() && Lives()[c] == c.Life()
    {
      LifeIn(c);
    }

    lemma LedAmong(was: map<AsyncConn, Life>, after: map<AsyncConn, Life>, none: AsyncConn?, c: AsyncConn, script: Script, now: int)
      requires Led(was, after, none, script, now) && none !in was && c in was
      ensures Led(was, after, c, script, now) && c in after
      ensures after[c] == LedBy(Site(limits, c.sock, false, now), was[c], script)
    {
      hide LedBy;
    }

    /** DelConnection of another connection than the one under treatment. */
    method Dismiss(c: AsyncConn, ghost cause: Ending)
      requires Valid() && c in connList && (nowTreating == null || nowTreating in listList)
      modifies this`connList, this`freed, poll`connList, poll`fds, c`ok, c`writable, c`ending
      ensures Valid() && nowTreating == old(nowTreating) && OthersStay(c) && Same(old(Lives()), Lives(), c)
      ensures c in freed && c !in connList
      ensures c.ending == if old(c.ok && c.writable) then cause else old(c.ending)
    {
      hide InStep, Output.Fifo, Same, Lives;
      assert c != nowTreating;
      DelConnection(c, cause);
      assert forall k :: 0 <= k < |connList| ==> connList[k] in connList;
    }

    /** Refused connections are freed at once and never listed; all others are seated, and may
        still be turned away by the hub, unless they wait behind the TLS proxy. */
    method AddConnection(c: AsyncConn, arrival: Arrival, now: int)
      requires Valid() && Newborn(c) && c.kind == Client && c.sock == arrival.sock && c.ok == !arrival.refused
      requires nowTreating == null || nowTreating in listList
      modifies this`connList, this`freed, poll, c`ok, c`writable, c`bufSend, c`bufFlush, c`closeAfter, c`taken, c`accepted, c`ending
      modifies connList`ok, connList`writable, connList`bufSend, connList`bufFlush, connList`closeAfter,
               connList`taken, connList`accepted, connList`ending
      ensures Valid() && nowTreating == old(nowTreating) && OthersStay(c)
      ensures Led(old(Lives()), Lives(), null, Greeting(arrival), now)
      ensures Admits(arrival, c)
      ensures c in connList ==> c.Life() == LedBy(Site(limits, c.sock, false, now), NewLife(c.sock), Greeting(arrival))
      ensures arrival.refused ==> c in freed && c !in connList
      ensures !arrival.refused && arrival.tlsProxy ==> c in connList && c.Life() == NewLife(c.sock)
      ensures !arrival.refused && !arrival.tlsProxy ==>
                if arrival.turnedAway then c in freed && c !in connList
                else c in connList && c.Life() == LedBy(Site(limits, c.sock, false, now), NewLife(c.sock), arrival.greeting)
    {
      hide Led, LedBy, Same, Lives, AsyncConn.Life, ValidBut, NewLife;
      ghost var was := Lives();
      LedByNone(Site(limits, c.sock, false, now), NewLife(c.sock));
      NotYetIn(c);
      if !c.ok {
        Refuse(c);
        LedNowhere(was, Lives(), c, now);
        LedAll(was, Lives(), c, [], now);
        return;
      }
      Seat(c);
      ghost var mid := Lives();
      if arrival.tlsProxy {
        LedNowhere(was, mid, c, now);
        LedAll(was, mid, c, [], now);
        return;
      }
      Greet(c, arrival, now);
      SameThenLed(was, mid, Lives(), c, arrival.greeting, now);
      LedAll(was, Lives(), c, arrival.greeting, now);
    }

    lemma NotYetIn(c: AsyncConn)
      requires Newborn(c)
      ensures c !in Lives()
    {
    }

    lemma LedAll(was: map<AsyncConn, Life>, after: map<AsyncConn, Life>, c: AsyncConn, script: Script, now: int)
      requires Led(was, after, c, script, now) && c !in was
      ensures Led(was, after, null, script, now)
    {
    }

    /** Whether a connection is listed or freed in the end. */
    ghost predicate Admits(arrival: Arrival, c: AsyncConn)
      reads this`connList, this`freed
    {
      && c.sock == arrival.sock
      && (c in freed <==> arrival.refused || (!arrival.tlsProxy && arrival.turnedAway))
      && (c in connList <==> c !in freed)
    }

    /** Whether the system can hand over this connection: it never reuses a descriptor that is
        still open, and the descriptors 0 to 3 are taken by then. */
    predicate Acceptable(arrival: Arrival)
      reads poll`connList
    {
      4 <= arrival.sock <= maxSock && poll.At(arrival.sock) == None
    }

    method Accept(arrival: Arrival) returns (c: AsyncConn?)
      requires Valid()
      ensures c != null <==> Acceptable(arrival)
      ensures c != null ==> fresh(c) && Newborn(c) && c.kind == Client && c.sock == arrival.sock && c.ok == !arrival.refused
    {
      if !Acceptable(arrival) {
        return null;
      }
      var conn := new AsyncConn(poll, msBuffer, limits, arrival.sock, Client);
      if arrival.refused {
        conn.ok := false;
      }
      return conn;
    }

    /** How accepting went: one new connection for each arrival the system could hand over, up
        to one more than the limit; those that were refused or turned away are freed at once. */
    ghost predicate Admitted(arrivals: seq<Arrival>, came: seq<AsyncConn>)
      reads this`connList, this`freed, poll`connList
    {
      && |came| <= acceptNum + 1
      && (|came| <= acceptNum ==> !Acceptable(ArrivalAt(arrivals, |came|)))
      && forall i :: 0 <= i < |came| ==> Admits(ArrivalAt(arrivals, i), came[i])
    }

    /** So accepting stops early only at an arrival whose descriptor is in use or out of range, and
        each connection that came has been freed or is listed. */
    lemma AcceptsOn(arrivals: seq<Arrival>, came: seq<AsyncConn>, i: nat)
      requires Admitted(arrivals, came)
      ensures |came| <= acceptNum + 1
      ensures |came| <= acceptNum ==> var sock := ArrivalAt(arrivals, |came|).sock; sock < 4 || sock > maxSock || poll.At(sock) != None
      ensures i < |came| && i < |arrivals| ==>
                var a := arrivals[i];
                && came[i].sock == a.sock && (came[i] in connList <==> came[i] !in freed)
                && (came[i] in freed <==> a.refused || (a.turnedAway && !a.tlsProxy))
    {
    }

    method AcceptOne(arrival: Arrival, now: int) returns (c: AsyncConn?)
      requires Valid() && nowTreating != null && nowTreating in listList
      modifies this`connList, this`freed, poll
      modifies connList`ok, connList`writable, connList`bufSend, connList`bufFlush, connList`closeAfter,
               connList`taken, connList`accepted, connList`ending
      ensures Valid() && nowTreating == old(nowTreating) && OthersStay(null)
      ensures Led(old(Lives()), Lives(), null, if c == null then [] else Greeting(arrival), now)
      ensures c == null ==> !Acceptable(arrival) && connList == old(connList) && freed == old(freed)
      ensures c != null ==> fresh(c) && Admits(arrival, c)
    {
      hide ValidBut, AsyncConn.Life, NewLife, Newborn, Led, Same, Lives, LedBy;
      LedAtFirst(Lives(), null, now);
      c := Accept(arrival);
      if c != null {
        AddConnection(c, arrival, now);
      }
    }

    method AcceptAll(arrivals: seq<Arrival>, now: int) returns (ghost came: seq<AsyncConn>)
      requires Valid() && nowTreating != null && nowTreating in listList
      modifies this`connList, this`freed, poll
      modifies connList`ok, connList`writable, connList`bufSend, connList`bufFlush, connList`closeAfter,
               connList`taken, connList`accepted, connList`ending
      ensures Valid() && nowTreating == old(nowTreating) && OthersStay(null)
      ensures Led(old(Lives()), Lives(), null, Greetings(arrivals, |came|), now)
      ensures Admitted(arrivals, came) && forall c <- came :: fresh(c)
    {
      hide ValidBut, Newborn, Led, Lives, Greeting;
      ghost var was := Lives();
      LedAtFirst(was, null, now);
      came := [];
      var i := 0;
      var more := true;
      while more
        invariant Valid() && nowTreating == old(nowTreating) && listList == old(listList) && OthersStay(null)
        invariant 0 <= i <= acceptNum + 1 && (more ==> i <= acceptNum)
        invariant Led(was, Lives(), null, Greetings(arrivals, |came|), now)
        invariant forall c <- came :: fresh(c)
        invariant forall k :: 0 <= k < |came| ==> Admits(ArrivalAt(arrivals, k), came[k])
        invariant more ==> |came| == i
        invariant !more ==> |came| == i == acceptNum + 1 || (|came| == i - 1 && !Acceptable(ArrivalAt(arrivals, i - 1)))
        decreases acceptNum + 1 - i, more
      {
        ghost var mid := Lives();
        var c := AcceptOne(ArrivalAt(arrivals, i), now);
        if c != null {
          LedOn(was, mid, Lives(), null, Greetings(arrivals, i), Greeting(ArrivalAt(arrivals, i)), now);
          came := came + [c];
        } else {
          LedOn(was, mid, Lives(), null, Greetings(arrivals, i), [], now);
          assert Greetings(arrivals, i) + [] == Greetings(arrivals, i);
        }
        i := i + 1;
        more := c != null && i <= acceptNum;
      }
    }

    // ---- turns ----

    method BeginTurn(conn: AsyncConn)
      requires Valid() && nowTreating == null && (conn in connList || conn in listList)
      modifies this`nowTreating
      ensures Valid() && nowTreating == conn && Same(old(Lives()), Lives(), null)
    {
      hide InStep, Output.Fifo, Settled;
      nowTreating := conn;
    }

    ghost function StatusOf(c: AsyncConn): Status
      reads this`connList, this`freed, c, c.poll
    {
      Status(c in connList, c in freed, c.Life())
    }

    /** The end of a turn: the connection is freed, or it is an ordinary member again. */
    method EndTurn(conn: AsyncConn, activity: Mask)
      requires Valid() && conn == nowTreating && conn in connList && (conn.ok ==> Settled(conn))
      modifies this`connList, this`freed, this`nowTreating, conn`ok, conn`writable, conn`ending, poll`connList, poll`fds
      ensures Valid() && nowTreating == null && OthersStay(conn)
      ensures Same(old(Lives()), Lives(), conn) && Leaves(StatusOf(conn), old(conn.Life()), activity)
      ensures conn in freed <==> !old(conn.ok) || activity.error || activity.close
    {
      hide ValidBut, Same, Lives, LineReady;
      StopTreating(conn);
      ghost var mid := Lives();
      if !conn.ok || activity.error || activity.close {
        DelConnection(conn, ByPeer);
        assert forall k :: 0 <= k < |connList| ==> connList[k] in connList;
        SameOn(old(Lives()), mid, Lives(), conn);
      }
    }

    method StopTreating(conn: AsyncConn)
      requires Valid() && conn == nowTreating && conn in connList && (conn.ok ==> Settled(conn))
      modifies this`nowTreating
      ensures nowTreating == null && ValidBut(conn) && (conn.ok ==> Valid()) && conn !in freed
      ensures Same(old(Lives()), Lives(), conn)
    {
      hide InStep, Output.Fifo;
      nowTreating := null;
    }

    /** The turn of a client: it comes out of it exactly as `TurnOf` says, and everybody else as
        the handlers of the k messages it was handed have left them. */
    method TurnOfClient(conn: AsyncConn, activity: Mask, turn: Turn, now: int) returns (ghost k: nat)
      requires Valid() && nowTreating == null && conn in connList
      modifies this`connList, this`freed, this`nowTreating, poll, msBuffer, conn
      modifies connList`ok, connList`writable, connList`bufSend, connList`bufFlush, connList`closeAfter,
               connList`taken, connList`accepted, connList`ending
      ensures Valid() && nowTreating == null && OthersStay(conn)
      ensures var t := TurnOf(Site(limits, conn.sock, true, now), maxLineLength, readTries, old(conn.Life()), turn, activity);
              Leaves(StatusOf(conn), t, activity)
      ensures |conn.delivered| == |old(conn.delivered)| + k
      ensures Led(old(Lives()), Lives(), conn, Flat(turn.scripts, k), now)
    {
      hide ValidBut, TurnOf, InStep, Led, Same, Lives, Leaves, AsyncConn.Life, AsyncConn.Standing, LineReady;
      ghost var was, v := Lives(), conn.Life();
      BeforeTurn(conn);
      BeginTurn(conn);
      ghost var begun := Lives();
      TreatClient(conn, activity, turn, now);
      k := |conn.delivered| - |old(conn.delivered)|;
      ghost var mid := Lives();
      TurnInStep(Site(limits, conn.sock, true, now), maxLineLength, readTries, v, turn, activity);
      EndTurn(conn, activity);
      SameAllLed(was, begun, mid, conn, Flat(turn.scripts, k), now);
      LedThenSame(was, mid, Lives(), conn, Flat(turn.scripts, k), now);
    }

    lemma BeforeTurn(conn: AsyncConn)
      requires Valid() && nowTreating == null && conn in connList
      ensures LineReady(conn) && InStep(maxLineLength, conn.Life())
    {
      assert Settled(conn);
    }

    lemma SameAllLed(was: map<AsyncConn, Life>, mid: map<AsyncConn, Life>, after: map<AsyncConn, Life>,
                     c: AsyncConn, script: Script, now: int)
      requires Same(was, mid, null) && Led(mid, after, c, script, now)
      ensures Led(was, after, c, script, now)
    {
      hide LedBy;
    }

    method EndListening()
      requires Valid() && nowTreating != null && nowTreating in listList
      modifies this`nowTreating
      ensures Valid() && nowTreating == null && Same(old(Lives()), Lives(), null)
    {
      hide InStep, Output.Fifo, Settled;
      assert nowTreating !in connList;
      nowTreating := null;
    }

    /** The turn of a listening socket, which is live and never reported in error. */
    method TurnOfListener(conn: AsyncConn, activity: Mask, turn: Turn, now: int) returns (ghost came: seq<AsyncConn>)
      requires Valid() && nowTreating == null && conn in listList
      modifies this`connList, this`freed, this`nowTreating, poll
      modifies connList`ok, connList`writable, connList`bufSend, connList`bufFlush, connList`closeAfter,
               connList`taken, connList`accepted, connList`ending
      ensures Valid() && nowTreating == null && OthersStay(null)
      ensures Led(old(Lives()), Lives(), null, Greetings(turn.arrivals, |came|), now)
      ensures if activity.input then Admitted(turn.arrivals, came) else came == []
      ensures forall c <- came :: fresh(c)
    {
      hide ValidBut, Led, Same, Lives, Admitted;
      ghost var was := Lives();
      came := [];
      BeginTurn(conn);
      ghost var begun := Lives();
      LedAtFirst(begun, null, now);
      if activity.input {
        came := AcceptAll(turn.arrivals, now);
      }
      ghost var mid := Lives();
      EndListening();
      SameThenLed(was, begun, mid, null, Greetings(turn.arrivals, |came|), now);
      LedThenSame(was, mid, Lives(), null, Greetings(turn.arrivals, |came|), now);
    }

    // ---- the sweep ----

    /** A dead connection passes the sweep's test. */
    lemma DeadIsFound(c: AsyncConn)
      requires Valid() && nowTreating == null && c in connList && !c.ok
      ensures poll.RevTest(c.sock) && poll.RevGet(c.sock).close
    {
      assert Sound(c);
    }

    /** What the whole sweep may do to the tables. */
    twostate predicate OnlyOldLeave()
      reads this, poll
    {
      && listList == old(listList)
      && (forall k :: 0 <= k < |connList| ==> connList[k] in old(connList) || fresh(connList[k]))
      && old(freed) <= freed
      && (forall i :: |old(freed)| <= i < |freed| ==> freed[i] in old(connList) || fresh(freed[i]))
    }

    /** One stop of the sweep: the client or listening socket on this descriptor has its turn. */
    method SweepStep(sock: int, turn: Turn, now: int) returns (next: int, ghost who: AsyncConn?, ghost script: Script)
      requires Valid() && nowTreating == null && 0 <= sock <= poll.lastSock
      modifies this`connList, this`freed, this`nowTreating, poll, msBuffer, connList
      ensures who != null ==> who in old(connList) && who.sock == sock
      ensures Valid() && nowTreating == null && OthersStay(who) && OnlyOldLeave()
      ensures sock < next <= poll.lastSock + 1
      ensures forall c <- old(connList) :: sock < c.sock < next ==> !RevTestFd(old(c.Entry()))
      ensures forall c <- old(connList) :: c.sock == next ==> RevTestFd(old(c.Entry()))
      ensures forall c <- old(connList) :: c.sock == sock ==> c == who
      ensures who != null ==>
                var activity := old(poll.RevGet(sock));
                var t := TurnOf(Site(limits, sock, true, now), maxLineLength, readTries, old(who.Life()), turn, activity);
                Leaves(StatusOf(who), t, activity)
      ensures Led(old(Lives()), Lives(), who, script, now)
      ensures forall s :: !TurnAims(turn, s) ==> !Aims(script, s)
    {
      hide ValidBut, Led, Same, Lives, Leaves, TurnOf, AsyncConn.Life, AnyAims, GreetingAims, Admitted, RevTestFd;
      var activity, conn := poll.RevGet(sock), poll.At(sock);
      who, script := null, [];
      OnSocket(sock);
      LedAtFirst(Lives(), null, now);
      next := poll.Next(sock);
      EntriesOf();
      if conn.None? {
        return;
      }
      if conn.value.kind == Client {
        who := conn.value;
        ghost var k := TurnOfClient(conn.value, activity, turn, now);
        script := Flat(turn.scripts, k);
        forall s | !AnyAims(turn.scripts, s) ensures !Aims(script, s) {
          FlatAims(turn.scripts, k, s);
        }
      } else {
        ghost var came := TurnOfListener(conn.value, activity, turn, now);
        script := Greetings(turn.arrivals, |came|);
        forall s | !GreetingAims(turn.arrivals, s) ensures !Aims(script, s) {
          GreetingsAim(turn.arrivals, |came|, s);
        }
      }
    }

    lemma OnSocket(sock: int)
      requires Valid()
      ensures var c := poll.At(sock);
              && (forall d <- connList :: d.sock == sock ==> c == Some(d) && d.kind == Client)
              && (c.Some? ==> c.value.sock == sock && if c.value.kind == Client then c.value in connList else c.value in listList)
    {
      forall d | d in connList && d.sock == sock ensures poll.At(sock) == Some(d) {
        assert Seated(d);
      }
    }

    lemma EntriesOf()
      requires Valid()
      ensures forall d <- connList :: 0 <= d.sock <= poll.lastSock && d.sock < |poll.fds| && d.Entry() == poll.fds[d.sock]
    {
      forall d | d in connList ensures 0 <= d.sock <= poll.lastSock && d.sock < |poll.fds| && d.Entry() == poll.fds[d.sock] {
        assert Seated(d);
      }
    }

    /** How a connection that no other turn aims at comes out of a sweep: if nothing was to be
        treated, as it was, and else exactly as its own turn leaves it. */
    ghost predicate Fate(x: Status, v: Life, sock: int, turn: Turn, now: int) {
      var entry := v.st.h.s.entry;
      var activity := RevGetFd(entry, sock);
      if RevTestFd(entry) then
        Leaves(x, TurnOf(Site(limits, sock, true, now), maxLineLength, readTries, v, turn, activity), activity)
      else
        x.listed && !x.freed && x.life == v
    }

    /** How far the sweep has brought one of the connections that were there when it began. */
    ghost predicate SweptTo(x: Status, v: Life, sock: int, it: int, visited: seq<int>, turns: int -> Turn, now: int) {
      && (x.listed <==> !x.freed)
      && (sock !in visited ==> x.listed && Bears(v, x.life))
      && (it <= sock ==> sock !in visited)
      && (sock < it && RevTestFd(v.st.h.s.entry) ==> sock in visited)
      && (sock in visited && !v.st.h.s.ok ==> x.freed)
      && (Undisturbed(turns, sock) ==>
            if sock < it then Fate(x, v, sock, turns(sock), now)
            else x.life == v && (sock == it ==> RevTestFd(v.st.h.s.entry)))
    }

    ghost predicate Progress(was: map<AsyncConn, Life>, it: int, visited: seq<int>, turns: int -> Turn, now: int)
      reads this`connList, this`freed, poll, was.Keys, set c <- was.Keys :: c.poll
    {
      forall c <- was.Keys :: SweptTo(StatusOf(c), was[c], c.sock, it, visited, turns, now)
    }

    /** Whoever is not treated bears what the turn's handlers do to it. */
    lemma BystandersBear(was: map<AsyncConn, Life>, after: map<AsyncConn, Life>, who: AsyncConn?, script: Script, now: int)
      requires Led(was, after, who, script, now)
      requires forall d <- was.Keys :: d.sock >= 0 && Service.Sound(limits, d.sock, false, was[d].st)
      ensures forall d <- was.Keys :: d != who ==> d in after && Bears(was[d], after[d])
      ensures forall d <- was.Keys :: d != who && !Aims(script, d.sock) ==> after[d] == was[d]
    {
      hide LedBy, Bears, Service.Sound;
      Elsewhere(was, after, who, script, now);
      forall d | d in was.Keys && d != who ensures d in after && Bears(was[d], after[d]) {
        LedByBears(Site(limits, d.sock, false, now), was[d], script);
      }
    }

    lemma AllSound()
      requires Valid() && nowTreating == null
      ensures forall d <- Lives().Keys :: d.sock >= 0 && Service.Sound(limits, d.sock, false, Lives()[d].st)
    {
      hide Output.Fifo, InStep;
      forall d | d in connList ensures d.sock >= 0 && Service.Sound(limits, d.sock, false, d.Life().st) {
        assert Seated(d) && Sound(d);
      }
    }

    /** A client that has just had its turn. */
    lemma TurnTaken(x: Status, y: Status, v: Life, it: int, next: int, visited: seq<int>, turns: int -> Turn, now: int, activity: Mask)
      requires SweptTo(x, v, it, it, visited, turns, now) && it < next
      requires activity == RevGetFd(x.life.st.h.s.entry, it)
      requires Leaves(y, TurnOf(Site(limits, it, true, now), maxLineLength, readTries, x.life, turns(it), activity), activity)
      ensures SweptTo(y, v, it, next, visited + [it], turns, now)
    {
      hide TurnOf, RevTestFd, RevGetFd;
      if !v.st.h.s.ok {
        DeadTurn(Site(limits, it, true, now), maxLineLength, readTries, x.life, turns(it), activity);
      }
    }

    /** A client that was not treated, and is still there. */
    lemma PassedBy(x: Status, y: Status, v: Life, sock: int, it: int, next: int, visited: seq<int>, turns: int -> Turn, now: int)
      requires SweptTo(x, v, sock, it, visited, turns, now) && it < next && sock != it
      requires x.listed && y.listed && y.freed == x.freed && Bears(x.life, y.life)
      requires it < sock < next ==> !RevTestFd(x.life.st.h.s.entry)
      requires sock == next ==> RevTestFd(x.life.st.h.s.entry)
      requires Undisturbed(turns, sock) ==> y.life == x.life
      ensures SweptTo(y, v, sock, next, visited + [it], turns, now)
    {
      hide TurnOf, RevTestFd, RevGetFd;
    }

    /** A client that had left before. */
    lemma StillGone(x: Status, y: Status, v: Life, sock: int, it: int, next: int, visited: seq<int>, turns: int -> Turn, now: int)
      requires SweptTo(x, v, sock, it, visited, turns, now) && it < next
      requires !x.listed && !y.listed && y.freed == x.freed
      requires y.life.received == x.life.received && y.life.delivered == x.life.delivered && y.life.st.ending == x.life.st.ending
      ensures SweptTo(y, v, sock, next, visited + [it], turns, now)
    {
      hide TurnOf, RevTestFd, RevGetFd;
    }

    method SweepOnce(it: int, turns: int -> Turn, now: int, ghost was: map<AsyncConn, Life>, ghost visited: seq<int>)
      returns (next: int)
      requires Valid() && nowTreating == null && 0 <= it <= poll.lastSock
      requires Progress(was, it, visited, turns, now)
      modifies this`connList, this`freed, this`nowTreating, poll, msBuffer, connList
      ensures Valid() && nowTreating == null && old(poll.lastSock) <= poll.lastSock && OnlyOldLeave()
      ensures it < next <= poll.lastSock + 1
      ensures Progress(was, next, visited + [it], turns, now)
    {
      hide ValidBut, Led, Lives, TurnOf, AsyncConn.Life, Bears, RevTestFd, RevGetFd, OnlyOldLeave, Leaves, SweptTo,
           Aims, Distinct, AnyAims, GreetingAims, AsyncConn.Registered, AsyncConn.Standing, AsyncConn.Entry, Service.Sound;
      LivesOf();
      AllSound();
      EntriesOf();
      ghost var mid := Lives();
      ghost var who, script;
      next, who, script := SweepStep(it, turns(it), now);
      LivesOf();
      BystandersBear(mid, Lives(), who, script, now);
      forall c | c in was.Keys ensures SweptTo(StatusOf(c), was[c], c.sock, next, visited + [it], turns, now) {
        ghost var x, y := old(StatusOf(c)), StatusOf(c);
        if c == who {
          TurnTaken(x, y, was[c], it, next, visited, turns, now, old(poll.RevGet(it)));
        } else if c in mid {
          PassedBy(x, y, was[c], c.sock, it, next, visited, turns, now);
        } else {
          StillGone(x, y, was[c], c.sock, it, next, visited, turns, now);
        }
      }
    }

    /** The sweep proper: sockets are visited in ascending order, each at most once. Everybody
        for whom something was reported is visited, nobody else reads, is handed a message or is
        freed, all who were dead before are freed, and a connection that no other turn aims at
        has exactly its own turn. */
    method Sweep(turns: int -> Turn, now: int) returns (ghost visited: seq<int>)
      requires Valid() && nowTreating == null
      modifies this`connList, this`freed, this`nowTreating, poll, msBuffer, connList
      ensures Valid() && nowTreating == null && OnlyOldLeave()
      ensures forall i, j :: 0 <= i < j < |visited| ==> visited[i] < visited[j]
      ensures forall c <- old(connList) :: Swept(StatusOf(c), old(c.Life()), c.sock, visited, turns, now)
    {
      hide ValidBut, Lives, TurnOf, AsyncConn.Life, Bears, RevTestFd, Fate, SweptTo, Undisturbed;
      LivesOf();
      SocketsInRange();
      ghost var was := Lives();
      visited := [];
      var it := poll.Begin();
      AtFirst(it, turns, now);
      while it != poll.lastSock + 1
        invariant Valid() && nowTreating == null && OnlyOldLeave()
        invariant 0 <= it <= poll.lastSock + 1 && old(poll.lastSock) <= poll.lastSock <= maxSock
        invariant Progress(was, it, visited, turns, now)
        invariant forall i, j :: 0 <= i < j < |visited| ==> visited[i] < visited[j]
        invariant visited != [] ==> visited[|visited| - 1] < it
        decreases maxSock + 1 - it
      {
        ghost var before := visited;
        visited := visited + [it];
        it := SweepOnce(it, turns, now, was, before);
        SocketsInRange();
      }
      forall c | c in old(connList) ensures Swept(StatusOf(c), old(c.Life()), c.sock, visited, turns, now) {
        AtLast(StatusOf(c), was[c], c.sock, it, visited, turns, now);
      }
    }

    /** What the sweep has done to a connection that was there when it began. */
    ghost predicate Swept(x: Status, v: Life, sock: int, visited: seq<int>, turns: int -> Turn, now: int) {
      && (x.listed <==> !x.freed)
      && (RevTestFd(v.st.h.s.entry) ==> sock in visited)
      && (sock !in visited ==> x.listed && Bears(v, x.life))
      && (!v.st.h.s.ok ==> x.freed)
      && (Undisturbed(turns, sock) ==> Fate(x, v, sock, turns(sock), now))
    }

    lemma AtFirst(it: int, turns: int -> Turn, now: int)
      requires Valid() && nowTreating == null && it >= 0
      requires forall s :: 0 <= s < it && s < |poll.fds| ==> !RevTestFd(poll.fds[s])
      requires it <= poll.lastSock ==> poll.RevTest(it)
      ensures Progress(Lives(), it, [], turns, now)
    {
      hide InStep, Service.Sound, TurnOf, Undisturbed;
      forall c | c in connList ensures SweptTo(StatusOf(c), c.Life(), c.sock, it, [], turns, now) {
        assert Seated(c);
      }
    }

    lemma AtLast(x: Status, v: Life, sock: int, it: int, visited: seq<int>, turns: int -> Turn, now: int)
      requires SweptTo(x, v, sock, it, visited, turns, now) && sock < it
      requires !v.st.h.s.ok ==> RevTestFd(v.st.h.s.entry)
      ensures Swept(x, v, sock, visited, turns, now)
    {
      hide TurnOf, Fate, RevTestFd;
    }

    lemma SocketsInRange()
      requires Valid() && nowTreating == null
      ensures 0 <= poll.lastSock <= maxSock
      ensures forall d <- connList :: d.sock <= poll.lastSock && (!d.ok ==> RevTestFd(d.Entry()))
    {
      forall d | d in connList ensures d.sock <= poll.lastSock && (!d.ok ==> RevTestFd(d.Entry())) {
        assert Seated(d);
        if !d.ok {
          DeadIsFound(d);
        }
      }
    }

    // ---- the main loop ----

    method Choose(report: seq<Events>) returns (any: bool)
      requires Valid() && nowTreating == null
      requires |report| == |poll.fds| && forall s :: 0 <= s < |report| ==> PollReports(poll.fds[s], report[s])
      requires forall l <- listList :: !report[l.sock].err
      modifies poll`fds
      ensures Valid()
      ensures any <==> exists s :: 0 <= s < |report| && report[s] != NO_EVENTS
      ensures forall c <- connList :: 0 <= c.sock < |report| && c.Life() == Heard(old(c.Life()), report[c.sock])
    {
      hide InStep, Output.Fifo;
      var n := poll.Choose(report);
      Reported();
      EntriesOf();
      any := n != 0;
    }

    /** The report of poll() does not touch what the invariant is about. */
    twostate lemma Reported()
      requires old(Valid()) && unchanged(this) && unchanged(poll`connList, poll`lastSock)
      requires (forall c <- connList :: unchanged(c)) && (forall l <- listList :: unchanged(l))
      requires |poll.fds| == |old(poll.fds)|
      requires forall s :: 0 <= s < |poll.fds| ==>
                 && poll.fds[s] == old(poll.fds)[s].(revents := poll.fds[s].revents)
                 && PollReports(old(poll.fds)[s], poll.fds[s].revents)
      requires forall l <- listList :: !poll.fds[l.sock].revents.err
      requires nowTreating == null
      ensures Valid()
    {
      hide Frame, ReceiveAll;
      forall c | c in connList ensures Seated(c) && Sound(c) && Settled(c) {
        assert old(Seated(c)) && old(Sound(c)) && old(Settled(c));
        assert c.Life() == Heard(old(c.Life()), c.Entry().revents);
      }
    }

    /** One turn of the main loop. If poll() reports nothing, nothing happens at all, not even to
        connections that are already dead. Otherwise there is a sweep. In any case the invariant
        is kept: `Distinct(freed)` says that no connection is ever freed twice, and `InStep` that
        every connection has been handed exactly the messages of its stream for as long as it is
        served. */
    method TimeStep(report: seq<Events>, turns: int -> Turn, now: int) returns (swept: bool, ghost visited: seq<int>)
      requires Valid() && nowTreating == null
      requires |report| == |poll.fds| && forall s :: 0 <= s < |report| ==> PollReports(poll.fds[s], report[s])
      requires forall l <- listList :: !report[l.sock].err
      modifies this`connList, this`freed, this`nowTreating, poll, msBuffer, connList
      ensures Valid() && nowTreating == null && OnlyOldLeave()
      ensures swept <==> exists s :: 0 <= s < |report| && report[s] != NO_EVENTS
      ensures !swept ==> connList == old(connList) && freed == old(freed) && forall c <- connList :: unchanged(c)
      ensures forall i, j :: 0 <= i < j < |visited| ==> visited[i] < visited[j]
      ensures swept ==> forall c <- old(connList) ::
                0 <= c.sock < |report| && Swept(StatusOf(c), Heard(old(c.Life()), report[c.sock]), c.sock, visited, turns, now)
    {
      hide ValidBut, Swept, AsyncConn.Life;
      visited := [];
      swept := Choose(report);
      if swept {
        visited := Sweep(turns, now);
      }
    }

    // ---- what this means for one connection ----

    /** Whatever happened to a connection in any number of turns: unless a handler, its output or
        its peer has ended the service, it is served exactly if none of its reads ended inside
        an overlong line, and then has been handed exactly the messages it has sent. */
    lemma ServedExactly(c: AsyncConn)
      requires Valid() && nowTreating == null && c in connList && c.ending == Running
      ensures c.ok && c.writable <==> NoLongTail("", maxLineLength, c.received)
      ensures c.ok && c.writable ==> Framed(c.delivered, c.PendingLine()) == Frame("", Concat(c.received))
    {
      assert Settled(c);
      ServedUntilEnded(maxLineLength, c.Life());
    }

    /** A sweep delivers: a served connection that no other turn aims at, whose read brings bytes
        that end in no overlong line, and whose own handlers and output leave it served, is still
        listed and served after the sweep, and has been handed all messages its bytes complete. */
    lemma SweepDelivers(x: Status, v: Life, sock: int, turn: Turn, now: int, bytes: string)
      requires Fate(x, v, sock, turn, now) && v.st.Serving() && RevTestFd(v.st.h.s.entry)
      requires var activity := RevGetFd(v.st.h.s.entry, sock);
               var site := Site(limits, sock, true, now);
               var f := Frame(v.line, bytes);
               var st := Handled(site, v.st, Flat(turn.scripts, |f.msgs|));
               && activity.input && !activity.error && !activity.close
               && ReadOf(turn.recvs, readTries) == Data(bytes) && |f.tail| <= maxLineLength
               && st.Serving() && (activity.output ==> Flushed(site, st, turn.says).Serving())
      ensures var f := Frame(v.line, bytes);
              && x.listed && !x.freed && x.life.st.Serving()
              && x.life.received == v.received + [bytes]
              && x.life.delivered == v.delivered + f.msgs && x.life.line == f.tail
    {
      hide Frame, Handled, ReadOf, Flushed, InputTurn, RevTestFd;
      InputServes(Site(limits, sock, true, now), maxLineLength, readTries, v, turn);
    }

    /** A sweep drains: a live connection that no other turn aims at, and that is only ready for
        output, hands its socket in one turn as much of what is pending as the socket takes, in
        order. With all of it sent it stays, with nothing pending and its output no longer
        watched, unless it was closing nicely: then it is freed. With a part sent it stays and
        keeps the rest if the socket was only busy; with nothing sent, only if it was not closing
        nicely. On any other error it is freed. */
    lemma SweepDrains(x: Status, v: Life, sock: int, turn: Turn, now: int)
      requires Fate(x, v, sock, turn, now) && sock >= 0 && Output.Fifo(limits, sock, v.st.h) && v.st.h.s.ok
      requires RevTestFd(v.st.h.s.entry) && RevGetFd(v.st.h.s.entry, sock) == Mask(false, true, false, false)
      requires v.st.h.s.Pending() != ""
      ensures var all := v.st.h.s.Pending();
              var n := Sent(turn.says.sends, 0, |all|);
              && (x.freed <==> !x.listed)
              && (x.listed <==> if n == |all| then v.st.h.s.closeAfter == 0
                                else turn.says.again && (n > 0 || v.st.h.s.closeAfter == 0))
              && (x.listed ==>
                    && x.life.st.h.s.ok && x.life.st.h.s.Pending() == all[n..] && x.life.st.h.taken == v.st.h.taken + all[..n]
                    && (x.life.st.h.s.entry.events.out <==> n < |all|))
              && x.life.received == v.received && x.life.delivered == v.delivered
    {
      hide Flushed, InputTurn, RevTestFd, Sent, Output.Fifo;
      FlushedDrains(Site(limits, sock, true, now), v.st, turn.says);
    }

    /** With input that is served, what the handlers of its messages have left pending is drained
        in the same turn. */
    lemma SweepServesAndDrains(x: Status, v: Life, sock: int, turn: Turn, now: int, bytes: string)
      requires Fate(x, v, sock, turn, now) && sock >= 0 && Output.Fifo(limits, sock, v.st.h) && v.st.Serving()
      requires RevTestFd(v.st.h.s.entry) && RevGetFd(v.st.h.s.entry, sock) == Mask(true, true, false, false)
      requires var f := Frame(v.line, bytes);
               var st := Handled(Site(limits, sock, true, now), v.st, Flat(turn.scripts, |f.msgs|));
               && ReadOf(turn.recvs, readTries) == Data(bytes) && |f.tail| <= maxLineLength
               && st.Serving() && st.h.s.closeAfter == 0
      ensures var f := Frame(v.line, bytes);
              var st := Handled(Site(limits, sock, true, now), v.st, Flat(turn.scripts, |f.msgs|));
              var all := st.h.s.Pending();
              var n := Sent(turn.says.sends, 0, |all|);
              && (x.listed <==> n == |all| || turn.says.again)
              && x.life.received == v.received + [bytes] && x.life.delivered == v.delivered + f.msgs
              && (x.listed ==>
                    && x.life.st.Serving() && x.life.line == f.tail
                    && x.life.st.h.s.Pending() == all[n..] && x.life.st.h.taken == st.h.taken + all[..n]
                    && (all != "" ==> (x.life.st.h.s.entry.events.out <==> n < |all|)))
    {
      hide Frame, Handled, ReadOf, Flushed, InputTurn, RevTestFd, Sent, Output.Fifo;
      var site := Site(limits, sock, true, now);
      var st := Handled(site, v.st, Flat(turn.scripts, |Frame(v.line, bytes).msgs|));
      InputServes(site, maxLineLength, readTries, v, turn);
      HandledSound(site, v.st, Flat(turn.scripts, |Frame(v.line, bytes).msgs|));
      FlushedDrains(site, st, turn.says);
    }

    /** A sweep reaps: a connection that no other turn aims at is freed if an error or a close is
        reported for it, and so is one that has become unable to be served, when its input is
        ready: it is closing nicely, or its read brings no bytes. */
    lemma SweepReaps(x: Status, v: Life, sock: int, turn: Turn, now: int)
      requires Fate(x, v, sock, turn, now) && RevTestFd(v.st.h.s.entry)
      requires var activity := RevGetFd(v.st.h.s.entry, sock);
               activity.error || activity.close || !v.st.h.s.ok
               || (activity.input && (!v.st.Serving() || !ReadOf(turn.recvs, readTries).Data?))
      ensures x.freed && !x.listed
      ensures var activity := RevGetFd(v.st.h.s.entry, sock);
              v.st.Serving() && !activity.input && !activity.output ==>
                x.life.st.ending == ByPeer && x.life.received == v.received && x.life.delivered == v.delivered
    {
      hide Flushed, InputTurn, RevTestFd, ReadOf;
      if v.st.h.s.ok {
        InputEnds(Site(limits, sock, true, now), maxLineLength, readTries, v, turn);
      }
    }
  }
}
