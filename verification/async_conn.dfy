/** A connection: input framing over the buffer that all connections share, the two output
    buffers, and closing. What recv() and send() answer are parameters. */
module AsyncConns {
  import opened Wrappers
  import opened ConnPoll
  import opened Framing
  import opened Service
  import Output

  datatype LineStatus = NoLine | Partly | LineDone
  datatype ConnType = Listen | Client

  class AsyncConn {
    const poll: ConnPoll<AsyncConn>
    const buffer: array<char>          // shared between all connections
    const limits: Output.Limits
    const sock: int
    const kind: ConnType

    var ok: bool
    var writable: bool

    var bufReadPos: nat
    var bufEnd: nat
    var line: Option<string>
    var lineStatus: LineStatus
    var lineSizeMax: nat
    var separator: char

    var bufSend: string
    var bufFlush: string
    var closeAfter: int

    ghost var taken: string            // bytes the socket has taken
    ghost var accepted: string         // bytes Write has taken on
    ghost var received: seq<string>    // what each read brought in
    ghost var delivered: seq<string>   // messages handed to OnNewMessage
    ghost var ending: Ending           // why it is no longer served

    constructor (poll: ConnPoll<AsyncConn>, buffer: array<char>, limits: Output.Limits, sock: int, kind: ConnType)
      requires buffer.Length == MAX_MESS_SIZE + 1
      ensures this.poll == poll && this.buffer == buffer && this.limits == limits && this.sock == sock && this.kind == kind
      ensures ok == (sock > 0) && writable
      ensures bufSend == "" && bufFlush == "" && closeAfter == 0 && taken == "" && accepted == ""
      ensures LineValid() && bufReadPos == bufEnd == 0 && line == None && lineSizeMax == 0
      ensures received == [] && delivered == [] && ending == Running
    {
      this.poll, this.buffer, this.limits, this.sock, this.kind := poll, buffer, limits, sock, kind;
      ok, writable := sock > 0, true;
      bufReadPos, bufEnd, line, lineStatus, lineSizeMax, separator := 0, 0, None, NoLine, 0, SEPARATOR;
      bufSend, bufFlush, closeAfter := "", "", 0;
      taken, accepted, received, delivered, ending := "", "", [], [], Running;
    }

    // ---- views ----

    /** The poll entry exists: the connection has been added to the chooser. */
    predicate Registered()
      reads this, poll`fds
    {
      0 <= sock < |poll.fds|
    }

    function Entry(): PollFd
      reads this, poll`fds
    {
      if Registered() then poll.fds[sock] else RESET_FD
    }

    function Out(): Output.OutState
      reads this, poll`fds
    {
      Output.OutState(ok, writable, bufSend, bufFlush, closeAfter, Entry())
    }

    ghost function History(): Output.History
      reads this, poll`fds
    {
      Output.History(Out(), accepted, taken)
    }

    ghost function Standing(): (st: Service.Standing)
      reads this, poll`fds
      ensures (st.Serving() <==> ok && writable) && st.h.s.ok == ok && st.ending == ending && st.h.s.entry == Entry()
    {
      Service.Standing(History(), ending)
    }

    ghost function Life(): (v: Service.Life)
      reads this, poll`fds
      ensures v.st == Standing() && v.received == received && v.delivered == delivered && v.st.ending == ending
      ensures v.st.h.s.ok == ok && v.st.h.s.entry == Entry()
    {
      Service.Life(Standing(), received, if ok && writable then PendingLine() else "", delivered)
    }

    /** Between reads a line is either absent or being filled; the buffer has its full size. */
    predicate LineValid()
      reads this
    {
      && buffer.Length == MAX_MESS_SIZE + 1
      && bufReadPos <= bufEnd <= MAX_MESS_SIZE
      && lineStatus != LineDone
      && (lineStatus == NoLine <==> line == None)
      && (lineStatus == Partly ==> separator == SEPARATOR)
    }

    function PendingLine(): string
      reads this`line
    {
      if line.Some? then line.value else ""
    }

    function Unread(): string
      requires bufReadPos <= bufEnd <= buffer.Length
      reads this`bufReadPos, this`bufEnd, buffer
    {
      buffer[bufReadPos..bufEnd]
    }

    predicate Drained()
      reads this`bufReadPos, this`bufEnd
    {
      bufEnd == bufReadPos
    }

    /** What is still to be sent. */
    function Size(): nat
      reads this`bufSend, this`bufFlush
    {
      |bufSend| + |bufFlush|
    }

    /** Keeps account of why the service has ended, if it just did. */
    ghost method Note(was: bool, cause: Ending)
      modifies this`ending
      ensures ending == if was && !(ok && writable) then cause else old(ending)
    {
      if was && !(ok && writable) {
        ending := cause;
      }
    }

    // ---- closing ----

    method CloseNow()
      requires sock >= 0
      modifies this`ok, this`writable, poll`fds
      ensures !ok && !writable
      ensures poll.fds == if sock < |old(poll.fds)|
                          then old(poll.fds)[sock := OptInFd(OptOutFd(old(poll.fds)[sock], CC_ALL), sock, CC_CLOSE)]
                          else old(poll.fds)
      ensures old(Registered()) ==> Out() == Output.Closed(old(Out()), sock)
    {
      writable := false;
      ok := false;
      poll.OptOut(sock, CC_ALL);
      poll.OptIn(sock, CC_CLOSE);
    }

    /** The farewell that may be sent first is a Write of its own. */
    method CloseNice(now: int, msec: int)
      requires Registered()
      modifies this`ok, this`writable, this`closeAfter, poll`fds
      ensures Registered() && OnlyOwnEntry(old(poll.fds))
      ensures Out() == Output.CloseNiceOf(old(Out()), sock, now, msec)
    {
      writable := false;
      if msec <= 0 || (bufFlush == "" && bufSend == "") {
        CloseNow();
        return;
      }
      assert bufSend + bufFlush != "";
      closeAfter := now + 1000 * msec;
    }

    ghost predicate OnlyOwnEntry(before: seq<PollFd>)
      reads this, poll`fds
    {
      |poll.fds| == |before| && forall s :: 0 <= s < |before| && s != sock ==> poll.fds[s] == before[s]
    }

    // ---- reading ----

    /** recv(), again while it fails temporarily, but not for ever. */
    method ReceiveAnswer(recvs: seq<Recv>, tries: nat) returns (answer: Recv)
      ensures ReadOf(recvs, tries) == match answer
        case Fails(_) => Hangup
        case Bytes(data) => if data == "" then Hangup else if LooksLikeTls(data) then TlsHello else Data(data)
      ensures answer.Bytes? ==> |answer.data| <= MAX_MESS_SIZE
    {
      answer := Answer(recvs, 0);
      var i := 0;
      while answer.Fails? && answer.again && i <= tries
        invariant 0 <= i <= tries + 1 && answer == Answer(recvs, i)
        invariant ReadOf(recvs, tries) == ReadFrom(recvs, i, tries + 1 - i)
        decreases tries + 1 - i
      {
        i := i + 1;
        answer := Answer(recvs, i);
      }
    }

    /** The peer is gone, or of no use. */
    method GiveUp()
      requires sock >= 0
      modifies this`ok, this`writable, this`ending, poll`fds
      ensures OnlyOwnEntry(old(poll.fds))
      ensures old(Registered()) ==> Standing() == Stepped(Site(limits, sock, true, 0), old(Standing()), Output.CloseNow, ByPeer)
      ensures !ok && !writable
    {
      hide OptInFd, OptOutFd;
      ghost var was := ok && writable;
      CloseNow();
      Note(was, ByPeer);
    }

    /** Brings one read into the shared buffer, or closes the connection. */
    method ReadAll(recvs: seq<Recv>, tries: nat) returns (n: int, ghost result: ReadResult)
      requires sock >= 0 && LineValid()
      modifies this`ok, this`writable, this`bufReadPos, this`bufEnd, this`received, this`ending, buffer, poll`fds
      ensures LineValid() && OnlyOwnEntry(old(poll.fds))
      ensures result == if old(ok && writable) then ReadOf(recvs, tries) else NotRead
      ensures received == if result.Data? then old(received) + [result.bytes] else old(received)
      ensures result == NotRead ==> n == -1 && unchanged(this) && unchanged(poll) && unchanged(buffer)
      ensures result.Data? ==> n == |result.bytes| == bufEnd > 0 && bufReadPos == 0 && buffer[..bufEnd] == result.bytes
      ensures result.Data? ==> buffer[bufEnd] == 0 as char
      ensures result.Data? ==> ok && writable && ending == old(ending) && poll.fds == old(poll.fds)
      ensures !result.Data? ==> n == -1
      ensures result == Hangup || result == TlsHello ==> !ok && !writable && Drained()
      ensures old(Registered()) && (result == Hangup || result == TlsHello) ==>
                Standing() == Stepped(Site(limits, sock, true, 0), old(Standing()), Output.CloseNow, ByPeer)
    {
      hide Stepped, ReadOf;
      if !ok || !writable {
        return -1, NotRead;
      }
      bufReadPos := 0;
      bufEnd := 0;
      var answer := ReceiveAnswer(recvs, tries);
      if answer.Fails? || answer.data == "" {
        GiveUp();
        return -1, Hangup;
      }
      var data := answer.data;
      var len := |data|;
      forall k | 0 <= k < len {
        buffer[k] := data[k];
      }
      assert buffer[..len] == data;
      if len > 2 && buffer[0] == 0x16 as char && buffer[1] == 0x03 as char {
        GiveUp();
        return -1, TlsHello;
      }
      bufEnd := len;
      received := received + [data];
      buffer[bufEnd] := 0 as char;
      assert buffer[..bufEnd] == data;
      return len, Data(data);
    }

    method SetLineToRead(delim: char, max: nat)
      requires lineStatus == NoLine
      modifies this`line, this`lineStatus, this`lineSizeMax, this`separator
      ensures line == Some("") && lineStatus == Partly && lineSizeMax == max && separator == delim
    {
      lineStatus := Partly;
      lineSizeMax := max;
      line := Some("");
      separator := delim;
    }

    method ClearLine()
      modifies this`line, this`lineStatus, this`lineSizeMax, this`separator
      ensures line == None && lineStatus == NoLine && lineSizeMax == 0 && separator == '\n'
    {
      lineStatus := NoLine;
      lineSizeMax := 0;
      separator := '\n';
      line := None;
    }

    /** Takes from the buffer up to the separator, or everything when there is none. */
    method ReadLineLocal() returns (n: nat)
      requires sock >= 0 && LineValid() && lineStatus == Partly && !Drained() && ok
      modifies this`ok, this`writable, this`bufReadPos, this`bufEnd, this`line, this`lineStatus, poll`fds
      ensures bufReadPos <= bufEnd <= MAX_MESS_SIZE && line.Some? && (lineStatus == LineDone || lineStatus == Partly)
      ensures lineStatus == LineDone ==> ok && Frame(old(line).value, old(Unread())) == Prepend(line.value, Frame("", Unread()))
      ensures lineStatus == Partly ==> Frame(old(line).value, old(Unread())) == Framed([], old(line).value + old(Unread()))
      ensures lineStatus == Partly ==> (ok <==> |old(line).value| + |old(Unread())| <= lineSizeMax)
      ensures lineStatus == Partly && ok ==> Drained() && line.value == old(line).value + old(Unread())
      ensures ok ==> n > 0 && bufEnd - bufReadPos < old(bufEnd) - old(bufReadPos) && poll.fds == old(poll.fds)
      ensures ok ==> n == if lineStatus == LineDone then |line.value| - |old(line).value| + 1 else |old(Unread())|
      ensures ok ==> writable == old(writable)
      ensures !ok ==> line == old(line)
      ensures OnlyOwnEntry(old(poll.fds))
      ensures old(Registered()) && !ok ==> n == 0 && Out() == Output.Closed(old(Out()), sock)
    {
      var len := bufEnd - bufReadPos;
      ghost var rest := Unread();
      ghost var was := line.value;
      var pos := 0;
      while pos < len && buffer[bufReadPos + pos] != separator
        invariant 0 <= pos <= len
        invariant SEPARATOR !in rest[..pos]
      {
        assert rest[..pos + 1] == rest[..pos] + [rest[pos]];
        pos := pos + 1;
      }
      if pos == len {
        assert rest[..pos] == rest;
        FrameToEnd(was, rest);
        if |line.value| + len > lineSizeMax {
          CloseNow();
          return 0;
        }
        line := Some(line.value + buffer[bufReadPos..bufEnd]);
        bufEnd := 0;
        bufReadPos := 0;
        return len;
      }
      assert rest[pos] == SEPARATOR;
      assert buffer[bufReadPos..bufReadPos + pos] == rest[..pos];
      line := Some(line.value + buffer[bufReadPos..bufReadPos + pos]);
      bufReadPos := bufReadPos + pos + 1;
      lineStatus := LineDone;
      FrameToSeparator(was, rest, pos);
      assert Unread() == rest[pos + 1..];
      return pos + 1;
    }

    // ---- writing ----

    /** Offers the bytes until all are taken or an error stops it. */
    method SendAll(buf: string, says: SocketSays) returns (ret: int, total: nat)
      modifies this`taken
      ensures total == Sent(says.sends, 0, |buf|) && taken == old(taken) + buf[..total]
      ensures ret == if total == |buf| then 0 else -1
    {
      total := 0;
      var bytesLeft := |buf|;
      var n, k := 0, 0;
      while total < |buf|
        invariant 0 <= total <= |buf| && bytesLeft == |buf| - total
        invariant taken == old(taken) + buf[..total]
        invariant n != -1
        invariant total + Sent(says.sends, k, bytesLeft) == Sent(says.sends, 0, |buf|)
        decreases |buf| - total
      {
        n := if k < |says.sends| && 1 <= says.sends[k] <= bytesLeft then says.sends[k] else -1;
        if n == -1 {
          break;
        }
        assert buf[..total] + buf[total..total + n] == buf[..total + n];
        taken := taken + buf[total..total + n];
        total := total + n;
        bytesLeft := bytesLeft - n;
        k := k + 1;
      }
      ret := if n == -1 then -1 else 0;
    }

    /** The second half of a write: offers the send buffer, then updates buffers, deadline and
        poll entry according to how that ended. */
    method SendBuffered(says: SocketSays) returns (ret: int)
      requires Registered() && bufFlush == ""
      modifies this`ok, this`writable, this`bufSend, this`taken, poll`fds
      ensures Registered() && OnlyOwnEntry(old(poll.fds))
      ensures var outcome := OutcomeOf(says, |old(bufSend)|);
              && Out() == Output.AfterSend(limits, sock, old(Out()), outcome)
              && taken == old(taken) + old(bufSend)[..outcome.sent]
              && ret == if outcome.end == Output.Hard then -1 else outcome.sent
    {
      hide Sent;
      var bufSize := |bufSend|;
      var sent;
      ret, sent := SendAll(bufSend, says);
      if ret == -1 {
        if !says.again {
          CloseNow();
          return -1;
        }
        if sent > 0 {
          bufSend := bufSend[sent..];
          bufSize := bufSize - sent;
        } else if closeAfter != 0 {
          CloseNow();
        }
        if ok {
          poll.OptIn(sock, CC_OUTPUT);
          if bufSize < limits.unblock {
            poll.OptIn(sock, CC_INPUT);
          } else if bufSize >= limits.outfill {
            poll.OptOut(sock, CC_INPUT);
          }
        }
      } else {
        bufSend := "";
        if closeAfter != 0 {
          CloseNow();
        }
        if ok {
          poll.OptOut(sock, CC_OUTPUT);
        }
      }
      ret := sent;
    }

    /** The whole effect of a write is the step of the output model with the outcome that the
        answers of the socket amount to. */
    method Write(data: string, flushNow: bool, says: SocketSays) returns (ret: int)
      requires Registered()
      modifies this`ok, this`writable, this`bufSend, this`bufFlush, this`taken, this`accepted, poll`fds
      ensures Registered() && OnlyOwnEntry(old(poll.fds))
      ensures History() == Output.WriteStep(limits, sock, old(History()), data, flushNow, OutcomeOf(says, old(Size()) + |data|))
      ensures old(Size()) + |data| > limits.maxBuffer ==> ret == -1
      ensures !Output.Overfills(limits, old(Out()), data) ==>
                ret == if Output.Flushes(limits, old(Out()), data, flushNow) && OutcomeOf(says, old(Size()) + |data|).end == Output.Hard
                       then -1 else |taken| - |old(taken)|
    {
      hide OutcomeOf, Output.AfterSend, OptInFd, OptOutFd;
      ghost var h := History();
      assert h.s.send + h.s.flush + data == h.s.send + (h.s.flush + data);
      assert taken + "" == taken && accepted + "" == accepted;
      var calcSize := Size() + |data|;
      if calcSize > limits.maxBuffer {
        CloseNow();
        return -1;
      }
      accepted := accepted + data;
      ret := WriteOn(data, flushNow, says);
    }

    /** The rest of a write, once there is room for the data. */
    method WriteOn(data: string, flushNow: bool, says: SocketSays) returns (ret: int)
      requires Registered() && Size() + |data| <= limits.maxBuffer
      modifies this`ok, this`writable, this`bufSend, this`bufFlush, this`taken, poll`fds
      ensures Registered() && OnlyOwnEntry(old(poll.fds))
      ensures var o := OutcomeOf(says, old(Size()) + |data|);
              && Out() == Output.Write(limits, sock, old(Out()), data, flushNow, o)
              && taken == old(taken) + Output.TakenBy(limits, old(Out()), data, flushNow, o)
              && ret == if Output.Flushes(limits, old(Out()), data, flushNow) && o.end == Output.Hard then -1 else |taken| - |old(taken)|
    {
      hide OutcomeOf, Output.AfterSend, OptInFd, OptOutFd;
      ghost var before := Out();
      var flushSize, bufSize := |bufFlush|, |bufSend|;
      assert taken + "" == taken;
      if |data| > 0 {
        bufFlush := bufFlush + data;
        flushSize := flushSize + |data|;
      }
      assert bufFlush == before.flush + data;
      bufSize := bufSize + flushSize;
      var flush := flushNow || bufSize > limits.maxBuffer / 2;
      if bufSize == 0 || !flush {
        return 0;
      }
      if flushSize > 0 {
        bufSend := bufSend + bufFlush;
        bufFlush := "";
      }
      assert bufSend == before.send + before.flush + data;
      ret := SendBuffered(says);
    }

    /** A timed flush of both buffers, or nothing when they are empty. */
    method Flush(says: SocketSays)
      requires Registered()
      modifies this`ok, this`writable, this`bufSend, this`bufFlush, this`taken, this`accepted, poll`fds
      ensures Registered() && OnlyOwnEntry(old(poll.fds))
      ensures History() == Output.FlushStep(limits, sock, old(History()), OutcomeOf(says, old(Size())))
    {
      if bufFlush == "" && bufSend == "" {
        return;
      }
      assert bufSend + bufFlush != "";
      var ret := Write("", true, says);
    }

    /** poll() reports room. */
    method WriteOut(says: SocketSays)
      requires Registered() && ok
      modifies this`ok, this`writable, this`bufSend, this`bufFlush, this`taken, this`accepted, this`ending, poll`fds
      ensures Registered() && OnlyOwnEntry(old(poll.fds))
      ensures Standing() == Flushed(Site(limits, sock, true, 0), old(Standing()), says)
    {
      hide OutcomeOf, Output.WriteStep;
      ghost var was := ok && writable;
      Flush(says);
      Note(was, ByOutput);
    }

    method OnTimerBase(now: int, says: SocketSays)
      requires Registered() && ok
      modifies this`ok, this`writable, this`bufSend, this`bufFlush, this`taken, this`accepted, this`ending, poll`fds
      ensures Registered() && OnlyOwnEntry(old(poll.fds))
      ensures Standing() == Ticked(Site(limits, sock, false, now), old(Standing()), says)
    {
      hide OutcomeOf, Output.WriteStep;
      ghost var was := ok && writable;
      if closeAfter != 0 && closeAfter > now {
        CloseNow();
      } else {
        Flush(says);
      }
      Note(was, ByOutput);
    }

    /** One operation of a handler. What is sent is dropped once the connection is not
        writable any more. */
    method Perform(a: Action, treated: bool, now: int)
      requires Registered()
      modifies this`ok, this`writable, this`bufSend, this`bufFlush, this`closeAfter, this`taken, this`accepted, this`ending, poll`fds
      ensures Registered() && OnlyOwnEntry(old(poll.fds))
      ensures Standing() == Performed(Site(limits, sock, treated, now), old(Standing()), a)
    {
      hide OutcomeOf, Output.WriteStep, Output.Closed;
      ghost var was := ok && writable;
      match a
      case Send(data, flush, says) =>
        if writable {
          var ret := Write(data, flush, says);
        }
        Note(was, ByOutput);
      case Nice(msec) =>
        CloseNice(now, msec);
        Note(was, ByHandler);
      case Now =>
        CloseNow();
        Note(was, ByHandler);
      case Drop =>
        if treated {
          ok := false;
        }
        Note(was, ByHandler);
    }
  }
}
