/** The connection chooser over poll(): a table of connections and a table of poll
    entries, both indexed by socket descriptor. The six poll bits are only ever set,
    cleared and read in three groups, so an event word is three booleans. */
module ConnPoll {
  import opened Wrappers

  /** A chooser mask: eCC_INPUT, eCC_OUTPUT, eCC_ERROR, eCC_CLOSE. */
  datatype Mask = Mask(input: bool, output: bool, error: bool, close: bool)

  const CC_NONE := Mask(false, false, false, false)
  const CC_INPUT := Mask(true, false, false, false)
  const CC_OUTPUT := Mask(false, true, false, false)
  const CC_ERROR := Mask(false, false, true, false)
  const CC_CLOSE := Mask(false, false, false, true)
  const CC_ALL := Mask(true, true, true, false)

  /** The events word: POLLIN | POLLPRI, POLLOUT, POLLERR | POLLHUP | POLLNVAL. */
  datatype Events = Events(inp: bool, out: bool, err: bool) {
    function Or(e: Events): Events { Events(inp || e.inp, out || e.out, err || e.err) }
    function And(e: Events): Events { Events(inp && e.inp, out && e.out, err && e.err) }
    predicate Any() { inp || out || err }

    function AsMask(): Mask { Mask(inp, out, err, false) }
  }

  const NO_EVENTS := Events(false, false, false)
  const EVERY_EVENT := Events(true, true, true)

  const INVALID_SOCKET: int := -1

  datatype PollFd = PollFd(fd: int, events: Events, revents: Events) {
    /** The close mark: the entry names its descriptor and asks for no event. */
    predicate Marked(sock: int) {
      fd == sock && !events.Any()
    }

    /** The entry of a live connection: it asks at least for errors. */
    predicate Watched(sock: int) {
      fd == sock && events.err
    }
  }

  const RESET_FD := PollFd(INVALID_SOCKET, NO_EVENTS, NO_EVENTS)

  function OptInFd(p: PollFd, sock: int, mask: Mask): PollFd {
    var fd := if !p.events.Any() && mask != CC_NONE then sock else p.fd;
    if mask.close then
      PollFd(fd, NO_EVENTS, p.revents)
    else
      var e1 := if mask.input then Events(true, false, false) else p.events;
      var e2 := if mask.output then e1.(out := true) else e1;
      var e3 := if mask.error then e2.(err := true) else e2;
      PollFd(fd, p.events.Or(e3), p.revents)
  }

  function OptOutFd(p: PollFd, mask: Mask): PollFd {
    var left := p.events.And(Events(!mask.input, !mask.output, !mask.error));
    if left.Any() then p.(events := left) else RESET_FD
  }

  function OptGetFd(p: PollFd, sock: int): Mask {
    if p.Marked(sock) then CC_CLOSE else p.events.AsMask()
  }

  function RevGetFd(p: PollFd, sock: int): Mask {
    p.revents.AsMask().(close := p.Marked(sock))
  }

  predicate RevTestFd(p: PollFd) {
    p.fd != INVALID_SOCKET && (!p.events.Any() || p.revents.Any())
  }

  // ---- what the masks mean ----

  /** Opting in adds exactly the requested events to what is watched, unless the slot was
      close-marked: then the mark is lost. */
  lemma OptInAdds(p: PollFd, sock: int, mask: Mask)
    requires mask != CC_NONE && !mask.close
    ensures var was, now := OptGetFd(p, sock), OptGetFd(OptInFd(p, sock, mask), sock);
            now == Mask(was.input || mask.input, was.output || mask.output, was.error || mask.error, false)
    ensures OptInFd(p, sock, mask).revents == p.revents
  {
  }

  /** Opting out undoes opting in: of a live entry exactly the named events go, and an entry
      left with no event is free again, never close-marked. */
  lemma OptOutRemoves(p: PollFd, sock: int, mask: Mask)
    requires sock >= 0
    ensures var was, now := OptGetFd(p, sock), OptGetFd(OptOutFd(p, mask), sock);
            now == Mask(was.input && !mask.input, was.output && !mask.output, was.error && !mask.error, false)
    ensures OptOutFd(p, CC_ALL) == RESET_FD
  {
  }

  /** What the sweep finds to treat: every close-marked entry, and of a watched one whatever
      poll() has reported; a free entry is passed over. */
  lemma SweepFinds(p: PollFd, sock: int)
    requires sock >= 0
    ensures !RevTestFd(RESET_FD)
    ensures p.Marked(sock) ==> RevTestFd(p) && RevGetFd(p, sock).close
    ensures p.Watched(sock) ==>
              && (RevTestFd(p) <==> p.revents != NO_EVENTS)
              && RevGetFd(p, sock) == Mask(p.revents.inp, p.revents.out, p.revents.err, false)
  {
  }

  /** The two calls of CloseNow leave the mark in every entry, and a marked entry passes the
      sweep's test whatever poll() reports for it. */
  lemma CloseNowMarks(p: PollFd, sock: int, report: Events)
    requires sock >= 0
    ensures var q := OptInFd(OptOutFd(p, CC_ALL), sock, CC_CLOSE).(revents := report);
            q.Marked(sock) && OptGetFd(q, sock) == CC_CLOSE && RevTestFd(q) && RevGetFd(q, sock).close
  {
  }

  /** Growing a table to sock + sock / 4 entries makes room for index sock exactly from
      descriptor 4 upwards. */
  lemma ResizeCovers(sock: int)
    requires sock >= 0
    ensures sock < sock + sock / 4 <==> sock >= 4
  {
  }

  function Resized<T>(s: seq<T>, n: nat, fill: T): (r: seq<T>)
    ensures |r| == n
    ensures forall i :: 0 <= i < n ==> r[i] == if i < |s| then s[i] else fill
  {
    if n <= |s| then s[..n] else s + seq(n - |s|, _ => fill)
  }

  /** What poll() may report for an entry: nothing for a negative descriptor, otherwise only
      requested events and the error bits. */
  predicate PollReports(p: PollFd, revents: Events) {
    if p.fd < 0 then revents == NO_EVENTS else (revents.inp ==> p.events.inp) && (revents.out ==> p.events.out)
  }

  class ConnPoll<C(==)> {
    var connList: seq<Option<C>>
    var fds: seq<PollFd>
    var lastSock: int

    ghost predicate Valid()
      reads this
    {
      && 0 <= lastSock
      && (forall s :: 0 <= s < |connList| && connList[s].Some? ==> s <= lastSock < |fds|)
    }

    constructor ()
      ensures Valid() && connList == [] && fds == [] && lastSock == 0
    {
      connList, fds, lastSock := [], [], 0;
    }

    predicate Holds(sock: int, conn: C)
      reads this`connList
    {
      0 <= sock < |connList| && connList[sock] == Some(conn)
    }

    function At(sock: int): Option<C>
      reads this`connList
    {
      if 0 <= sock < |connList| then connList[sock] else None
    }

    function RevGet(sock: int): Mask
      reads this`fds
    {
      if 0 <= sock < |fds| then RevGetFd(fds[sock], sock) else CC_NONE
    }

    predicate RevTest(sock: int)
      reads this`fds
    {
      0 <= sock < |fds| && RevTestFd(fds[sock])
    }

    method OptIn(sock: int, mask: Mask)
      requires sock >= 0
      modifies this`fds
      ensures fds == if sock < |old(fds)| then old(fds)[sock := OptInFd(old(fds)[sock], sock, mask)] else old(fds)
    {
      if |fds| <= sock {
        return;
      }
      var entry := fds[sock];
      var event := entry.events;
      if !event.Any() && mask != CC_NONE {
        entry := entry.(fd := sock);
      }
      if mask.close {
        entry := entry.(events := NO_EVENTS);
      } else {
        if mask.input {
          event := Events(true, false, false);
        }
        if mask.output {
          event := event.(out := true);
        }
        if mask.error {
          event := event.(err := true);
        }
        entry := entry.(events := entry.events.Or(event));
      }
      fds := fds[sock := entry];
    }

    method OptOut(sock: int, mask: Mask)
      requires sock >= 0
      modifies this`fds
      ensures fds == if sock < |old(fds)| then old(fds)[sock := OptOutFd(old(fds)[sock], mask)] else old(fds)
    {
      if |fds| <= sock {
        return;
      }
      var event := EVERY_EVENT;
      if mask.input {
        event := event.(inp := false);
      }
      if mask.output {
        event := event.(out := false);
      }
      if mask.error {
        event := event.(err := false);
      }
      var entry := fds[sock].(events := fds[sock].events.And(event));
      if !entry.events.Any() {
        entry := RESET_FD;
      }
      fds := fds[sock := entry];
    }

    /** Growing both tables by a quarter makes room for this descriptor. */
    predicate MakesRoom(sock: int)
      reads this`lastSock, this`fds
    {
      var top := if sock > lastSock then sock else lastSock;
      top < |fds| || 4 <= top
    }

    /** A slot is taken only when it is free, and taking it leaves every other slot and every
        existing poll entry alone. Below descriptor 4 it can happen that a slot is taken and
        there is still no poll entry for it. */
    method AddConn(conn: C, sock: int) returns (added: bool)
      requires Valid() && sock >= 0 && (sock < |connList| || 4 <= sock)
      modifies this
      ensures added == old(At(sock)).None?
      ensures forall s :: At(s) == if s == sock && added then Some(conn) else old(At(s))
      ensures |connList| == if sock < |old(connList)| then |old(connList)| else sock + sock / 4
      ensures |fds| == if !added || lastSock < |old(fds)| then |old(fds)| else lastSock + lastSock / 4
      ensures |old(fds)| <= |fds| && forall s :: 0 <= s < |fds| ==> fds[s] == if s < |old(fds)| then old(fds)[s] else RESET_FD
      ensures lastSock == if added && sock > old(lastSock) then sock else old(lastSock)
      ensures !added || old(MakesRoom(sock)) ==> Valid()
      ensures added ==> (sock <= lastSock < |fds| <==> old(MakesRoom(sock)))
    {
      ResizeCovers(sock);
      if |connList| <= sock {
        connList := Resized(connList, sock + sock / 4, None);
      }
      if connList[sock].Some? {
        return false;
      }
      if sock > lastSock {
        lastSock := sock;
      }
      connList := connList[sock := Some(conn)];
      if lastSock >= |fds| {
        ResizeCovers(lastSock);
        fds := Resized(fds, lastSock + lastSock / 4, RESET_FD);
      }
      return true;
    }

    /** Leaving the table clears the slot and the poll entry together. */
    method DelConn(sock: int) returns (removed: bool)
      requires Valid() && sock >= 0
      modifies this`connList, this`fds
      ensures Valid()
      ensures removed == old(At(sock)).Some?
      ensures |connList| == |old(connList)| && forall s :: At(s) == if s == sock then None else old(At(s))
      ensures fds == if removed then old(fds)[sock := RESET_FD] else old(fds)
      ensures !removed ==> connList == old(connList)
    {
      if |connList| <= sock || connList[sock].None? {
        return false;
      }
      OptOut(sock, CC_ALL);
      OptOut(sock, CC_CLOSE);
      connList := connList[sock := None];
      return true;
    }

    /** The sweep's iterator: from a descriptor to the next one that has something to treat. */
    method Next(sock: int) returns (next: int)
      requires -1 <= sock <= lastSock
      ensures sock < next <= lastSock + 1
      ensures forall s :: sock < s < next && s < |fds| ==> !RevTestFd(fds[s])
      ensures next <= lastSock ==> RevTest(next)
    {
      next := sock + 1;
      while next <= lastSock && !RevTest(next)
        invariant sock < next <= lastSock + 1
        invariant forall s :: sock < s < next && s < |fds| ==> !RevTestFd(fds[s])
      {
        next := next + 1;
      }
    }

    method Begin() returns (first: int)
      requires 0 <= lastSock
      ensures 0 <= first <= lastSock + 1
      ensures forall s :: 0 <= s < first && s < |fds| ==> !RevTestFd(fds[s])
      ensures first <= lastSock ==> RevTest(first)
    {
      first := 0;
      if !RevTest(0) {
        first := Next(0);
      }
    }

    /** poll() with an arbitrary report: the number of entries reported is what decides whether
        a sweep runs at all. */
    method Choose(report: seq<Events>) returns (n: nat)
      requires Valid() && |report| == |fds|
      requires forall s :: 0 <= s < |fds| ==> PollReports(fds[s], report[s])
      modifies this`fds
      ensures Valid()
      ensures |fds| == |old(fds)| && forall s :: 0 <= s < |fds| ==> fds[s] == old(fds)[s].(revents := report[s])
      ensures n == 0 <==> forall s :: 0 <= s < |report| ==> report[s] == NO_EVENTS
    {
      n := 0;
      var s := 0;
      while s < |fds|
        invariant 0 <= s <= |fds| == |old(fds)|
        invariant forall i :: 0 <= i < |fds| ==> fds[i] == if i < s then old(fds)[i].(revents := report[i]) else old(fds)[i]
        invariant n == 0 <==> forall i :: 0 <= i < s ==> report[i] == NO_EVENTS
      {
        fds := fds[s := fds[s].(revents := report[s])];
        if report[s] != NO_EVENTS {
          n := n + 1;
        }
        s := s + 1;
      }
    }
  }
}
