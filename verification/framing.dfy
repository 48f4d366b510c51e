/** Cutting a byte stream into messages. `Frame` reads one character at a time; `Receive`
    adds the length limit that the connection applies when a read ends inside a line. */
module Framing {
  const SEPARATOR: char := '|'

  datatype Framed = Framed(msgs: seq<string>, tail: string)

  function Frame(line: string, chunk: string): Framed
    decreases |chunk|
  {
    if chunk == [] then
      Framed([], line)
    else if chunk[0] == SEPARATOR then
      var rest := Frame("", chunk[1..]);
      Framed([line] + rest.msgs, rest.tail)
    else
      Frame(line + [chunk[0]], chunk[1..])
  }

  /** A stretch without a separator only lengthens the pending line. */
  lemma {:induction false} FrameStretch(line: string, a: string, b: string)
    requires SEPARATOR !in a
    ensures Frame(line, a + b) == Frame(line + a, b)
    decreases |a|
  {
    if a == [] {
      assert a + b == b && line + a == line;
    } else {
      assert a[0] in a;
      assert (a + b)[1..] == a[1..] + b;
      FrameStretch(line + [a[0]], a[1..], b);
      assert line + [a[0]] + a[1..] == line + a;
    }
  }

  /** Framing does not see how the stream was cut. */
  lemma {:induction false} FrameOfConcat(line: string, a: string, b: string)
    ensures var fa := Frame(line, a);
            var fb := Frame(fa.tail, b);
            Frame(line, a + b) == Framed(fa.msgs + fb.msgs, fb.tail)
    decreases |a|
  {
    if a == [] {
      assert a + b == b;
      assert [] + Frame(line, b).msgs == Frame(line, b).msgs;
    } else {
      assert (a + b)[1..] == a[1..] + b;
      if a[0] == SEPARATOR {
        FrameOfConcat("", a[1..], b);
        var f1 := Frame("", a[1..]);
        assert [line] + (f1.msgs + Frame(f1.tail, b).msgs) == [line] + f1.msgs + Frame(f1.tail, b).msgs;
      } else {
        FrameOfConcat(line + [a[0]], a[1..], b);
      }
    }
  }

  function Prepend(msg: string, f: Framed): Framed {
    Framed([msg] + f.msgs, f.tail)
  }

  /** Taking the buffer up to its first separator completes exactly the next message. */
  lemma FrameToSeparator(line: string, rest: string, k: nat)
    requires k < |rest| && SEPARATOR !in rest[..k] && rest[k] == SEPARATOR
    ensures Frame(line, rest) == Prepend(line + rest[..k], Frame("", rest[k + 1..]))
  {
    FrameStretch(line, rest[..k], rest[k..]);
    assert rest[..k] + rest[k..] == rest && rest[k..][1..] == rest[k + 1..];
  }

  lemma FrameToEnd(line: string, rest: string)
    requires SEPARATOR !in rest
    ensures Frame(line, rest) == Framed([], line + rest)
  {
    FrameStretch(line, rest, "");
    assert rest + "" == rest;
  }

  lemma NextOf(f: Framed, k: nat, msg: string, g: Framed)
    requires k <= |f.msgs| && Framed(f.msgs[k..], f.tail) == Prepend(msg, g)
    ensures k < |f.msgs| && f.msgs[..k] + [msg] == f.msgs[..k + 1] && g == Framed(f.msgs[k + 1..], f.tail)
  {
    assert f.msgs[k..][0] == msg && f.msgs[k..][1..] == f.msgs[k + 1..] == g.msgs;
  }

  // ---- Frame is the split of the stream on the separator, and the only one ----

  function Join(f: Framed): string
    decreases |f.msgs|
  {
    if f.msgs == [] then f.tail
    else f.msgs[0] + [SEPARATOR] + Join(Framed(f.msgs[1..], f.tail))
  }

  predicate Separated(f: Framed) {
    SEPARATOR !in f.tail && forall m <- f.msgs :: SEPARATOR !in m
  }

  lemma {:induction false} FrameIsSplit(line: string, chunk: string)
    requires SEPARATOR !in line
    ensures Separated(Frame(line, chunk))
    ensures Join(Frame(line, chunk)) == line + chunk
    decreases |chunk|
  {
    if chunk != [] {
      if chunk[0] == SEPARATOR {
        var rest := Frame("", chunk[1..]);
        FrameIsSplit("", chunk[1..]);
        assert ([line] + rest.msgs)[1..] == rest.msgs;
        assert chunk == [SEPARATOR] + chunk[1..];
      } else {
        FrameIsSplit(line + [chunk[0]], chunk[1..]);
        assert line + chunk == line + [chunk[0]] + chunk[1..];
      }
    }
  }

  lemma {:induction false} SplitIsUnique(f: Framed)
    requires Separated(f)
    ensures Frame("", Join(f)) == f
    decreases |f.msgs|
  {
    if f.msgs == [] {
      FrameStretch("", f.tail, "");
      assert f.tail + "" == f.tail && "" + f.tail == f.tail;
    } else {
      var m, rest := f.msgs[0], Framed(f.msgs[1..], f.tail);
      assert m in f.msgs;
      SplitIsUnique(rest);
      var after := [SEPARATOR] + Join(rest);
      FrameStretch("", m, after);
      assert m + after == Join(f) && "" + m == m;
      assert after[1..] == Join(rest);
      assert [m] + rest.msgs == f.msgs;
    }
  }

  /** Messages end at pipes. */
  lemma PipeEnds(m: string, tail: string)
    requires '|' !in m && '|' !in tail
    ensures Frame("", m + "|" + tail) == Framed([m], tail)
  {
    var f := Framed([m], tail);
    assert f.msgs[1..] == [] && Join(f) == m + "|" + tail by {
      assert Join(Framed([], tail)) == tail && m + ([SEPARATOR] + tail) == m + "|" + tail;
    }
    SplitIsUnique(f);
  }

  // ---- runs of reads with the length limit ----

  datatype Reader = Reader(ok: bool, line: string, delivered: seq<string>)

  const NEW_READER := Reader(true, "", [])

  /** One read through `input`, when no handler closes: all complete messages are handed on;
      the unfinished line is kept, or closes the connection when it is too long. */
  function Receive(r: Reader, max: nat, chunk: string): Reader {
    if !r.ok then r
    else
      var f := Frame(r.line, chunk);
      Reader(|f.tail| <= max, f.tail, r.delivered + f.msgs)
  }

  function ReceiveAll(r: Reader, max: nat, chunks: seq<string>): Reader
    decreases |chunks|
  {
    if chunks == [] then r else ReceiveAll(Receive(r, max, chunks[0]), max, chunks[1..])
  }

  function Concat(chunks: seq<string>): string {
    if chunks == [] then "" else chunks[0] + Concat(chunks[1..])
  }

  /** No read ends inside a line that is longer than the limit. */
  predicate NoLongTail(line: string, max: nat, chunks: seq<string>)
    decreases |chunks|
  {
    chunks == [] ||
    var t := Frame(line, chunks[0]).tail;
    |t| <= max && NoLongTail(t, max, chunks[1..])
  }

  /** Exactly when a run of reads survives, and what it has delivered: the split of the whole
      stream when it survives, a part of it in order when it is cut off. */
  lemma {:induction false} RunOfReads(r: Reader, max: nat, chunks: seq<string>)
    requires r.ok
    ensures var f := Frame(r.line, Concat(chunks));
            var e := ReceiveAll(r, max, chunks);
            && (e.ok <==> NoLongTail(r.line, max, chunks))
            && (e.ok ==> e == Reader(true, f.tail, r.delivered + f.msgs))
            && e.delivered <= r.delivered + f.msgs
    decreases |chunks|
  {
    if chunks == [] {
      assert r.delivered + [] == r.delivered;
    } else {
      var c, cs := chunks[0], chunks[1..];
      var f := Frame(r.line, c);
      var next := Receive(r, max, c);
      FrameOfConcat(r.line, c, Concat(cs));
      assert r.delivered + f.msgs + Frame(f.tail, Concat(cs)).msgs == r.delivered + (f.msgs + Frame(f.tail, Concat(cs)).msgs);
      if next.ok {
        RunOfReads(next, max, cs);
      } else {
        ClosedStays(next, max, cs);
      }
    }
  }

  lemma {:induction false} ClosedStays(r: Reader, max: nat, chunks: seq<string>)
    requires !r.ok
    ensures ReceiveAll(r, max, chunks) == r
    decreases |chunks|
  {
    if chunks != [] {
      ClosedStays(r, max, chunks[1..]);
    }
  }

  predicate SegmentsWithin(f: Framed, max: nat) {
    |f.tail| <= max && forall m <- f.msgs :: |m| <= max
  }

  lemma {:induction false} SegmentsContainPending(line: string, chunk: string, max: nat)
    requires SegmentsWithin(Frame(line, chunk), max)
    ensures |line| <= max
    decreases |chunk|
  {
    if chunk != [] {
      if chunk[0] == SEPARATOR {
        assert Frame(line, chunk).msgs[0] == line;
      } else {
        SegmentsContainPending(line + [chunk[0]], chunk[1..], max);
      }
    }
  }

  lemma {:induction false} ShortSegmentsShortTails(line: string, max: nat, chunks: seq<string>)
    requires SegmentsWithin(Frame(line, Concat(chunks)), max)
    ensures NoLongTail(line, max, chunks)
    decreases |chunks|
  {
    if chunks != [] {
      var f := Frame(line, chunks[0]);
      var g := Frame(f.tail, Concat(chunks[1..]));
      FrameOfConcat(line, chunks[0], Concat(chunks[1..]));
      forall m | m in g.msgs ensures |m| <= max {
        assert m in f.msgs + g.msgs;
      }
      SegmentsContainPending(f.tail, Concat(chunks[1..]), max);
      ShortSegmentsShortTails(f.tail, max, chunks[1..]);
    }
  }

  /** The framing law: when every segment of the stream and its unfinished tail respect the
      limit, the way the stream is cut into reads does not matter. */
  lemma AnyCutDelivers(max: nat, chunks: seq<string>)
    requires SegmentsWithin(Frame("", Concat(chunks)), max)
    ensures var f := Frame("", Concat(chunks));
            ReceiveAll(NEW_READER, max, chunks) == Reader(true, f.tail, f.msgs)
  {
    ShortSegmentsShortTails("", max, chunks);
    RunOfReads(NEW_READER, max, chunks);
    assert [] + Frame("", Concat(chunks)).msgs == Frame("", Concat(chunks)).msgs;
  }

  /** The limit alone does not decide: a message above it is delivered when its separator
      arrives in the same read, and closes the connection when it comes one read later. */
  lemma OverlongDependsOnTheCut(max: nat, m: string)
    requires SEPARATOR !in m && |m| > max
    ensures ReceiveAll(NEW_READER, max, [m + [SEPARATOR]]) == Reader(true, "", [m])
    ensures !ReceiveAll(NEW_READER, max, [m, [SEPARATOR]]).ok
  {
    FrameStretch("", m, [SEPARATOR]);
    assert "" + m == m;
    var one, two := [m + [SEPARATOR]], [m, [SEPARATOR]];
    assert one[1..] == [] && Concat(one) == one[0] + "" == one[0];
    RunOfReads(NEW_READER, max, one);
    FrameStretch("", m, "");
    assert m + "" == m && two[0] == m;
    RunOfReads(NEW_READER, max, two);
  }
}
