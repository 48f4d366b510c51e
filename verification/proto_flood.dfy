/** Protocol flood control of one connection: a fixed window per message type. */
module ProtoFlood {
  import opened Wrappers

  const TWO32: nat := 0x1_0000_0000

  /** The configuration of one message type. */
  datatype Rule = Rule(period: int, limit: nat, action: nat, reportTime: nat) {
    predicate Active() { period >= 1 && limit >= 1 && action >= 1 }
  }

  /** The counter, window start and last report time of one message type. */
  datatype Slot = Slot(count: nat, time: int, report: int)

  datatype Outcome = Outcome(slot: Slot, drop: bool, reported: bool)

  function Check(s: Slot, r: Rule, now: int): Outcome {
    if r.limit == 0 || r.period == 0 then Outcome(s, false, false)
    else if s.count == 0 then Outcome(Slot(1, now, now - r.reportTime), false, false)
    else
      var dif := now - s.time;
      if dif < 0 || dif > r.period then Outcome(Slot(1, now, s.report), false, false)
      else
        var counted := s.(count := (s.count + 1) % TWO32);
        if s.count < r.limit then Outcome(counted, false, false)
        else
          var since := now - s.report;
          var reports := since < 0 || since >= r.reportTime;
          Outcome(if reports then counted.(report := now) else counted, r.action != 0, reports)
  }

  // ---- runs ----

  predicate Clock(times: seq<int>, from: int) {
    (forall i :: 0 <= i < |times| ==> from <= times[i])
    && forall i, j :: 0 <= i < j < |times| ==> times[i] <= times[j]
  }

  function After(s: Slot, r: Rule, times: seq<int>): Slot
    decreases |times|
  {
    if times == [] then s else After(Check(s, r, times[0]).slot, r, times[1..])
  }

  /** How many of the messages that arrive at these times get through. */
  function Passed(s: Slot, r: Rule, times: seq<int>): nat
    decreases |times|
  {
    if times == [] then 0
    else (if Check(s, r, times[0]).drop then 0 else 1) + Passed(Check(s, r, times[0]).slot, r, times[1..])
  }

  /** The times at which floods are reported. */
  function Reports(s: Slot, r: Rule, times: seq<int>): seq<int>
    decreases |times|
  {
    if times == [] then []
    else (if Check(s, r, times[0]).reported then [times[0]] else []) + Reports(Check(s, r, times[0]).slot, r, times[1..])
  }

  /** The counter can only return to zero by wrapping around. */
  predicate NoWrap(s: Slot, times: seq<int>) {
    s.count + |times| < TWO32
  }

  /** Within one window, what gets through is what the counter still allows. */
  lemma {:induction false} PassedInWindow(s: Slot, r: Rule, times: seq<int>)
    requires r.Active() && s.count >= 1 && NoWrap(s, times) && Clock(times, s.time)
    requires forall i :: 0 <= i < |times| ==> times[i] <= s.time + r.period
    ensures Passed(s, r, times) == if s.count + |times| <= r.limit then |times| else if s.count < r.limit then r.limit - s.count else 0
    decreases |times|
  {
    if times != [] {
      var t := Check(s, r, times[0]).slot;
      assert t.count == s.count + 1 && t.time == s.time;
      PassedInWindow(t, r, times[1..]);
    }
  }

  /** A window lets exactly the first `limit` messages through. */
  lemma WindowLetsLimitThrough(s: Slot, r: Rule, times: seq<int>)
    requires r.Active() && s.count == 0 && NoWrap(s, times) && times != [] && Clock(times, times[0])
    requires forall i :: 0 <= i < |times| ==> times[i] <= times[0] + r.period
    ensures Passed(s, r, times) == if |times| <= r.limit then |times| else r.limit
  {
    PassedInWindow(Check(s, r, times[0]).slot, r, times[1..]);
  }

  /** In any interval of one period at most two windows are open, so at most twice the limit
      gets through, whatever happened before. */
  lemma {:induction false} PassedInInterval(s: Slot, r: Rule, times: seq<int>, a: int)
    requires r.Active() && NoWrap(s, times) && Clock(times, a) && s.time <= a
    requires forall i :: 0 <= i < |times| ==> times[i] <= a + r.period
    ensures Passed(s, r, times) <= if s.count == 0 || s.count >= r.limit then r.limit else 2 * r.limit - s.count
    decreases |times|
  {
    if times != [] {
      var now, rest := times[0], times[1..];
      var t := Check(s, r, now).slot;
      if s.count == 0 || now - s.time > r.period {
        // a window that starts inside the interval reaches to its end
        PassedInWindow(t, r, rest);
      } else {
        PassedInInterval(t, r, rest, a);
      }
    }
  }

  lemma {:induction false} PassedSplits(s: Slot, r: Rule, a: seq<int>, b: seq<int>)
    ensures Passed(s, r, a + b) == Passed(s, r, a) + Passed(After(s, r, a), r, b)
    decreases |a|
  {
    if a == [] {
      assert a + b == b;
    } else {
      assert (a + b)[0] == a[0] && (a + b)[1..] == a[1..] + b;
      PassedSplits(Check(s, r, a[0]).slot, r, a[1..], b);
    }
  }

  lemma {:induction false} AfterBounds(s: Slot, r: Rule, times: seq<int>, to: int)
    requires r.Active() && NoWrap(s, times) && s.time <= to
    requires forall i :: 0 <= i < |times| ==> times[i] <= to
    ensures After(s, r, times).count <= s.count + |times| && After(s, r, times).time <= to
    decreases |times|
  {
    if times != [] {
      AfterBounds(Check(s, r, times[0]).slot, r, times[1..], to);
    }
  }

  /** The flood law over a whole run: among the messages i..j of a connection, if they span at
      most one period, fewer than twice the limit get through. */
  lemma RunPassesUnderTwiceLimit(s: Slot, r: Rule, times: seq<int>, i: nat, j: nat)
    requires r.Active() && NoWrap(s, times) && Clock(times, s.time) && i < j <= |times|
    requires times[j - 1] - times[i] <= r.period
    ensures Passed(After(s, r, times[..i]), r, times[i..j]) <= 2 * r.limit - 1
  {
    AfterBounds(s, r, times[..i], times[i]);
    PassedInInterval(After(s, r, times[..i]), r, times[i..j], times[i]);
  }

  /** No smaller bound holds: one message at 0, then limit - 1 at the end of its window and
      `limit` one second later all get through, the last 2 * limit - 1 within one period. */
  lemma BoundIsReached(r: Rule)
    requires r.Active() && 2 * r.limit < TWO32
    ensures var burst := seq(r.limit - 1, _ => r.period) + seq(r.limit, _ => r.period + 1);
            && (r.limit > 1 ==> burst[|burst| - 1] - burst[0] <= r.period)
            && Passed(After(Slot(0, 0, 0), r, [0]), r, burst) == 2 * r.limit - 1
  {
    var first := Check(Slot(0, 0, 0), r, 0).slot;
    assert [0][1..] == [];
    assert After(Slot(0, 0, 0), r, [0]) == After(first, r, []) == first;
    var a, b := seq(r.limit - 1, _ => r.period), seq(r.limit, _ => r.period + 1);
    PassedSplits(first, r, a, b);
    PassedInWindow(first, r, a);
    AfterBounds(first, r, a, r.period);
    AfterWindow(first, r, a);
    PassedInWindow(Check(After(first, r, a), r, b[0]).slot, r, b[1..]);
  }

  lemma {:induction false} AfterWindow(s: Slot, r: Rule, times: seq<int>)
    requires r.Active() && s.count >= 1 && NoWrap(s, times) && Clock(times, s.time)
    requires forall i :: 0 <= i < |times| ==> times[i] <= s.time + r.period
    ensures After(s, r, times).count == s.count + |times| && After(s, r, times).time == s.time
    decreases |times|
  {
    if times != [] {
      AfterWindow(Check(s, r, times[0]).slot, r, times[1..]);
    }
  }

  /** Each report is at least `gap` after the one before it, the first one after `from`. */
  predicate Spaced(reports: seq<int>, from: int, gap: nat) {
    reports == [] || (reports[0] >= from + gap && Spaced(reports[1..], reports[0], gap))
  }

  /** Reports of one type are at least the report time apart. */
  lemma {:induction false} ReportsAreSpaced(s: Slot, r: Rule, times: seq<int>)
    requires s.count >= 1 && NoWrap(s, times) && Clock(times, s.time) && Clock(times, s.report)
    ensures Spaced(Reports(s, r, times), s.report, r.reportTime)
    decreases |times|
  {
    if times != [] {
      var o := Check(s, r, times[0]);
      ReportsAreSpaced(o.slot, r, times[1..]);
      var rest := Reports(o.slot, r, times[1..]);
      if o.reported {
        assert ([times[0]] + rest)[1..] == rest;
      } else {
        assert [] + rest == rest;
      }
    }
  }

  lemma {:induction false} SpacedPairs(reports: seq<int>, from: int, gap: nat, i: nat, j: nat)
    requires Spaced(reports, from, gap) && i < j < |reports|
    ensures reports[j] >= reports[i] + gap
    decreases j
  {
    if i > 0 {
      SpacedPairs(reports[1..], reports[0], gap, i - 1, j - 1);
    } else if j > 1 {
      SpacedPairs(reports[1..], reports[0], gap, 0, j - 1);
    }
  }

  /** From a fresh counter: any two flood reports of a run are the report time apart. */
  lemma RunReportsAreSpaced(r: Rule, times: seq<int>, i: nat, j: nat)
    requires |times| < TWO32 && times != [] && Clock(times, times[0])
    requires i < j < |Reports(Slot(0, 0, 0), r, times)|
    ensures var rs := Reports(Slot(0, 0, 0), r, times); rs[j] >= rs[i] + r.reportTime
  {
    var s := Slot(0, 0, 0);
    var rs := Reports(s, r, times);
    if r.limit == 0 || r.period == 0 {
      NoReports(s, r, times);
    } else {
      var t := Check(s, r, times[0]).slot;
      ReportsAreSpaced(t, r, times[1..]);
      assert rs == Reports(t, r, times[1..]);
      SpacedPairs(rs, t.report, r.reportTime, i, j);
    }
  }

  lemma {:induction false} NoReports(s: Slot, r: Rule, times: seq<int>)
    requires r.limit == 0 || r.period == 0
    ensures Reports(s, r, times) == []
    decreases |times|
  {
    if times != [] {
      NoReports(s, r, times[1..]);
    }
  }

  // ---- what is dropped, and what is reported ----

  /** Without a limit, without a period, and with action 0, every message gets through. */
  lemma {:induction false} AllPass(s: Slot, r: Rule, times: seq<int>)
    requires r.limit == 0 || r.period == 0 || r.action == 0
    ensures Passed(s, r, times) == |times|
    decreases |times|
  {
    if times != [] {
      AllPass(Check(s, r, times[0]).slot, r, times[1..]);
    }
  }

  /** Whether message k of a run from a fresh counter is dropped, and whether it is reported. */
  predicate Dropped(r: Rule, times: seq<int>, k: nat)
    requires k < |times|
  {
    Check(After(Slot(0, 0, 0), r, times[..k]), r, times[k]).drop
  }

  predicate Reported(r: Rule, times: seq<int>, k: nat)
    requires k < |times|
  {
    Check(After(Slot(0, 0, 0), r, times[..k]), r, times[k]).reported
  }

  lemma {:induction false} AfterLast(s: Slot, r: Rule, times: seq<int>, t: int)
    ensures After(s, r, times + [t]) == Check(After(s, r, times), r, t).slot
    decreases |times|
  {
    if times == [] {
      assert [] + [t] == [t] && [t][1..] == [];
    } else {
      assert (times + [t])[1..] == times[1..] + [t];
      AfterLast(Check(s, r, times[0]).slot, r, times[1..], t);
    }
  }

  /** The time kept as that of the last report is that of a report, or the report time before the
      first message of all. */
  lemma {:induction false} LastReport(r: Rule, times: seq<int>, i: nat)
    requires r.limit >= 1 && r.period >= 1 && i <= |times| < TWO32
    ensures var s := After(Slot(0, 0, 0), r, times[..i]);
            && s.count <= i && (s.count == 0 <==> i == 0)
            && (i > 0 ==> s.report == times[0] - r.reportTime || exists k: nat :: k < i && Reported(r, times, k) && s.report == times[k])
    decreases i
  {
    if i > 0 {
      var n := i - 1;
      LastReport(r, times, n);
      assert times[..i] == times[..n] + [times[n]];
      AfterLast(Slot(0, 0, 0), r, times[..n], times[n]);
      assert Reported(r, times, n) || !Reported(r, times, n);
    }
  }

  /** No flood goes unreported: whenever a message is dropped, it is reported itself, or another
      one was less than the report time before it. */
  lemma DropsAreReported(r: Rule, times: seq<int>, i: nat)
    requires r.limit >= 1 && r.period >= 1 && i < |times| < TWO32 && Clock(times, times[0])
    requires Dropped(r, times, i)
    ensures exists k: nat :: k <= i && Reported(r, times, k) && (k == i || times[i] - times[k] < r.reportTime)
  {
    LastReport(r, times, i);
    assert Reported(r, times, i) || !Reported(r, times, i);
  }

  /** And a message is dropped, unless the action is 0, as soon as `limit` messages have come in
      the same window before it. */
  lemma OverLimitIsDropped(r: Rule, times: seq<int>, k: nat)
    requires r.limit >= 1 && r.period >= 1 && r.limit <= k < |times| < TWO32 && Clock(times, times[0])
    requires forall i :: 0 <= i <= k ==> times[i] <= times[0] + r.period
    ensures Dropped(r, times, k) <==> r.action != 0
  {
    var first := Check(Slot(0, 0, 0), r, times[0]).slot;
    InWindow(first, r, times[1..k]);
    assert times[..k][1..] == times[1..k];
  }

  lemma {:induction false} InWindow(s: Slot, r: Rule, times: seq<int>)
    requires r.limit >= 1 && r.period >= 1 && s.count >= 1 && NoWrap(s, times) && Clock(times, s.time)
    requires forall i :: 0 <= i < |times| ==> times[i] <= s.time + r.period
    ensures After(s, r, times).count == s.count + |times| && After(s, r, times).time == s.time
    decreases |times|
  {
    if times != [] {
      InWindow(Check(s, r, times[0]).slot, r, times[1..]);
    }
  }

  // ---- the connection's arrays ----

  const TYPES: nat := 14      // ePF_LAST

  class FloodControl {
    const counts: array<nat>
    const times: array<int>
    const reports: array<int>

    constructor ()
      ensures Valid() && fresh(counts) && fresh(times) && fresh(reports)
      ensures forall t :: 0 <= t < TYPES ==> At(t) == Slot(0, 0, 0)
    {
      counts := new nat[TYPES](_ => 0);
      times := new int[TYPES](_ => 0);
      reports := new int[TYPES](_ => 0);
    }

    ghost predicate Valid()
    {
      counts.Length == TYPES && times.Length == TYPES && reports.Length == TYPES && times != reports
    }

    function At(t: nat): Slot
      requires Valid() && t < TYPES
      reads counts, times, reports
    {
      Slot(counts[t], times[t], reports[t])
    }

    /** One message of type t. An exempt class is never counted. From action 2 on a dropped
        message also closes the connection, and from action 3 on its address is banned too, if
        there is a time for that. */
    method CheckProtoFlood(t: nat, exempt: bool, r: Rule, banTime: nat, now: int)
      returns (drop: bool, reported: bool, closed: bool, bannedUntil: Option<int>)
      requires Valid() && t < TYPES
      modifies counts, times, reports
      ensures exempt ==> !drop && !reported && At(t) == old(At(t))
      ensures closed <==> drop && r.action >= 2
      ensures bannedUntil == if drop && r.action >= 3 && banTime != 0 then Some(now + banTime) else None
      ensures !exempt ==> Check(old(At(t)), r, now) == Outcome(At(t), drop, reported)
      ensures forall u :: 0 <= u < TYPES && u != t ==> At(u) == old(At(u))
    {
      drop, reported, closed, bannedUntil := false, false, false, None;
      if exempt || r.limit == 0 || r.period == 0 {
        return;
      }
      if counts[t] == 0 {
        counts[t] := 1;
        times[t] := now;
        reports[t] := now - r.reportTime;
        return;
      }
      var dif := now - times[t];
      if dif < 0 || dif > r.period {
        counts[t] := 1;
        times[t] := now;
        return;
      }
      var before := counts[t];
      counts[t] := (before + 1) % TWO32;
      if before < r.limit {
        return;
      }
      dif := now - reports[t];
      if dif < 0 || dif >= r.reportTime {
        reports[t] := now;
        reported := true;
      }
      if r.action == 0 {
        return;
      }
      drop := true;
      if r.action == 1 {
        return;
      }
      if r.action >= 3 && banTime != 0 {
        bannedUntil := Some(now + banTime);
      }
      closed := true;
    }
  }
}
