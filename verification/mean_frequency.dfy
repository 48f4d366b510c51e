/** Event counts over a sliding period, kept in a circular array of sub-periods, and the
    frequency limiter built on them. Times are microseconds. */
module MeanFrequency {
  /** An insertion, the end of the sub-period it was counted to, and the slot that still holds
      it, or -1 once it was dropped. */
  datatype Event = Event(time: int, data: int, upto: int, slot: int)

  /** The data held by slot i. */
  function Held(log: seq<Event>, i: int): int {
    if log == [] then 0
    else Held(log[..|log| - 1], i) + (if log[|log| - 1].slot == i then log[|log| - 1].data else 0)
  }

  /** The distance of a slot from the oldest one in a circle of n slots. */
  function Offset(slot: int, startIdx: int, n: int): int {
    if slot >= startIdx then slot - startIdx else slot - startIdx + n
  }

  /** The data held by the k oldest slots. */
  function Oldest(log: seq<Event>, startIdx: int, n: int, k: int): int {
    if log == [] then 0
    else
      var e := log[|log| - 1];
      Oldest(log[..|log| - 1], startIdx, n, k) + (if e.slot >= 0 && Offset(e.slot, startIdx, n) < k then e.data else 0)
  }

  /** Everything inserted since a time. */
  function Inserted(log: seq<Event>, since: int): int {
    if log == [] then 0
    else Inserted(log[..|log| - 1], since) + (if log[|log| - 1].time >= since then log[|log| - 1].data else 0)
  }

  /** What was inserted into sub-periods that end between two times. */
  function InsertedInto(log: seq<Event>, after: int, before: int): int {
    if log == [] then 0
    else
      var e := log[|log| - 1];
      InsertedInto(log[..|log| - 1], after, before) + (if after < e.upto < before then e.data else 0)
  }

  /** What was inserted between two times into a sub-period that was not yet over. */
  function InsertedBetween(log: seq<Event>, after: int, before: int): int {
    if log == [] then 0
    else
      var e := log[|log| - 1];
      InsertedBetween(log[..|log| - 1], after, before) + (if after < e.time < before && e.time <= e.upto then e.data else 0)
  }

  /** Emptying slot i. */
  function Dropped(log: seq<Event>, i: int): (r: seq<Event>)
    ensures |r| == |log|
    ensures forall j :: 0 <= j < |r| ==> r[j] == if log[j].slot == i then log[j].(slot := -1) else log[j]
  {
    seq(|log|, j requires 0 <= j < |log| => if log[j].slot == i then log[j].(slot := -1) else log[j])
  }

  /** Emptying all slots; no sub-period goes on after that. */
  function Cleared(log: seq<Event>, now: int): (r: seq<Event>)
    ensures |r| == |log|
    ensures forall j :: 0 <= j < |r| ==> r[j] == log[j].(slot := -1, upto := if log[j].upto > now then now else log[j].upto)
  {
    seq(|log|, j requires 0 <= j < |log| => log[j].(slot := -1, upto := if log[j].upto > now then now else log[j].upto))
  }

  /** Dropping what the k oldest of n slots hold. */
  function DroppedOldest(log: seq<Event>, startIdx: int, n: int, k: int): (r: seq<Event>)
    ensures |r| == |log|
    ensures forall j :: 0 <= j < |r| ==>
              r[j] == if log[j].slot >= 0 && Offset(log[j].slot, startIdx, n) < k then log[j].(slot := -1) else log[j]
    ensures SameInsertions(log, r)
  {
    seq(|log|, j requires 0 <= j < |log| =>
      if log[j].slot >= 0 && Offset(log[j].slot, startIdx, n) < k then log[j].(slot := -1) else log[j])
  }

  /** The same insertions, wherever they are held now. */
  predicate SameInsertions(a: seq<Event>, b: seq<Event>) {
    |a| == |b| && forall j :: 0 <= j < |a| ==> a[j].time == b[j].time && a[j].data == b[j].data && a[j].upto == b[j].upto
  }

  lemma {:induction false} InsertedSame(a: seq<Event>, b: seq<Event>, since: int)
    requires SameInsertions(a, b)
    ensures Inserted(a, since) == Inserted(b, since)
    decreases |a|
  {
    if a != [] {
      InsertedSame(a[..|a| - 1], b[..|b| - 1], since);
    }
  }

  lemma {:induction false} HeldAfterDrop(log: seq<Event>, i: int, k: int)
    requires i >= 0 && k >= 0
    ensures Held(Dropped(log, i), k) == if k == i then 0 else Held(log, k)
    decreases |log|
  {
    if log != [] {
      var n := |log| - 1;
      assert Dropped(log, i)[..n] == Dropped(log[..n], i);
      HeldAfterDrop(log[..n], i, k);
    }
  }

  /** One slot more: its events, each exactly once, come in addition. */
  lemma {:induction false} OldestStep(log: seq<Event>, startIdx: int, n: int, k: int)
    requires 0 <= k < n && 0 <= startIdx < n && forall e <- log :: -1 <= e.slot < n
    ensures Oldest(log, startIdx, n, k + 1)
         == Oldest(log, startIdx, n, k) + Held(log, if startIdx + k < n then startIdx + k else startIdx + k - n)
    decreases |log|
  {
    if log != [] {
      assert log[|log| - 1] in log;
      OldestStep(log[..|log| - 1], startIdx, n, k);
    }
  }

  lemma {:induction false} OldestNone(log: seq<Event>, startIdx: int, n: int)
    requires 0 <= startIdx < n && forall e <- log :: -1 <= e.slot < n
    ensures Oldest(log, startIdx, n, 0) == 0
    decreases |log|
  {
    if log != [] {
      assert log[|log| - 1] in log;
      OldestNone(log[..|log| - 1], startIdx, n);
    }
  }

  /** If whatever is counted is recent, the count is bounded by what was inserted recently. */
  lemma {:induction false} OldestAtMostInserted(log: seq<Event>, startIdx: int, n: int, k: int, since: int)
    requires forall e <- log :: e.data >= 0 && (e.slot >= 0 && Offset(e.slot, startIdx, n) < k ==> e.time >= since)
    ensures Oldest(log, startIdx, n, k) <= Inserted(log, since)
    decreases |log|
  {
    if log != [] {
      assert log[|log| - 1] in log;
      OldestAtMostInserted(log[..|log| - 1], startIdx, n, k, since);
    }
  }

  /** A sum over some of the events is at most the sum over more of them, if no data is negative. */
  lemma {:induction false} OldestAtLeastInto(log: seq<Event>, startIdx: int, n: int, k: int, after: int, before: int)
    requires forall e <- log :: e.data >= 0 && (after < e.upto < before ==> e.slot >= 0 && Offset(e.slot, startIdx, n) < k)
    ensures InsertedInto(log, after, before) <= Oldest(log, startIdx, n, k)
    decreases |log|
  {
    if log != [] {
      assert log[|log| - 1] in log;
      OldestAtLeastInto(log[..|log| - 1], startIdx, n, k, after, before);
    }
  }

  lemma {:induction false} OldestAtMostInto(log: seq<Event>, startIdx: int, n: int, k: int, after: int, before: int)
    requires forall e <- log :: e.data >= 0 && (e.slot >= 0 && Offset(e.slot, startIdx, n) < k ==> after < e.upto < before)
    ensures Oldest(log, startIdx, n, k) <= InsertedInto(log, after, before)
    decreases |log|
  {
    if log != [] {
      assert log[|log| - 1] in log;
      OldestAtMostInto(log[..|log| - 1], startIdx, n, k, after, before);
    }
  }

  lemma {:induction false} OldestIsInto(log: seq<Event>, startIdx: int, n: int, k: int, after: int, before: int)
    requires forall e <- log :: e.slot >= 0 && Offset(e.slot, startIdx, n) < k <==> after < e.upto < before
    ensures Oldest(log, startIdx, n, k) == InsertedInto(log, after, before)
    decreases |log|
  {
    if log != [] {
      assert log[|log| - 1] in log;
      OldestIsInto(log[..|log| - 1], startIdx, n, k, after, before);
    }
  }

  /** Whatever was inserted between two times went into sub-periods that end at most one later. */
  lemma {:induction false} BetweenAtMostInto(log: seq<Event>, after: int, before: int, p: int)
    requires forall e <- log :: e.data >= 0 && (e.time <= e.upto ==> e.upto <= e.time + p)
    ensures InsertedBetween(log, after, before) <= InsertedInto(log, after, before + p)
    decreases |log|
  {
    if log != [] {
      assert log[|log| - 1] in log;
      BetweenAtMostInto(log[..|log| - 1], after, before, p);
    }
  }

  lemma MulStep(k: int, p: int)
    ensures (k + 1) * p == k * p + p
  {
  }

  lemma MulAtMost(a: int, b: int, p: int)
    requires 0 <= a <= b && p >= 0
    ensures 0 <= a * p <= b * p
  {
  }

  class Frequency {
    const resolution: int
    const overPeriod: int
    const periodPart: int
    const counts: array<int>
    var start: int
    var end: int
    var part: int
    var startIdx: int
    var numFill: int
    ghost var log: seq<Event>
    ghost var last: int          // time of the latest call

    /** The age an event may have reached while it sits in its slot. */
    ghost predicate Timely(e: Event)
      reads this
    {
      && -1 <= e.slot < resolution && e.time <= last
      && (e.slot >= 0 ==> e.time + (resolution - 1 - Offset(e.slot, startIdx, resolution)) * periodPart >= start)
    }

    /** Its slot belongs to its sub-period, counted back from the one being filled; and once it
        is dropped, its sub-period has ended before the window starts. */
    ghost predicate Placed(e: Event)
      reads this
    {
      && (e.time <= e.upto ==> e.upto <= e.time + periodPart)
      && (if e.slot < 0 then e.upto <= start
          else
            var behind := numFill - Offset(e.slot, startIdx, resolution);
            behind >= 0 && e.upto == part - behind * periodPart)
    }

    /** The sub-period being filled is where the window and the filled sub-periods say: it has not
        been overtaken by the window. */
    ghost predicate OnTime()
      reads this
    {
      part == start + (numFill + 1) * periodPart
    }

    ghost predicate Valid()
      reads this, counts
    {
      && 1 <= resolution <= counts.Length
      && periodPart >= 1 && periodPart == overPeriod / resolution
      && end == start + overPeriod && start <= last
      && 0 <= startIdx < resolution && 0 <= numFill <= resolution
      && part - periodPart <= last && part <= start + (numFill + 1) * periodPart
      && (forall e <- log :: Timely(e) && Placed(e))
      && (forall i :: 0 <= i < resolution ==> counts[i] == Held(log, i))
    }

    /** What bringing the window up to a new time does to it. Inside the window, sub-periods are
        filled up to the time, or all of them. Up to one period beyond, the window moves by as few
        sub-periods as reach the time: as many filled ones leave, as far as there are any, and the
        one being filled stays the same. Later than that, the window starts anew. */
    twostate predicate Moved(now: int)
      reads this
    {
      && last == now
      && (now <= old(end) ==>
            && end == old(end) && old(numFill) <= numFill && part == old(part) + (numFill - old(numFill)) * periodPart
            && (part >= now || numFill == resolution) && (numFill > old(numFill) ==> part - periodPart < now)
            && (now <= old(part) ==> numFill == old(numFill)))
      && (old(end) < now <= old(end) + overPeriod ==>
            && end - periodPart < now <= end && part == old(part) && numFill <= old(numFill)
            && end >= old(end) + (old(numFill) - numFill) * periodPart
            && (numFill > 0 ==> end == old(end) + (old(numFill) - numFill) * periodPart)
            && (old(end) + old(numFill) * periodPart < now ==> numFill == 0))
      && (now > old(end) + overPeriod ==> start == now && numFill == 0 && part == now + periodPart)
    }

    /** A measure over a period that divides into positive sub-periods. */
    constructor (now: int, period: int, res: int, size: nat)
      requires 1 <= res <= size && period / res >= 1
      ensures Valid() && log == [] && last == now && overPeriod == period && resolution == res
      ensures fresh(counts) && numFill == 0 && part == now + periodPart
    {
      resolution, overPeriod, periodPart := res, period, period / res;
      counts := new int[size](_ => 0);
      start, end, part := now, now + period, now + period / res;
      startIdx, numFill := 0, 0;
      log, last := [], now;
    }

    method Reset(now: int)
      requires Valid() && last <= now
      modifies this, counts
      ensures Valid() && last == now && start == now && startIdx == 0 && numFill == 0 && part == now + periodPart
      ensures log == Cleared(old(log), now)
    {
      var i := 0;
      while i < counts.Length
        invariant 0 <= i <= counts.Length
        invariant forall k :: 0 <= k < i ==> counts[k] == 0
        modifies counts
      {
        counts[i] := 0;
        i := i + 1;
      }
      start := now;
      end := start + overPeriod;
      numFill := 0;
      startIdx := 0;
      part := start + periodPart;
      ghost var was := log;
      log := Cleared(log, now);
      last := now;
      forall e | e in log ensures Timely(e) && Placed(e) {
        var j :| 0 <= j < |log| && log[j] == e;
        assert was[j] in was && old(Timely(was[j]) && Placed(was[j]));
      }
      forall k | 0 <= k < resolution ensures Held(log, k) == 0 {
        NothingHeld(log, k);
      }
    }

    static lemma {:induction false} NothingHeld(log: seq<Event>, k: int)
      requires k >= 0 && forall e <- log :: e.slot == -1
      ensures Held(log, k) == 0
      decreases |log|
    {
      if log != [] {
        assert log[|log| - 1] in log;
        NothingHeld(log[..|log| - 1], k);
      }
    }

    /** Drops the oldest sub-period. */
    method Shift()
      requires Valid() && start + periodPart <= last
      modifies this, counts
      ensures Valid() && last == old(last) && log == Dropped(old(log), old(startIdx))
      ensures end == old(end) + periodPart && startIdx == if old(startIdx) + 1 < resolution then old(startIdx) + 1 else 0
      ensures numFill == (if old(numFill) > 0 then old(numFill) - 1 else 0) && part == old(part)
    {
      end := end + periodPart;
      start := start + periodPart;
      counts[startIdx] := 0;
      log := Dropped(log, startIdx);
      if numFill > 0 {
        numFill := numFill - 1;
      }
      startIdx := startIdx + 1;
      if startIdx >= resolution {
        startIdx := startIdx - resolution;
      }
      forall k | 0 <= k < resolution ensures counts[k] == Held(log, k) {
        HeldAfterDrop(old(log), old(startIdx), k);
      }
      MulStep(old(numFill), periodPart);
      StillTimely();
      StillPlaced();
    }

    twostate lemma StillPlaced()
      requires old(Valid()) && start == old(start) + periodPart && part == old(part)
      requires startIdx == if old(startIdx) + 1 < resolution then old(startIdx) + 1 else 0
      requires numFill == if old(numFill) > 0 then old(numFill) - 1 else 0
      requires log == Dropped(old(log), old(startIdx))
      ensures forall e <- log :: Placed(e)
    {
      forall e | e in log ensures Placed(e) {
        var j :| 0 <= j < |log| && log[j] == e;
        var was := old(log)[j];
        assert was in old(log) && old(Timely(was) && Placed(was));
        if was.slot >= 0 {
          var off := Offset(was.slot, old(startIdx), resolution);
          assert off > 0 ==> Offset(was.slot, startIdx, resolution) == off - 1;
          MulStep(old(numFill), periodPart);
        }
      }
    }

    twostate lemma StillTimely()
      requires old(Valid()) && last == old(last) && start == old(start) + periodPart
      requires startIdx == if old(startIdx) + 1 < resolution then old(startIdx) + 1 else 0
      requires log == Dropped(old(log), old(startIdx))
      ensures forall e <- log :: Timely(e)
    {
      forall e | e in log ensures Timely(e) {
        var j :| 0 <= j < |log| && log[j] == e;
        assert old(log)[j] in old(log) && old(Timely(log[j]));
        if e.slot >= 0 {
          var off := Offset(e.slot, old(startIdx), resolution);
          assert Offset(e.slot, startIdx, resolution) == off - 1;
          MulStep(resolution - 1 - off, periodPart);
        }
      }
    }

    /** Brings the window up to a new time: by no step while the time is inside it, by as few
        steps as reach the time up to one period later, and by a reset beyond. Exactly the
        events of the skipped sub-periods are dropped. */
    method Adjust(now: int) returns (ghost steps: nat)
      requires Valid() && last <= now
      modifies this, counts
      ensures Valid() && last == now && end >= now
      ensures now <= old(end) ==> steps == 0
      ensures old(end) < now <= old(end) + overPeriod ==> steps > 0 && end - periodPart < now
      ensures now > old(end) + overPeriod ==> start == now && steps == resolution
      ensures now <= old(end) + overPeriod ==> end == old(end) + steps * periodPart
      ensures log == DroppedOldest(old(log), old(startIdx), resolution, steps)
      ensures Moved(now)
    {
      ghost var was, oldIdx := log, startIdx;
      steps := 0;
      last := now;
      DropNone(was, oldIdx);
      if end < now {
        var t := end + overPeriod;
        if t < now {
          SlotsInRange();
          AllOver(now);
          DropEverySlot(was, oldIdx, resolution, now);
          Reset(now);
          steps := resolution;
          return;
        }
        steps := ShiftUpTo(now);
      } else if numFill < resolution {
        FillUpTo(now);
      }
    }

    /** One period after the end of the window every sub-period is over. */
    lemma AllOver(now: int)
      requires end + overPeriod < now
      requires 1 <= resolution && periodPart >= 1 && periodPart == overPeriod / resolution && end == start + overPeriod
      requires 0 <= numFill <= resolution && part <= start + (numFill + 1) * periodPart && forall e <- log :: Placed(e)
      ensures forall e <- log :: e.upto <= now
    {
      MulAtMost(numFill + 1, resolution + 1, periodPart);
      MulStep(resolution, periodPart);
      assert resolution * periodPart <= overPeriod && periodPart <= resolution * periodPart;
      forall e | e in log ensures e.upto <= now {
        assert Placed(e);
        if e.slot >= 0 {
          var behind := numFill - Offset(e.slot, startIdx, resolution);
          MulAtMost(0, behind, periodPart);
        }
      }
    }

    lemma SlotsInRange()
      requires forall e <- log :: Timely(e)
      ensures forall e <- log :: -1 <= e.slot < resolution
    {
    }

    method ShiftUpTo(now: int) returns (ghost steps: nat)
      requires Valid() && last == now && end < now
      modifies this, counts
      ensures Valid() && last == now && end >= now && end - periodPart < now && numFill <= old(numFill)
      ensures end >= old(end) + (old(numFill) - numFill) * periodPart
      ensures numFill > 0 ==> end == old(end) + (old(numFill) - numFill) * periodPart
      ensures old(end) + old(numFill) * periodPart < now ==> numFill == 0
      ensures steps > 0 && end == old(end) + steps * periodPart
      ensures part == old(part) && numFill == if old(numFill) > steps then old(numFill) - steps else 0
      ensures log == DroppedOldest(old(log), old(startIdx), resolution, steps)
    {
      ghost var was, oldIdx := log, startIdx;
      steps := 0;
      DropNone(was, oldIdx);
      SlotsInRange();
      MulStep(0, periodPart);
      while end < now
        invariant Valid() && last == now
        invariant steps > 0 ==> end - periodPart < now
        invariant steps == 0 ==> end == old(end)
        invariant part == old(part) && numFill == if old(numFill) > steps then old(numFill) - steps else 0
        invariant end == old(end) + steps * periodPart
        invariant log == DroppedOldest(was, oldIdx, resolution, steps)
        invariant steps <= resolution ==> startIdx == if oldIdx + steps < resolution then oldIdx + steps else oldIdx + steps - resolution
        decreases now - end
      {
        PartWithinPeriod();
        DropOneMore(was, oldIdx, steps);
        MulStep(steps, periodPart);
        Shift();
        steps := steps + 1;
      }
      MulAtMost(old(numFill) - numFill, steps, periodPart);
      MulAtMost(old(numFill) - numFill, old(numFill), periodPart);
    }

    method FillUpTo(now: int)
      requires Valid() && last == now && end >= now
      modifies this`part, this`numFill
      ensures Valid() && old(numFill) <= numFill
      ensures part >= now || numFill == resolution
      ensures numFill > old(numFill) ==> part - periodPart < now
      ensures part == old(part) + (numFill - old(numFill)) * periodPart
      ensures now <= old(part) ==> numFill == old(numFill)
    {
      while part < now && numFill < resolution
        invariant Valid() && old(numFill) <= numFill
        invariant numFill > old(numFill) ==> part - periodPart < now
        invariant part == old(part) + (numFill - old(numFill)) * periodPart
        invariant now <= old(part) ==> numFill == old(numFill)
        decreases resolution - numFill
      {
        FillOne();
        MulStep(numFill - old(numFill), periodPart);
        part := part + periodPart;
        numFill := numFill + 1;
      }
    }

    /** With one sub-period more, every slot is one more behind. */
    lemma FillOne()
      requires Valid()
      ensures part + periodPart <= start + (numFill + 2) * periodPart
      ensures forall e <- log :: e.slot >= 0 ==>
                e.upto == part + periodPart - (numFill + 1 - Offset(e.slot, startIdx, resolution)) * periodPart
    {
      MulStep(numFill + 1, periodPart);
      forall e | e in log && e.slot >= 0
        ensures e.upto == part + periodPart - (numFill + 1 - Offset(e.slot, startIdx, resolution)) * periodPart
      {
        assert Placed(e);
        MulStep(numFill - Offset(e.slot, startIdx, resolution), periodPart);
      }
    }

    lemma DropNone(was: seq<Event>, idx: int)
      requires Valid() && was == log && idx == startIdx
      ensures was == DroppedOldest(was, idx, resolution, 0)
    {
      forall j | 0 <= j < |was| && was[j].slot >= 0 ensures Offset(was[j].slot, idx, resolution) >= 0 {
        assert Timely(was[j]);
      }
    }

    static lemma DropEverySlot(was: seq<Event>, idx: int, n: int, now: int)
      requires 0 <= idx < n && forall e <- was :: -1 <= e.slot < n && e.upto <= now
      ensures Cleared(was, now) == DroppedOldest(was, idx, n, n)
    {
      var a, b := Cleared(was, now), DroppedOldest(was, idx, n, n);
      forall j | 0 <= j < |was| ensures a[j] == b[j] {
        assert was[j] in was;
      }
    }

    lemma DropOneMore(was: seq<Event>, oldIdx: int, steps: nat)
      requires 1 <= resolution && 0 <= startIdx < resolution && 0 <= oldIdx < resolution
      requires forall e <- was :: -1 <= e.slot < resolution
      requires steps <= resolution ==> startIdx == if oldIdx + steps < resolution then oldIdx + steps else oldIdx + steps - resolution
      ensures Dropped(DroppedOldest(was, oldIdx, resolution, steps), startIdx) == DroppedOldest(was, oldIdx, resolution, steps + 1)
    {
      var a, b := Dropped(DroppedOldest(was, oldIdx, resolution, steps), startIdx), DroppedOldest(was, oldIdx, resolution, steps + 1);
      forall j | 0 <= j < |was| ensures a[j] == b[j] {
        assert was[j] in was;
      }
    }

    lemma PartWithinPeriod()
      requires Valid()
      ensures periodPart <= resolution * periodPart <= overPeriod
    {
    }

    /** Adjusts, then adds to the sub-period that is being filled. */
    method Insert(now: int, data: int)
      requires Valid() && last <= now
      modifies this, counts
      ensures Valid() && last == now
      ensures log != [] && log[|log| - 1].time == now && log[|log| - 1].data == data
      ensures SameInsertions(old(log), log[..|log| - 1])
      ensures log[|log| - 1].slot == (startIdx + numFill) % resolution
      ensures var e := log[|log| - 1];
              && (numFill < resolution ==> e.upto == part) && e.upto - periodPart <= now
              && (now <= old(end) && numFill < resolution ==> now <= e.upto)
      ensures Moved(now)
    {
      hide Timely, Held;
      ghost var steps := Adjust(now);
      label Adjusted:
      var i := (startIdx + numFill) % resolution;
      Wrapped(startIdx + numFill, resolution);
      counts[i] := counts[i] + data;
      log := log + [Event(now, data, if numFill < resolution then part else part - resolution * periodPart, i)];
      MulAtMost(0, resolution, periodPart);
      Added@Adjusted(i);
    }

    static lemma Wrapped(x: int, n: int)
      requires 0 <= x < 2 * n
      ensures x % n == if x < n then x else x - n
    {
      if x >= n {
        assert x == 1 * n + (x - n);
      }
    }

    /** A new event in slot i keeps the invariant. */
    twostate lemma Added(i: int)
      requires old(Valid()) && 0 <= i < resolution
      requires unchanged(`start, `end, `part, `startIdx, `numFill, `last)
      requires log != [] && log[..|log| - 1] == old(log)
      requires log[|log| - 1].slot == i && log[|log| - 1].time == last && Placed(log[|log| - 1])
      requires forall k :: 0 <= k < counts.Length ==> counts[k] == old(counts[k]) + if k == i then log[|log| - 1].data else 0
      ensures Valid()
    {
      MulAtMost(0, resolution - 1 - Offset(i, startIdx, resolution), periodPart);
      forall e | e in log ensures Timely(e) && Placed(e) {
        if e in old(log) {
          assert old(Timely(e) && Placed(e));
        } else {
          assert e == log[|log| - 1];
        }
      }
    }

    /** The count is the data of the filled sub-periods, each insertion at most once; without
        negative data it is at most what was inserted in the last two periods. */
    method CountAll(now: int) returns (sum: int)
      requires Valid() && last <= now
      modifies this, counts
      ensures Valid() && last == now && SameInsertions(old(log), log)
      ensures sum == Oldest(log, startIdx, resolution, numFill) && Moved(now)
      ensures (forall e <- log :: e.data >= 0) ==> sum <= Inserted(log, now - 2 * overPeriod)
      ensures numFill == 0 || (old(end) + old(numFill) * periodPart < now && old(end) < now) ==> sum == 0
      ensures OnTime() ==> sum == InsertedInto(log, start, part)
      ensures (forall e <- log :: e.data >= 0) ==>
                InsertedInto(log, start, part) <= sum <= InsertedInto(log, part - (numFill + 1) * periodPart, part)
      ensures (forall e <- log :: e.data >= 0) ==> InsertedBetween(log, start, part - periodPart) <= sum
    {
      hide Timely, Placed, Held, Oldest, Inserted, InsertedInto, InsertedBetween, OnTime, Moved;
      ghost var steps := Adjust(now);
      sum := SumFilled();
      CountIsRecent();
      CountIsOnTimes();
    }

    lemma CountIsRecent()
      requires Valid() && end >= last
      ensures var sum := Oldest(log, startIdx, resolution, numFill);
              && (numFill == 0 ==> sum == 0)
              && ((forall e <- log :: e.data >= 0) ==> sum <= Inserted(log, last - 2 * overPeriod))
    {
      hide Held, Inserted;
      SlotsInRange();
      OldestNone(log, startIdx, resolution);
      if forall e <- log :: e.data >= 0 {
        HeldIsRecent();
        OldestAtMostInserted(log, startIdx, resolution, numFill, last - 2 * overPeriod);
      }
    }

    /** What is counted, told by times: everything inserted into a sub-period that ended after the
        window's start and before the one being filled; and nothing else, unless the window has
        overtaken the sub-periods: then sub-periods that ended before its start may count too. */
    lemma CountIsOnTimes()
      requires Valid()
      ensures var sum := Oldest(log, startIdx, resolution, numFill);
              && (OnTime() ==> sum == InsertedInto(log, start, part))
              && ((forall e <- log :: e.data >= 0) ==>
                    && InsertedInto(log, start, part) <= sum <= InsertedInto(log, part - (numFill + 1) * periodPart, part)
                    && InsertedBetween(log, start, part - periodPart) <= sum)
    {
      hide Timely, Placed, Held, Oldest, InsertedInto, InsertedBetween, Valid, Offset;
      HeldOnTimes();
      if OnTime() {
        OldestIsInto(log, startIdx, resolution, numFill, start, part);
      }
      if forall e <- log :: e.data >= 0 {
        OldestAtLeastInto(log, startIdx, resolution, numFill, start, part);
        OldestAtMostInto(log, startIdx, resolution, numFill, part - (numFill + 1) * periodPart, part);
        BetweenAtMostInto(log, start, part - periodPart, periodPart);
      }
    }

    lemma HeldOnTimes()
      requires Valid()
      ensures forall e <- log ::
                && (e.slot >= 0 && Offset(e.slot, startIdx, resolution) < numFill ==> part - (numFill + 1) * periodPart < e.upto < part)
                && (start < e.upto < part ==> e.slot >= 0 && Offset(e.slot, startIdx, resolution) < numFill)
                && (e.time <= e.upto ==> e.upto <= e.time + periodPart)
    {
      hide Held, Offset;
      forall e | e in log
        ensures e.slot >= 0 && Offset(e.slot, startIdx, resolution) < numFill ==> part - (numFill + 1) * periodPart < e.upto < part
        ensures start < e.upto < part ==> e.slot >= 0 && Offset(e.slot, startIdx, resolution) < numFill
        ensures e.time <= e.upto ==> e.upto <= e.time + periodPart
      {
        assert Timely(e) && Placed(e);
        CountedOnTime(e);
      }
    }

    lemma CountedOnTime(e: Event)
      requires 0 <= startIdx < resolution && 0 <= numFill <= resolution && periodPart >= 1
      requires Timely(e) && Placed(e)
      ensures var counted := e.slot >= 0 && Offset(e.slot, startIdx, resolution) < numFill;
              && (counted ==> part - (numFill + 1) * periodPart < e.upto < part)
              && (start < e.upto < part ==> counted)
    {
      if e.slot >= 0 {
        var behind := numFill - Offset(e.slot, startIdx, resolution);
        if behind > 0 {
          MulAtMost(1, behind, periodPart);
        }
        MulAtMost(behind, numFill, periodPart);
        MulStep(numFill, periodPart);
      }
    }

    method SumFilled() returns (sum: int)
      requires Valid()
      ensures sum == Oldest(log, startIdx, resolution, numFill)
    {
      sum := 0;
      var i, j := 0, startIdx;
      SlotsInRange();
      OldestNone(log, startIdx, resolution);
      while i < numFill
        invariant 0 <= i <= numFill
        invariant j == if startIdx + i < resolution then startIdx + i else startIdx + i - resolution
        invariant sum == Oldest(log, startIdx, resolution, i)
      {
        OldestStep(log, startIdx, resolution, i);
        sum := sum + counts[j];
        j := j + 1;
        if j >= resolution {
          j := 0;
        }
        i := i + 1;
      }
    }

    /** What a slot still holds is at most two periods old. */
    lemma HeldIsRecent()
      requires Valid() && end >= last
      ensures forall e <- log :: e.slot >= 0 ==> e.time >= last - 2 * overPeriod
    {
      hide Held, Placed;
      PartWithinPeriod();
      forall e | e in log && e.slot >= 0 ensures e.time >= last - 2 * overPeriod {
        assert Timely(e);
        SlotAge(e);
      }
    }

    lemma SlotAge(e: Event)
      requires 0 <= startIdx < resolution && 0 <= e.slot < resolution && periodPart >= 1 && Timely(e)
      ensures e.time + resolution * periodPart >= start
    {
      MulAtMost(resolution - 1 - Offset(e.slot, startIdx, resolution), resolution, periodPart);
    }
  }

  /** After a silence in which the window has overtaken the sub-periods, an insertion is put into
      the oldest of them, so that the next step of the window drops it: here a count misses what was
      inserted one microsecond before. */
  method RecentIsMissed(data: int) returns (freq: Frequency, sum: int)
    ensures freq.last == 19 && sum == 0 && Inserted(freq.log, 18) == data
  {
    hide Frequency.Valid, Oldest, InsertedInto, InsertedBetween;
    freq := new Frequency(0, 10, 10, 20);
    freq.Insert(5, 7);
    ghost var one := freq.log;
    freq.Insert(18, data);
    ghost var two := freq.log;
    sum := freq.CountAll(19);
    InsertedSame(two, freq.log, 18);
    InsertedSame(one, two[..1], 18);
    assert one[..0] == [] && Inserted(one, 18) == 0;
  }

  /** A minimum delay between two events and a maximum count over a period. */
  class FreqLimiter {
    const minDelay: int
    const freq: Frequency
    const maxCount: int
    var lastEvent: int

    ghost predicate Valid()
      reads this, freq, freq.counts
    {
      freq.Valid() && lastEvent <= freq.last && forall e <- freq.log :: e.data == 1
    }

    /** The measured period is divided into five sub-periods. */
    constructor (minDelay: int, period: int, maxCount: int, now: int)
      requires period >= 5
      ensures Valid() && lastEvent == now && freq.last == now && freq.log == [] && freq.overPeriod == period
      ensures freq.numFill == 0 && freq.part == now + freq.periodPart && this.maxCount == maxCount && this.minDelay == minDelay
      ensures fresh(freq) && fresh(freq.counts)
    {
      this.minDelay, this.maxCount, lastEvent := minDelay, maxCount, now;
      freq := new Frequency(now, period, 5, 20);
    }

    /** Both measures of one event: too soon after the last one, or too many. Too many is reported
        whenever more than the maximum went into sub-periods that are over and still inside the
        window, and, while the window has not overtaken the sub-periods, only then; in any case only
        if more than the maximum passed within the last two periods. As long as the first
        sub-period after a reset lasts, it is not reported at all. */
    method Check(now: int) returns (r: int)
      requires Valid() && freq.last <= now
      modifies this, freq, freq.counts
      ensures Valid()
      ensures r == -1 <==> old(lastEvent) != 0 && minDelay != 0 && now - old(lastEvent) < minDelay
      ensures r == -1 ==> freq.log == old(freq.log) && lastEvent == old(lastEvent)
      ensures r != -1 ==> |freq.log| == |old(freq.log)| + 1 && SameInsertions(freq.log[..|old(freq.log)|], old(freq.log))
      ensures r != -1 ==> var e := freq.log[|old(freq.log)|]; e.time == now && e.data == 1
      ensures r != -1 ==> lastEvent == if old(lastEvent) == 0 then 0 else now
      ensures r == 0 || r == -1 || r == -3
      ensures r == -3 ==> Inserted(freq.log, now - 2 * freq.overPeriod) > maxCount
      ensures r != -1 && freq.OnTime() ==> (r == -3 <==> InsertedInto(freq.log, freq.start, freq.part) > maxCount)
      ensures r != -1 && InsertedInto(freq.log, freq.start, freq.part) > maxCount ==> r == -3
      ensures r != -1 && InsertedBetween(freq.log, freq.start, freq.part - freq.periodPart) > maxCount ==> r == -3
      ensures old(freq.numFill) == 0 && now <= old(freq.part) && now <= old(freq.end) && maxCount >= 0 ==>
                r != -3 && freq.numFill == 0 && freq.part == old(freq.part) && freq.end == old(freq.end)
    {
      hide SameInsertions, InsertedInto, InsertedBetween, Inserted, Frequency.OnTime;
      if lastEvent != 0 {
        if minDelay != 0 && minDelay > now - lastEvent {
          return -1;
        }
        lastEvent := now;
      }
      freq.Insert(now, 1);
      ghost var inserted := freq.log;
      var count := freq.CountAll(now);
      OneMore(old(freq.log), inserted, freq.log, now);
      if count > maxCount {
        return -3;
      }
      return 0;
    }

    static lemma OneMore(was: seq<Event>, inserted: seq<Event>, log: seq<Event>, now: int)
      requires inserted != [] && SameInsertions(was, inserted[..|inserted| - 1]) && SameInsertions(inserted, log)
      requires inserted[|inserted| - 1].time == now && inserted[|inserted| - 1].data == 1 && forall e <- was :: e.data == 1
      ensures |log| == |was| + 1 && SameInsertions(log[..|was|], was) && log[|was|].time == now && log[|was|].data == 1
      ensures forall e <- log :: e.data == 1
    {
      forall e | e in log ensures e.data == 1 {
        var j :| 0 <= j < |log| && log[j] == e;
        assert inserted[j].data == log[j].data;
        if j < |was| {
          assert was[j] in was && was[j].data == inserted[..|was|][j].data;
        }
      }
    }
  }
}
