/** Temporary rights and restrictions of users: one row a nick with a deadline for each right. */
module PenaltyList {
  import opened KeyCache
  import opened Wrappers

  datatype Right = Chat | Search | Connect | Private | Kick | NoShare | Register | OpChat

  datatype Deadlines = Deadlines(chat: int, search: int, ctm: int, pm: int, kick: int, share0: int, reg: int, opchat: int) {
    function Of(r: Right): int {
      match r
      case Chat => chat
      case Search => search
      case Connect => ctm
      case Private => pm
      case Kick => kick
      case NoShare => share0
      case Register => reg
      case OpChat => opchat
    }
  }

  // The deadline of a right that was never touched.
  const NEVER := 1

  // ---- what the list is for ----

  /** What operators did: deadlines given to a nick, rights taken back from a nick, and every
      right taken back from some nicks. */
  datatype Event = Given(nick: string, deadlines: Deadlines) | Lifted(nick: string, rights: set<Right>) | Cleared(nicks: set<string>)

  /** A right is in force for a nick at a time if, since it was last taken back, it was given
      with a later deadline. */
  predicate InForce(log: seq<Event>, nick: string, r: Right, t: int) {
    log != [] &&
    var before, e := log[..|log| - 1], log[|log| - 1];
    match e
    case Given(n, d) => (n == nick && d.Of(r) > t) || InForce(before, nick, r, t)
    case Lifted(n, rights) => !(n == nick && r in rights) && InForce(before, nick, r, t)
    case Cleared(nicks) => nick !in nicks && InForce(before, nick, r, t)
  }

  predicate Held(table: map<string, Deadlines>, nick: string, r: Right, t: int) {
    nick in table && table[nick].Of(r) > t
  }

  /** From a time on, the table says what the log says. */
  ghost predicate Agrees(table: map<string, Deadlines>, log: seq<Event>, clock: int) {
    forall nick, r, t :: t >= clock ==> (Held(table, nick, r, t) <==> InForce(log, nick, r, t))
  }

  // ---- the operations on values ----

  function Max(a: int, b: int): int {
    if a > b then a else b
  }

  function Merged(row: Deadlines, d: Deadlines): Deadlines {
    Deadlines(Max(d.chat, row.chat), Max(d.search, row.search), Max(d.ctm, row.ctm), Max(d.pm, row.pm),
              Max(d.kick, row.kick), Max(d.share0, row.share0), Max(d.reg, row.reg), Max(d.opchat, row.opchat))
  }

  /** Some deadline is still to come. */
  predicate Open(d: Deadlines, now: int) {
    exists r: Right :: d.Of(r) > now
  }

  function AfterAdd(table: map<string, Deadlines>, nick: string, d: Deadlines, now: int): map<string, Deadlines> {
    var row := if nick in table then Merged(table[nick], d) else d;
    if OpenNow(row, now) then table[nick := row] else table - {nick}
  }

  /** The same as a chain of comparisons. */
  predicate OpenNow(d: Deadlines, now: int)
    ensures OpenNow(d, now) <==> Open(d, now)
  {
    var open := d.chat > now || d.search > now || d.ctm > now || d.pm > now || d.kick > now || d.share0 > now || d.reg > now || d.opchat > now;
    assert open ==> Open(d, now) by {
      assert d.Of(Chat) == d.chat && d.Of(Search) == d.search && d.Of(Connect) == d.ctm && d.Of(Private) == d.pm;
      assert d.Of(Kick) == d.kick && d.Of(NoShare) == d.share0 && d.Of(Register) == d.reg && d.Of(OpChat) == d.opchat;
    }
    open
  }

  /** The rights that a removal takes back: those whose given deadline has passed. */
  function Past(d: Deadlines, now: int): set<Right> {
    set r: Right | d.Of(r) < now
  }

  function Reset(row: Deadlines, d: Deadlines, now: int): Deadlines {
    Deadlines(if d.chat < now then NEVER else row.chat, if d.search < now then NEVER else row.search,
              if d.ctm < now then NEVER else row.ctm, if d.pm < now then NEVER else row.pm,
              if d.kick < now then NEVER else row.kick, if d.share0 < now then NEVER else row.share0,
              if d.reg < now then NEVER else row.reg, if d.opchat < now then NEVER else row.opchat)
  }

  predicate AllPast(d: Deadlines, now: int) {
    d.chat < now && d.search < now && d.ctm < now && d.pm < now && d.kick < now && d.share0 < now && d.reg < now && d.opchat < now
  }

  function AfterRemove(table: map<string, Deadlines>, nick: string, d: Deadlines, now: int): map<string, Deadlines> {
    if nick in table && !AllPast(d, now) then table[nick := Reset(table[nick], d, now)] else table - {nick}
  }

  function AfterCleanup(table: map<string, Deadlines>, now: int): map<string, Deadlines> {
    map nick | nick in table && !AllPast(table[nick], now) :: table[nick]
  }

  function WithRight(table: map<string, Deadlines>, r: Right): set<string> {
    set nick | nick in table && table[nick].Of(r) > NEVER
  }

  // ---- they agree with the log ----

  lemma MergedIsLater(row: Deadlines, d: Deadlines, r: Right)
    ensures Merged(row, d).Of(r) == Max(d.Of(r), row.Of(r))
  {
  }

  lemma LogGrows(log: seq<Event>, e: Event)
    ensures (log + [e])[..|log|] == log
  {
  }

  lemma AddAgrees(table: map<string, Deadlines>, log: seq<Event>, clock: int, nick: string, d: Deadlines, now: int)
    requires Agrees(table, log, clock)
    ensures Agrees(AfterAdd(table, nick, d, now), log + [Given(nick, d)], Max(clock, now))
  {
    var after, more := AfterAdd(table, nick, d, now), log + [Given(nick, d)];
    LogGrows(log, Given(nick, d));
    forall n, r, t | t >= Max(clock, now) ensures Held(after, n, r, t) <==> InForce(more, n, r, t) {
      assert Held(table, n, r, t) <==> InForce(log, n, r, t);
      if n == nick && nick in table {
        MergedIsLater(table[nick], d, r);
      }
    }
  }

  lemma ResetOf(row: Deadlines, d: Deadlines, now: int, r: Right)
    ensures Reset(row, d, now).Of(r) == if d.Of(r) < now then NEVER else row.Of(r)
  {
  }

  lemma RemoveAgrees(table: map<string, Deadlines>, log: seq<Event>, clock: int, nick: string, d: Deadlines, now: int)
    requires Agrees(table, log, clock) && clock >= NEVER
    ensures Agrees(AfterRemove(table, nick, d, now), log + [Lifted(nick, Past(d, now))], Max(clock, now))
  {
    var after, e := AfterRemove(table, nick, d, now), Lifted(nick, Past(d, now));
    LogGrows(log, e);
    forall n, r, t | t >= Max(clock, now) ensures Held(after, n, r, t) <==> InForce(log + [e], n, r, t) {
      assert Held(table, n, r, t) <==> InForce(log, n, r, t);
      if n == nick && nick in table {
        ResetOf(table[nick], d, now, r);
      }
    }
  }

  /** Deleting rows that are past in every right changes nothing from now on. */
  lemma CleanupAgrees(table: map<string, Deadlines>, log: seq<Event>, clock: int, now: int)
    requires Agrees(table, log, clock)
    ensures Agrees(AfterCleanup(table, now), log, Max(clock, now))
  {
    forall n, r, t | t >= Max(clock, now) ensures Held(AfterCleanup(table, now), n, r, t) <==> InForce(log, n, r, t) {
      assert Held(table, n, r, t) <==> InForce(log, n, r, t);
    }
  }

  lemma ClearAgrees(table: map<string, Deadlines>, log: seq<Event>, clock: int, nicks: set<string>)
    requires Agrees(table, log, clock)
    ensures Agrees(table - nicks, log + [Cleared(nicks)], clock)
  {
    LogGrows(log, Cleared(nicks));
    forall n, r, t | t >= clock ensures Held(table - nicks, n, r, t) <==> InForce(log + [Cleared(nicks)], n, r, t) {
      assert Held(table, n, r, t) <==> InForce(log, n, r, t);
    }
  }

  // ---- what one operation does to one right ----

  /** Giving deadlines to a nick only ever lengthens its rights; from now on each is held for the
      time given or as long as before. */
  lemma AddOfRight(table: map<string, Deadlines>, nick: string, d: Deadlines, now: int, n: string, r: Right, t: int)
    requires t >= now
    ensures Held(AfterAdd(table, nick, d, now), n, r, t) <==> Held(table, n, r, t) || (n == nick && d.Of(r) > t)
  {
    if nick in table {
      MergedIsLater(table[nick], d, r);
    }
  }

  /** Removing takes a right from a nick exactly if the deadline it is given for that right has
      passed; in the log too. */
  lemma RemoveOfRight(table: map<string, Deadlines>, log: seq<Event>, nick: string, d: Deadlines, now: int, n: string, r: Right, t: int)
    requires t >= 1
    ensures Held(AfterRemove(table, nick, d, now), n, r, t) <==> Held(table, n, r, t) && !(n == nick && d.Of(r) < now)
    ensures InForce(log + [Lifted(nick, Past(d, now))], n, r, t) <==> InForce(log, n, r, t) && !(n == nick && d.Of(r) < now)
  {
    LogGrows(log, Lifted(nick, Past(d, now)));
    if nick in table {
      ResetOf(table[nick], d, now, r);
    }
  }

  /** The cleanup deletes exactly the rows whose deadlines have all passed. */
  lemma CleanupOfRow(table: map<string, Deadlines>, now: int, nick: string)
    ensures nick in AfterCleanup(table, now) <==> nick in table && exists r: Right :: table[nick].Of(r) >= now
    ensures nick in AfterCleanup(table, now) ==> AfterCleanup(table, now)[nick] == table[nick]
  {
    if nick in table {
      var d := table[nick];
      assert d.Of(Chat) == d.chat && d.Of(Search) == d.search && d.Of(Connect) == d.ctm && d.Of(Private) == d.pm;
      assert d.Of(Kick) == d.kick && d.Of(NoShare) == d.share0 && d.Of(Register) == d.reg && d.Of(OpChat) == d.opchat;
    }
  }

  /** Cleaning one right deletes exactly the rows with a deadline above 1 for it, whether that has
      passed or not. */
  lemma CleanTypeOfRow(table: map<string, Deadlines>, r: Right, nick: string)
    ensures nick in table - WithRight(table, r) <==> nick in table && table[nick].Of(r) <= 1
  {
  }

  predicate AllGiven(run: seq<Event>) {
    forall e <- run :: e.Given?
  }

  /** Some event of a run gives this right for longer. */
  predicate Gives(run: seq<Event>, nick: string, r: Right, t: int) {
    exists e <- run :: e.Given? && e.nick == nick && e.deadlines.Of(r) > t
  }

  lemma {:induction false} RunOfGiven(log: seq<Event>, run: seq<Event>, nick: string, r: Right, t: int)
    requires AllGiven(run)
    ensures InForce(log + run, nick, r, t) <==> InForce(log, nick, r, t) || Gives(run, nick, r, t)
    decreases |run|
  {
    if run == [] {
      assert log + run == log;
    } else {
      var n := |run| - 1;
      var front, e := run[..n], run[n];
      assert log + run == (log + front) + [e] && e in run && forall x :: x in front ==> x in run;
      LogGrows(log + front, e);
      RunOfGiven(log, front, nick, r, t);
      assert forall x :: x in run ==> x in front || x == e;
    }
  }

  /** What later events make of a right depends only on whether it was in force before them. */
  lemma {:induction false} SameFromThen(x: seq<Event>, y: seq<Event>, later: seq<Event>, nick: string, r: Right, t: int)
    requires InForce(x, nick, r, t) <==> InForce(y, nick, r, t)
    ensures InForce(x + later, nick, r, t) <==> InForce(y + later, nick, r, t)
    decreases |later|
  {
    if later == [] {
      assert x + later == x && y + later == y;
    } else {
      var n := |later| - 1;
      var front, e := later[..n], later[n];
      assert x + later == (x + front) + [e] && y + later == (y + front) + [e];
      LogGrows(x + front, e);
      LogGrows(y + front, e);
      SameFromThen(x, y, front, nick, r, t);
    }
  }

  /** The order in which deadlines are given does not matter, whatever happens later. */
  lemma GivenInAnyOrder(log: seq<Event>, a: seq<Event>, b: seq<Event>, later: seq<Event>, nick: string, r: Right, t: int)
    requires AllGiven(a) && multiset(a) == multiset(b)
    ensures InForce(log + a + later, nick, r, t) <==> InForce(log + b + later, nick, r, t)
  {
    forall e ensures e in a <==> e in b {
      assert e in a <==> e in multiset(a);
      assert e in b <==> e in multiset(b);
    }
    RunOfGiven(log, a, nick, r, t);
    RunOfGiven(log, b, nick, r, t);
    SameFromThen(log + a, log + b, later, nick, r, t);
  }

  // ---- the list ----

  class Penalties {
    var table: map<string, Deadlines>
    const cache: Cache
    var useCache: bool
    ghost var log: seq<Event>
    ghost var clock: int          // the latest time that any operation has looked at

    /** From the latest time on the table agrees with the log, and the cache, while it is on,
        knows every nick of the table. */
    ghost predicate Valid()
      reads this, cache
    {
      && clock >= NEVER && Agrees(table, log, clock)
      && (useCache ==> Covers(table, cache.hashes, cache.hash))
    }

    /** An empty list. */
    constructor (hash: string -> int, useCache: bool)
      ensures Valid() && table == map[] && log == [] && fresh(cache) && this.useCache == useCache
    {
      table, this.useCache, log, clock := map[], useCache, [], NEVER;
      cache := new Cache(hash);
    }

    /** The deadlines of a nick, the same with and without the cache. */
    method LoadTo(nick: string) returns (pen: Option<Deadlines>)
      requires Valid()
      ensures pen == if nick in table then Some(table[nick]) else None
      ensures forall r, t :: t >= clock ==> (pen.Some? && pen.value.Of(r) > t <==> InForce(log, nick, r, t))
    {
      assert forall r, t :: t >= clock ==> (Held(table, nick, r, t) <==> InForce(log, nick, r, t));
      if useCache && (!cache.IsLoaded() || !cache.Find(nick)) {
        return None;
      }
      if nick in table {
        return Some(table[nick]);
      }
      return None;
    }

    /** Gives deadlines: later ones win, and a row without a deadline to come is not kept. */
    method AddPenalty(nick: string, penal: Deadlines, now: int)
      requires Valid()
      modifies this`table, this`log, this`clock, cache
      ensures Valid() && log == old(log) + [Given(nick, penal)] && clock == Max(old(clock), now)
      ensures table == AfterAdd(old(table), nick, penal, now)
      ensures cache.hashes == if !useCache then old(cache.hashes)
                              else if nick !in table then HashesOf(cache.hash, table.Keys)
                              else if nick !in old(table) then old(cache.hashes) + {cache.hash(nick)}
                              else old(cache.hashes)
    {
      AddAgrees(table, log, clock, nick, penal, now);
      log, clock := log + [Given(nick, penal)], Max(clock, now);
      var model, keep := penal, false;
      if nick in table {
        model := MaxMerge(table[nick], penal);
        keep := OpenNow(model, now);
      } else {
        keep := OpenNow(model, now);
        if keep && useCache {
          cache.Add(nick);
        }
      }
      if keep {
        table := table[nick := model];
        return;
      }
      table := table - {nick};
      if useCache {
        cache.Reload(table.Keys);
      }
    }

    static method MaxMerge(row: Deadlines, penal: Deadlines) returns (model: Deadlines)
      ensures model == Merged(row, penal)
    {
      model := row;
      if penal.chat > model.chat {
        model := model.(chat := penal.chat);
      }
      if penal.ctm > model.ctm {
        model := model.(ctm := penal.ctm);
      }
      if penal.pm > model.pm {
        model := model.(pm := penal.pm);
      }
      if penal.search > model.search {
        model := model.(search := penal.search);
      }
      if penal.kick > model.kick {
        model := model.(kick := penal.kick);
      }
      if penal.share0 > model.share0 {
        model := model.(share0 := penal.share0);
      }
      if penal.reg > model.reg {
        model := model.(reg := penal.reg);
      }
      if penal.opchat > model.opchat {
        model := model.(opchat := penal.opchat);
      }
    }

    /** Takes back the rights whose given deadline is past; if that is all of them, the row goes. */
    method RemPenalty(nick: string, penal: Deadlines, now: int)
      requires Valid()
      modifies this`table, this`log, this`clock, cache
      ensures Valid() && log == old(log) + [Lifted(nick, Past(penal, now))] && clock == Max(old(clock), now)
      ensures table == AfterRemove(old(table), nick, penal, now)
      ensures cache.hashes == if useCache && nick !in table then HashesOf(cache.hash, table.Keys) else old(cache.hashes)
    {
      RemoveAgrees(table, log, clock, nick, penal, now);
      log, clock := log + [Lifted(nick, Past(penal, now))], Max(clock, now);
      var model, keep := penal, false;
      if nick in table {
        model, keep := ResetPast(table[nick], penal, now);
      }
      if keep {
        table := table[nick := model];
        return;
      }
      table := table - {nick};
      if useCache {
        cache.Reload(table.Keys);
      }
    }

    static method ResetPast(row: Deadlines, penal: Deadlines, now: int) returns (model: Deadlines, keep: bool)
      ensures model == Reset(row, penal, now) && keep == !AllPast(penal, now)
    {
      model, keep := row, false;
      if penal.chat < now {
        model := model.(chat := NEVER);
      } else {
        keep := true;
      }
      if penal.ctm < now {
        model := model.(ctm := NEVER);
      } else {
        keep := true;
      }
      if penal.pm < now {
        model := model.(pm := NEVER);
      } else {
        keep := true;
      }
      if penal.search < now {
        model := model.(search := NEVER);
      } else {
        keep := true;
      }
      if penal.kick < now {
        model := model.(kick := NEVER);
      } else {
        keep := true;
      }
      if penal.share0 < now {
        model := model.(share0 := NEVER);
      } else {
        keep := true;
      }
      if penal.reg < now {
        model := model.(reg := NEVER);
      } else {
        keep := true;
      }
      if penal.opchat < now {
        model := model.(opchat := NEVER);
      } else {
        keep := true;
      }
    }

    /** Deletes the rows that are past in every right; the cache keeps their nicks. */
    method Cleanup(now: int)
      requires Valid()
      modifies this`table, this`clock
      ensures Valid() && table == AfterCleanup(old(table), now) && clock == Max(old(clock), now)
    {
      CleanupAgrees(table, log, clock, now);
      clock := Max(clock, now);
      table := AfterCleanup(table, now);
    }

    /** Deletes the rows that ever had a right, with everything else that is in them: the other
        rights of these nicks are lifted too. */
    method CleanType(r: Right)
      requires Valid()
      modifies this`table, this`log
      ensures Valid() && log == old(log) + [Cleared(WithRight(old(table), r))]
      ensures table == old(table) - WithRight(old(table), r)
    {
      ghost var nicks := WithRight(table, r);
      ClearAgrees(table, log, clock, nicks);
      table := table - WithRight(table, r);
      log := log + [Cleared(nicks)];
    }

    /** The timer adds the nicks that the cache does not know. */
    method UpdateCache()
      requires Valid()
      modifies cache
      ensures Valid() && cache.hashes == old(cache.hashes) + if useCache then HashesOf(cache.hash, table.Keys) else {}
    {
      if useCache {
        cache.Update(table.Keys);
      }
    }
  }
}
