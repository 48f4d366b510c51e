/** The list of registered users, with the lookup cache in front of its table. */
module RegistrationList {
  import opened KeyCache
  import opened Wrappers

  const PINGER := -1
  const NORMAL := 0
  const REGISTERED := 1
  const ADMIN := 5
  const MASTER := 10

  datatype RegInfo = RegInfo(cls: int, date: int, op: string, password: string, pwdChange: bool)

  /** The class that a user is registered with: unknown classes become plain registered users. */
  function RegClass(cls: int): int {
    if REGISTERED <= cls <= ADMIN || cls == MASTER || cls == PINGER then cls else REGISTERED
  }

  /** The classes 1 to 5, 10 and -1 are kept, and every other one becomes 1. */
  lemma ClassesKept(cls: int)
    ensures RegClass(cls) == if cls in {-1, 1, 2, 3, 4, 5, 10} then cls else 1
  {
  }

  class RegList {
    var table: map<string, RegInfo>
    const cache: Cache
    var useCache: bool

    /** While the cache is on, it knows every key of the table. */
    ghost predicate Valid()
      reads this, cache
    {
      useCache ==> Covers(table, cache.hashes, cache.hash)
    }

    /** The list as it is opened: the cache is filled if it is on. */
    constructor (rows: map<string, RegInfo>, hash: string -> int, useCache: bool)
      ensures Valid() && table == rows && this.useCache == useCache && fresh(cache) && cache.hash == hash
      ensures !useCache ==> cache.hashes == {}
    {
      table, this.useCache := rows, useCache;
      cache := new Cache(hash);
      new;
      if useCache {
        cache.Reload(table.Keys);
      }
    }

    /** The lookup gives the same answer as the table alone. */
    method FindRegInfo(nick: string) returns (ui: Option<RegInfo>)
      ensures ui == Lookup(table, cache.hashes, cache.hash, useCache, nick)
      ensures Valid() ==> ui == if nick in table then Some(table[nick]) else None
    {
      if useCache && (!cache.IsLoaded() || !cache.Find(nick)) {
        return None;
      }
      if nick in table {
        return Some(table[nick]);
      }
      return None;
    }

    /** Registers a nick that is neither registered nor reserved. Without a password it may be
        set by the user, except for pingers. If the cache does not know a registered nick,
        registering it again is answered with success and changes nothing. `encrypted` is what
        the configured encryption makes of the password. */
    method AddRegUser(nick: string, reserved: bool, op: string, cls: int, password: string, encrypted: string, now: int) returns (ok: bool)
      modifies this`table, cache
      ensures ok <==> Lookup(old(table), old(cache.hashes), cache.hash, useCache, nick).None? && !reserved
      ensures ok && nick !in old(table) ==>
                var stored := if password == "" then "" else encrypted;
                table == old(table)[nick := RegInfo(RegClass(cls), now, op, stored, password == "" && cls >= NORMAL)]
      ensures !ok || nick in old(table) ==> table == old(table)
      ensures cache.hashes == old(cache.hashes) + if ok && useCache then {cache.hash(nick)} else {}
      ensures old(Valid()) ==> Valid() && (ok <==> nick !in old(table) && !reserved)
    {
      var found := FindRegInfo(nick);
      if found.Some? {
        return false;
      }
      if reserved {
        return false;
      }
      var ui := RegInfo(REGISTERED, now, op, encrypted, false);
      if password == "" {
        ui := ui.(password := "", pwdChange := true);
      }
      if (cls >= REGISTERED && cls <= ADMIN) || cls == MASTER || cls == PINGER {
        ui := ui.(cls := cls);
      }
      if cls < NORMAL {
        ui := ui.(pwdChange := false);
      }
      if useCache {
        cache.Add(nick);
      }
      Insert(nick, ui);
      return true;
    }

    /** The insertion leaves a row that is already there as it is. */
    method Insert(nick: string, ui: RegInfo)
      modifies this`table
      ensures table == if nick in old(table) then old(table) else old(table)[nick := ui]
    {
      if nick !in table {
        table := table[nick := ui];
      }
    }

    /** Removes a registered nick and fills the cache anew. */
    method DelReg(nick: string) returns (ok: bool)
      requires Valid()
      modifies this`table, cache
      ensures Valid() && (ok <==> nick in old(table)) && table == old(table) - {nick}
      ensures cache.hashes == if ok && useCache then HashesOf(cache.hash, table.Keys) else old(cache.hashes)
    {
      var found := FindRegInfo(nick);
      if found.None? {
        return false;
      }
      table := table - {nick};
      if useCache {
        cache.Reload(table.Keys);
      }
      return true;
    }

    /** A row changed by its owner or an operator: the key stays. */
    method UpdateRow(nick: string, ui: RegInfo) returns (ok: bool)
      requires Valid()
      modifies this`table
      ensures Valid() && (ok <==> nick in old(table))
      ensures table == if ok then old(table)[nick := ui] else old(table)
    {
      var found := FindRegInfo(nick);
      if found.None? {
        return false;
      }
      table := table[nick := ui];
      return true;
    }

    /** The timer adds the keys registered since the last time. */
    method UpdateCache(newer: set<string>)
      requires Valid() && newer <= table.Keys
      modifies cache
      ensures Valid() && cache.hashes == old(cache.hashes) + if useCache then HashesOf(cache.hash, newer) else {}
    {
      if useCache {
        cache.Update(newer);
      }
    }

    /** Switching the cache on does not fill it, and the timer adds only what was registered since
        it last ran. From then on every answer is the table's exactly
        if the cache happens to know every key. */
    method SwitchOn()
      modifies this`useCache
      ensures useCache
      ensures Valid() <==> Covers(table, cache.hashes, cache.hash)
      ensures Valid() <==> forall nick ::
                Lookup(table, cache.hashes, cache.hash, useCache, nick) == Lookup(table, cache.hashes, cache.hash, false, nick)
    {
      useCache := true;
      CacheIsTransparent(table, cache.hashes, cache.hash);
    }
  }

  /** A list that is opened with its cache off, and has it switched on, no longer finds any of
      its users. */
  method NobodyIsFound(rows: map<string, RegInfo>, hash: string -> int, nick: string) returns (before: Option<RegInfo>, after: Option<RegInfo>)
    requires nick in rows
    ensures before == Some(rows[nick]) && after == None
  {
    var list := new RegList(rows, hash, false);
    before := list.FindRegInfo(nick);
    list.SwitchOn();
    after := list.FindRegInfo(nick);
  }
}
