/** The hub's shared counters: online users, users per zone, and the total share, through
    nick validation, passwords, MyINFO, zone moves, operator commands and disconnects. */
module HubAccounts {
  import opened Texts
  import opened Wrappers

  // ---- the reference: sums over a list of accounts ----

  /** What one connection contributes to the counters. `limit` is the user limit it was
      admitted under, if any. */
  datatype Entry = Entry(allowed: bool, zone: int, limit: Option<nat>, visible: nat)

  /** What is summed: users, users of a zone, visible bytes, or users admitted under a limit
      of at most `limit`. */
  datatype Sum = Users | UsersIn(zone: int) | Share | Under(limit: nat)

  function Weight(k: Sum, e: Entry): nat {
    match k
    case Users => if e.allowed then 1 else 0
    case UsersIn(z) => if e.allowed && e.zone == z then 1 else 0
    case Share => e.visible
    case Under(l) => if e.allowed && e.limit.Some? && e.limit.value <= l then 1 else 0
  }

  function Total(book: seq<Entry>, k: Sum): nat {
    if book == [] then 0 else Weight(k, book[0]) + Total(book[1..], k)
  }

  lemma {:induction false} TotalUpdate(book: seq<Entry>, i: nat, e: Entry, k: Sum)
    requires i < |book|
    ensures Total(book[i := e], k) + Weight(k, book[i]) == Total(book, k) + Weight(k, e)
    decreases |book|
  {
    if i > 0 {
      assert book[i := e][1..] == book[1..][i - 1 := e];
      TotalUpdate(book[1..], i - 1, e, k);
    } else {
      assert book[i := e][1..] == book[1..];
    }
  }

  lemma {:induction false} TotalRemove(book: seq<Entry>, i: nat, k: Sum)
    requires i < |book|
    ensures Total(book[..i] + book[i + 1..], k) + Weight(k, book[i]) == Total(book, k)
    decreases |book|
  {
    var r := book[..i] + book[i + 1..];
    if i > 0 {
      assert r[0] == book[0] && r[1..] == book[1..][..i - 1] + book[1..][i..];
      TotalRemove(book[1..], i - 1, k);
    } else {
      assert r == book[1..];
    }
  }

  /** Admission under a limit counts at most all users, so a limit compared with all users
      bounds everybody admitted under it or a smaller one. */
  lemma {:induction false} UnderIsAtMostUsers(book: seq<Entry>, limit: nat)
    ensures Total(book, Under(limit)) <= Total(book, Users)
    decreases |book|
  {
    if book != [] {
      UnderIsAtMostUsers(book[1..], limit);
    }
  }

  // ---- 64-bit arithmetic of mTotalShare and mShare ----

  const TWO64: int := 0x1_0000_0000_0000_0000

  function Wrap(x: int): (r: nat)
    ensures r < TWO64 && (0 <= x < TWO64 ==> r == x)
  {
    x % TWO64
  }

  lemma WrapAdd(x: int, y: int)
    ensures Wrap(Wrap(x) + y) == Wrap(x + y)
  {
    var q := x / TWO64;
    assert x == q * TWO64 + Wrap(x);
    assert x + y == q * TWO64 + (Wrap(x) + y);
    ModShift(Wrap(x) + y, q);
  }

  lemma ModShift(x: int, q: int)
    ensures (q * TWO64 + x) % TWO64 == x % TWO64
  {
  }

  /** What a size field of MyINFO is worth: at most 18 characters that pass the number test,
      otherwise 0. A leading minus passes, and wraps. */
  function ShareOf(text: string): (r: nat)
    ensures r < TWO64
  {
    if |text| > 18 || !IsNumber(text) then 0 else Wrap(Value(text))
  }

  predicate IsNumber(text: string) {
    text != "" && forall i :: 0 <= i < |text| ==> IsDigit(text[i]) || (i == 0 && text[i] == '-')
  }

  function Value(text: string): int
    requires IsNumber(text)
  {
    if text[0] == '-' then 0 - Digits(text[1..]) else Digits(text)
  }

  function Digits(text: string): nat
    requires forall i :: 0 <= i < |text| ==> IsDigit(text[i])
  {
    if text == "" then 0
    else
      var k := |text| - 1;
      assert IsDigit(text[k]);
      10 * Digits(text[..k]) + (text[k] as int - '0' as int)
  }

  lemma {:induction false} DigitsOfPrinted(zeros: string, n: nat)
    requires Zeros(zeros)
    ensures forall c <- Decimal(n) :: IsDigit(c)
    ensures forall i :: 0 <= i < |zeros + Decimal(n)| ==> IsDigit((zeros + Decimal(n))[i])
    ensures Digits(zeros + Decimal(n)) == n
    decreases n
  {
    DecimalIsDigits(n);
    var t := zeros + Decimal(n);
    forall i | 0 <= i < |t| ensures IsDigit(t[i]) {
      assert i >= |zeros| ==> t[i] == Decimal(n)[i - |zeros|] && Decimal(n)[i - |zeros|] in Decimal(n);
    }
    if n < 10 {
      assert t[..|t| - 1] == zeros && t[|t| - 1] == Digit(n);
      DigitsOfZeros(zeros);
    } else {
      assert t[..|t| - 1] == zeros + Decimal(n / 10) && t[|t| - 1] == Digit(n % 10);
      DigitsOfPrinted(zeros, n / 10);
    }
  }

  lemma {:induction false} DigitsOfZeros(zeros: string)
    requires Zeros(zeros)
    ensures Digits(zeros) == 0
  {
    if zeros != "" {
      DigitsOfZeros(zeros[..|zeros| - 1]);
    }
  }

  /** A size of at most 18 digits is taken at its value, whatever zeros stand in front; and with a
      minus sign in front, and 18 characters at most, as that many bytes below 2^64. */
  lemma ShareOfPrinted(zeros: string, n: nat)
    requires Zeros(zeros) && |zeros + Decimal(n)| <= 18
    ensures ShareOf(zeros + Decimal(n)) == n
    ensures |zeros + Decimal(n)| <= 17 ==> ShareOf("-" + (zeros + Decimal(n))) == if n == 0 then 0 else TWO64 - n
  {
    var t := zeros + Decimal(n);
    DigitsOfPrinted(zeros, n);
    PrintedBelow(n);
    assert t[0] != '-' by { assert IsDigit(t[0]); }
    var m := "-" + t;
    assert m[1..] == t && forall i :: 1 <= i < |m| ==> m[i] == t[i - 1];
  }

  lemma PrintedBelow(n: nat)
    requires |Decimal(n)| <= 18
    ensures n < 1_000_000_000_000_000_000
  {
    DecimalBelow(n);
    PowersOfTen();
    PowerGrows(|Decimal(n)|, 18);
  }

  lemma PowersOfTen()
    ensures Power10(18) == 1_000_000_000_000_000_000
  {
    assert Power10(3) == 10 * 10 * 10 * Power10(0);
    assert Power10(6) == 10 * 10 * 10 * Power10(3);
    assert Power10(9) == 10 * 10 * 10 * Power10(6);
    assert Power10(12) == 10 * 10 * 10 * Power10(9);
    assert Power10(15) == 10 * 10 * 10 * Power10(12);
    assert Power10(18) == 10 * 10 * 10 * Power10(15);
  }

  lemma {:induction false} PowerGrows(j: nat, k: nat)
    requires j <= k
    ensures Power10(j) <= Power10(k)
    decreases k
  {
    if j < k {
      PowerGrows(j, k - 1);
    }
  }

  lemma {:induction false} DecimalBelow(n: nat)
    ensures n < Power10(|Decimal(n)|)
    decreases n
  {
    if n < 10 {
      assert Power10(1) == 10 * Power10(0);
    } else {
      DecimalBelow(n / 10);
    }
  }

  /** In particular every number below 10^18 comes back from its decimal text. */
  lemma ShareOfNumber(n: nat)
    requires n < 1_000_000_000_000_000_000
    ensures ShareOf(Decimal(n)) == n
  {
    PowersOfTen();
    DecimalLength(n, 18);
    assert "" + Decimal(n) == Decimal(n);
    ShareOfPrinted("", n);
  }

  /** All other texts count nothing: the empty one, those of more than 18 characters, and those
      with a character that is no digit, other than one minus sign in front. Whatever counts is
      one of the texts of `ShareOfPrinted`. */
  lemma ShareOfOther(text: string)
    ensures |text| > 18 ==> ShareOf(text) == 0
    ensures text == "" || text == "-" ==> ShareOf(text) == 0
    ensures forall i :: 0 <= i < |text| && !IsDigit(text[i]) && !(i == 0 && text[i] == '-') ==> ShareOf(text) == 0
    ensures ShareOf(text) != 0 ==>
              exists zeros, n :: Zeros(zeros) && (text == zeros + Decimal(n) || text == "-" + (zeros + Decimal(n)))
  {
    if text == "-" {
      assert text[1..] == "";
    }
    if ShareOf(text) != 0 {
      var t := if text[0] == '-' then text[1..] else text;
      assert text[0] == '-' ==> text == "-" + t;
      var zeros, n := DigitsArePrinted(t);
    }
  }

  /** A leading minus passes the number test and wraps: "-5" counts as 2^64 - 5 bytes. */
  lemma ShareOfNegative()
    ensures ShareOf("-5") == TWO64 - 5
  {
    assert "" + Decimal(5) == "5" && "-" + "5" == "-5";
    ShareOfPrinted("", 5);
  }

  // ---- the counters against the reference, step by step ----

  const ZONES: nat := 7      // USER_ZONES + 1

  datatype Counters = Counters(tot: nat, zones: seq<nat>, share: nat)

  /** The counters are the sums over the live connections. `drift` is the share that was
      dropped from the sum without being subtracted from the counter. */
  ghost predicate Match(n: Counters, book: seq<Entry>, drift: nat) {
    && |n.zones| == ZONES
    && n.tot == Total(book, Users)
    && (forall z :: 0 <= z < ZONES ==> n.zones[z] == Total(book, UsersIn(z)))
    && n.share == Wrap(Total(book, Share) + drift)
    && (forall l: nat :: Total(book, Under(l)) <= l)
  }

  lemma MatchAdmit(n: Counters, book: seq<Entry>, drift: nat, i: nat, e: Entry)
    requires Match(n, book, drift) && i < |book| && !book[i].allowed
    requires e.allowed && 0 <= e.zone < ZONES && e.visible == book[i].visible
    requires e.limit.Some? ==> n.tot < e.limit.value
    ensures Match(Counters(n.tot + 1, n.zones[e.zone := n.zones[e.zone] + 1], n.share), book[i := e], drift)
  {
    TotalUpdate(book, i, e, Users);
    TotalUpdate(book, i, e, Share);
    forall z | 0 <= z < ZONES ensures Total(book[i := e], UsersIn(z)) == Total(book, UsersIn(z)) + if z == e.zone then 1 else 0 {
      TotalUpdate(book, i, e, UsersIn(z));
    }
    forall l: nat ensures Total(book[i := e], Under(l)) <= l {
      TotalUpdate(book, i, e, Under(l));
      UnderIsAtMostUsers(book, l);
    }
  }

  lemma MatchMove(n: Counters, book: seq<Entry>, drift: nat, i: nat, zone: int)
    requires Match(n, book, drift) && i < |book| && book[i].allowed && 0 <= book[i].zone < ZONES && 0 <= zone < ZONES
    ensures n.zones[book[i].zone] > 0
    ensures var z1 := n.zones[book[i].zone := n.zones[book[i].zone] - 1];
            Match(n.(zones := z1[zone := z1[zone] + 1]), book[i := book[i].(zone := zone)], drift)
  {
    var e := book[i].(zone := zone);
    TotalUpdate(book, i, e, Users);
    TotalUpdate(book, i, e, Share);
    TotalRemove(book, i, UsersIn(book[i].zone));
    forall z | 0 <= z < ZONES
      ensures Total(book[i := e], UsersIn(z)) + (if z == book[i].zone then 1 else 0) == Total(book, UsersIn(z)) + (if z == zone then 1 else 0)
    {
      TotalUpdate(book, i, e, UsersIn(z));
    }
    forall l: nat ensures Total(book[i := e], Under(l)) <= l {
      TotalUpdate(book, i, e, Under(l));
    }
  }

  lemma ShareStep(share: nat, total: int, drift: int, minus: int, plus: int)
    requires share == Wrap(total + drift)
    ensures Wrap(Wrap(share - minus) + plus) == Wrap(total - minus + plus + drift)
  {
    WrapAdd(total + drift, -minus);
    WrapAdd(total + drift - minus, plus);
    assert total + drift - minus + plus == total - minus + plus + drift;
  }

  /** A visible share changes by subtracting the old and adding the new one. */
  lemma MatchShare(n: Counters, book: seq<Entry>, drift: nat, i: nat, visible: nat)
    requires Match(n, book, drift) && i < |book|
    ensures Match(n.(share := Wrap(Wrap(n.share - book[i].visible) + visible)), book[i := book[i].(visible := visible)], drift)
  {
    var e := book[i].(visible := visible);
    MatchSameUsers(n, book, drift, i, e);
    TotalUpdate(book, i, e, Share);
    ShareStep(n.share, Total(book, Share), drift, book[i].visible, visible);
  }

  /** A share that turns invisible behind the counter's back is drift. */
  lemma MatchLeak(n: Counters, book: seq<Entry>, drift: nat, i: nat)
    requires Match(n, book, drift) && i < |book|
    ensures Match(n, book[i := book[i].(visible := 0)], drift + book[i].visible)
  {
    var e := book[i].(visible := 0);
    MatchSameUsers(n, book, drift, i, e);
    TotalUpdate(book, i, e, Share);
  }

  lemma MatchSameUsers(n: Counters, book: seq<Entry>, drift: nat, i: nat, e: Entry)
    requires Match(n, book, drift) && i < |book| && e == book[i].(visible := e.visible)
    ensures n.tot == Total(book[i := e], Users)
    ensures forall z :: 0 <= z < ZONES ==> n.zones[z] == Total(book[i := e], UsersIn(z))
    ensures forall l: nat :: Total(book[i := e], Under(l)) <= l
  {
    TotalUpdate(book, i, e, Users);
    forall z | 0 <= z < ZONES ensures n.zones[z] == Total(book[i := e], UsersIn(z)) {
      TotalUpdate(book, i, e, UsersIn(z));
    }
    forall l: nat ensures Total(book[i := e], Under(l)) <= l {
      TotalUpdate(book, i, e, Under(l));
    }
  }

  /** A drifted share outlives its user: when the connection goes, the counter keeps it. */
  lemma DriftOutlivesUser(n: Counters, book: seq<Entry>, drift: nat, i: nat)
    requires Match(n, book, drift) && i < |book| && book[i].allowed && 0 <= book[i].zone < ZONES
    ensures n.tot > 0 && n.zones[book[i].zone] > 0
    ensures Match(Counters(n.tot - 1, n.zones[book[i].zone := n.zones[book[i].zone] - 1], n.share),
                  book[..i] + book[i + 1..], drift + book[i].visible)
  {
    var hidden := book[i := book[i].(visible := 0)];
    MatchLeak(n, book, drift, i);
    MatchRemove(n, hidden, drift + book[i].visible, i);
    assert hidden[..i] + hidden[i + 1..] == book[..i] + book[i + 1..];
  }

  lemma MatchRemove(n: Counters, book: seq<Entry>, drift: nat, i: nat)
    requires Match(n, book, drift) && i < |book| && (book[i].allowed ==> 0 <= book[i].zone < ZONES)
    ensures |n.zones| == ZONES && n.share < TWO64
    ensures book[i].allowed ==> n.tot > 0 && n.zones[book[i].zone] > 0
    ensures var zones := if book[i].allowed then n.zones[book[i].zone := n.zones[book[i].zone] - 1] else n.zones;
            Match(Counters(if book[i].allowed then n.tot - 1 else n.tot, zones, Wrap(n.share - book[i].visible)),
                  book[..i] + book[i + 1..], drift)
  {
    var r := book[..i] + book[i + 1..];
    TotalRemove(book, i, Users);
    TotalRemove(book, i, Share);
    if book[i].allowed {
      TotalRemove(book, i, UsersIn(book[i].zone));
    }
    WrapAdd(Total(book, Share) + drift, 0 - book[i].visible);
    assert Total(book, Share) + drift - book[i].visible == Total(r, Share) + drift;
    forall z | 0 <= z < ZONES
      ensures Total(r, UsersIn(z)) + (if book[i].allowed && z == book[i].zone then 1 else 0) == Total(book, UsersIn(z))
    {
      TotalRemove(book, i, UsersIn(z));
    }
    forall l: nat ensures Total(r, Under(l)) <= l {
      TotalRemove(book, i, Under(l));
    }
  }

  // ---- classes, limits and passwords ----

  const PINGER: int := -1
  const REGUSER: int := 1
  const VIPUSER: int := 2
  const OPERATOR: int := 3
  const CHEEF: int := 4
  const ADMIN: int := 5
  const MASTER: int := 10

  datatype RegInfo = RegInfo(enabled: bool, cls: int, pwdChange: bool, hasPassword: bool, hideShare: bool)

  datatype Config = Config(
    maxUsersTotal: nat, maxUsers: seq<nat>,
    extraPings: nat, extraRegs: nat, extraVips: nat, extraOps: nat, extraCheefs: nat, extraAdmins: nat,
    limitPerIp: bool, alwaysAskPassword: bool)

  function TheoreticalClass(reg: Option<RegInfo>, botInfo: bool): int {
    if reg.None? || !reg.value.enabled then (if botInfo then PINGER else 0) else reg.value.cls
  }

  predicate NeedsPassword(reg: Option<RegInfo>, alwaysAsk: bool) {
    && reg.Some?
    && (reg.value.enabled || reg.value.cls == MASTER)
    && reg.value.cls != PINGER
    && (!reg.value.pwdChange || (reg.value.hasPassword && alwaysAsk))
  }

  lemma PingersAreNotAsked(reg: Option<RegInfo>, alwaysAsk: bool)
    ensures reg.Some? && reg.value.cls == PINGER ==> !NeedsPassword(reg, alwaysAsk)
  {
  }

  function Extra(cfg: Config, cls: int): nat {
    if cls == PINGER then cfg.extraPings
    else if cls == REGUSER then cfg.extraRegs
    else if cls == VIPUSER then cfg.extraVips
    else if cls == OPERATOR then cfg.extraOps
    else if cls == CHEEF then cfg.extraCheefs
    else if cls == ADMIN then cfg.extraAdmins
    else 0
  }

  /** The class counts only for enabled registrations; everybody else is a plain user, or a
      pinger. A password is asked of enabled users, and of a master in any case, but never of
      pingers; while a new one is due, only of those who have one, and only if that is set. */
  lemma WhoIsAsked(cls: int, pwdChange: bool, hasPassword: bool, hideShare: bool, alwaysAsk: bool, botInfo: bool)
    ensures var on, off := Some(RegInfo(true, cls, pwdChange, hasPassword, hideShare)), Some(RegInfo(false, cls, pwdChange, hasPassword, hideShare));
            && TheoreticalClass(on, botInfo) == cls
            && TheoreticalClass(off, botInfo) == TheoreticalClass(None, botInfo) == (if botInfo then -1 else 0)
            && !NeedsPassword(None, alwaysAsk)
            && (cls == -1 ==> !NeedsPassword(on, alwaysAsk) && !NeedsPassword(off, alwaysAsk))
            && (cls != -1 && !pwdChange ==> NeedsPassword(on, alwaysAsk) && (NeedsPassword(off, alwaysAsk) <==> cls == 10))
            && (cls != -1 && pwdChange && !hasPassword ==> !NeedsPassword(on, alwaysAsk) && !NeedsPassword(off, alwaysAsk))
            && (cls != -1 && pwdChange && hasPassword ==>
                  (NeedsPassword(on, alwaysAsk) <==> alwaysAsk) && (NeedsPassword(off, alwaysAsk) <==> alwaysAsk && cls == 10))
  {
  }

  /** Every class below operator, and each operator class, has its own extra places. */
  lemma ExtraPlaces(cfg: Config)
    ensures [Extra(cfg, -1), Extra(cfg, 0), Extra(cfg, 1), Extra(cfg, 2), Extra(cfg, 3), Extra(cfg, 4), Extra(cfg, 5), Extra(cfg, 10)]
            == [cfg.extraPings, 0, cfg.extraRegs, cfg.extraVips, cfg.extraOps, cfg.extraCheefs, cfg.extraAdmins, 0]
  {
  }

  /** What the hub finds out while it validates a nick. */
  datatype LoginFacts = LoginFacts(
    syntaxOk: bool, nickValid: bool, botInfo: bool, reg: Option<RegInfo>,
    ipFull: bool, authIpMismatch: bool, fakeZone: Option<int>, pluginAccepts: bool)

  /** How the first checks of a MyINFO message end: with a closed connection, with a dropped
      message, as in flood control without closing, or well. */
  datatype MyInfoStart = Refused | Skipped | Checked

  /** How it ends once its share has been counted. */
  datatype MyInfoEnd = Rejected | Discarded | Passed(isClone: bool, flagsDone: bool, nickFree: bool)

  // ---- the connections and the hub ----

  class User {
    var share: nat
    var hideShare: bool
    var inList: bool

    constructor ()
      ensures share == 0 && !hideShare && !inList
    {
      share, hideShare, inList := 0, false, false;
    }
  }

  class ConnDC {
    var writable: bool
    var allowed: bool       // eLS_ALLOWED
    var valNick: bool       // eLS_VALNICK
    var passwd: bool        // eLS_PASSWD
    var myInfo: bool        // eLS_MYINFO
    var geoZone: int
    var reg: Option<RegInfo>
    var user: User?
    ghost var limit: Option<nat>   // the limit it was admitted under
    ghost var discarded: bool      // a plugin dropped a MyINFO of it before it was in the list
    ghost var midway: bool         // a handler is at work on it

    /** A new connection, after its zone has been set. */
    constructor (zone: int)
      ensures writable && !allowed && !valNick && !passwd && !myInfo && geoZone == zone && user == null && reg == None
      ensures limit == None && !discarded && !midway
    {
      writable, allowed, valNick, passwd, myInfo := true, false, false, false, false;
      geoZone, reg, user := zone, None, null;
      limit, discarded, midway := None, false, false;
    }

    function Visible(): nat
      reads this, user
    {
      if user == null || user.hideShare then 0 else user.share
    }

    ghost function Account(): Entry
      reads this, user
    {
      Entry(allowed, geoZone, limit, if allowed then Visible() else 0)
    }

    /** What the login sequence guarantees about one connection between messages. */
    ghost predicate Consistent()
      reads this, user
    {
      && 0 <= geoZone < ZONES
      && (user != null ==> allowed && user.share < TWO64)
      && (allowed && writable ==> valNick || midway)
      && (user != null && user.inList ==> passwd)
      && (user != null && user.hideShare ==> passwd)
      && (user != null && writable && user.share != 0 ==> user.inList || discarded || midway)
    }

    method Close()
      modifies this`writable
      ensures !writable
    {
      writable := false;
    }
  }

  class Hub {
    const cfg: Config

    var conns: seq<ConnDC>
    var userCountTot: nat
    var userCount: seq<nat>
    var totalShare: nat
    ghost var book: seq<Entry>
    ghost var drift: nat

    ghost function Members(): set<User>
      reads this, conns
    {
      set c: ConnDC | c in conns && c.user != null :: c.user
    }

    ghost predicate Aligned()
      reads this, conns, Members()
    {
      && |book| == |conns|
      && Distinct(conns)
      && (forall i, j :: 0 <= i < j < |conns| && conns[i].user != null ==> conns[i].user != conns[j].user)
      && (forall i :: 0 <= i < |conns| ==> conns[i].Consistent() && book[i] == conns[i].Account())
    }

    ghost function Counted(): Counters
      reads this
    {
      Counters(userCountTot, userCount, totalShare)
    }

    ghost predicate Valid()
      reads this, conns, Members()
    {
      && Aligned() && Match(Counted(), book, drift) && |cfg.maxUsers| == ZONES
    }

    constructor (cfg: Config)
      requires |cfg.maxUsers| == ZONES
      ensures Valid() && conns == [] && drift == 0 && this.cfg == cfg
      ensures userCountTot == 0 && totalShare == 0 && forall z :: 0 <= z < ZONES ==> userCount[z] == 0
    {
      this.cfg := cfg;
      conns, book, drift := [], [], 0;
      userCountTot, userCount, totalShare := 0, seq(ZONES, _ => 0), 0;
    }

    ghost function At(c: ConnDC): (i: nat)
      requires c in conns
      reads this
      ensures i < |conns| && conns[i] == c
    {
      IndexOf(conns, c)
    }

    /** An operation on one connection and its user leaves all other accounts as they are. */
    twostate lemma OneMoved(c: ConnDC)
      requires old(Aligned()) && conns == old(conns) && c in conns
      requires forall d <- conns :: d != c ==> unchanged(d) && (d.user != null ==> unchanged(d.user))
      requires c.user == old(c.user) || (c.user != null && fresh(c.user))
      requires c.Consistent() && book == old(book)[At(c) := c.Account()]
      ensures Aligned()
    {
      forall k | 0 <= k < |conns| && k != At(c) ensures conns[k].Consistent() && book[k] == conns[k].Account() {
        assert conns[k] in conns && conns[k] != c;
        assert old(conns[k].Consistent()) && old(book[k] == conns[k].Account());
      }
    }

    method CloseConn(c: ConnDC)
      requires Valid() && c in conns
      modifies c`writable
      ensures Valid() && !c.writable
    {
      c.Close();
      assert book == book[At(c) := c.Account()];
      OneMoved(c);
    }

    // ---- nick validation ----

    /** Counts a connection that has not been counted before. */
    method Admit(c: ConnDC, ghost limit: Option<nat>)
      requires Valid() && c in conns && !c.allowed && (limit.Some? ==> userCountTot < limit.value)
      modifies this`userCountTot, this`userCount, this`book, c`allowed, c`limit, c`midway
      ensures Valid() && conns == old(conns) && drift == old(drift)
      ensures c.allowed && c.limit == limit && c.midway
      ensures userCountTot == old(userCountTot) + 1
    {
      ghost var i, was := At(c), book;
      c.allowed := true;
      c.limit := limit;
      c.midway := true;
      userCountTot := userCountTot + 1;
      userCount := userCount[c.geoZone := userCount[c.geoZone] + 1];
      book := book[i := c.Account()];
      MatchAdmit(old(Counted()), was, drift, i, c.Account());
      OneMoved(c);
    }

    /** Moves an allowed connection to the zone its new address belongs to. */
    method ResetGeo(c: ConnDC, zone: int)
      requires Valid() && c in conns && c.allowed && 0 <= zone < ZONES
      modifies this`userCount, this`book, c`geoZone
      ensures Valid() && conns == old(conns) && drift == old(drift) && c.geoZone == zone
    {
      ghost var i, was := At(c), book;
      MatchMove(Counted(), was, drift, i, zone);
      userCount := userCount[c.geoZone := userCount[c.geoZone] - 1];
      c.geoZone := zone;
      userCount := userCount[c.geoZone := userCount[c.geoZone] + 1];
      book := book[i := c.Account()];
      OneMoved(c);
    }

    method SetPasswd(c: ConnDC)
      requires Valid() && c in conns
      modifies c`passwd
      ensures Valid() && c.passwd
    {
      c.passwd := true;
      assert book == book[At(c) := c.Account()];
      OneMoved(c);
    }

    method SetUser(c: ConnDC)
      requires Valid() && c in conns && c.allowed && c.user == null
      modifies c`user
      ensures Valid() && c.user != null && fresh(c.user) && c.user.share == 0 && !c.user.hideShare && !c.user.inList
    {
      c.user := new User();
      assert book == book[At(c) := c.Account()];
      OneMoved(c);
    }

    /** Register for a pinger, whose share is still zero. */
    method RegisterPinger(c: ConnDC, reg: RegInfo)
      requires Valid() && c in conns && c.user != null && c.user.share == 0 && c.passwd
      modifies c.user`hideShare
      ensures Valid() && c.user.hideShare == if reg.pwdChange then old(c.user.hideShare) else reg.hideShare
    {
      if !reg.pwdChange {
        c.user.hideShare := reg.hideShare;
      }
      assert book == book[At(c) := c.Account()];
      OneMoved(c);
    }

    method FinishNick(c: ConnDC)
      requires Valid() && c in conns && (c.user == null || c.user.share == 0)
      modifies c`valNick, c`midway
      ensures Valid() && c.valNick && !c.midway
    {
      c.valNick := true;
      c.midway := false;
      assert book == book[At(c) := c.Account()];
      OneMoved(c);
    }

    /** The last steps of a nick that has passed. */
    method WelcomeUser(c: ConnDC)
      requires Valid() && c in conns && c.user != null && c.user.share == 0 && !c.user.hideShare
      requires c.reg.Some? && c.reg.value.cls == PINGER ==> c.passwd
      modifies c`valNick, c`midway, c.user`hideShare
      ensures Valid() && c.valNick && !c.midway
      ensures c.user.hideShare <==> c.reg.Some? && c.reg.value.cls == PINGER && !c.reg.value.pwdChange && c.reg.value.hideShare
    {
      hide Match, Aligned;
      if c.reg.Some? && c.reg.value.cls == PINGER {
        RegisterPinger(c, c.reg.value);
      }
      FinishNick(c);
    }

    method SetReg(c: ConnDC, reg: Option<RegInfo>)
      requires Valid() && c in conns
      modifies c`reg
      ensures Valid() && c.reg == reg
    {
      c.reg := reg;
      assert book == book[At(c) := c.Account()];
      OneMoved(c);
    }

    /** The hub, or the zone of the connection, is full for this class. */
    ghost predicate FullFor(zone: int, cls: int)
      requires |userCount| == ZONES == |cfg.maxUsers| && 0 <= zone < ZONES
      reads this
    {
      cls < OPERATOR && (userCountTot >= cfg.maxUsersTotal + Extra(cfg, cls) || userCount[zone] >= cfg.maxUsers[zone] + Extra(cfg, cls))
    }

    /** Whether a counted connection passes the rest of the validation. */
    predicate Passes(facts: LoginFacts) {
      && !(cfg.limitPerIp && TheoreticalClass(facts.reg, facts.botInfo) < VIPUSER && facts.ipFull)
      && !(facts.reg.Some? && facts.authIpMismatch)
      && facts.pluginAccepts
    }

    /** DC_ValidateNick on a connection that the input loop still serves. However it ends, the
        counters are right. The connection is counted exactly if this is its first attempt, the
        nick is fine, and neither hub nor zone is full for its class; it is served afterwards
        exactly if it has also passed all later checks, and then it has its user, without a
        share, the password flag unless it still needs a password, and the flag that refuses a
        second attempt. */
    method ValidateNick(c: ConnDC, facts: LoginFacts)
      requires Valid() && c in conns && c.writable && !c.midway
      requires facts.fakeZone.Some? ==> 0 <= facts.fakeZone.value < ZONES
      modifies this`userCountTot, this`userCount, this`book
      modifies c`writable, c`allowed, c`limit, c`midway, c`reg, c`geoZone, c`passwd, c`user, c`valNick
      ensures Valid() && conns == old(conns) && drift == old(drift)
      ensures old(c.valNick) ==> !c.writable && userCountTot == old(userCountTot) && c.allowed == old(c.allowed)
      ensures !old(c.valNick) ==> !old(c.allowed) && userCountTot == old(userCountTot) + if c.allowed then 1 else 0
      ensures !old(c.valNick) ==>
                var cls := TheoreticalClass(facts.reg, facts.botInfo);
                && (c.allowed <==> facts.syntaxOk && facts.nickValid && !old(FullFor(c.geoZone, cls)))
                && (c.allowed ==> c.limit == if cls < OPERATOR then Some(cfg.maxUsersTotal + Extra(cfg, cls)) else None)
                && (c.writable <==> c.allowed && Passes(facts))
      ensures c.writable && facts.ipFull && cfg.limitPerIp ==> TheoreticalClass(facts.reg, facts.botInfo) >= VIPUSER
      ensures c.writable ==> facts.pluginAccepts && (facts.reg.Some? ==> !facts.authIpMismatch)
      ensures c.allowed && !old(c.valNick) && facts.pluginAccepts && (facts.reg.None? || !facts.authIpMismatch) && !facts.ipFull ==> c.writable
      ensures c.writable ==> c.valNick && !c.midway && c.reg == facts.reg && c.user != null && fresh(c.user)
      ensures c.writable ==> c.user.share == 0 && !c.user.inList
      ensures c.writable ==>
                (c.user.hideShare <==> facts.reg.Some? && facts.reg.value.cls == PINGER && !facts.reg.value.pwdChange && facts.reg.value.hideShare)
      ensures c.writable ==> c.passwd == (old(c.passwd) || !NeedsPassword(facts.reg, cfg.alwaysAskPassword))
      ensures c.writable ==> c.geoZone == if facts.reg.Some? && facts.fakeZone.Some? then facts.fakeZone.value else old(c.geoZone)
    {
      hide Match;
      assert c.Consistent();
      if c.valNick {
        CloseConn(c);
        return;
      }
      if !facts.syntaxOk {
        CloseConn(c);
        return;
      }
      SetReg(c, facts.reg);
      if !facts.nickValid {
        CloseConn(c);
        return;
      }
      var cls := TheoreticalClass(c.reg, facts.botInfo);
      var admitted := AdmitOrClose(c, cls);
      if admitted {
        AfterAdmission(c, facts, cls);
      }
    }

    /** The user limits: of the hub and of the zone, below operator class. */
    method AdmitOrClose(c: ConnDC, cls: int) returns (admitted: bool)
      requires Valid() && c in conns && !c.allowed
      modifies this`userCountTot, this`userCount, this`book, c`writable, c`allowed, c`limit, c`midway
      ensures Valid() && conns == old(conns) && drift == old(drift)
      ensures userCountTot == old(userCountTot) + if admitted then 1 else 0
      ensures c.allowed == admitted && (if admitted then c.midway && c.writable == old(c.writable) else !c.writable)
      ensures !admitted <==> old(FullFor(c.geoZone, cls))
      ensures cls >= OPERATOR ==> admitted
      ensures cls < OPERATOR ==>
                (admitted <==> old(userCountTot) < cfg.maxUsersTotal + Extra(cfg, cls)
                               && old(userCount[c.geoZone]) < cfg.maxUsers[c.geoZone] + Extra(cfg, cls))
      ensures admitted ==> c.limit == if cls < OPERATOR then Some(cfg.maxUsersTotal + Extra(cfg, cls)) else None
    {
      var limit := cfg.maxUsersTotal + Extra(cfg, cls);
      var limitZone := cfg.maxUsers[c.geoZone] + Extra(cfg, cls);
      if cls < OPERATOR && (userCountTot >= limit || userCount[c.geoZone] >= limitZone) {
        CloseConn(c);
        return false;
      }
      Admit(c, if cls < OPERATOR then Some(limit) else None);
      return true;
    }

    /** The rest of the validation, with the connection already counted. */
    method AfterAdmission(c: ConnDC, facts: LoginFacts, cls: int)
      requires Valid() && c in conns && c.writable && c.allowed && c.midway && c.user == null
      requires c.reg == facts.reg && cls == TheoreticalClass(facts.reg, facts.botInfo)
      requires facts.fakeZone.Some? ==> 0 <= facts.fakeZone.value < ZONES
      modifies this`userCount, this`book, c`writable, c`midway, c`geoZone, c`passwd, c`user, c`valNick
      ensures Valid() && (c.writable <==> Passes(facts))
      ensures c.writable ==> c.valNick && !c.midway && c.user != null && fresh(c.user)
      ensures c.writable ==> c.user.share == 0 && !c.user.inList
      ensures c.writable ==>
                (c.user.hideShare <==> facts.reg.Some? && facts.reg.value.cls == PINGER && !facts.reg.value.pwdChange && facts.reg.value.hideShare)
      ensures c.writable ==> c.passwd == (old(c.passwd) || !NeedsPassword(facts.reg, cfg.alwaysAskPassword))
      ensures c.writable ==> c.geoZone == if facts.reg.Some? && facts.fakeZone.Some? then facts.fakeZone.value else old(c.geoZone)
    {
      hide Match, Aligned, NeedsPassword, TheoreticalClass, Members;
      PingersAreNotAsked(facts.reg, cfg.alwaysAskPassword);
      if cfg.limitPerIp && cls < VIPUSER && facts.ipFull {
        CloseConn(c);
        return;
      }
      if c.reg.Some? && facts.authIpMismatch {
        CloseConn(c);
        return;
      }
      if c.reg.Some? && facts.fakeZone.Some? {
        ResetGeo(c, facts.fakeZone.value);
      }
      var asks := NeedsPassword(c.reg, cfg.alwaysAskPassword);
      if !asks {
        SetPasswd(c);
      }
      SetUser(c);
      if !facts.pluginAccepts {
        CloseConn(c);
        return;
      }
      WelcomeUser(c);
    }

    // ---- password ----

    /** The right password: Register takes the hide flag from the registration, without a look
        at the total share. The counter drifts by the share that this hides. */
    method AcceptPassword(c: ConnDC)
      requires Valid() && c in conns && c.writable && !c.midway && c.user != null && !c.passwd && c.reg.Some?
      modifies this`book, this`drift, c`passwd, c.user`hideShare
      ensures Valid() && c.passwd && conns == old(conns)
      ensures drift == old(drift) + if !c.reg.value.pwdChange && c.reg.value.hideShare then old(c.user.share) else 0
      ensures drift != old(drift) ==> c.discarded
      ensures !c.reg.value.pwdChange ==> c.user.hideShare == c.reg.value.hideShare
    {
      hide Match, Total;
      ghost var i, was := At(c), book;
      c.passwd := true;
      if !c.reg.value.pwdChange {
        c.user.hideShare := c.reg.value.hideShare;
      }
      if c.user.hideShare {
        MatchLeak(Counted(), was, drift, i);
        drift := drift + c.user.share;
      }
      book := book[i := c.Account()];
      assert !c.user.hideShare ==> book == was;
      OneMoved(c);
    }

    /** DC_MyPass. `setPass` marks the reply to a request for a new password, which touches
        no counter. */
    method MyPass(c: ConnDC, setPass: bool, syntaxOk: bool, right: bool)
      requires Valid() && c in conns && c.writable && !c.midway
      modifies this`book, this`drift, c`writable, c`passwd, (if c.user == null then {} else {c.user})`hideShare
      ensures Valid() && conns == old(conns)
      ensures !c.writable <==> c.user == null || (old(c.passwd) && !setPass) || !syntaxOk
                               || (!setPass && c.reg.Some? && !right && c.reg.value.cls != 0)
      ensures c.passwd <==> old(c.passwd) || (c.user != null && !setPass && syntaxOk && c.reg.Some? && right)
      ensures var hides := !old(c.passwd) && c.passwd && !c.reg.value.pwdChange && c.reg.value.hideShare;
              drift == old(drift) + if hides then c.user.share else 0
      ensures drift != old(drift) ==> c.discarded
      ensures c.user != null && c.passwd && !old(c.passwd) && !c.reg.value.pwdChange ==> c.user.hideShare == c.reg.value.hideShare
    {
      hide Match;
      if c.user == null || (c.passwd && !setPass) || !syntaxOk {
        CloseConn(c);
        return;
      }
      if setPass {
        return;
      }
      if c.reg.Some? && right {
        AcceptPassword(c);
      } else if c.reg.Some? && c.reg.value.cls != 0 {
        CloseConn(c);
      }
    }

    // ---- share ----

    /** A total that had the old visible share taken out and the new one put in is right. */
    twostate lemma ShareMoved(c: ConnDC)
      requires old(Valid()) && c in conns && unchanged(`conns, `drift, `userCountTot, `userCount)
      requires forall d <- conns :: d != c ==> unchanged(d) && (d.user != null ==> unchanged(d.user))
      requires c.user == old(c.user) && c.allowed == old(c.allowed) && c.geoZone == old(c.geoZone) && c.limit == old(c.limit)
      requires c.Consistent() && book == old(book)[At(c) := c.Account()]
      requires totalShare == Wrap(Wrap(old(totalShare) - old(c.Account()).visible) + c.Account().visible)
      ensures Valid()
    {
      hide Total;
      OneMoved(c);
      assert old(book[At(c)]) == old(c.Account());
      MatchShare(old(Counted()), old(book), drift, At(c), c.Account().visible);
    }

    /** The share part of DC_MyINFO: the old share goes out of the total, the new one goes in,
        and neither does while the share is hidden. */
    method CountShare(c: ConnDC, size: string)
      requires Valid() && c in conns && c.user != null
      modifies this`totalShare, this`book, c.user`share, c`midway
      ensures Valid() && conns == old(conns) && drift == old(drift)
      ensures c.user.share == ShareOf(size) && c.midway
      ensures if c.user.hideShare then totalShare == old(totalShare)
              else totalShare == Wrap(old(totalShare) - old(c.user.share) + c.user.share)
    {
      hide Match, Total, ShareOf, IsNumber, Wrap, Distinct;
      TotalShareFits();
      c.midway := true;
      if !c.user.hideShare {
        totalShare := Wrap(totalShare - c.user.share);
      }
      c.user.share := ShareOf(size);
      if !c.user.hideShare {
        totalShare := Wrap(totalShare + c.user.share);
      }
      WrapAdd(old(totalShare) - old(c.user.share), c.user.share);
      book := book[At(c) := c.Account()];
      ShareMoved(c);
    }

    /** The handler is done with a connection that is closed, listed, or had its MyINFO
        dropped by a plugin. */
    method Settle(c: ConnDC, dropped: bool)
      requires Valid() && c in conns && c.user != null
      requires c.writable ==> c.valNick && (c.user.inList || dropped)
      modifies c`midway, c`discarded
      ensures Valid() && !c.midway && c.discarded == (old(c.discarded) || (dropped && !c.user.inList))
    {
      c.midway := false;
      c.discarded := c.discarded || (dropped && !c.user.inList);
      assert book == book[At(c) := c.Account()];
      OneMoved(c);
    }

    /** Entering the user list needs the whole login, and the password with it. */
    method EnterList(c: ConnDC)
      requires Valid() && c in conns && c.user != null && c.passwd
      modifies c.user`inList
      ensures Valid() && c.user.inList
    {
      c.user.inList := true;
      assert book == book[At(c) := c.Account()];
      OneMoved(c);
    }

    method SetMyInfo(c: ConnDC)
      requires Valid() && c in conns
      modifies c`myInfo
      ensures Valid() && c.myInfo
    {
      c.myInfo := true;
      assert book == book[At(c) := c.Account()];
      OneMoved(c);
    }

    /** The first MyINFO that gets this far either lists the user or closes the connection. */
    method FirstMyInfo(c: ConnDC, isClone: bool, flagsDone: bool, nickFree: bool)
      requires Valid() && c in conns && c.user != null && !c.user.inList
      modifies c`writable, c`myInfo, c.user`inList
      ensures Valid() && c.myInfo == (old(c.myInfo) || !isClone)
      ensures c.user.inList <==> !isClone && flagsDone && c.valNick && c.passwd && c.allowed && nickFree
      ensures c.writable <==> old(c.writable) && c.user.inList
    {
      if isClone {
        CloseConn(c);
        return;
      }
      SetMyInfo(c);
      if !(flagsDone && c.valNick && c.passwd && c.myInfo && c.allowed) || !nickFree {
        CloseConn(c);
        return;
      }
      EnterList(c);
    }

    /** DC_MyINFO, with what comes before and after the share is counted as an arbitrary start
        and end. The counter is right however it ends, and a connection that is still served and
        not listed is one whose MyINFO a plugin dropped. */
    method MyInfo(c: ConnDC, start: MyInfoStart, size: string, end: MyInfoEnd)
      requires Valid() && c in conns && c.writable && !c.midway
      modifies this`totalShare, this`book, c`writable, c`midway, c`discarded, c`myInfo
      modifies (if c.user == null then {} else {c.user})`share, (if c.user == null then {} else {c.user})`inList
      ensures Valid() && conns == old(conns) && drift == old(drift)
      ensures c.user == null || start.Refused? || (start.Checked? && end.Rejected?) ==> !c.writable
      ensures c.user != null && start.Skipped? ==> unchanged(c) && unchanged(c.user) && unchanged(this)
      ensures c.user != null ==> c.user.share == if start.Checked? then ShareOf(size) else old(c.user.share)
      ensures c.user != null && start.Checked? && c.writable ==> !c.midway && (c.user.inList || c.discarded)
      ensures c.user != null && start.Checked? && end.Discarded? ==> c.writable && c.user.inList == old(c.user.inList)
      ensures c.user != null && start.Checked? && end.Passed? && old(c.user.inList) ==> c.writable && c.user.inList
      ensures c.user != null && start.Checked? && end.Passed? && !old(c.user.inList) ==>
                && (c.user.inList <==> !end.isClone && end.flagsDone && c.valNick && c.passwd && c.allowed && end.nickFree)
                && (c.writable <==> c.user.inList) && c.myInfo == (old(c.myInfo) || !end.isClone)
      ensures c.discarded ==> old(c.discarded) || (start.Checked? && end.Discarded? && c.user != null && !c.user.inList)
    {
      hide Match;
      if c.user == null || start.Refused? {
        CloseConn(c);
        return;
      }
      if start.Skipped? {
        return;
      }
      CountShare(c, size);
      match end
      case Rejected =>
        CloseConn(c);
      case Discarded =>
        Settle(c, true);
      case Passed(isClone, flagsDone, nickFree) =>
        if !c.user.inList {
          FirstMyInfo(c, isClone, flagsDone, nickFree);
        }
        Settle(c, false);
    }

    // ---- operator commands ----

    lemma TotalShareFits()
      requires Valid()
      ensures totalShare < TWO64
    {
    }

    /** !regset hide_share on an online user. */
    method SetHideShare(c: ConnDC, hidden: bool)
      requires Valid() && c in conns && c.user != null && c.user.inList
      modifies this`totalShare, this`book, c.user`hideShare
      ensures Valid() && conns == old(conns) && drift == old(drift) && c.user.hideShare == hidden
      ensures totalShare == if old(c.user.hideShare) && !hidden then Wrap(old(totalShare) + c.user.share)
                            else if !old(c.user.hideShare) && hidden then Wrap(old(totalShare) - c.user.share)
                            else old(totalShare)
    {
      hide Match, Total, IsNumber;
      TotalShareFits();
      if c.user.hideShare && !hidden {
        c.user.hideShare := false;
        totalShare := Wrap(totalShare + c.user.share);
      } else if !c.user.hideShare && hidden {
        c.user.hideShare := true;
        totalShare := Wrap(totalShare - c.user.share);
      }
      book := book[At(c) := c.Account()];
      WrapAdd(old(totalShare), 0 - old(c.Account()).visible + c.Account().visible);
      ShareMoved(c);
    }

    /** Unregistering an online user makes its share visible. */
    method Unregister(c: ConnDC)
      requires Valid() && c in conns && c.user != null && c.user.inList
      modifies this`totalShare, this`book, c.user`hideShare, c`reg
      ensures Valid() && conns == old(conns) && drift == old(drift) && !c.user.hideShare && c.reg == None
    {
      if c.user.hideShare {
        SetHideShare(c, false);
      }
      SetReg(c, None);
    }

    /** A new login with the same nick pushes the old user out of the list and closes it. */
    method Displace(c: ConnDC)
      requires Valid() && c in conns && c.user != null
      modifies c`writable, c.user`inList
      ensures Valid() && !c.writable && !c.user.inList
    {
      CloseConn(c);
      c.user.inList := false;
      assert book == book[At(c) := c.Account()];
      OneMoved(c);
    }

    // ---- arrival and departure ----

    method Connect(c: ConnDC)
      requires Valid() && c !in conns && c.Consistent() && c.user == null && !c.allowed
      modifies this`conns, this`book
      ensures Valid() && conns == old(conns) + [c] && drift == old(drift)
    {
      conns := conns + [c];
      book := book + [c.Account()];
      MatchAppend(Counted(), old(book), drift, c.Account());
    }

    /** DeleteConn takes back exactly what the connection had contributed. */
    method DeleteConn(c: ConnDC)
      requires Valid() && c in conns
      modifies this`conns, this`book, this`userCountTot, this`userCount, this`totalShare
      ensures Valid() && drift == old(drift)
      ensures forall d :: d in conns <==> d in old(conns) && d != c
    {
      hide Match;
      ghost var i := At(c);
      MatchRemove(Counted(), book, drift, i);
      if c.allowed {
        userCountTot := userCountTot - 1;
        userCount := userCount[c.geoZone := userCount[c.geoZone] - 1];
        if c.user != null && !c.user.hideShare {
          totalShare := Wrap(totalShare - c.user.share);
        }
      }
      var k := IndexOf(conns, c);
      conns := conns[..k] + conns[k + 1..];
      book := book[..k] + book[k + 1..];
      OneGone(c);
    }

    twostate lemma OneGone(c: ConnDC)
      requires old(Aligned()) && c in old(conns)
      requires forall d <- old(conns) :: unchanged(d) && (d.user != null ==> unchanged(d.user))
      requires var k := old(At(c)); conns == old(conns)[..k] + old(conns)[k + 1..] && book == old(book)[..k] + old(book)[k + 1..]
      ensures Aligned()
      ensures forall d :: d in conns <==> d in old(conns) && d != c
    {
      var k := old(At(c));
      ErasedElements(old(conns), k);
      forall j | 0 <= j < |conns|
        ensures conns[j] == old(conns)[if j < k then j else j + 1] && conns[j] != c
        ensures conns[j].Consistent() && book[j] == conns[j].Account()
      {
        var d := old(conns)[if j < k then j else j + 1];
        assert d in old(conns) && conns[j] == d;
        assert old(d.Consistent() && d.Account() == book[if j < k then j else j + 1]);
      }
    }

    // ---- what the invariant is for ----

    /** The total share is exact as long as nothing has drifted and the sum fits 64 bits. */
    lemma TotalShareIsExact()
      requires Valid() && Total(book, Share) + drift < TWO64
      ensures totalShare == Total(book, Share) <==> drift == 0
    {
    }

    /** As long as the sum fits 64 bits, no subtraction of a user's visible share underflows. */
    lemma ShareNeverUnderflows(c: ConnDC)
      requires Valid() && c in conns && Total(book, Share) + drift < TWO64
      ensures totalShare >= c.Account().visible
    {
      TotalRemove(book, At(c), Share);
    }

    /** Users admitted under a limit, or under a smaller one, never exceed it; in particular
        users of class 0 never exceed max_users. */
    lemma AdmittedWithinLimit(limit: nat)
      requires Valid()
      ensures Total(book, Under(limit)) <= limit
    {
    }
  }

  lemma {:induction false} MatchAppend(n: Counters, book: seq<Entry>, drift: nat, e: Entry)
    requires Match(n, book, drift) && !e.allowed && e.visible == 0
    ensures Match(n, book + [e], drift)
  {
    forall k ensures Total(book + [e], k) == Total(book, k) {
      TotalAppend(book, e, k);
    }
  }

  lemma {:induction false} TotalAppend(book: seq<Entry>, e: Entry, k: Sum)
    requires !e.allowed && e.visible == 0
    ensures Total(book + [e], k) == Total(book, k)
    decreases |book|
  {
    if book == [] {
      assert (book + [e])[1..] == [];
    } else {
      assert (book + [e])[1..] == book[1..] + [e];
      TotalAppend(book[1..], e, k);
    }
  }

  /** The total share does go wrong: a registered user whose share is hidden sends its MyINFO
      before its password, and a plugin drops that MyINFO. Five bytes then stay in the total
      though no user shares them. */
  method TotalGoesWrong(cfg: Config) returns (hub: Hub, c: ConnDC)
    requires |cfg.maxUsers| == ZONES && cfg.maxUsersTotal > 0 && cfg.maxUsers[0] > 0
    ensures hub.Valid() && hub.conns == [c] && c.writable
    ensures Total(hub.book, Share) == 0 && hub.totalShare == 5
  {
    hide Match, Hub.Aligned, Total, ShareOf;
    hub, c := FirstConnection(cfg);
    var reg := RegInfo(true, REGUSER, false, true, true);
    hub.ValidateNick(c, LoginFacts(true, true, false, Some(reg), false, false, None, true));
    hub.MyInfo(c, Checked, "5", Discarded);
    ShareOfNumber(5);
    hub.MyPass(c, false, true, true);
    OnlyOne(hub, c);
  }

  method FirstConnection(cfg: Config) returns (hub: Hub, c: ConnDC)
    requires |cfg.maxUsers| == ZONES
    ensures hub.Valid() && hub.conns == [c] && hub.drift == 0 && hub.cfg == cfg && fresh(hub) && fresh(c)
    ensures hub.userCountTot == 0 && hub.userCount[0] == 0
    ensures c.writable && !c.valNick && !c.passwd && !c.midway && c.geoZone == 0
  {
    hide Match;
    hub := new Hub(cfg);
    c := new ConnDC(0);
    hub.Connect(c);
  }

  lemma OnlyOne(hub: Hub, c: ConnDC)
    requires hub.Valid() && hub.conns == [c] && c.Visible() == 0 && hub.drift == 5
    ensures Total(hub.book, Share) == 0 && hub.totalShare == 5
  {
    assert hub.conns[0].Consistent() && hub.book[0] == c.Account() && hub.book[1..] == [];
  }
}
