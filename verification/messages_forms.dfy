/** The form of every message the parser accepts: which texts are split, into which pieces, and
    which are refused. */
module MessageForms {
  import opened MessageRoundTrips
  import opened Messages
  import opened Texts
  import opened Wrappers

  // ---- the commands by name ----

  lemma Typed(s: string)
    ensures forall t: nat :: t < CHAT && t != SEARCH && t != MULTI_SEARCH ==> HasType(Keyword(t) + s, t)
  {
    hide HasType, Keyword;
    forall t: nat | t < CHAT && t != SEARCH && t != MULTI_SEARCH ensures HasType(Keyword(t) + s, t) {
      TextGivesType(t, s);
    }
  }

  /** Commands that are split at delimiters, from clients. */
  lemma ClientCommands(s: string)
    ensures HasType("$ConnectToMe " + s, 0) && HasType("$RevConnectToMe " + s, 1) && HasType("$SR " + s, 2)
    ensures HasType("$Search Hub:" + s, 3) && HasType("$SA " + s, 5) && HasType("$SP " + s, 6)
  {
    hide HasType;
    Typed(s);
    assert Keyword(0) == "$ConnectToMe " && Keyword(1) == "$RevConnectToMe " && Keyword(2) == "$SR ";
    assert Keyword(3) == "$Search Hub:" && Keyword(5) == "$SA " && Keyword(6) == "$SP ";
  }

  lemma MoreClientCommands(s: string)
    ensures HasType("$MyINFO " + s, 7) && HasType("$ExtJSON " + s, 8) && HasType("$To: " + s, 16)
    ensures HasType("$GetINFO " + s, 18) && HasType("$OpForceMove $Who:" + s, 21) && HasType("$MultiConnectToMe " + s, 22)
  {
    hide HasType;
    Typed(s);
    assert Keyword(7) == "$MyINFO " && Keyword(8) == "$ExtJSON " && Keyword(16) == "$To: ";
    assert Keyword(18) == "$GetINFO " && Keyword(21) == "$OpForceMove $Who:" && Keyword(22) == "$MultiConnectToMe ";
  }

  lemma OtherCommands(s: string)
    ensures HasType("$MultiSearch Hub:" + s, 23) && HasType("$MCTo: " + s, 25) && HasType("$Ban " + s, 27)
    ensures HasType("$TempBan " + s, 28) && HasType("$MyIP " + s, 34) && HasType("$IN " + s, 37)
  {
    hide HasType;
    Typed(s);
    assert Keyword(23) == "$MultiSearch Hub:" && Keyword(25) == "$MCTo: " && Keyword(27) == "$Ban ";
    assert Keyword(28) == "$TempBan " && Keyword(34) == "$MyIP " && Keyword(37) == "$IN ";
  }

  /** Commands with one parameter, which is everything behind the keyword. */
  lemma LoginCommands(s: string)
    ensures HasType("$Key " + s, 9) && HasType("$Supports " + s, 10) && HasType("$ValidateNick " + s, 11)
    ensures HasType("$Version " + s, 12) && HasType("$MyHubURL " + s, 14) && HasType("$MyPass " + s, 15)
    ensures HasType("$BotINFO " + s, 17) && HasType("$UserIP " + s, 19)
  {
    hide HasType;
    Typed(s);
    assert Keyword(9) == "$Key " && Keyword(10) == "$Supports " && Keyword(11) == "$ValidateNick ";
    assert Keyword(12) == "$Version " && Keyword(14) == "$MyHubURL " && Keyword(15) == "$MyPass ";
    assert Keyword(17) == "$BotINFO " && Keyword(19) == "$UserIP ";
  }

  lemma OperatorCommands(s: string)
    ensures HasType("$Kick " + s, 20) && HasType("$Quit " + s, 26) && HasType("$UnBan " + s, 29)
    ensures HasType("$WhoIP " + s, 31) && HasType("$SetTopic " + s, 33) && HasType("$MyNick " + s, 35)
    ensures HasType("$Lock " + s, 36)
  {
    hide HasType;
    Typed(s);
    assert Keyword(20) == "$Kick " && Keyword(26) == "$Quit " && Keyword(29) == "$UnBan ";
    assert Keyword(31) == "$WhoIP " && Keyword(33) == "$SetTopic " && Keyword(35) == "$MyNick ";
    assert Keyword(36) == "$Lock ";
  }

  lemma OneParameter(t: int, s: string)
    requires t in {9, 10, 11, 12, 14, 15, 17, 19, 20, 26, 29, 31, 33, 35, 36}
    ensures Pieces(t, s) == Some([s])
  {
  }

  /** Commands without any. */
  lemma CommandsWithNone(s: string)
    ensures HasType("$GetNickList" + s, 13) && HasType("$GetBanList" + s, 30) && HasType("$GetTopic" + s, 32)
    ensures forall t :: t in {13, 30, 32} ==> Pieces(t, s) == Some([])
  {
    hide HasType;
    Typed(s);
    assert Keyword(13) == "$GetNickList" && Keyword(30) == "$GetBanList" && Keyword(32) == "$GetTopic";
  }

  /** Active searches must not go on as passive ones, and chat starts with a nick. */
  lemma SearchesAndChat(s: string)
    ensures HasType("$Search " + s, 4) <==> !("Hub:" <= s)
    ensures HasType("$MultiSearch " + s, 24) <==> !("Hub:" <= s)
    ensures HasType("<" + s, 38)
  {
    hide HasType;
    SearchTextType(s);
    MultiSearchType(s);
    ChatHasType("<" + s);
  }

  lemma MultiSearchType(rest: string)
    ensures HasType("$MultiSearch " + rest, MULTI_SEARCH) <==> !("Hub:" <= rest)
  {
    var s := "$MultiSearch " + rest;
    KeywordGivesType(s, MULTI_SEARCH);
    assert Keyword(MULTI_SEARCH_PAS) == "$MultiSearch " + "Hub:";
    assert Keyword(MULTI_SEARCH_PAS) <= s <==> "Hub:" <= rest by {
      assert s[|"$MultiSearch "|..] == rest;
    }
  }

  /** The commands that go to several hubs are split as their single counterparts. */
  lemma MultiAreSplitAlike(s: string)
    ensures Pieces(22, s) == Pieces(0, s) && Pieces(23, s) == Pieces(3, s) && Pieces(24, s) == Pieces(4, s)
  {
  }

  // ---- two pieces ----

  /** The one delimiter of these messages. */
  predicate SplitBy(t: int, lim: string) {
    || (t in {REV_CONNECT_TO_ME, SP, EXT_JSON, MY_IP, GET_INFO} && lim == " ")
    || (t in {BAN, IN} && lim == "$")
    || (t == CHAT && lim == "> ")
  }

  /** Two pieces joined by the delimiter come back exactly if it neither begins in the first piece
      nor straddles its end. */
  lemma TwoPiecesBack(t: int, lim: string, a: string, b: string)
    requires SplitBy(t, lim)
    ensures Pieces(t, a + lim + b) == Some([a, b]) <==> !Contains(a + lim[..|lim| - 1], lim)
  {
    hide Cut;
    CutBackText(a, lim, b);
  }

  /** A text is refused exactly if it does not hold the delimiter, and otherwise its pieces and
      the delimiter make it up. */
  lemma TwoPiecesOrNone(t: int, lim: string, s: string)
    requires SplitBy(t, lim)
    ensures Pieces(t, s).None? <==> !Contains(s, lim)
    ensures Pieces(t, s).Some? ==> var p := Pieces(t, s).value; |p| == 2 && s == p[0] + lim + p[1]
  {
    hide Cut;
    CutIsFirst(s, lim);
  }

  function ChatText(nick: string, text: string): string {
    "<" + (nick + "> " + text)
  }

  method CreateChat(nick: string, text: string) returns (dest: string)
    ensures dest == ChatText(nick, text)
  {
    dest := "<";
    dest := dest + nick;
    dest := dest + "> ";
    dest := dest + text;
  }

  /** A chat message comes back exactly if no "> " begins in the nick or straddles its end. */
  lemma ChatRoundTrip(nick: string, text: string)
    ensures var t := ChatText(nick, text);
            && HasType(t, CHAT)
            && (Pieces(CHAT, t[|Keyword(CHAT)|..]) == Some([nick, text]) <==> !Contains(nick + ">", "> "))
  {
    hide HasType, Pieces;
    var s := nick + "> " + text;
    ChatHasType("<" + s);
    assert ("<" + s)[1..] == s && "> "[..1] == ">";
    TwoPiecesBack(CHAT, "> ", nick, text);
  }

  method ChatThroughParser(parser: MessageParser, nick: string, text: string) returns (fields: seq<string>)
    requires parser.Valid() && |ChatText(nick, text)| < INT_LIMIT
    requires !Contains(nick + ">", "> ")
    modifies parser
    ensures parser.Valid() && !parser.error && parser.kind == CHAT
    ensures fields == [nick, text]
  {
    hide HasType, Pieces;
    ChatRoundTrip(nick, text);
    var s := CreateChat(nick, text);
    fields := ReadAll(parser, s, CHAT, [nick, text], 2);
  }

  // ---- three parts ----

  /** A text can be cut at one delimiter and then at another exactly if they occur in it one
      behind the other. */
  lemma CutsTwice(s: string, lim: string, lim2: string)
    requires lim != "" && lim2 != ""
    ensures CutTwice(s, lim, lim2).Some? <==> Follow(s, lim, lim2)
  {
    hide Cut;
    CutIsFirst(s, lim);
    if Cut(s, lim).Some? {
      var a := Cut(s, lim).value;
      var k := |a.left| + |lim|;
      CutIsFirst(a.right, lim2);
      forall j ensures Occurs(a.right, lim2, j - k) <==> j >= k && Occurs(s, lim2, j) {
        OccursBehind(s, lim2, k, a.right, j);
      }
      if i, j :| Occurs(s, lim, i) && i + |lim| <= j && Occurs(s, lim2, j) {
        assert Occurs(a.right, lim2, j - k);
      }
      if Cut(a.right, lim2).Some? {
        assert Occurs(a.right, lim2, |Cut(a.right, lim2).value.left| + k - k);
        assert Occurs(s, lim, |a.left|) && Occurs(s, lim2, |Cut(a.right, lim2).value.left| + k);
      }
    }
  }

  ghost predicate Follow(s: string, lim: string, lim2: string) {
    exists i, j :: Occurs(s, lim, i) && i + |lim| <= j && Occurs(s, lim2, j)
  }

  lemma OccursBehind(s: string, lim: string, k: nat, rest: string, j: int)
    requires k <= |s| && rest == s[k..]
    ensures Occurs(rest, lim, j - k) <==> j >= k && Occurs(s, lim, j)
  {
    if j >= k && j + |lim| <= |s| {
      assert rest[j - k..j - k + |lim|] == s[j..j + |lim|];
    }
  }

  /** The two delimiters of these messages. */
  predicate SplitByTwo(t: int, lim: string, lim2: string) {
    || (t in {CONNECT_TO_ME, MULTI_CONNECT_TO_ME, SA} && lim == " " && lim2 == ":")
    || (t == MCTO && lim == " $" && lim2 == " ")
    || (t == TEMP_BAN && lim == "$" && lim2 == "$")
  }

  /** These messages are refused exactly if their delimiters do not occur one behind the other. */
  lemma ThreePartsOrNone(t: int, lim: string, lim2: string, s: string)
    requires SplitByTwo(t, lim, lim2)
    ensures Pieces(t, s).Some? <==> Follow(s, lim, lim2)
  {
    hide CutTwice, Follow;
    CutsTwice(s, lim, lim2);
  }

  /** Nick and address come back exactly if the nick is free of spaces and the host of colons. */
  lemma AddressBack(t: int, a: string, host: string, port: string)
    requires t in {CONNECT_TO_ME, MULTI_CONNECT_TO_ME, SA}
    ensures Pieces(t, a + " " + (host + ":" + port)) == Some([a, host + ":" + port, host, port]) <==> ' ' !in a && ':' !in host
  {
    hide CutTwice;
    TwoCutsBack(a, host, port);
  }

  lemma McToBack(to: string, from: string, text: string)
    ensures Pieces(MCTO, to + " $" + (from + " " + text)) == Some([to, from + " " + text, from, text])
            <==> !Contains(to + " ", " $") && ' ' !in from
  {
    hide Cut;
    assert " $"[..1] == " ";
    CutBackText(to, " $", from + " " + text);
    CutBack(from, " ", text);
  }

  /** A temporary ban names nick, time and reason; the pieces are nick, reason and time. */
  lemma TempBanBack(nick: string, time: string, reason: string)
    ensures Pieces(TEMP_BAN, nick + "$" + (time + "$" + reason)) == Some([nick, reason, time]) <==> '$' !in nick && '$' !in time
  {
    hide Cut;
    CutBack(nick, "$", time + "$" + reason);
    CutBack(time, "$", reason);
  }

  // ---- force move ----

  /** Six characters in front of the destination and four in front of the reason are skipped
      unread; nick and destination have to be free of delimiters. */
  lemma ForceMoveBack(nick: string, six: string, dest: string, four: string, reason: string)
    requires |six| == 6 && |four| == 4
    ensures var p := Pieces(OP_FORCE_MOVE, nick + "$" + (six + (dest + "$" + (four + reason))));
            && (reason != "" ==> (p == Some([nick, dest, reason]) <==> '$' !in nick && '$' !in dest))
            && (reason == "" && '$' !in nick && '$' !in dest ==> p.None?)
  {
    hide Cut;
    var tail := four + reason;
    var rest := six + (dest + "$" + tail);
    CutBack(nick, "$", rest);
    CutBack(dest, "$", tail);
    assert Behind(rest, 6) == dest + "$" + tail;
    assert Behind(tail, 4) == reason;
  }

  /** It is refused as well without a delimiter, with no more than six characters behind the
      first, and without another behind those. */
  lemma ForceMoveRefused(s: string, nick: string, rest: string)
    ensures '$' !in s ==> Pieces(OP_FORCE_MOVE, s).None?
    ensures '$' !in nick && |rest| <= 6 ==> Pieces(OP_FORCE_MOVE, nick + "$" + rest).None?
    ensures '$' !in nick && |rest| > 6 && '$' !in rest[6..] ==> Pieces(OP_FORCE_MOVE, nick + "$" + rest).None?
  {
    hide Cut;
    NoCut(s, "$");
    CutBack(nick, "$", rest);
    if |rest| > 6 {
      NoCut(rest[6..], "$");
    }
  }

  lemma NoCut(s: string, lim: string)
    requires |lim| == 1
    ensures Cut(s, lim).None? <==> lim[0] !in s
  {
    CutIsFirst(s, lim);
    ContainsChar(s, lim);
    assert s + lim[..0] == s;
    if lim[0] in s {
      var k :| 0 <= k < |s| && s[k] == lim[0];
      OccursAt(s, lim, k);
    }
  }

  // ---- private messages and user information ----

  /** A private message is refused exactly if its three delimiters do not occur one behind the
      other. */
  lemma PrivateOrNone(to: string, s: string)
    ensures !Contains(s, " From: ") ==> Pieces(TO, s).None?
    ensures !Contains(to + " From:", " From: ") ==> (Pieces(TO, to + " From: " + s).Some? <==> Follow(s, " $<", "> "))
  {
    hide Cut, CutTwice, Follow;
    assert " From: "[..6] == " From:";
    CutIsFirst(s, " From: ");
    CutBackText(to, " From: ", s);
    CutsTwice(s, " $<", "> ");
  }

  /** A user's information is accepted exactly with two spaces, a delimiter with at least three
      characters behind it, and two more delimiters behind the first two of these. */
  lemma MyInfoOrNone(s: string, dest: string, nick: string, desc: string, rest: string)
    ensures !Follow(s, " ", " ") ==> Pieces(MYINFO, s).None?
    ensures ' ' !in dest && ' ' !in nick ==>
              && ('$' !in rest ==> Pieces(MYINFO, dest + " " + (nick + " " + rest)).None?)
              && ('$' !in desc ==>
                    (Pieces(MYINFO, dest + " " + (nick + " " + (desc + "$" + rest))).Some?
                     <==> |rest| > 2 && Follow(rest[2..], "$", "$")))
  {
    hide Cut, CutTwice, Follow;
    CutsTwice(s, " ", " ");
    if ' ' !in dest && ' ' !in nick {
      TwoSpaces(dest, nick, rest);
      NoCut(rest, "$");
      TwoSpaces(dest, nick, desc + "$" + rest);
      CutBack(desc, "$", rest);
      if |rest| > 2 {
        CutsTwice(rest[2..], "$", "$");
      }
    }
  }

  lemma TwoSpaces(a: string, b: string, c: string)
    requires ' ' !in a && ' ' !in b
    ensures CutTwice(a + " " + (b + " " + c), " ", " ") == Some([a, b + " " + c, b, c])
  {
    CutBack(a, " ", b + " " + c);
    CutBack(b, " ", c);
  }

  // ---- searches ----

  /** An active search needs a space and a colon. With an address it is accepted exactly if the
      colon is in the address and there is a question mark behind it. */
  lemma ActiveOrNone(t: int, s: string, addr: string, query: string)
    requires t == SEARCH || t == MULTI_SEARCH
    ensures ' ' !in s || ':' !in s ==> Pieces(t, s).None?
    ensures ' ' !in addr && addr != "" ==> (Pieces(t, addr + " " + query).Some? <==> ':' in addr && '?' in query)
  {
    hide ActivePieces, Cut, CutLast;
    ActiveNeeds(s);
    if ' ' !in addr && addr != "" {
      if ':' in addr {
        ActiveAddressed(addr, query);
      } else {
        ActiveUnaddressed(addr, query);
      }
    }
  }

  lemma ActiveNeeds(s: string)
    ensures ' ' !in s || ':' !in s ==> ActivePieces(s).None?
  {
    hide Cut, CutLast;
    NoCut(s, " ");
    NoCut(s, ":");
  }

  lemma ActiveUnaddressed(addr: string, query: string)
    requires ' ' !in addr && addr != "" && ':' !in addr
    ensures ActivePieces(addr + " " + query).None?
  {
    hide Cut, CutLast;
    CutBack(addr, " ", query);
    ColonBehind(addr, query);
  }

  lemma ActiveAddressed(addr: string, query: string)
    requires ' ' !in addr && ':' in addr
    ensures ActivePieces(addr + " " + query).Some? <==> '?' in query
  {
    hide Cut, CutLast;
    CutBack(addr, " ", query);
    var host, port := HostAndPort(addr);
    assert addr + " " + query == host + ":" + (port + " " + query);
    CutBack(host, ":", port + " " + query);
    CutBack(port, " ", query);
    CutLastIsLast(query, "?");
  }

  lemma HostAndPort(addr: string) returns (host: string, port: string)
    requires ':' in addr
    ensures addr == host + ":" + port && ':' !in host
  {
    var k := 0;
    while addr[k] != ':'
      invariant 0 <= k < |addr| && ':' !in addr[..k] && ':' in addr[k..]
      decreases |addr| - k
    {
      assert addr[..k + 1] == addr[..k] + [addr[k]] && addr[k..] == [addr[k]] + addr[k + 1..];
      k := k + 1;
    }
    host, port := addr[..k], addr[k + 1..];
  }

  lemma ColonBehind(addr: string, query: string)
    requires ':' !in addr
    ensures var c := Cut(addr + " " + query, ":"); c.Some? ==> |c.value.left| >= |addr|
  {
    var s := addr + " " + query;
    CutIsFirst(s, ":");
    forall k | 0 <= k < |addr| ensures !Occurs(s, ":", k) {
      OccursAt(s, ":", k);
      assert s[k] == addr[k];
    }
  }

  /** With an empty address the colon may be anywhere, and host and port are those around the
      first one. */
  lemma EmptyAddress(t: int, u: string, port: string, lims: string, spat: string)
    requires t == SEARCH || t == MULTI_SEARCH
    requires ':' !in u && ' ' !in port && '?' !in spat
    ensures var query := lims + "?" + spat;
            Pieces(t, " " + (u + ":" + (port + " " + query))) == Some(["", " " + u, port, query, lims + "?", spat])
  {
    hide Cut, CutLast;
    var query := lims + "?" + spat;
    var s := " " + (u + ":" + (port + " " + query));
    assert s == "" + " " + (u + ":" + (port + " " + query)) == (" " + u) + ":" + (port + " " + query);
    CutBack("", " ", u + ":" + (port + " " + query));
    CutBack(" " + u, ":", port + " " + query);
    CutBack(port, " ", query);
    CutLastJoined(lims, "?", spat);
  }

  /** A passive search is accepted exactly with a question mark behind its first space. */
  lemma PassiveOrNone(t: int, s: string, nick: string, query: string)
    requires t == SEARCH_PAS || t == MULTI_SEARCH_PAS
    ensures ' ' !in s ==> Pieces(t, s).None?
    ensures ' ' !in nick ==> (Pieces(t, nick + " " + query).Some? <==> '?' in query)
  {
    hide Cut, CutLast;
    NoCut(s, " ");
    CutBack(nick, " ", query);
    CutLastIsLast(query, "?");
  }

  // ---- search results ----

  /** The text of a result for a file, and of one for a directory, which has no size. */
  function FileResult(from: string, path: string, size: string, free: string, total: string, hub: string, to: string): string {
    from + " " + (path + HT + (size + " " + (free + "/" + (total + HT + (hub + HT + to)))))
  }

  function DirectoryResult(from: string, path: string, hub: string, to: string): string {
    from + " " + (path + HT + (hub + HT + to))
  }

  /** How a result is taken apart once sender and path are known. */
  lemma ResultHead(from: string, path: string, r: string)
    ensures var s := from + " " + (path + HT + r);
            && (' ' !in from && HT[0] !in path ==> CutTwice(s, " ", HT) == Some([from, path + HT + r, path, r]))
            && (Pieces(SR, s).Some? ==>
                  (Pieces(SR, s).value[0] == from && Pieces(SR, s).value[1] == path <==> ' ' !in from && HT[0] !in path))
  {
    hide Cut, CutLast, SlotPieces;
    CutBack(from, " ", path + HT + r);
    CutBack(path, HT, r);
  }

  lemma Slots(x: string, size: string, free: string, tail: string)
    requires |size| < |x|
    ensures var r := size + " " + (free + "/" + tail);
            SlotPieces(r, |x|) == Some([size, free + "/" + tail, free, tail]) <==> ' ' !in size && '/' !in free
  {
    hide Cut;
    CutBack(size, " ", free + "/" + tail);
    CutBack(free, "/", tail);
  }

  /** The last part of a result: the hub and the receiver, behind slots or not. */
  lemma ResultTail(x: string, hub: string, to: string)
    ensures var r, rest := x + HT + (hub + HT + to), hub + HT + to;
            var c, d := CutLast(r, HT), Cut(r, HT);
            && c.Some? && d.Some?
            && (c.value.right == to <==> HT[0] !in to)
            && (HT[0] !in to ==> c.value.left == x + HT + hub && HT[0] in c.value.left)
            && (d.value.right == rest <==> HT[0] !in x) && (HT[0] !in x ==> d.value.left == x)
  {
    hide Cut, CutLast;
    var r, rest := x + HT + (hub + HT + to), hub + HT + to;
    assert r == x + HT + hub + HT + to;
    CutLastBack(x + HT + hub, HT, to);
    assert (x + HT + hub)[|x|] == HT[0];
    CutBack(x, HT, rest);
    CutIsFirst(r, HT);
    var d := Cut(r, HT).value;
    if d.right == rest {
      assert |d.left| == |x| && r[..|x|] == x && r[..|d.left|] == d.left;
    }
  }

  /** A file's result comes back exactly if the sender and the size are free of spaces, the free
      slots of slashes, and everything in front of the hub, and the receiver, of the delimiter. */
  lemma FileResultBack(from: string, path: string, size: string, free: string, total: string, hub: string, to: string)
    ensures var slots, rest := total + HT + (hub + HT + to), hub + HT + to;
            Pieces(SR, FileResult(from, path, size, free, total, hub, to)) == Some([from, path, size, free + "/" + slots, free, slots, rest, to])
            <==> ' ' !in from && HT[0] !in path && HT[0] !in size + free + total && ' ' !in size && '/' !in free && HT[0] !in to
  {
    hide Cut, CutLast, SlotPieces, Pieces;
    var slots, rest := total + HT + (hub + HT + to), hub + HT + to;
    var x := size + " " + (free + "/" + total);
    var r := size + " " + (free + "/" + slots);
    assert r == x + HT + rest;
    assert HT[0] in x <==> HT[0] in size + free + total by {
      DelimitersIn(size, free, total);
    }
    ResultHead(from, path, r);
    ResultTail(x, hub, to);
    Slots(x, size, free, slots);
    ResultIs(from + " " + (path + HT + r), r);
    var q := SlotPieces(r, |x|);
    if q.Some? && |q.value| == 4 {
      var w := q.value;
      assert w[0] == size && w[1] == free + "/" + slots && w[2] == free && w[3] == slots ==> w == [size, free + "/" + slots, free, slots];
    }
  }

  lemma DelimitersIn(size: string, free: string, total: string)
    ensures HT[0] in size + " " + (free + "/" + total) <==> HT[0] in size + free + total
  {
  }

  /** The pieces of a result whose sender and path have been cut off. */
  lemma ResultIs(s: string, r: string)
    ensures var p := CutTwice(s, " ", HT);
            p.Some? && p.value[3] == r ==>
              var c, d := CutLast(r, HT), Cut(r, HT);
              && (c.Some? && c.value.left != "" && HT[0] !in c.value.left ==>
                    Pieces(SR, s) == Some([p.value[0], p.value[2], "", "", "", "", c.value.left, c.value.right]))
              && (c.None? ==> Pieces(SR, s).None?)
              && (c.Some? && (c.value.left == "" || HT[0] in c.value.left) && d.Some? ==>
                    var q := SlotPieces(r, |d.value.left|);
                    && (q.None? ==> Pieces(SR, s).None?)
                    && (q.Some? ==>
                          var w := q.value;
                          |w| == 4 && Pieces(SR, s) == Some([p.value[0], p.value[2], w[0], w[1], w[2], w[3], d.value.right, c.value.right])))
  {
    hide Cut, CutLast;
  }

  /** A directory's result comes back exactly if the sender is free of spaces, and path, hub and
      receiver of the delimiter. */
  lemma DirectoryResultBack(from: string, path: string, hub: string, to: string)
    requires hub != ""
    ensures Pieces(SR, DirectoryResult(from, path, hub, to)) == Some([from, path, "", "", "", "", hub, to])
            <==> ' ' !in from && HT[0] !in path && HT[0] !in hub && HT[0] !in to
  {
    hide Cut, CutLast, SlotPieces, Pieces;
    var r := hub + HT + to;
    ResultHead(from, path, r);
    CutLastBack(hub, HT, to);
    CutBack(hub, HT, to);
    ResultIs(from + " " + (path + HT + r), r);
    RestIsLong(r);
  }

  /** The slots of a result run on to its end, so they are not empty. */
  lemma RestIsLong(r: string)
    ensures forall n: nat :: |r| >= 2 && HT[0] in r && SlotPieces(r, n).Some? ==> |SlotPieces(r, n).value| == 4 && SlotPieces(r, n).value[1] != ""
  {
    hide Cut;
    CutIsFirst(r, " ");
    var e := Cut(r, " ");
    if e.Some? {
      CutIsFirst(e.value.right, "/");
    }
  }

  /** A result is refused without a space and two delimiters behind it. With both, the hub is
      everything up to the receiver if there is no delimiter between; otherwise there have to be
      a space in front of the next delimiter and a slash somewhere behind that space. */
  lemma ResultOrNone(s: string, from: string, path: string, x: string, size: string, hub: string, to: string)
    requires ' ' !in from && HT[0] !in path && HT[0] !in x && HT[0] !in to && ' ' !in size && x != ""
    ensures !Follow(s, " ", HT) ==> Pieces(SR, s).None?
    ensures Pieces(SR, from + " " + (path + HT + x)).None?
    ensures Pieces(SR, from + " " + (path + HT + (x + HT + to))) == Some([from, path, "", "", "", "", x, to])
    ensures var r := x + HT + (hub + HT + to);
            && (' ' !in x ==> Pieces(SR, from + " " + (path + HT + r)).None?)
            && (size + " " <= x ==> (Pieces(SR, from + " " + (path + HT + r)).Some? <==> '/' in r[|size| + 1..]))
  {
    hide Cut, CutLast, SlotPieces, Pieces, Follow;
    ResultNeedsTwo(s);
    ResultNeedsReceiver(from, path, x);
    DirectoryResultBack(from, path, x, to);
    var r := x + HT + (hub + HT + to);
    ResultHead(from, path, r);
    ResultTail(x, hub, to);
    ResultIs(from + " " + (path + HT + r), r);
    SlotsOrNone(x, size, r);
  }

  lemma ResultNeedsTwo(s: string)
    ensures !Follow(s, " ", HT) ==> Pieces(SR, s).None?
  {
    hide Cut, CutTwice, Follow;
    CutsTwice(s, " ", HT);
  }

  lemma ResultNeedsReceiver(from: string, path: string, x: string)
    requires ' ' !in from && HT[0] !in path && HT[0] !in x
    ensures Pieces(SR, from + " " + (path + HT + x)).None?
  {
    hide Cut, CutLast, SlotPieces, Pieces;
    ResultHead(from, path, x);
    CutLastIsLast(x, HT);
    ResultIs(from + " " + (path + HT + x), x);
  }

  lemma SlotsOrNone(x: string, size: string, r: string)
    requires x != "" && x <= r && ' ' !in size
    ensures ' ' !in x ==> SlotPieces(r, |x|).None?
    ensures size + " " <= x ==> (SlotPieces(r, |x|).Some? <==> '/' in r[|size| + 1..])
  {
    hide Cut;
    if ' ' !in x {
      CutIsFirst(r, " ");
      forall k | 0 <= k < |x| ensures !Occurs(r, " ", k) {
        OccursAt(r, " ", k);
        assert r[k] == x[k];
      }
    }
    if size + " " <= x {
      var y := r[|size| + 1..];
      assert r == size + " " + y;
      CutBack(size, " ", y);
      NoCut(y, "/");
    }
  }

  /** With an empty hub, the receiver is searched for the size instead: here it runs from the
      delimiter up to the receiver's first space. */
  lemma EmptyHub(from: string, path: string, a: string, free: string, b: string)
    requires ' ' !in from && HT[0] !in path && HT[0] !in a + free + b && ' ' !in a && '/' !in free
    ensures var to := a + " " + (free + "/" + b);
            Pieces(SR, from + " " + (path + HT + (HT + to))) == Some([from, path, HT + a, free + "/" + b, free, b, to, to])
  {
    hide Cut, CutLast, SlotPieces, Pieces;
    var to := a + " " + (free + "/" + b);
    var r := HT + to;
    assert HT[0] !in to by {
      DelimitersIn(a, free, b);
    }
    ResultHead(from, path, r);
    assert r == "" + HT + to;
    CutLastBack("", HT, to);
    CutBack("", HT, to);
    ResultIs(from + " " + (path + HT + r), r);
    SlotsOfEmpty(a, free, b);
  }

  lemma SlotsOfEmpty(a: string, free: string, b: string)
    requires ' ' !in a && '/' !in free
    ensures SlotPieces(HT + (a + " " + (free + "/" + b)), 0) == Some([HT + a, free + "/" + b, free, b])
  {
    hide Cut;
    assert HT + (a + " " + (free + "/" + b)) == (HT + a) + " " + (free + "/" + b);
    CutBack(HT + a, " ", free + "/" + b);
    CutBack(free, "/", b);
  }
}
