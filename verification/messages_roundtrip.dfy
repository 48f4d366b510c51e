/** The message printers and the parser undo each other, exactly where no field holds a
    delimiter; and the pieces of a split message make up its text. */
module MessageRoundTrips {
  import opened Messages
  import opened Texts
  import opened Wrappers

  // ---- the pieces make up the text ----

  lemma TwiceRejoins(s: string, lim: string, lim2: string)
    requires lim != "" && lim2 != ""
    ensures var p := CutTwice(s, lim, lim2);
            p.Some? ==> var q := p.value; s == q[0] + lim + q[1] && q[1] == q[2] + lim2 + q[3]
  {
    CutIsFirst(s, lim);
    CutIsFirst(CutRight(s, lim), lim2);
  }

  /** Connect requests, short searches and public messages in private. */
  lemma TwoCutsRejoin(t: int, s: string)
    requires t == CONNECT_TO_ME || t == MULTI_CONNECT_TO_ME || t == SA || t == MCTO
    ensures var p, space, colon := Pieces(t, s), if t == MCTO then " $" else " ", if t == MCTO then " " else ":";
            p.Some? ==> |p.value| == 4 && s == p.value[0] + space + (p.value[2] + colon + p.value[3])
  {
    TwiceRejoins(s, " ", ":");
    TwiceRejoins(s, " $", " ");
  }

  lemma PrivateRejoins(s: string)
    ensures var p := Pieces(TO, s);
            p.Some? ==>
              && |p.value| == 5
              && s == p.value[0] + " From: " + (p.value[1] + " $<" + (p.value[3] + "> " + p.value[4]))
  {
    CutIsFirst(s, " From: ");
    TwiceRejoins(CutRight(s, " From: "), " $<", "> ");
  }

  /** In a user's information two characters in front of the speed and one behind the size are
      not part of any piece. */
  lemma MyInfoRejoins(s: string) returns (gap: string, last: string)
    ensures var p := Pieces(MYINFO, s);
            p.Some? && |p.value| == 7 ==>
              && |gap| == 2 && |last| == 1
              && s == p.value[0] + " " + (p.value[1] + " " + p.value[2])
              && p.value[2] == p.value[3] + "$" + (gap + (p.value[4] + "$" + (p.value[5] + "$" + (p.value[6] + last))))
  {
    hide Cut;
    gap, last := "", "";
    var p := Pieces(MYINFO, s);
    if p.Some? && |p.value| == 7 {
      TwiceRejoins(s, " ", " ");
      var info := p.value[2];
      CutIsFirst(info, "$");
      var c := Cut(info, "$").value;
      gap := c.right[..2];
      var rest := Behind(c.right, 2);
      assert c.right == gap + rest;
      TwiceRejoins(rest, "$", "$");
      var size := CutTwice(rest, "$", "$").value[3];
      last := size[|size| - 1..];
      assert size == p.value[6] + last;
    }
  }

  lemma ActivePiecesAre(s: string)
    requires Pieces(SEARCH, s).Some?
    ensures var p, c := Pieces(SEARCH, s).value, Cut(s, ":");
            && c.Some? && Cut(c.value.right, " ").Some? && CutLast(Cut(c.value.right, " ").value.right, "?").Some?
            && var port := Cut(c.value.right, " ").value;
               var q := CutLast(port.right, "?").value;
               |p| == 6 && p[1] == c.value.left && p[2] == port.left && p[3] == port.right && p[4] == Limits(q) && p[5] == q.right
  {
    hide Cut, CutLast;
  }

  lemma ActiveRejoins(s: string)
    requires Pieces(SEARCH, s).Some?
    ensures var p := Pieces(SEARCH, s).value;
            |p| == 6 && s == p[1] + ":" + (p[2] + " " + p[3]) && p[3] == p[4] + p[5]
  {
    hide Cut, CutLast, Pieces;
    ActivePiecesAre(s);
    CutIsFirst(s, ":");
    var r := Cut(s, ":").value.right;
    CutIsFirst(r, " ");
    CutLastIsLast(Cut(r, " ").value.right, "?");
  }

  // ---- the printers ----

  function MyInfoText(nick: string, info: string): string {
    "$MyINFO " + ("$ALL" + " " + (nick + " " + info))
  }

  function InfoText(desc: string, speed: string, mail: string, share: string): string {
    desc + "$" + (" $" + (speed + "$" + (mail + "$" + (share + "$"))))
  }

  function PrivateText(from: string, to: string, sign: string, text: string): string {
    "$To: " + (to + " From: " + (from + " $<" + (sign + "> " + text)))
  }

  function ConnectText(nick: string, addr: string, port: string): string {
    "$ConnectToMe " + (nick + " " + (addr + ":" + port))
  }

  function SearchText(addr: string, lims: string, spat: string): string {
    "$Search " + (addr + " " + (lims + spat))
  }

  function ShortActiveText(tth: string, addr: string): string {
    "$SA " + (tth + " " + addr)
  }

  function ShortPassiveText(tth: string, nick: string): string {
    "$SP " + (tth + " " + nick)
  }

  method CreateMyInfo(nick: string, desc: string, speed: string, mail: string, share: string) returns (dest: string)
    ensures dest == MyInfoText(nick, InfoText(desc, speed, mail, share))
  {
    dest := "$MyINFO $ALL ";
    dest := dest + nick;
    dest := dest + " ";
    dest := dest + desc;
    dest := dest + "$ $";
    dest := dest + speed;
    dest := dest + "$";
    dest := dest + mail;
    dest := dest + "$";
    dest := dest + share;
    dest := dest + "$";
  }

  method CreatePrivate(from: string, to: string, sign: string, text: string) returns (dest: string)
    ensures dest == PrivateText(from, to, sign, text)
  {
    dest := "$To: ";
    dest := dest + to;
    dest := dest + " From: ";
    dest := dest + from;
    dest := dest + " $<";
    dest := dest + sign;
    dest := dest + "> ";
    dest := dest + text;
  }

  method CreateConnectToMe(nick: string, addr: string, port: string, extra: string) returns (dest: string)
    ensures dest == ConnectText(nick, addr, port + extra)
  {
    dest := "$ConnectToMe ";
    dest := dest + nick;
    dest := dest + " ";
    dest := dest + addr;
    dest := dest + ":";
    dest := dest + port;
    dest := dest + extra;
  }

  method CreateSearch(addr: string, lims: string, spat: string) returns (dest: string)
    ensures dest == SearchText(addr, lims, spat)
  {
    dest := "$Search ";
    dest := dest + addr;
    dest := dest + " ";
    dest := dest + lims;
    dest := dest + spat;
  }

  method CreateHashSearch(addr: string, tth: string, passive: bool) returns (dest: string)
    ensures dest == SearchText(if passive then "Hub:" + addr else addr, "F?T?0?9?", "TTH:" + tth)
  {
    dest := "$Search ";
    if passive {
      dest := dest + "Hub:";
    }
    dest := dest + addr;
    dest := dest + " F?T?0?9?TTH:";
    dest := dest + tth;
  }

  method CreateShortActive(tth: string, addr: string) returns (dest: string)
    ensures dest == ShortActiveText(tth, addr)
  {
    dest := "$SA ";
    dest := dest + tth;
    dest := dest + " ";
    dest := dest + addr;
  }

  method CreateShortPassive(tth: string, nick: string) returns (dest: string)
    ensures dest == ShortPassiveText(tth, nick)
  {
    dest := "$SP ";
    dest := dest + tth;
    dest := dest + " ";
    dest := dest + nick;
  }

  // ---- printing, then parsing ----

  /** A joined text is cut again at the same place exactly if its left half is free of the
      delimiter, whatever follows. */
  lemma CutBack(a: string, lim: string, b: string)
    requires |lim| == 1
    ensures var c := Cut(a + lim + b, lim);
            c.Some? && (lim[0] !in a ==> c.value == Pair(a, b)) && (lim[0] in a ==> c.value.left != a)
  {
    CutBackText(a, lim, b);
    ContainsChar(a, lim);
  }

  /** The same for a longer delimiter, which might also begin in the left half. */
  lemma CutBackText(a: string, lim: string, b: string)
    requires lim != ""
    ensures var c, straddles := Cut(a + lim + b, lim), Contains(a + lim[..|lim| - 1], lim);
            c.Some? && (!straddles ==> c.value == Pair(a, b)) && (straddles ==> c.value.left != a)
  {
    var s := a + lim + b;
    CutJoined(a, lim, b);
    CutIsFirst(s, lim);
    assert s[|a|..|a| + |lim|] == lim && Occurs(s, lim, |a|);
    var c := Cut(s, lim).value;
    if c.left == a {
      assert c.right == s[|a| + |lim|..] == b;
    }
  }

  lemma TextGivesType(t: nat, s: string)
    requires t < CHAT && t != SEARCH && t != MULTI_SEARCH
    ensures HasType(Keyword(t) + s, t) && (Keyword(t) + s)[|Keyword(t)|..] == s
  {
    KeywordGivesType(Keyword(t) + s, t);
  }

  lemma InfoRoundTrip(desc: string, speed: string, mail: string, share: string)
    ensures var h := Cut(InfoText(desc, speed, mail, share), "$");
            h.Some? && |h.value.right| > 2
    ensures var h, free := Cut(InfoText(desc, speed, mail, share), "$").value, '$' !in desc && '$' !in speed && '$' !in mail;
            var q := CutTwice(Behind(h.right, 2), "$", "$");
            && (h.left == desc && q.Some? && q.value[0] == speed && q.value[2] == mail <==> free)
            && (free ==> q.Some? && q.value[3] == share + "$")
  {
    var w := mail + "$" + (share + "$");
    var z := speed + "$" + w;
    var info := InfoText(desc, speed, mail, share);
    assert info == desc + "$" + (" $" + z);
    CutBack(desc, "$", " $" + z);
    CutBack(speed, "$", w);
    CutBack(mail, "$", share + "$");
    assert Behind(" $" + z, 2) == z;
    CutIsFirst(info, "$");
    var h := Cut(info, "$").value;
    assert |h.left| <= |desc| by {
      assert info[|desc|..|desc| + 1] == "$" && Occurs(info, "$", |desc|);
    }
  }

  lemma MyInfoPiecesBack(nick: string, desc: string, speed: string, mail: string, share: string)
    ensures var info := InfoText(desc, speed, mail, share);
            MyInfoPieces("$ALL" + " " + (nick + " " + info)) == Some(["$ALL", nick, info, desc, speed, mail, share])
            <==> ' ' !in nick && '$' !in desc && '$' !in speed && '$' !in mail
  {
    hide Cut;
    var info := InfoText(desc, speed, mail, share);
    CutBack("$ALL", " ", nick + " " + info);
    CutBack(nick, " ", info);
    InfoRoundTrip(desc, speed, mail, share);
    assert ButLast(share + "$") == share;
  }

  /** A user's information survives printing and parsing exactly if the nick is free of spaces
      and description, speed and mail are free of `$`, whatever the size is. */
  lemma MyInfoRoundTrip(nick: string, desc: string, speed: string, mail: string, share: string)
    ensures var info := InfoText(desc, speed, mail, share);
            var t := MyInfoText(nick, info);
            && HasType(t, MYINFO)
            && (Pieces(MYINFO, t[|Keyword(MYINFO)|..]) == Some(["$ALL", nick, info, desc, speed, mail, share])
                <==> ' ' !in nick && '$' !in desc && '$' !in speed && '$' !in mail)
  {
    TextGivesType(MYINFO, "$ALL" + " " + (nick + " " + InfoText(desc, speed, mail, share)));
    MyInfoPiecesBack(nick, desc, speed, mail, share);
  }

  lemma PrivatePiecesBack(from: string, to: string, sign: string, text: string)
    ensures PrivatePieces(to + " From: " + (from + " $<" + (sign + "> " + text))) == Some([to, from, sign + "> " + text, sign, text])
            <==> !Contains(to + " From:", " From: ") && !Contains(from + " $", " $<") && !Contains(sign + ">", "> ")
  {
    hide Cut;
    assert " From: "[..6] == " From:" && " $<"[..2] == " $" && "> "[..1] == ">";
    var y := sign + "> " + text;
    CutBackText(to, " From: ", from + " $<" + y);
    CutBackText(from, " $<", y);
    CutBackText(sign, "> ", text);
  }

  /** A private message survives exactly if no delimiter begins within or straddles the end of
      receiver, sender and signature. */
  lemma PrivateRoundTrip(from: string, to: string, sign: string, text: string)
    ensures var t := PrivateText(from, to, sign, text);
            && HasType(t, TO)
            && (Pieces(TO, t[|Keyword(TO)|..]) == Some([to, from, sign + "> " + text, sign, text])
                <==> !Contains(to + " From:", " From: ") && !Contains(from + " $", " $<") && !Contains(sign + ">", "> "))
  {
    hide HasType, PrivatePieces;
    TextGivesType(TO, to + " From: " + (from + " $<" + (sign + "> " + text)));
    PrivatePiecesBack(from, to, sign, text);
  }

  lemma TwoCutsBack(a: string, b: string, c: string)
    ensures CutTwice(a + " " + (b + ":" + c), " ", ":") == Some([a, b + ":" + c, b, c]) <==> ' ' !in a && ':' !in b
  {
    CutBack(a, " ", b + ":" + c);
    CutBack(b, ":", c);
  }

  /** A connect request survives exactly if the nick is free of spaces and the address of colons. */
  lemma ConnectRoundTrip(nick: string, addr: string, port: string)
    ensures var t := ConnectText(nick, addr, port);
            && HasType(t, CONNECT_TO_ME)
            && (Pieces(CONNECT_TO_ME, t[|Keyword(CONNECT_TO_ME)|..]) == Some([nick, addr + ":" + port, addr, port])
                <==> ' ' !in nick && ':' !in addr)
  {
    TextGivesType(CONNECT_TO_ME, nick + " " + (addr + ":" + port));
    TwoCutsBack(nick, addr, port);
  }

  lemma ShortActiveRoundTrip(tth: string, ip: string, port: string)
    ensures var t := ShortActiveText(tth, ip + ":" + port);
            && HasType(t, SA)
            && (Pieces(SA, t[|Keyword(SA)|..]) == Some([tth, ip + ":" + port, ip, port]) <==> ' ' !in tth && ':' !in ip)
  {
    TextGivesType(SA, tth + " " + (ip + ":" + port));
    TwoCutsBack(tth, ip, port);
  }

  lemma ShortPassiveRoundTrip(tth: string, nick: string)
    ensures var t := ShortPassiveText(tth, nick);
            && HasType(t, SP)
            && (Pieces(SP, t[|Keyword(SP)|..]) == Some([tth, nick]) <==> ' ' !in tth)
  {
    TextGivesType(SP, tth + " " + nick);
    CutBack(tth, " ", nick);
  }

  /** A printed search is an active one exactly if its address does not start as that of a
      passive one. */
  lemma SearchTextType(rest: string)
    ensures HasType("$Search " + rest, SEARCH) <==> !("Hub:" <= rest)
    ensures "Hub:" <= rest ==> HasType("$Search " + rest, SEARCH_PAS)
  {
    var s := "$Search " + rest;
    KeywordGivesType(s, SEARCH);
    assert Keyword(SEARCH_PAS) == "$Search " + "Hub:";
    assert Keyword(SEARCH_PAS) <= s <==> "Hub:" <= rest by {
      assert s[|"$Search "|..] == rest;
    }
    if "Hub:" <= rest {
      KeywordGivesType(s, SEARCH_PAS);
    }
  }

  lemma ActivePiecesBack(ip: string, port: string, lims: string, spat: string)
    ensures var query := lims + "?" + spat;
            ActivePieces(ip + ":" + port + " " + query) == Some([ip + ":" + port, ip, port, query, lims + "?", spat])
            <==> ' ' !in ip && ' ' !in port && ':' !in ip && '?' !in spat
  {
    var query := lims + "?" + spat;
    var addr := ip + ":" + port;
    var s := addr + " " + query;
    assert s == ip + ":" + (port + " " + query);
    CutBack(addr, " ", query);
    CutBack(ip, ":", port + " " + query);
    CutBack(port, " ", query);
    CutLastJoined(lims, "?", spat);
    CutLastIsLast(query, "?");
  }

  /** An active search survives exactly if it is not taken for a passive one, host and port are
      free of spaces, the host of colons, and the pattern of question marks. */
  lemma SearchRoundTrip(ip: string, port: string, lims: string, spat: string)
    ensures var query := lims + "?" + spat;
            var t := SearchText(ip + ":" + port, lims + "?", spat);
            HasType(t, SEARCH) && Pieces(SEARCH, t[|Keyword(SEARCH)|..]) == Some([ip + ":" + port, ip, port, query, lims + "?", spat])
            <==> ip != "Hub" && ' ' !in ip && ' ' !in port && ':' !in ip && '?' !in spat
  {
    hide Cut, CutLast, HasType, ActivePieces;
    var query := lims + "?" + spat;
    var rest := ip + ":" + port + " " + query;
    assert SearchText(ip + ":" + port, lims + "?", spat) == "$Search " + rest;
    SearchTextType(rest);
    ActivePiecesBack(ip, port, lims, spat);
    assert ("$Search " + rest)[|Keyword(SEARCH)|..] == rest;
    if ':' !in ip {
      HubInFront(ip, port + " " + query);
    }
  }

  lemma HubInFront(ip: string, more: string)
    requires ':' !in ip
    ensures "Hub:" <= ip + ":" + more <==> ip == "Hub"
  {
    var s, hub := ip + ":" + more, "Hub:";
    assert s[|ip|] == ':' && ip == s[..|ip|];
    assert forall k :: 0 <= k < |ip| ==> s[k] == ip[k];
    assert hub[0] != ':' && hub[1] != ':' && hub[2] != ':' && hub[3] == ':';
  }

  lemma CutLastBack(a: string, lim: string, b: string)
    requires |lim| == 1
    ensures var c := CutLast(a + lim + b, lim);
            c.Some? && (lim[0] !in b ==> c.value == Pair(a, b)) && (lim[0] in b ==> c.value.right != b)
  {
    CutLastJoined(a, lim, b);
    CutLastIsLast(a + lim + b, lim);
    assert (a + lim + b)[|a|] == lim[0];
  }

  lemma PassivePiecesBack(nick: string, lims: string, spat: string)
    ensures PassivePieces(nick + " " + (lims + "?" + spat)) == Some([nick, lims + "?" + spat, lims + "?", spat])
            <==> ' ' !in nick && '?' !in spat
  {
    CutBack(nick, " ", lims + "?" + spat);
    CutLastBack(lims, "?", spat);
  }

  /** The short passive hash search becomes a passive search for the same hash. */
  lemma HashSearchRoundTrip(nick: string, tth: string)
    ensures var t := SearchText("Hub:" + nick, "F?T?0?9?", "TTH:" + tth);
            && HasType(t, SEARCH_PAS)
            && (Pieces(SEARCH_PAS, t[|Keyword(SEARCH_PAS)|..]) == Some([nick, "F?T?0?9?" + ("TTH:" + tth), "F?T?0?9?", "TTH:" + tth])
                <==> ' ' !in nick && '?' !in tth)
  {
    hide HasType, Cut, CutLast, PassivePieces;
    var spat := "TTH:" + tth;
    var query := "F?T?0?9" + "?" + spat;
    var rest := nick + " " + query;
    assert "F?T?0?9" + "?" == "F?T?0?9?";
    assert SearchText("Hub:" + nick, "F?T?0?9?", spat) == "$Search " + ("Hub:" + rest) == Keyword(SEARCH_PAS) + rest;
    SearchTextType("Hub:" + rest);
    PassivePiecesBack(nick, "F?T?0?9", spat);
    assert (Keyword(SEARCH_PAS) + rest)[|Keyword(SEARCH_PAS)|..] == rest;
    assert '?' in spat <==> '?' in tth;
    assert Pieces(SEARCH_PAS, rest) == PassivePieces(rest);
  }

  lemma MissingSizePieces(speed: string, mail: string)
    requires '$' !in speed && '$' !in mail
    ensures CutTwice(speed + "$" + (mail + "$"), "$", "$") == Some([speed, mail + "$", mail, ""])
  {
    CutBack(speed, "$", mail + "$");
    assert mail + "$" == mail + "$" + "";
    CutBack(mail, "$", "");
  }

  /** A user's information without a size is accepted, with one piece less. */
  lemma MissingSize(nick: string, desc: string, speed: string, mail: string)
    requires ' ' !in nick && '$' !in desc && '$' !in speed && '$' !in mail
    ensures var info := desc + "$" + (" $" + (speed + "$" + (mail + "$")));
            Pieces(MYINFO, "$ALL" + " " + (nick + " " + info)) == Some(["$ALL", nick, info, desc, speed, mail])
  {
    var z := speed + "$" + (mail + "$");
    var info := desc + "$" + (" $" + z);
    CutBack("$ALL", " ", nick + " " + info);
    CutBack(nick, " ", info);
    CutBack(desc, "$", " $" + z);
    assert Behind(" $" + z, 2) == z;
    MissingSizePieces(speed, mail);
  }

  /** The parser's way with the text of a message of a known type. */
  method Load(parser: MessageParser, text: string, ghost t: int)
    requires parser.Valid() && |text| < INT_LIMIT && HasType(text, t) && t != UNKNOWN
    modifies parser
    ensures parser.Valid() && parser.str == text && parser.kind == t && parser.read == {} && parser.strings == old(parser.strings)
    ensures var p := Pieces(t, text[|Keyword(t)|..]);
            && parser.Shows(p)
            && (t == MYINFO && p.Some? && |p.value| == 6 ==> parser.chunks[7] == Chunk(|text|, -1))
  {
    parser.ReInit();
    parser.str := text;
    var u := parser.Parse();
    TypeIsUnique(text, u, t);
    var e := parser.SplitChunks();
  }

  /** The size of such a message is read as the one of an earlier message: the parser is kept for
      the whole connection, and so are the texts it has read. */
  method StaleSize(parser: MessageParser, text: string) returns (size: string)
    requires parser.Valid() && |text| < INT_LIMIT && Keyword(MYINFO) <= text
    requires var p := Pieces(MYINFO, text[|Keyword(MYINFO)|..]); p.Some? && |p.value| == 6
    modifies parser
    ensures parser.Valid() && !parser.error && size == old(parser.strings[7])
  {
    KeywordGivesType(text, MYINFO);
    Load(parser, text, MYINFO);
    size := parser.ChunkString(7);
  }

  lemma ShownAt(parser: MessageParser, p: seq<string>, k: nat)
    requires parser.Shows(Some(p)) && k < |p|
    ensures k + 1 < |parser.chunks| && Stands(parser.str, parser.chunks[k + 1], p[k])
  {
    assert parser.Shown(p, k);
  }

  /** A well-formed message is parsed and split, and all its chunks are read. */
  method ReadAll(parser: MessageParser, text: string, ghost t: int, ghost p: seq<string>, n: nat) returns (fields: seq<string>)
    requires parser.Valid() && |text| < INT_LIMIT && HasType(text, t) && t != UNKNOWN
    requires Pieces(t, text[|Keyword(t)|..]) == Some(p) && |p| == n
    modifies parser
    ensures parser.Valid() && !parser.error && parser.kind == t && fields == p
  {
    hide HasType, Pieces, Keyword;
    Load(parser, text, t);
    fields := [];
    var i := 0;
    while i < n
      invariant 0 <= i <= n == |p| && fields == p[..i]
      invariant parser.Valid() && !parser.error && parser.kind == t && parser.Shows(Some(p))
      invariant forall k :: k in parser.read ==> k <= i
    {
      ShownAt(parser, p, i);
      var field := parser.ChunkString(i + 1);
      fields := fields + [field];
      i := i + 1;
    }
  }

  // ---- printed, parsed, split and read again ----

  method MyInfoThroughParser(parser: MessageParser, nick: string, desc: string, speed: string, mail: string, share: string)
    returns (fields: seq<string>)
    requires parser.Valid() && |MyInfoText(nick, InfoText(desc, speed, mail, share))| < INT_LIMIT
    requires ' ' !in nick && '$' !in desc && '$' !in speed && '$' !in mail
    modifies parser
    ensures parser.Valid() && !parser.error && parser.kind == MYINFO
    ensures fields == ["$ALL", nick, InfoText(desc, speed, mail, share), desc, speed, mail, share]
  {
    hide HasType, Pieces;
    MyInfoRoundTrip(nick, desc, speed, mail, share);
    var text := CreateMyInfo(nick, desc, speed, mail, share);
    fields := ReadAll(parser, text, MYINFO, ["$ALL", nick, InfoText(desc, speed, mail, share), desc, speed, mail, share], 7);
  }

  method PrivateThroughParser(parser: MessageParser, from: string, to: string, sign: string, text: string) returns (fields: seq<string>)
    requires parser.Valid() && |PrivateText(from, to, sign, text)| < INT_LIMIT
    requires !Contains(to + " From:", " From: ") && !Contains(from + " $", " $<") && !Contains(sign + ">", "> ")
    modifies parser
    ensures parser.Valid() && !parser.error && parser.kind == TO
    ensures fields == [to, from, sign + "> " + text, sign, text]
  {
    hide HasType, Pieces;
    PrivateRoundTrip(from, to, sign, text);
    var s := CreatePrivate(from, to, sign, text);
    fields := ReadAll(parser, s, TO, [to, from, sign + "> " + text, sign, text], 5);
  }

  method ConnectThroughParser(parser: MessageParser, nick: string, addr: string, port: string, extra: string) returns (fields: seq<string>)
    requires parser.Valid() && |ConnectText(nick, addr, port + extra)| < INT_LIMIT
    requires ' ' !in nick && ':' !in addr
    modifies parser
    ensures parser.Valid() && !parser.error && parser.kind == CONNECT_TO_ME
    ensures fields == [nick, addr + ":" + (port + extra), addr, port + extra]
  {
    hide HasType, Pieces;
    ConnectRoundTrip(nick, addr, port + extra);
    var s := CreateConnectToMe(nick, addr, port, extra);
    fields := ReadAll(parser, s, CONNECT_TO_ME, [nick, addr + ":" + (port + extra), addr, port + extra], 4);
  }

  method SearchThroughParser(parser: MessageParser, ip: string, port: string, lims: string, spat: string) returns (fields: seq<string>)
    requires parser.Valid() && |SearchText(ip + ":" + port, lims + "?", spat)| < INT_LIMIT
    requires ip != "Hub" && ' ' !in ip && ' ' !in port && ':' !in ip && '?' !in spat
    modifies parser
    ensures parser.Valid() && !parser.error && parser.kind == SEARCH
    ensures fields == [ip + ":" + port, ip, port, lims + "?" + spat, lims + "?", spat]
  {
    hide HasType, Pieces;
    SearchRoundTrip(ip, port, lims, spat);
    var s := CreateSearch(ip + ":" + port, lims + "?", spat);
    fields := ReadAll(parser, s, SEARCH, [ip + ":" + port, ip, port, lims + "?" + spat, lims + "?", spat], 6);
  }

  method HashSearchThroughParser(parser: MessageParser, nick: string, tth: string) returns (fields: seq<string>)
    requires parser.Valid() && |SearchText("Hub:" + nick, "F?T?0?9?", "TTH:" + tth)| < INT_LIMIT
    requires ' ' !in nick && '?' !in tth
    modifies parser
    ensures parser.Valid() && !parser.error && parser.kind == SEARCH_PAS
    ensures fields == [nick, "F?T?0?9?" + ("TTH:" + tth), "F?T?0?9?", "TTH:" + tth]
  {
    hide HasType, Pieces;
    HashSearchRoundTrip(nick, tth);
    var s := CreateHashSearch(nick, tth, true);
    fields := ReadAll(parser, s, SEARCH_PAS, [nick, "F?T?0?9?" + ("TTH:" + tth), "F?T?0?9?", "TTH:" + tth], 4);
  }

  method ShortActiveThroughParser(parser: MessageParser, tth: string, ip: string, port: string) returns (fields: seq<string>)
    requires parser.Valid() && |ShortActiveText(tth, ip + ":" + port)| < INT_LIMIT
    requires ' ' !in tth && ':' !in ip
    modifies parser
    ensures parser.Valid() && !parser.error && parser.kind == SA
    ensures fields == [tth, ip + ":" + port, ip, port]
  {
    hide HasType, Pieces;
    ShortActiveRoundTrip(tth, ip, port);
    var s := CreateShortActive(tth, ip + ":" + port);
    fields := ReadAll(parser, s, SA, [tth, ip + ":" + port, ip, port], 4);
  }

  method ShortPassiveThroughParser(parser: MessageParser, tth: string, nick: string) returns (fields: seq<string>)
    requires parser.Valid() && |ShortPassiveText(tth, nick)| < INT_LIMIT
    requires ' ' !in tth
    modifies parser
    ensures parser.Valid() && !parser.error && parser.kind == SP
    ensures fields == [tth, nick]
  {
    hide HasType, Pieces;
    ShortPassiveRoundTrip(tth, nick);
    var s := CreateShortPassive(tth, nick);
    fields := ReadAll(parser, s, SP, [tth, nick], 2);
  }
}
