/** The message parser: keyword lookup, splitting into chunks by index pairs, and the printers.
    A message is a text without the closing `|`; its bytes are written as characters. */
module Messages {
  import opened Texts
  import opened Wrappers

  // ---- the keyword table ----

  const CONNECT_TO_ME := 0
  const REV_CONNECT_TO_ME := 1
  const SR := 2
  const SEARCH_PAS := 3
  const SEARCH := 4
  const SA := 5
  const SP := 6
  const MYINFO := 7
  const EXT_JSON := 8
  const GET_NICK_LIST := 13
  const TO := 16
  const GET_INFO := 18
  const OP_FORCE_MOVE := 21
  const MULTI_CONNECT_TO_ME := 22
  const MULTI_SEARCH_PAS := 23
  const MULTI_SEARCH := 24
  const MCTO := 25
  const BAN := 27
  const TEMP_BAN := 28
  const GET_BAN_LIST := 30
  const GET_TOPIC := 32
  const MY_IP := 34
  const IN := 37
  const CHAT := 38
  const UNKNOWN := 39
  const UNPARSED := -1

  function Keyword(i: nat): string
    requires i <= CHAT
  {
    match i
    case 0 => "$ConnectToMe "
    case 1 => "$RevConnectToMe "
    case 2 => "$SR "
    case 3 => "$Search Hub:"
    case 4 => "$Search "
    case 5 => "$SA "
    case 6 => "$SP "
    case 7 => "$MyINFO "
    case 8 => "$ExtJSON "
    case 9 => "$Key "
    case 10 => "$Supports "
    case 11 => "$ValidateNick "
    case 12 => "$Version "
    case 13 => "$GetNickList"
    case 14 => "$MyHubURL "
    case 15 => "$MyPass "
    case 16 => "$To: "
    case 17 => "$BotINFO "
    case 18 => "$GetINFO "
    case 19 => "$UserIP "
    case 20 => "$Kick "
    case 21 => "$OpForceMove $Who:"
    case 22 => "$MultiConnectToMe "
    case 23 => "$MultiSearch Hub:"
    case 24 => "$MultiSearch "
    case 25 => "$MCTo: "
    case 26 => "$Quit "
    case 27 => "$Ban "
    case 28 => "$TempBan "
    case 29 => "$UnBan "
    case 30 => "$GetBanList"
    case 31 => "$WhoIP "
    case 32 => "$GetTopic"
    case 33 => "$SetTopic "
    case 34 => "$MyIP "
    case 35 => "$MyNick "
    case 36 => "$Lock "
    case 37 => "$IN "
    case _ => "<"
  }

  predicate HubVariant(i: nat, j: nat) {
    (i == SEARCH_PAS && j == SEARCH) || (i == MULTI_SEARCH_PAS && j == MULTI_SEARCH)
  }

  /** The k-th character of a text. */
  function CharAt(s: string, k: nat): char {
    if k < |s| then s[k] else '|'
  }

  /** A command is told from the others by a few of its first characters, read as a tree. */
  function Discern(s: string): nat {
    var c := CharAt(s, 2);
    match CharAt(s, 1)
    case 'C' => 0
    case 'R' => 1
    case 'S' =>
      (match c
       case 'R' => 2
       case 'e' => if CharAt(s, 3) == 't' then 33 else SEARCH
       case 'A' => 5
       case 'P' => 6
       case _ => 10)
    case 'M' =>
      (match c
       case 'C' => 25
       case 'u' => if CharAt(s, 6) == 'C' then 22 else MULTI_SEARCH
       case _ =>
         match CharAt(s, 3)
         case 'H' => 14
         case 'P' => 15
         case 'N' => 35
         case _ => if CharAt(s, 4) == 'N' then 7 else 34)
    case 'E' => 8
    case 'K' => if c == 'e' then 9 else 20
    case 'V' => if c == 'a' then 11 else 12
    case 'G' =>
      (match CharAt(s, 4)
       case 'N' => 13
       case 'I' => 18
       case 'B' => 30
       case _ => 32)
    case 'T' => if c == 'o' then 16 else 28
    case 'B' => if c == 'o' then 17 else 27
    case 'U' => if c == 's' then 19 else 29
    case 'O' => 21
    case 'Q' => 26
    case 'W' => 31
    case 'L' => 36
    case _ => 37
  }

  lemma KeywordDiscerned(i: nat)
    requires i < CHAT
    ensures Discern(Keyword(i)) == if HubVariant(i, i + 1) then i + 1 else i
  {
    var s := Keyword(i);
    assert s[1] == CharAt(s, 1) && s[2] == CharAt(s, 2) && s[3] == CharAt(s, 3);
  }

  lemma KeywordStart(i: nat)
    requires i < CHAT
    ensures |Keyword(i)| > 3 && Keyword(i)[0] == '$'
    ensures Keyword(i)[1] == 'G' || Keyword(i)[1] == 'M' ==> |Keyword(i)| > if Keyword(i)[2] == 'u' then 6 else 4
  {
  }

  lemma DiscernPrefix(a: string, b: string)
    requires a <= b && |a| > 3 && (a[1] == 'G' || a[1] == 'M' ==> |a| > if a[2] == 'u' then 6 else 4)
    ensures Discern(a) == Discern(b)
  {
    assert forall k: nat | k < |a| :: CharAt(a, k) == CharAt(b, k);
  }

  /** Two commands of the table are never prefixes of each other, except that the passive forms
      of the searches start with the active ones and come before them. */
  lemma TwoCommands(i: nat, j: nat)
    requires i < j < CHAT
    ensures !(Keyword(i) <= Keyword(j)) && (Keyword(j) <= Keyword(i) ==> HubVariant(i, j))
  {
    hide Discern;
    KeywordStart(i);
    KeywordStart(j);
    KeywordDiscerned(i);
    KeywordDiscerned(j);
    if Keyword(i) <= Keyword(j) {
      DiscernPrefix(Keyword(i), Keyword(j));
    }
    if Keyword(j) <= Keyword(i) {
      DiscernPrefix(Keyword(j), Keyword(i));
    }
  }

  /** The type of a text: t is its type if keyword t starts it and no longer keyword does. */
  ghost predicate HasType(text: string, t: int) {
    if t == UNKNOWN then forall k: nat | k <= CHAT :: !(Keyword(k) <= text)
    else 0 <= t <= CHAT && Keyword(t) <= text && forall k: nat | k <= CHAT && Keyword(k) <= text :: |Keyword(k)| <= |Keyword(t)|
  }

  lemma Prefixes(a: string, b: string, s: string)
    requires a <= s && b <= s
    ensures |a| <= |b| ==> a <= b
  {
  }

  lemma TwoFit(text: string, t: nat, u: nat)
    requires t < u <= CHAT && Keyword(t) <= text && Keyword(u) <= text
    ensures |Keyword(t)| > |Keyword(u)| && HubVariant(t, u)
  {
    Prefixes(Keyword(t), Keyword(u), text);
    Prefixes(Keyword(u), Keyword(t), text);
    KeywordStart(t);
    assert text[0] == Keyword(t)[0];
    if u < CHAT {
      TwoCommands(t, u);
    }
  }

  /** The order of the table makes the first keyword that fits the longest one. */
  lemma FirstIsLongest(text: string, t: nat)
    requires t < CHAT && Keyword(t) <= text && forall k: nat | k < t :: !(Keyword(k) <= text)
    ensures HasType(text, t)
  {
    forall k: nat | k <= CHAT && Keyword(k) <= text ensures |Keyword(k)| <= |Keyword(t)| {
      if t < k {
        TwoFit(text, t, k);
      }
    }
  }

  lemma ChatHasType(text: string)
    requires text != ""
    ensures Keyword(CHAT) <= text <==> text[0] == '<'
    ensures text[0] == '<' ==> HasType(text, CHAT)
  {
    if text[0] == '<' {
      forall k: nat | k <= CHAT && Keyword(k) <= text ensures |Keyword(k)| <= |Keyword(CHAT)| {
        if k < CHAT {
          TwoFit(text, k, CHAT);
        }
      }
    }
  }

  lemma EmptyHasNoType()
    ensures HasType("", UNKNOWN)
  {
    forall k: nat | k < CHAT ensures Keyword(k) != "" {
      KeywordStart(k);
    }
  }

  /** No text has two types. */
  lemma TypeIsUnique(text: string, t: int, u: int)
    requires HasType(text, t) && HasType(text, u)
    ensures t == u
  {
    if t < u < UNKNOWN {
      TwoFit(text, t, u);
    } else if u < t < UNKNOWN {
      TwoFit(text, u, t);
    }
  }

  /** Every command is recognized by its keyword, except that an active search must not go on as
      a passive one. */
  lemma KeywordGivesType(text: string, t: nat)
    requires t <= CHAT && Keyword(t) <= text
    ensures HasType(text, t) <==> !(exists u: nat :: u < t && HubVariant(u, t) && Keyword(u) <= text)
  {
    forall k: nat | k <= CHAT && Keyword(k) <= text && k != t
      ensures if k < t then HubVariant(k, t) && |Keyword(k)| > |Keyword(t)| else |Keyword(k)| < |Keyword(t)| {
      if k < t {
        TwoFit(text, k, t);
      } else {
        TwoFit(text, t, k);
      }
    }
  }

  // ---- the pieces of each type of message ----

  const HT: string := "\U{0005}"

  function CutOnce(s: string, lim: string): Option<seq<string>>
    requires lim != ""
  {
    match Cut(s, lim)
    case None => None
    case Some(a) => Some([a.left, a.right])
  }

  /** What stands behind the first delimiter, if there is one. */
  function CutRight(s: string, lim: string): string
    requires lim != ""
  {
    match Cut(s, lim)
    case None => ""
    case Some(a) => a.right
  }

  /** Cut, then what is behind cut again: both halves of both cuts. */
  function CutTwice(s: string, lim: string, lim2: string): Option<seq<string>>
    requires lim != "" && lim2 != ""
  {
    match Cut(s, lim)
    case None => None
    case Some(a) =>
      match Cut(a.right, lim2)
      case None => None
      case Some(b) => Some([a.left, a.right, b.left, b.right])
  }

  /** Receiver, sender, signed text, signature, text. */
  function PrivatePieces(s: string): Option<seq<string>> {
    match Cut(s, " From: ")
    case None => None
    case Some(a) =>
      match CutTwice(a.right, " $<", "> ")
      case None => None
      case Some(p) => Some([a.left, p[0], p[1], p[2], p[3]])
  }

  function Behind(s: string, n: nat): string {
    if |s| <= n then "" else s[n..]
  }

  function ButLast(s: string): string
    requires s != ""
  {
    s[..|s| - 1]
  }

  /** Destination, nick, everything behind the nick, description, and what is behind the two
      characters that follow it. */
  function InfoHead(s: string): Option<seq<string>> {
    match CutTwice(s, " ", " ")
    case None => None
    case Some(p) =>
      match Cut(p[3], "$")
      case None => None
      case Some(c) => if |c.right| <= 2 then None else Some([p[0], p[2], p[3], c.left, Behind(c.right, 2)])
  }

  /** Destination, nick, everything behind the nick, description, speed, mail, and the size
      unless the text ends with the mail's delimiter. */
  function MyInfoPieces(s: string): Option<seq<string>> {
    match InfoHead(s)
    case None => None
    case Some(h) =>
      match CutTwice(h[4], "$", "$")
      case None => None
      case Some(q) =>
        if q[3] == "" then Some([h[0], h[1], h[2], h[3], q[0], q[2]])
        else Some([h[0], h[1], h[2], h[3], q[0], q[2], ButLast(q[3])])
  }

  /** A query's limits keep the question mark that ends them. */
  function Limits(q: Pair): string {
    q.left + "?"
  }

  /** Address, its host and port, query, limits, pattern. The colon has to be in the address,
      unless the address is empty. */
  function ActivePieces(s: string): Option<seq<string>> {
    var a, c := Cut(s, " "), Cut(s, ":");
    if a.None? || c.None? || (a.value.left != "" && |c.value.left| >= |a.value.left|) then None
    else
      match Cut(c.value.right, " ")
      case None => None
      case Some(p) =>
        match CutLast(p.right, "?")
        case None => None
        case Some(q) => Some([a.value.left, c.value.left, p.left, p.right, Limits(q), q.right])
  }

  /** Nick, query, limits, pattern. */
  function PassivePieces(s: string): Option<seq<string>> {
    match Cut(s, " ")
    case None => None
    case Some(a) =>
      match CutLast(a.right, "?")
      case None => None
      case Some(q) => Some([a.left, a.right, Limits(q), q.right])
  }

  /** Nick, destination, reason, with "Where:" and "Msg:" skipped unread. */
  function ForceMovePieces(s: string): Option<seq<string>> {
    match Cut(s, "$")
    case None => None
    case Some(a) =>
      if |a.right| <= 6 then None
      else
        match Cut(Behind(a.right, 6), "$")
        case None => None
        case Some(b) => if |b.right| <= 4 then None else Some([a.left, b.left, Behind(b.right, 4)])
  }

  /** Size, slots, free slots and all slots of a search result whose size field, in front of r's
      first delimiter, has the given length; the slots and all slots run on to the end. */
  function SlotPieces(r: string, length: nat): Option<seq<string>> {
    var e := Cut(r, " ");
    if e.None? || (length != 0 && |e.value.left| >= length) then None
    else
      match Cut(e.value.right, "/")
      case None => None
      case Some(f) => Some([e.value.left, e.value.right, f.left, f.right])
  }

  /** Sender, path, size, slots, free slots, all slots, hub, receiver. Size and slots are missing
      if there is no delimiter between the path's and the receiver's; the hub runs on to the end
      if they are not. */
  function ResultPieces(s: string): Option<seq<string>> {
    match CutTwice(s, " ", HT)
    case None => None
    case Some(p) =>
      var c, d := CutLast(p[3], HT), Cut(p[3], HT);
      if c.None? then None
      else if c.value.left != "" && HT[0] !in c.value.left then Some([p[0], p[2], "", "", "", "", c.value.left, c.value.right])
      else if d.None? then None
      else
        match SlotPieces(p[3], |d.value.left|)
        case None => None
        case Some(q) => Some([p[0], p[2], q[0], q[1], q[2], q[3], d.value.right, c.value.right])
  }

  /** Nick, reason, time. */
  function TempBanPieces(s: string): Option<seq<string>> {
    match CutTwice(s, "$", "$")
    case None => None
    case Some(p) => Some([p[0], p[3], p[2]])
  }

  /** The texts of the chunks, from the first on, of a message of type t with the text s behind
      its keyword; none if the message is malformed. */
  function Pieces(t: int, s: string): Option<seq<string>> {
    if t == CONNECT_TO_ME || t == MULTI_CONNECT_TO_ME || t == SA then CutTwice(s, " ", ":")
    else if t == REV_CONNECT_TO_ME || t == SP || t == EXT_JSON || t == MY_IP || t == GET_INFO then CutOnce(s, " ")
    else if t == SR then ResultPieces(s)
    else if t == SEARCH_PAS || t == MULTI_SEARCH_PAS then PassivePieces(s)
    else if t == SEARCH || t == MULTI_SEARCH then ActivePieces(s)
    else if t == MYINFO then MyInfoPieces(s)
    else if t == TO then PrivatePieces(s)
    else if t == CHAT then CutOnce(s, "> ")
    else if t == OP_FORCE_MOVE then ForceMovePieces(s)
    else if t == MCTO then CutTwice(s, " $", " ")
    else if t == BAN || t == IN then CutOnce(s, "$")
    else if t == TEMP_BAN then TempBanPieces(s)
    else if t == GET_NICK_LIST || t == GET_BAN_LIST || t == GET_TOPIC || t == UNKNOWN || t == UNPARSED then Some([])
    else Some([s])
  }

  // ---- putting the pieces together ----

  predicate EndsWith(s: string, t: string) {
    |t| <= |s| && s[|s| - |t|..] == t
  }

  lemma EndsWithEnd(s: string, t: string, u: string)
    requires EndsWith(s, t) && EndsWith(t, u)
    ensures EndsWith(s, u)
  {
    assert s[|s| - |u|..] == s[|s| - |t|..][|t| - |u|..];
  }

  lemma CutEndsWith(s: string, lim: string)
    requires lim != "" && Cut(s, lim).Some?
    ensures EndsWith(s, Cut(s, lim).value.right)
  {
    CutIsFirst(s, lim);
  }

  lemma CutLastEndsWith(s: string, lim: string)
    requires |lim| == 1 && CutLast(s, lim).Some?
    ensures var to := CutLast(s, lim).value.right; EndsWith(s, lim + to) && lim[0] !in to
  {
    CutLastIsLast(s, lim);
  }

  lemma ReceiverOf(s: string)
    requires Pieces(SR, s).Some?
    ensures var p := CutTwice(s, " ", HT);
            p.Some? && CutLast(p.value[3], HT).Some? && |Pieces(SR, s).value| == 8
            && Pieces(SR, s).value[7] == CutLast(p.value[3], HT).value.right
  {
  }

  /** The receiver of a search result is what follows the last delimiter. */
  lemma ReceiverIsLast(s: string)
    requires Pieces(SR, s).Some?
    ensures var to := Pieces(SR, s).value[7]; EndsWith(s, HT + to) && HT[0] !in to
  {
    ReceiverOf(s);
    var r := Cut(s, " ").value.right;
    var t := Cut(r, HT).value.right;
    var to := Pieces(SR, s).value[7];
    CutEndsWith(s, " ");
    CutEndsWith(r, HT);
    CutLastEndsWith(t, HT);
    EndsWithEnd(r, t, HT + to);
    EndsWithEnd(s, r, HT + to);
  }

  // ---- the parser ----

  const MAX_CHUNKS := 10
  const INT_LIMIT := 0x8000_0000
  const WORD := 0x1_0000_0000_0000_0000

  /** A stretch of the text: start and length. */
  datatype Chunk = Chunk(first: int, second: int)

  /** A chunk of s that stands for the text t. */
  ghost predicate Stands(s: string, c: Chunk, t: string) {
    0 <= c.first && 0 <= c.second && c.first + c.second <= |s| && s[c.first..c.first + c.second] == t
  }

  /** A chunk of s that runs to its end and stands for the text t. */
  ghost predicate RunsToEnd(s: string, c: Chunk, t: string) {
    Stands(s, c, t) && c.second == |s| - c.first && s[c.first..] == t
  }

  /** A chunk of s that starts where the rest t of s starts. */
  ghost predicate Starts(s: string, c: Chunk, t: string) {
    0 <= c.first <= |s| && 0 <= c.second <= |t| && s[c.first..] == t
  }

  ghost predicate InText(s: string, c: Chunk) {
    0 <= c.first <= |s| && 0 <= c.second <= |s|
  }

  /** The stretch of a chunk, cut short at the end of the text. */
  ghost function TextOf(s: string, c: Chunk): (t: string)
    requires InText(s, c)
    ensures t <= s[c.first..] && |t| <= c.second
    ensures c.first + c.second <= |s| ==> Stands(s, c, t)
  {
    s[c.first..if c.first + c.second <= |s| then c.first + c.second else |s|]
  }

  /** Where a stretch is split, or -1: the first or last delimiter, which has to begin within the
      stretch when searching from the left, and not before it when searching from the right. A
      length of 0 stands for the length of the whole text. */
  function SplitAt(s: string, start: nat, lim: string, length: nat, left: bool): (i: int)
    requires lim != ""
    ensures i == -1 || (start <= i && i + |lim| <= |s|)
  {
    var size := if length == 0 then |s| else length;
    if left then
      var i := Find(s, lim, start);
      if i - start < size then i else -1
    else
      var i := FindLastText(s, lim, (start + size - |lim|) % WORD);
      if i < start then -1 else i
  }

  function CutAt(s: string, lim: string, left: bool): Option<Pair>
    requires lim != "" && (left || |lim| == 1)
  {
    if left then Cut(s, lim) else CutLast(s, lim)
  }

  lemma SearchedFrom(n: nat, size: int)
    requires 1 <= n < INT_LIMIT && n <= size <= 2 * n
    ensures (size - 1) % WORD == size - 1
  {
  }

  lemma Unsigned(x: int)
    requires 0 <= x < INT_LIMIT
    ensures x % WORD == x
  {
  }

  lemma NothingToCut(lim: string)
    requires |lim| == 1
    ensures CutLast("", lim) == None
  {
  }

  lemma SplitTailLast(s: string, start: nat, lim: string)
    requires start <= |s| < INT_LIMIT && |lim| == 1
    ensures var i := SplitAt(s, start, lim, |s| - start, false);
            CutLast(s[start..], lim) == if i < 0 then None else Some(Pair(s[start..i], s[i + |lim|..]))
  {
    hide FindLast, FindLastText, CutLast;
    var size := start + if |s| - start == 0 then |s| else |s| - start;
    if s == "" {
      NothingToCut(lim);
      assert s[start..] == "";
    } else {
      SearchedFrom(|s|, size);
      OneCharacter(s, lim, size - 1);
      FindLastCuts(s, lim, start, size - 1);
    }
  }

  /** A stretch that runs to the end of the text is split where its text is cut. */
  lemma SplitTail(s: string, start: nat, lim: string, left: bool)
    requires start <= |s| < INT_LIMIT && lim != "" && (left || |lim| == 1)
    ensures var i := SplitAt(s, start, lim, |s| - start, left);
            CutAt(s[start..], lim, left) == if i < 0 then None else Some(Pair(s[start..i], s[i + |lim|..]))
  {
    if left {
      FindCuts(s, lim, start);
    } else {
      SplitTailLast(s, start, lim);
    }
  }

  /** The same for a chunk, whose length is read as an unsigned word. */
  lemma SplitRun(s: string, c: Chunk, t: string, lim: string, left: bool)
    requires RunsToEnd(s, c, t) && |s| < INT_LIMIT && lim != "" && (left || |lim| == 1)
    ensures var i := SplitAt(s, c.first, lim, c.second % WORD, left);
            CutAt(t, lim, left) == if i < 0 then None else Some(Pair(s[c.first..i], s[i + |lim|..]))
  {
    Unsigned(c.second);
    SplitTail(s, c.first, lim, left);
  }

  /** A chunk that starts with the rest of the text is split where that is cut, if it is cut
      within the chunk or the chunk is empty. */
  lemma SplitStart(s: string, c: Chunk, t: string, lim: string)
    requires Starts(s, c, t) && |s| < INT_LIMIT && lim != ""
    ensures var i, p := SplitAt(s, c.first, lim, c.second % WORD, true), Cut(t, lim);
            && (i >= 0 <==> p.Some? && (c.second == 0 || |p.value.left| < c.second))
            && (i >= 0 ==> p == Some(Pair(s[c.first..i], s[i + |lim|..])))
  {
    Unsigned(c.second);
    FindCuts(s, lim, c.first);
  }

  class MessageParser {
    var str: string
    var chunks: seq<Chunk>
    var strings: seq<string>     // texts of chunks already read
    var read: set<nat>           // the bitmap of chunks already read
    var error: bool
    var kind: int
    var len: nat
    var kwSize: nat

    ghost predicate Valid()
      reads this
    {
      && |chunks| == MAX_CHUNKS && |strings| == 2 * MAX_CHUNKS && |str| < INT_LIMIT
      && forall k :: 0 <= k < MAX_CHUNKS ==> 0 <= chunks[k].first
    }

    /** The state that Parse leaves for a message of a known type. */
    ghost predicate Parsed()
      reads this
    {
      && Valid() && 0 <= kind <= CHAT && Keyword(kind) <= str && kwSize == |Keyword(kind)| && len == |str|
      && !error && forall k :: 1 <= k < MAX_CHUNKS ==> chunks[k] == Chunk(0, 0)
    }

    /** The chunks from the first on show exactly the given pieces, of which no message has more
        than eight, or the error flag is set. */
    ghost predicate Shows(p: Option<seq<string>>)
      reads this
    {
      && (error <==> p.None?)
      && (p.Some? ==>
            && |p.value| <= 8
            && Shown(p.value, 0) && Shown(p.value, 1) && Shown(p.value, 2) && Shown(p.value, 3)
            && Shown(p.value, 4) && Shown(p.value, 5) && Shown(p.value, 6) && Shown(p.value, 7))
    }

    ghost predicate Shown(p: seq<string>, k: nat)
      reads this
    {
      k < |p| ==> k + 1 < |chunks| && Stands(str, chunks[k + 1], p[k])
    }

    constructor ()
      ensures Valid() && str == "" && kind == UNPARSED && len == 0 && kwSize == 0 && read == {} && !error
      ensures chunks == seq(MAX_CHUNKS, _ => Chunk(0, 0))
      ensures forall k :: 0 <= k < |strings| ==> strings[k] == ""
    {
      str, error, kind, len, kwSize := "", false, UNPARSED, 0, 0;
      chunks, strings, read := seq(MAX_CHUNKS, _ => Chunk(0, 0)), seq(2 * MAX_CHUNKS, _ => ""), {};
    }

    /** Forgets the message, but not the texts that were read from it. */
    method ReInit()
      requires Valid()
      modifies this
      ensures Valid() && str == "" && kind == UNPARSED && len == 0 && kwSize == 0 && !error && read == {}
      ensures chunks == seq(MAX_CHUNKS, _ => Chunk(0, 0))
      ensures strings == old(strings)
    {
      chunks, len, read, error, str, kind, kwSize := seq(MAX_CHUNKS, _ => Chunk(0, 0)), 0, {}, false, "", UNPARSED, 0;
    }

    /** Finds the type of the text: the longest keyword that it starts with. */
    method Parse() returns (r: int)
      requires Valid() && kind == UNPARSED && !error && chunks == seq(MAX_CHUNKS, _ => Chunk(0, 0))
      modifies `kind, `kwSize, `len
      ensures r == kind && HasType(str, kind)
      ensures kind == UNKNOWN ==> if str == "" then len == kwSize == 0 else len == old(len) && kwSize == old(kwSize)
      ensures kind != UNKNOWN ==> Parsed()
    {
      hide Keyword;
      EmptyHasNoType();
      if str == "" {
        kind, kwSize, len := UNKNOWN, 0, 0;
        return UNKNOWN;
      }
      ChatHasType(str);
      if str[0] == '<' {
        kind, kwSize, len := CHAT, |Keyword(CHAT)|, |str|;
        return CHAT;
      }
      for i := 0 to CHAT
        invariant kind == UNPARSED && unchanged(`kwSize, `len)
        invariant forall k: nat | k < i :: !(Keyword(k) <= str)
      {
        if Keyword(i) <= str {
          kind, kwSize, len := i, |Keyword(i)|, |str|;
          FirstIsLongest(str, i);
          break;
        }
      }
      if kind == UNPARSED {
        kind := UNKNOWN;
      }
      return kind;
    }

    method SetChunk(n: nat, start: int, length: int)
      requires Valid() && n < MAX_CHUNKS && start >= 0
      modifies `chunks
      ensures Valid() && chunks == old(chunks)[n := Chunk(start, length)]
    {
      chunks := chunks[n := Chunk(start, length)];
    }

    /** Splits a stretch in two; the second chunk always runs to the end of the message. */
    method SplitOnTwo(start: nat, lim: string, cn1: nat, cn2: nat, length: nat, left: bool) returns (ok: bool)
      requires Valid() && len == |str| && lim != "" && cn1 < MAX_CHUNKS && cn2 < MAX_CHUNKS
      modifies `chunks
      ensures Valid()
      ensures var i := SplitAt(str, start, lim, length, left);
              && (ok <==> i >= 0)
              && chunks == if ok then old(chunks)[cn1 := Chunk(start, i - start)][cn2 := Chunk(i + |lim|, |str| - i - |lim|)] else old(chunks)
    {
      hide Find, FindLastText;
      var size, i := if length == 0 then len else length, 0;
      if left {
        i := Find(str, lim, start);
        if i == -1 || i - start >= size {
          return false;
        }
      } else {
        i := FindLastText(str, lim, (start + size - |lim|) % WORD);
        if i == -1 || i < start {
          return false;
        }
      }
      SetChunk(cn1, start, i - start);
      SetChunk(cn2, i + |lim|, len - i - |lim|);
      return true;
    }

    /** Splits a chunk; its length is taken as an unsigned word. */
    method SplitChunk(lim: string, ch: nat, cn1: nat, cn2: nat, left: bool) returns (ok: bool)
      requires Valid() && len == |str| && lim != ""
      requires ch < MAX_CHUNKS && cn1 < MAX_CHUNKS && cn2 < MAX_CHUNKS
      modifies `chunks
      ensures Valid()
      ensures var c := old(chunks)[ch];
              var i := SplitAt(str, c.first, lim, c.second % WORD, left);
              && (ok <==> i >= 0)
              && chunks == if ok then old(chunks)[cn1 := Chunk(c.first, i - c.first)][cn2 := Chunk(i + |lim|, |str| - i - |lim|)] else old(chunks)
    {
      ok := SplitOnTwo(chunks[ch].first, lim, cn1, cn2, chunks[ch].second % WORD, left);
    }

    twostate predicate Others(cn1: nat, cn2: nat)
      reads this
    {
      |chunks| == |old(chunks)| && forall k :: 0 <= k < |chunks| && k != cn1 && k != cn2 ==> chunks[k] == old(chunks)[k]
    }

    lemma HalvesShow(start: nat, i: nat, lim: string, cn1: nat, cn2: nat)
      requires Valid() && start <= i && i + |lim| <= |str| && cn1 < MAX_CHUNKS && cn2 < MAX_CHUNKS
      requires chunks[cn1] == Chunk(start, i - start) && chunks[cn2] == Chunk(i + |lim|, |str| - i - |lim|)
      ensures Stands(str, chunks[cn1], str[start..i]) && RunsToEnd(str, chunks[cn2], str[i + |lim|..])
    {
    }

    /** Cuts the text behind the keyword, or sets the error flag. */
    method CutText(lim: string, cn1: nat, cn2: nat)
      requires Valid() && len == |str| && kwSize <= len && lim != "" && cn1 < MAX_CHUNKS && cn2 < MAX_CHUNKS && cn1 != cn2
      modifies `chunks, `error
      ensures Valid() && Others(cn1, cn2)
      ensures var c := Cut(str[kwSize..], lim);
              && (error <==> old(error) || c.None?)
              && (c.Some? ==>
                    && Stands(str, chunks[cn1], c.value.left) && RunsToEnd(str, chunks[cn2], c.value.right)
                    && chunks[cn1] == Chunk(kwSize, |c.value.left|))
    {
      hide Find, FindLastText, Cut;
      var ok := SplitOnTwo(kwSize, lim, cn1, cn2, 0, true);
      if !ok {
        error := true;
      }
      FindCuts(str, lim, kwSize);
    }

    method CutEnd(lim: string, ch: nat, cn1: nat, cn2: nat, left: bool, ghost t: string) returns (ok: bool)
      requires Valid() && len == |str| && lim != "" && (left || |lim| == 1)
      requires ch < MAX_CHUNKS && cn1 < MAX_CHUNKS && cn2 < MAX_CHUNKS && cn1 != cn2
      modifies `chunks
      ensures Valid() && Others(cn1, cn2)
      ensures var c := CutAt(t, lim, left);
              RunsToEnd(str, old(chunks)[ch], t) ==>
                && (ok <==> c.Some?)
                && (ok ==> Stands(str, chunks[cn1], c.value.left) && RunsToEnd(str, chunks[cn2], c.value.right))
      ensures ok && RunsToEnd(str, old(chunks)[ch], t) ==>
                chunks[cn1] == Chunk(old(chunks)[ch].first, |CutAt(t, lim, left).value.left|)
    {
      hide SplitAt, CutAt;
      ghost var c := chunks[ch];
      ghost var i := SplitAt(str, c.first, lim, c.second % WORD, left);
      if RunsToEnd(str, c, t) {
        SplitRun(str, c, t, lim, left);
      }
      ok := SplitChunk(lim, ch, cn1, cn2, left);
      if ok {
        HalvesShow(c.first, i, lim, cn1, cn2);
      }
    }

    /** Cuts a chunk that runs to the end of the message, or sets the error flag. */
    method CutChunk(lim: string, ch: nat, cn1: nat, cn2: nat, left: bool, ghost t: string)
      requires Valid() && len == |str| && lim != "" && (left || |lim| == 1)
      requires ch < MAX_CHUNKS && cn1 < MAX_CHUNKS && cn2 < MAX_CHUNKS && cn1 != cn2
      modifies `chunks, `error
      ensures Valid() && Others(cn1, cn2) && (old(error) ==> error)
      ensures var c := CutAt(t, lim, left);
              RunsToEnd(str, old(chunks)[ch], t) ==>
                && (error <==> old(error) || c.None?)
                && (c.Some? ==>
                      && Stands(str, chunks[cn1], c.value.left) && RunsToEnd(str, chunks[cn2], c.value.right)
                      && chunks[cn1] == Chunk(old(chunks)[ch].first, |c.value.left|))
    {
      var ok := CutEnd(lim, ch, cn1, cn2, left, t);
      if !ok {
        error := true;
      }
    }

    /** Moves the start of a chunk to the right, unless it would reach the end of the message. */
    method ChunkRedLeft(cn: nat, amount: nat) returns (ok: bool)
      requires Valid() && cn < MAX_CHUNKS
      modifies `chunks
      ensures Valid() && (ok <==> old(chunks)[cn].first + amount < len)
      ensures chunks == if ok then old(chunks)[cn := Chunk(old(chunks)[cn].first + amount, old(chunks)[cn].second - amount)] else old(chunks)
    {
      var c := chunks[cn];
      ok := c.first + amount < len;
      if ok {
        SetChunk(cn, c.first + amount, c.second - amount);
      }
    }

    /** Skips characters at the start of a chunk that runs to the end, or sets the error flag. */
    method Skip(cn: nat, amount: nat, ghost t: string)
      requires Valid() && len == |str| && cn < MAX_CHUNKS
      modifies `chunks, `error
      ensures Valid() && Others(cn, cn) && (old(error) ==> error)
      ensures RunsToEnd(str, old(chunks)[cn], t) ==>
                && (error <==> old(error) || |t| <= amount)
                && (|t| > amount ==> RunsToEnd(str, chunks[cn], Behind(t, amount)))
    {
      var ok := ChunkRedLeft(cn, amount);
      if !ok {
        error := true;
      }
    }

    /** Moves the end of a chunk to the left, even below its start. */
    method ChunkRedRight(cn: nat, amount: nat)
      requires Valid() && cn < MAX_CHUNKS
      modifies `chunks
      ensures Valid() && chunks == old(chunks)[cn := Chunk(old(chunks)[cn].first, old(chunks)[cn].second - amount)]
    {
      SetChunk(cn, chunks[cn].first, chunks[cn].second - amount);
    }

    /** Moves the end of a chunk to the right. */
    method ChunkIncLeft(cn: nat, amount: nat)
      requires Valid() && cn < MAX_CHUNKS
      modifies `chunks
      ensures Valid() && chunks == old(chunks)[cn := Chunk(old(chunks)[cn].first, old(chunks)[cn].second + amount)]
    {
      SetChunk(cn, chunks[cn].first, chunks[cn].second + amount);
    }

    lemma WithQuestionMark(t: string, c: Chunk, q: Pair)
      requires RunsToEnd(str, c, t) && t == q.left + "?" + q.right
      ensures Stands(str, Chunk(c.first, |q.left| + 1), Limits(q))
    {
      assert str[c.first..c.first + |q.left| + 1] == t[..|q.left| + 1];
    }

    /** Cuts a query at its last question mark, which stays with the limits. */
    method CutLimits(ch: nat, cn1: nat, cn2: nat, ghost t: string)
      requires Valid() && len == |str| && ch < MAX_CHUNKS && cn1 < MAX_CHUNKS && cn2 < MAX_CHUNKS && cn1 != cn2
      modifies `chunks, `error
      ensures Valid() && Others(cn1, cn2) && (old(error) ==> error)
      ensures var q := CutLast(t, "?");
              RunsToEnd(str, old(chunks)[ch], t) ==>
                && (error <==> old(error) || q.None?)
                && (q.Some? ==> Stands(str, chunks[cn1], Limits(q.value)) && RunsToEnd(str, chunks[cn2], q.value.right))
    {
      ghost var c, q, known := chunks[ch], CutLast(t, "?"), RunsToEnd(str, chunks[ch], t);
      CutChunk("?", ch, cn1, cn2, false, t);
      ChunkIncLeft(cn1, 1);
      if known && q.Some? {
        CutLastIsLast(t, "?");
        WithQuestionMark(t, c, q.value);
      }
    }

    /** The text behind the keyword. */
    ghost function Rest(): string
      reads this
    {
      if kwSize <= |str| then str[kwSize..] else ""
    }

    method SplitOnce(lim: string)
      requires Parsed() && lim != ""
      modifies `chunks, `error
      ensures Valid() && Shows(CutOnce(old(Rest()), lim))
    {
      hide Cut, CutLast;
      CutText(lim, 1, 2);
    }

    method SplitTwice(lim: string, lim2: string)
      requires Parsed() && lim != "" && lim2 != ""
      modifies `chunks, `error
      ensures Valid() && Shows(CutTwice(old(Rest()), lim, lim2))
    {
      hide Cut, CutLast;
      ghost var t := CutRight(Rest(), lim);
      CutText(lim, 1, 2);
      CutChunk(lim2, 2, 3, 4, true, t);
    }

    method SplitPrivate()
      requires Parsed()
      modifies `chunks, `error
      ensures Valid() && Shows(PrivatePieces(old(Rest())))
    {
      hide Cut, CutLast;
      ghost var t := CutRight(Rest(), " From: ");
      CutText(" From: ", 1, 2);
      CutChunk(" $<", 2, 2, 3, true, t);
      t := CutRight(t, " $<");
      CutChunk("> ", 3, 4, 5, true, t);
    }

    method SplitForceMove()
      requires Parsed()
      modifies `chunks, `error
      ensures Valid() && Shows(ForceMovePieces(old(Rest())))
    {
      hide Cut, CutLast;
      ghost var t := CutRight(Rest(), "$");
      CutText("$", 1, 2);
      Skip(2, 6, t);
      t := Behind(t, 6);
      CutChunk("$", 2, 2, 3, true, t);
      t := CutRight(t, "$");
      Skip(3, 4, t);
    }

    method SplitTempBan()
      requires Parsed()
      modifies `chunks, `error
      ensures Valid() && Shows(TempBanPieces(old(Rest())))
    {
      hide Cut, CutLast;
      ghost var t := CutRight(Rest(), "$");
      CutText("$", 1, 3);
      CutChunk("$", 3, 3, 2, true, t);
    }

    method SplitPassive()
      requires Parsed()
      modifies `chunks, `error
      ensures Valid() && Shows(PassivePieces(old(Rest())))
    {
      hide Cut, CutLast;
      ghost var t := CutRight(Rest(), " ");
      CutText(" ", 1, 2);
      CutLimits(2, 3, 4, t);
    }

    /** The cuts up to the speed, which loses the two characters in front of it. */
    method SplitInfoHead()
      requires Parsed()
      modifies `chunks, `error
      ensures Valid()
      ensures var h := InfoHead(old(Rest()));
              && (error <==> h.None?)
              && (h.Some? ==>
                    && RunsToEnd(str, chunks[5], h.value[4])
                    && forall k :: 0 <= k < 4 ==> Stands(str, chunks[k + 1], h.value[k]))
    {
      hide Cut, CutLast;
      ghost var t := CutRight(Rest(), " ");
      CutText(" ", 1, 2);
      CutChunk(" ", 2, 2, 3, true, t);
      t := CutRight(t, " ");
      CutChunk("$", 3, 4, 5, true, t);
      t := CutRight(t, "$");
      Skip(5, 2, t);
    }

    lemma LosesLast(c: Chunk, t: string)
      requires RunsToEnd(str, c, t)
      ensures t == "" ==> c == Chunk(|str|, 0)
      ensures t != "" ==> Stands(str, Chunk(c.first, c.second - 1), ButLast(t))
    {
    }

    /** The cuts of the speed chunk, as far as it runs to the end, into speed, mail and size. */
    method SplitInfoRest(ghost t: string)
      requires Valid() && len == |str|
      modifies `chunks, `error
      ensures Valid() && (forall k :: 0 <= k < 5 ==> chunks[k] == old(chunks)[k]) && (old(error) ==> error)
      ensures var q := CutTwice(t, "$", "$");
              RunsToEnd(str, old(chunks)[5], t) ==>
                && (error <==> old(error) || q.None?)
                && (q.Some? ==> Stands(str, chunks[5], q.value[0]) && Stands(str, chunks[6], q.value[2]) && RunsToEnd(str, chunks[7], q.value[3]))
    {
      hide Cut, CutLast;
      CutChunk("$", 5, 5, 6, true, t);
      CutChunk("$", 6, 6, 7, true, CutRight(t, "$"));
    }

    /** The size loses the character behind it; a missing size leaves a chunk of length -1. */
    method SplitMyInfo()
      requires Parsed()
      modifies `chunks, `error
      ensures Valid() && Shows(MyInfoPieces(old(Rest())))
      ensures var p := MyInfoPieces(old(Rest()));
              p.Some? && |p.value| == 6 ==> chunks[7] == Chunk(|str|, -1)
    {
      hide Cut, CutLast;
      ghost var h := InfoHead(Rest());
      SplitInfoHead();
      ghost var t := if h.Some? then h.value[4] else "";
      SplitInfoRest(t);
      if !error {
        LosesLast(chunks[7], CutTwice(t, "$", "$").value[3]);
      }
      ChunkRedRight(7, 1);
    }

    /** Cuts a chunk that starts where the rest t of the message starts and ends before it: the
        delimiter has to begin within the chunk, unless the chunk is empty. */
    method CutWithin(lim: string, ch: nat, cn1: nat, cn2: nat, ghost t: string) returns (ok: bool)
      requires Valid() && len == |str| && lim != "" && ch < MAX_CHUNKS && cn1 < MAX_CHUNKS && cn2 < MAX_CHUNKS && cn1 != cn2
      modifies `chunks
      ensures Valid() && Others(cn1, cn2)
      ensures var c, p := old(chunks)[ch], Cut(t, lim);
              Starts(str, c, t) ==>
                && (ok <==> p.Some? && (c.second == 0 || |p.value.left| < c.second))
                && (ok ==> Stands(str, chunks[cn1], p.value.left) && RunsToEnd(str, chunks[cn2], p.value.right))
                && (ok ==> chunks[cn1] == Chunk(c.first, |p.value.left|))
                && (!ok ==> chunks == old(chunks))
    {
      ghost var c := chunks[ch];
      ghost var i := SplitAt(str, c.first, lim, c.second % WORD, true);
      if Starts(str, c, t) {
        SplitStart(str, c, t, lim);
      }
      ok := SplitChunk(lim, ch, cn1, cn2, true);
      if ok {
        HalvesShow(c.first, i, lim, cn1, cn2);
      }
    }

    method SplitAddress()
      requires Parsed()
      modifies `chunks, `error
      ensures Valid()
      ensures var a, c := Cut(old(Rest()), " "), Cut(old(Rest()), ":");
              && (error <==> a.None? || c.None? || (a.value.left != "" && |c.value.left| >= |a.value.left|))
              && (!error ==>
                    && Stands(str, chunks[1], a.value.left) && Stands(str, chunks[2], c.value.left)
                    && RunsToEnd(str, chunks[3], c.value.right))
    {
      hide Cut, CutLast;
      ghost var s := Rest();
      CutIsFirst(s, " ");
      CutText(" ", 1, 4);
      var ok := CutWithin(":", 1, 2, 3, s);
      if !ok {
        error := true;
      }
    }

    method SplitActive()
      requires Parsed()
      modifies `chunks, `error
      ensures Valid() && Shows(ActivePieces(old(Rest())))
    {
      hide Cut, CutLast;
      ghost var t := CutRight(Rest(), ":");
      SplitAddress();
      CutChunk(" ", 3, 3, 4, true, t);
      t := CutRight(t, " ");
      CutLimits(4, 5, 6, t);
    }

    /** Looks for size and slots: chunk 3 stands for what is in front of t's first delimiter. */
    method SplitSlots(ghost t: string)
      requires Valid() && len == |str|
      modifies `chunks, `error
      ensures Valid() && (old(error) ==> error)
      ensures forall k :: 0 <= k < MAX_CHUNKS && !(3 <= k <= 6) ==> chunks[k] == old(chunks)[k]
      ensures var c, q := old(chunks)[3], Cut(t, " ");
              Starts(str, c, t) ==>
                var p := SlotPieces(t, c.second);
                && (error <==> old(error) || p.None?)
                && (p.Some? ==> forall k :: 0 <= k < 4 ==> Stands(str, chunks[k + 3], p.value[k]))
    {
      hide Cut, CutLast;
      var ok := CutWithin(" ", 3, 3, 4, t);
      if !ok {
        error := true;
      }
      CutChunk("/", 4, 5, 6, true, CutRight(t, " "));
    }

    /** The cuts from the left up to the path and from the right up to the receiver. */
    method SplitResultEnds() returns (ghost t: string)
      requires Parsed()
      modifies `chunks, `error
      ensures Valid() && forall k :: 4 <= k <= 6 ==> chunks[k] == old(chunks)[k]
      ensures var p := CutTwice(old(Rest()), " ", HT);
              && (error <==> p.None? || CutLast(t, HT).None?)
              && (p.Some? ==> t == p.value[3] && Stands(str, chunks[1], p.value[0]) && Stands(str, chunks[2], p.value[2]))
      ensures var c := CutLast(t, HT);
              !error ==>
                && Stands(str, chunks[7], c.value.left) && RunsToEnd(str, chunks[8], c.value.right)
                && Starts(str, chunks[7], t) && chunks[7].second == |c.value.left|
    {
      hide Cut, CutLast;
      t := CutRight(Rest(), " ");
      CutText(" ", 1, 2);
      CutChunk(HT, 2, 2, 3, true, t);
      t := CutRight(t, HT);
      CutLastIsLast(t, HT);
      CutChunk(HT, 3, 7, 8, false, t);
    }

    /** Looks for size and slots in chunk 7, which starts with t. */
    method SplitSize(ghost t: string)
      requires Valid() && len == |str|
      modifies `chunks, `error
      ensures Valid() && (old(error) ==> error)
      ensures forall k :: 0 <= k < MAX_CHUNKS && !(3 <= k <= 7) ==> chunks[k] == old(chunks)[k]
      ensures var c, d := old(chunks)[7], Cut(t, HT);
              Starts(str, c, t) && d.Some? ==>
                if c.second == 0 || |d.value.left| < c.second then
                  var q := SlotPieces(t, |d.value.left|);
                  && (error <==> old(error) || q.None?)
                  && (q.Some? ==> Stands(str, chunks[7], d.value.right) && forall k :: 0 <= k < 4 ==> Stands(str, chunks[k + 3], q.value[k]))
                else error == old(error) && chunks == old(chunks)[3 := Chunk(0, 0)]
    {
      hide Cut, CutLast;
      CutIsFirst(t, HT);
      var ok := CutWithin(HT, 7, 3, 7, t);
      if ok {
        SplitSlots(t);
      } else {
        SetChunk(3, 0, 0);
      }
    }

    method SplitResult()
      requires Parsed()
      modifies `chunks, `error
      ensures Valid() && Shows(ResultPieces(old(Rest())))
      ensures var p := ResultPieces(old(Rest())); p.Some? ==> chunks[8] == Chunk(|str| - |p.value[7]|, |p.value[7]|)
    {
      hide Cut, CutLast;
      ghost var t := SplitResultEnds();
      if !error {
        FirstAndLast(t, HT);
      }
      SplitSize(t);
    }

    /** A single parameter; its keyword has been found, so the message is long enough for it. */
    method SplitWhole()
      requires Parsed()
      modifies `chunks, `error
      ensures Valid() && Shows(Some([old(Rest())]))
    {
      SetChunk(1, kwSize, len - kwSize);
    }

    /** Splits a parsed message into its chunks; an unknown one has none. */
    method SplitChunks() returns (r: bool)
      requires Parsed() || (Valid() && !error && (kind == UNKNOWN || kind == UNPARSED))
      modifies `chunks, `error
      ensures Valid() && r == error && Shows(Pieces(kind, old(Rest())))
      ensures var p := Pieces(kind, old(Rest()));
              && (kind == MYINFO && p.Some? && |p.value| == 6 ==> chunks[7] == Chunk(|str|, -1))
              && (kind == SR && p.Some? ==> chunks[8] == Chunk(|str| - |p.value[7]|, |p.value[7]|))
    {
      SetChunk(0, 0, |str|);
      if kind == CONNECT_TO_ME || kind == MULTI_CONNECT_TO_ME || kind == SA {
        SplitTwice(" ", ":");
      } else if kind == REV_CONNECT_TO_ME || kind == SP || kind == EXT_JSON || kind == MY_IP || kind == GET_INFO {
        SplitOnce(" ");
      } else if kind == SR {
        SplitResult();
      } else if kind == SEARCH_PAS || kind == MULTI_SEARCH_PAS {
        SplitPassive();
      } else if kind == SEARCH || kind == MULTI_SEARCH {
        SplitActive();
      } else if kind == MYINFO {
        SplitMyInfo();
      } else if kind == TO {
        SplitPrivate();
      } else if kind == CHAT {
        SplitOnce("> ");
      } else if kind == OP_FORCE_MOVE {
        SplitForceMove();
      } else if kind == MCTO {
        SplitTwice(" $", " ");
      } else if kind == BAN || kind == IN {
        SplitOnce("$");
      } else if kind == TEMP_BAN {
        SplitTempBan();
      } else if kind != GET_NICK_LIST && kind != GET_BAN_LIST && kind != GET_TOPIC && kind != UNKNOWN && kind != UNPARSED {
        SplitWhole();
      }
      return error;
    }

    /** The text of chunk n: of chunk 0 the whole message, of any other what was read before of
        this message, else the stretch of the text. A chunk out of the text, such as one of
        length -1, yields the text that chunk n had when it was last read, in whichever message. */
    method ChunkString(n: nat) returns (r: string)
      requires Valid()
      modifies `strings, `read
      ensures Valid()
      ensures n == 0 ==> r == str
      ensures n >= MAX_CHUNKS ==> r == strings[0]
      ensures n == 0 || n >= MAX_CHUNKS ==> strings == old(strings) && read == old(read)
      ensures 0 < n < MAX_CHUNKS ==> strings == old(strings)[n := r] && read == old(read) + {n}
      ensures 0 < n < MAX_CHUNKS && n in old(read) ==> r == old(strings)[n]
      ensures 0 < n < MAX_CHUNKS && n !in old(read) ==>
                if InText(str, chunks[n]) then r == TextOf(str, chunks[n]) else r == old(strings)[n]
    {
      if n == 0 {
        return str;
      }
      if n >= MAX_CHUNKS {
        return strings[0];
      }
      if n !in read {
        read := read + {n};
        var c := chunks[n];
        if c.first >= 0 && c.second >= 0 && c.first <= |str| && c.second <= |str| {
          var end := if c.first + c.second <= |str| then c.first + c.second else |str|;
          strings := strings[n := str[c.first..end]];
        }
      }
      return strings[n];
    }

    /** A search result is passed on without its receiver. */
    method ForwardResult() returns (sr: string)
      requires Valid() && kind == SR && len == |str| && kwSize <= |str|
      requires var p := Pieces(SR, str[kwSize..]);
               p.Some? && Shows(p) && chunks[8] == Chunk(|str| - |p.value[7]|, |p.value[7]|)
      ensures sr + HT + Pieces(SR, str[kwSize..]).value[7] == str
    {
      ghost var end := HT + Pieces(SR, str[kwSize..]).value[7];
      ReceiverIsLast(str[kwSize..]);
      assert EndsWith(str, str[kwSize..]);
      EndsWithEnd(str, str[kwSize..], end);
      var cut := chunks[8].first - 1;
      sr := str[..cut];
      assert sr + end == str;
    }
  }
}
