/** Escaping of byte buffers in the DCN form, where a special byte becomes `/%DCN`, three decimal
    digits and `%/`, and the decoder that undoes it. Bytes are written as characters. */
module BufferEscaping {
  import opened Texts
  import opened Wrappers

  const SPECIALS: set<char> := {'\U{0000}', '\U{0005}', '$', '`', '|', '~'}
  const START: string := "/%DCN"
  const MARK: string := "%DCN"
  const END: string := "%/"

  function Decimal(c: char): string
    requires c in SPECIALS
  {
    if c == '\U{0000}' then "0" else if c == '\U{0005}' then "5" else if c == '$' then "36"
    else if c == '`' then "96" else if c == '|' then "124" else "126"
  }

  function Digits(c: char): string
    requires c in SPECIALS
  {
    if c == '\U{0000}' then "000" else if c == '\U{0005}' then "005" else if c == '$' then "036"
    else if c == '`' then "096" else if c == '|' then "124" else "126"
  }

  function Code(c: char): string
    requires c in SPECIALS
  {
    "/" + (MARK + Digits(c) + "%") + "/"
  }

  function Escaped(buf: string): string {
    if buf == "" then ""
    else (if buf[0] in SPECIALS then Code(buf[0]) else [buf[0]]) + Escaped(buf[1..])
  }

  // ---- the number in a code ----

  /** The leading digits of a text. */
  function Number(s: string, value: int): int {
    if s == "" || !IsDigit(s[0]) then value else Number(s[1..], 10 * value + (s[0] as int - '0' as int))
  }

  function Signed(s: string): int {
    if s != "" && s[0] == '-' then -Number(s[1..], 0)
    else if s != "" && s[0] == '+' then Number(s[1..], 0)
    else Number(s, 0)
  }

  /** The library's conversion: white space, a sign, digits, and anything after that ignored. */
  function Atoi(s: string): int {
    if s != "" && (s[0] == ' ' || '\U{0009}' <= s[0] <= '\U{000D}') then Atoi(s[1..]) else Signed(s)
  }

  /** The byte that a number is cut down to. */
  function Byte(n: int): char {
    (n % 256) as char
  }

  function Upto(s: string, n: nat): string {
    if n <= |s| then s[..n] else s
  }

  lemma DigitsGiveByte(c: char)
    requires c in SPECIALS
    ensures |Digits(c)| == 3 && Byte(Atoi(Digits(c))) == c
    ensures '/' !in MARK + Digits(c) + "%" && forall k :: 0 <= k < 3 ==> IsDigit(Digits(c)[k])
  {
    var d := Digits(c);
    assert IsDigit(d[0]) && IsDigit(d[1]) && IsDigit(d[2]);
    var a, b, n := d[0] as int - '0' as int, d[1] as int - '0' as int, d[2] as int - '0' as int;
    assert d[1..][1..] == d[2..] && d[2..][1..] == "";
    assert Number(d[2..], 10 * a + b) == Number("", 10 * (10 * a + b) + n);
    assert Number(d[1..], a) == Number(d[2..], 10 * a + b);
    assert Number(d, 0) == Number(d[1..], a);
  }

  /** A code names its byte by its number, printed in decimal and filled up to three digits. */
  lemma CodeIsNumber(c: char)
    requires c in SPECIALS
    ensures exists zeros :: Texts.Zeros(zeros) && Digits(c) == zeros + Texts.Decimal(c as int)
    ensures |Digits(c)| == 3 && Decimal(c) == Texts.Decimal(c as int)
  {
    hide Texts.Decimal;
    OneDigitPrinted(0);
    SpecialsPrinted();
    var zeros := if c == '\U{0000}' || c == '\U{0005}' then "00" else if c == '$' || c == '`' then "0" else "";
    assert Texts.Zeros(zeros) && Digits(c) == zeros + Texts.Decimal(c as int);
  }

  /** What a text is read as: white space, a sign, the digits of a number, and anything behind
      them; and as 0 without a digit there. */
  lemma {:induction false} AtoiReads(white: string, sign: string, n: nat, rest: string)
    requires sign in {"", "+", "-"} && (rest == "" || !IsDigit(rest[0]))
    requires forall i :: 0 <= i < |white| ==> white[i] in {' ', '\U{0009}', '\U{000A}', '\U{000B}', '\U{000C}', '\U{000D}'}
    ensures Atoi(white + (sign + (Texts.Decimal(n) + rest))) == if sign == "-" then 0 - n else n
    ensures sign != "" ==> Atoi(white + (sign + rest)) == 0
    decreases |white|
  {
    hide Texts.Decimal, Number;
    if white == "" {
      SignRead(sign, n, rest);
      assert "" + (sign + (Texts.Decimal(n) + rest)) == sign + (Texts.Decimal(n) + rest) && "" + (sign + rest) == sign + rest;
    } else {
      AtoiReads(white[1..], sign, n, rest);
      var t, u := sign + (Texts.Decimal(n) + rest), sign + rest;
      assert (white + t)[1..] == white[1..] + t && (white + u)[1..] == white[1..] + u;
    }
  }

  lemma SignRead(sign: string, n: nat, rest: string)
    requires sign in {"", "+", "-"} && (rest == "" || !IsDigit(rest[0]))
    ensures Atoi(sign + (Texts.Decimal(n) + rest)) == if sign == "-" then 0 - n else n
    ensures sign != "" ==> Atoi(sign + rest) == 0
  {
    hide Texts.Decimal;
    var d := Texts.Decimal(n) + rest;
    NumberOfPrinted(n, rest);
    DecimalIsDigits(n);
    assert d[0] in Texts.Decimal(n);
    if sign == "" {
      assert sign + d == d;
    } else {
      assert (sign + d)[1..] == d && (sign + d)[0] == sign[0] && (sign + rest)[1..] == rest && (sign + rest)[0] == sign[0];
    }
  }

  lemma {:induction false} NumberOfPrinted(n: nat, rest: string)
    requires rest == "" || !IsDigit(rest[0])
    ensures Number(Texts.Decimal(n) + rest, 0) == n
    decreases n
  {
    var d, k := [Digit(n % 10)], if n < 10 then 0 else n / 10;
    assert (d + rest)[1..] == rest;
    assert Number(d + rest, k) == Number(rest, 10 * k + n % 10) == 10 * k + n % 10;
    if n >= 10 {
      var front := Texts.Decimal(n / 10);
      DecimalIsDigits(n / 10);
      NumberOfPrinted(n / 10, "");
      assert front + "" == front && Texts.Decimal(n) + rest == front + (d + rest);
      NumberSplits(front, d + rest, 0);
    }
  }

  lemma {:induction false} NumberSplits(a: string, b: string, value: int)
    requires forall c <- a :: IsDigit(c)
    ensures Number(a + b, value) == Number(b, Number(a, value))
    decreases |a|
  {
    if a == "" {
      assert a + b == b;
    } else {
      assert a[0] in a && (a + b)[1..] == a[1..] + b;
      NumberSplits(a[1..], b, 10 * value + (a[0] as int - '0' as int));
    }
  }

  /** Numbers are cut down to their lowest eight bits. */
  lemma ByteIsCut(n: int, k: int)
    requires 0 <= n < 256
    ensures Byte(n + 256 * k) == n as char
  {
  }

  // ---- the decoder as a function ----

  /** What the decoder makes of a text: at every place where a code starts, the code's byte if
      its end is near enough; every other character once, unless it lies in front of the end that
      was found last. The first `skip` characters are in front of it. */
  function Decoded(u: string, skip: nat): string
    decreases |u|
  {
    if u == "" then ""
    else if START <= u then
      var f := Find(u, END, 0);
      if f != -1 && f <= 8 then [Byte(Atoi(Upto(u[5..], 3)))] + Decoded(u[1..], f + 1)
      else Decoded(u[1..], (if f == -1 then |u| else f) - 1)
    else if skip == 0 then [u[0]] + Decoded(u[1..], 0)
    else Decoded(u[1..], skip - 1)
  }

  // ---- the decoding loop ----

  lemma StartHere(src: string, p: nat)
    requires p < |src|
    ensures var pos := Find(src, START, p);
            (START <= src[p..] <==> pos == p) && (pos != p ==> pos == Find(src, START, p + 1))
  {
    var u := src[p..];
    if p + |START| <= |src| {
      assert src[p..p + |START|] == u[..|START|];
    }
  }

  function Drop(s: string, n: nat): string {
    if n <= |s| then s[n..] else ""
  }

  /** In front of the next start only the characters behind the skipped ones come out. */
  lemma {:induction false} DecodedCut(u: string, skip: nat)
    ensures match Cut(u, START)
            case None => Decoded(u, skip) == Drop(u, skip)
            case Some(c) => Decoded(u, skip) == Drop(c.left, skip) + Decoded(START + c.right, if skip < |c.left| then 0 else skip - |c.left|)
  {
    if START <= u {
      assert u == START + u[|START|..];
      EmptyFront(Decoded(u, skip));
    } else if u != "" {
      assert Cut(u, START) == match Cut(u[1..], START) case None => None case Some(c) => Some(Pair([u[0]] + c.left, c.right)) by {
        NoStart(u);
      }
      DecodedCut(u[1..], if skip == 0 then 0 else skip - 1);
      match Cut(u[1..], START)
      case None =>
        assert u == [u[0]] + u[1..];
      case Some(c) =>
        OneInFront(u[0], c.left, skip, Decoded(START + c.right, 0));
    }
  }

  lemma NoStart(u: string)
    requires !(START <= u) && u != ""
    ensures |u| < |START| || u[..|START|] != START
    ensures |u| < |START| ==> Cut(u[1..], START) == None
  {
  }

  lemma OneInFront(x: char, left: string, skip: nat, rest: string)
    ensures skip == 0 ==> Drop([x] + left, 0) + rest == [x] + (Drop(left, 0) + rest)
    ensures skip > 0 ==> Drop([x] + left, skip) == Drop(left, skip - 1)
  {
  }

  /** Up to the next start only the characters behind the last end come out. */
  lemma DecodedUpTo(src: string, p: nat, q: nat)
    requires p <= |src| && p <= q
    ensures var pos := Find(src, START, p);
            Decoded(src[p..], q - p) ==
              if pos == -1 then (if q < |src| then src[q..] else "")
              else (if q < pos then src[q..pos] + Decoded(src[pos..], 0) else Decoded(src[pos..], q - pos))
  {
    hide Decoded, Find, Cut;
    var pos := Find(src, START, p);
    FindCuts(src, START, p);
    DecodedCut(src[p..], q - p);
    if pos == -1 {
      DroppedTail(src, p, q, |src|);
    } else {
      FoundThere(src, START, p);
      DroppedTail(src, p, q, pos);
      EmptyFront(Decoded(src[pos..], if q < pos then 0 else q - pos));
    }
  }

  lemma DroppedTail(src: string, p: nat, q: nat, end: nat)
    requires p <= end <= |src| && p <= q
    ensures Drop(src[p..end], q - p) == if q < end then src[q..end] else ""
    ensures end == |src| ==> src[p..end] == src[p..] && (q < end ==> src[q..end] == src[q..])
  {
  }

  lemma {:induction false} FoundThere(src: string, lim: string, p: nat)
    requires lim != "" && Find(src, lim, p) != -1
    ensures var pos := Find(src, lim, p); lim + src[pos + |lim|..] == src[pos..]
    decreases |src| - p
  {
    if src[p..p + |lim|] == lim {
      assert src[p..] == src[p..p + |lim|] + src[p + |lim|..];
    } else {
      FoundThere(src, lim, p + 1);
    }
  }

  lemma EndHere(src: string, pos: nat)
    requires pos <= |src|
    ensures var f := Find(src, END, pos); Find(src[pos..], END, 0) == if f == -1 then -1 else f - pos
  {
    FindInTail(src, pos, 0);
  }

  lemma {:induction false} FindInTail(src: string, pos: nat, k: nat)
    requires pos + k <= |src|
    ensures var f := Find(src, END, pos + k); Find(src[pos..], END, k) == if f == -1 then -1 else f - pos
    decreases |src| - pos - k
  {
    if pos + k + |END| <= |src| {
      assert src[pos..][k..k + |END|] == src[pos + k..pos + k + |END|];
      if src[pos + k..pos + k + |END|] != END {
        FindInTail(src, pos, k + 1);
      }
    }
  }

  /** One start: at most one byte comes out, and the search goes on one character further. */
  lemma DecodedStart(src: string, pos: nat, skip: nat)
    requires Find(src, START, pos) == pos && pos <= |src|
    ensures pos + |START| <= |src|
    ensures var f := Find(src, END, pos);
            Decoded(src[pos..], skip) ==
              if f != -1 && f - pos <= 8 then [Byte(Atoi(Upto(src[pos + 5..], 3)))] + Decoded(src[pos + 1..], f + 2 - (pos + 1))
              else Decoded(src[pos + 1..], (if f == -1 then |src| else f) - (pos + 1))
  {
    var u := src[pos..];
    StartHere(src, pos);
    EndHere(src, pos);
    assert u[1..] == src[pos + 1..] && u[5..] == src[pos + 5..];
    StartIsNoEnd(u);
  }

  lemma NoEndAt(u: string, k: nat)
    requires k + 1 < |u| ==> u[k] != '%' || u[k + 1] != '/'
    ensures Find(u, END, k) == Find(u, END, k + 1)
  {
    if k + 1 < |u| {
      assert u[k..k + |END|][0] == u[k] && u[k..k + |END|][1] == u[k + 1];
    }
  }

  /** No end begins within a start. */
  lemma StartIsNoEnd(u: string)
    requires START <= u
    ensures var f := Find(u, END, 0); f == -1 || f >= 5
  {
    assert u[0] == '/' && u[1] == '%' && u[2] == 'D' && u[3] == 'C' && u[4] == 'N';
    NoEndAt(u, 0);
    NoEndAt(u, 1);
    NoEndAt(u, 2);
    NoEndAt(u, 3);
    NoEndAt(u, 4);
  }

  /** Copies a stretch of the text, if it is not empty, behind what has been written. */
  method Copy(src: string, from: nat, to: nat, dst: array<char>, i: nat) returns (j: nat)
    requires to <= |src| && (from < to ==> i + (to - from) <= dst.Length) && i <= dst.Length
    modifies dst
    ensures j == i + (if from < to then to - from else 0)
    ensures dst[..j] == old(dst[..i]) + if from < to then src[from..to] else ""
  {
    j := i;
    if from < to {
      for k := 0 to to - from
        invariant dst[..i] == old(dst[..i]) && dst[i..i + k] == src[from..from + k]
      {
        dst[i + k] := src[from + k];
        assert dst[i..i + k + 1] == dst[i..i + k] + [src[from + k]];
        assert src[from..from + k + 1] == src[from..from + k] + [src[from + k]];
      }
      j := i + (to - from);
      assert dst[..j] == dst[..i] + dst[i..j];
    }
  }

  /** Decodes one start: writes at most one byte, and gives the place where copying goes on. */
  method DecodeStart(src: string, pos: nat, dst: array<char>, i: nat, ghost skip: nat) returns (j: nat, pos2: nat, ghost byte: string)
    requires pos <= |src| && Find(src, START, pos) == pos && i < dst.Length
    modifies dst
    ensures i <= j <= i + 1 && pos < pos2 && pos < |src|
    ensures dst[..j] == old(dst[..i]) + byte
    ensures Decoded(src[pos..], skip) == byte + Decoded(src[pos + 1..], pos2 - (pos + 1))
  {
    hide Decoded, Find, Atoi, Upto, Byte;
    DecodedStart(src, pos, skip);
    var f := Find(src, END, pos);
    byte := "";
    if f != -1 && f - pos <= 8 {
      dst[i] := Byte(Atoi(Upto(src[pos + 5..], 3)));
      byte := [dst[i]];
      j, pos2 := i + 1, f + 2;
    } else {
      // Without an end the source takes the largest position, which is behind every other.
      j, pos2 := i, if f == -1 then |src| else f;
    }
  }

  /** Copies what is left of the text, and a zero byte behind it. */
  method CopyRest(src: string, pos2: nat, dst: array<char>, i: nat) returns (j: nat)
    requires i <= pos2 && |src| < dst.Length && i <= |src|
    modifies dst
    ensures j <= |src| && dst[..j] == old(dst[..i]) + if pos2 < |src| then src[pos2..] else ""
    ensures pos2 < |src| ==> dst[j] == '\U{0000}'
  {
    j := Copy(src, pos2, |src|, dst, i);
    assert pos2 < |src| ==> src[pos2..|src|] == src[pos2..];
    if pos2 < |src| {
      dst[j] := '\U{0000}';
    }
  }

  /** One round: copies what is in front of a start, and decodes it. */
  method DecodeRound(src: string, ghost p: nat, pos: nat, pos2: nat, dst: array<char>, i: nat) returns (j: nat, next: nat, ghost more: string)
    requires i <= p <= pos2 && p <= |src| < dst.Length && Find(src, START, p) == pos
    modifies dst
    ensures j <= pos + 1 <= next && pos < |src|
    ensures dst[..j] == old(dst[..i]) + more
    ensures Decoded(src[p..], pos2 - p) == more + Decoded(src[pos + 1..], next - (pos + 1))
  {
    ghost var gap := if pos2 < pos then src[pos2..pos] else "";
    ghost var skip, was := if pos2 < pos then 0 else pos2 - pos, dst[..i];
    GapDecoded(src, p, pos2);
    Steady(src, pos, p);
    j := Copy(src, pos2, pos, dst, i);
    ghost var byte;
    j, next, byte := DecodeStart(src, pos, dst, j, skip);
    more := gap + byte;
    Regrouped(was, gap, byte, Decoded(src[pos + 1..], next - (pos + 1)));
  }

  /** Decodes a text into a buffer that has room for it and a final zero byte. */
  method UnEscapeBuffer(src: string, dst: array<char>) returns (len: nat)
    requires |src| < dst.Length
    modifies dst
    ensures len <= |src| && dst[..len] == Decoded(src, 0)
  {
    hide Decoded, Find;
    var i: nat, pos2: nat := 0, 0;
    var pos := Find(src, START, 0);
    ghost var p: nat, more, out, total := 0, "", "", Decoded(src, 0);
    assert src[0..] == src;
    while pos != -1 && i < |src|
      invariant i <= p <= pos2 && p <= |src| && pos == Find(src, START, p)
      invariant dst[..i] == out
      invariant out + Decoded(src[p..], pos2 - p) == total
      decreases |src| - p
    {
      i, pos2, more := DecodeRound(src, p, pos, pos2, dst, i);
      p := pos + 1;
      Grouped(out, more, Decoded(src[p..], pos2 - p));
      out := out + more;
      pos := Find(src, START, pos + 1);
    }
    DecodedUpTo(src, p, pos2);
    len := CopyRest(src, pos2, dst, i);
  }

  lemma GapDecoded(src: string, p: nat, q: nat)
    requires p <= |src| && p <= q && Find(src, START, p) != -1
    ensures var pos := Find(src, START, p);
            Decoded(src[p..], q - p) == (if q < pos then src[q..pos] else "") + Decoded(src[pos..], if q < pos then 0 else q - pos)
  {
    DecodedUpTo(src, p, q);
  }

  lemma Regrouped(a: string, b: string, c: string, d: string)
    ensures (a + b) + c == a + (b + c) && b + (c + d) == (b + c) + d
  {
  }

  lemma {:induction false} Steady(src: string, pos: nat, p: nat)
    requires p <= pos && Find(src, START, p) == pos
    ensures Find(src, START, pos) == pos
    decreases pos - p
  {
    if p < pos {
      Steady(src, pos, p + 1);
    }
  }

  // ---- the encoder ----

  function Zeros(n: int): string {
    if n <= 0 then "" else "0" + Zeros(n - 1)
  }

  /** A text filled up on the right with zeros to a width. */
  function Filled(s: string, width: int): string {
    s + Zeros(width - |s|)
  }

  lemma FilledCode(c: char)
    requires c in SPECIALS
    ensures var width := if c as int < 10 then 7 else if c as int < 100 then 6 else 0;
            Filled(START, width) + Decimal(c) + END == Code(c)
  {
    assert Zeros(0) == "" && Zeros(1) == "0" && Zeros(2) == "00" && Zeros(-5) == "";
    assert START == "/" + MARK && END == "%" + "/";
  }

  method EscapeBuffer(buf: seq<char>) returns (dest: string)
    ensures dest == Escaped(buf)
  {
    dest := "";
    for i := 0 to |buf|
      invariant dest + Escaped(buf[i..]) == Escaped(buf)
    {
      var c := buf[i];
      assert buf[i..][1..] == buf[i + 1..];
      if c in SPECIALS {
        var width := if c as int < 10 then 7 else if c as int < 100 then 6 else 0;
        FilledCode(c);
        dest := dest + (Filled(START, width) + Decimal(c) + END);
      } else {
        dest := dest + [c];
      }
    }
  }

  // ---- the round trip ----

  predicate Clash(buf: string) {
    buf != "" && (buf[0] == '/' || buf[0] in SPECIALS) && MARK <= buf[1..]
  }

  /** No `%DCN` directly behind a slash or a special byte. */
  predicate Clean(buf: string) {
    buf == "" || (!Clash(buf) && Clean(buf[1..]))
  }

  lemma {:induction false} PlainPrefix(p: string, buf: string)
    requires '/' !in p
    ensures p <= Escaped(buf) <==> p <= buf && forall c <- p :: c !in SPECIALS
  {
    if p != "" {
      if buf != "" {
        var e := Escaped(buf);
        assert e[0] == if buf[0] in SPECIALS then '/' else buf[0];
        assert p <= e ==> p[0] == e[0] && p[0] in p;
        assert p <= buf ==> p[0] == buf[0] && p[0] in p;
        if p[0] == buf[0] && buf[0] !in SPECIALS {
          assert e[1..] == Escaped(buf[1..]);
          PlainPrefix(p[1..], buf[1..]);
          assert p == [p[0]] + p[1..];
          assert e == [e[0]] + e[1..];
          assert buf == [buf[0]] + buf[1..];
        }
      }
    }
  }

  lemma MarkAhead(buf: string)
    ensures MARK <= Escaped(buf) <==> MARK <= buf
  {
    assert forall c <- MARK :: c == '%' || c == 'D' || c == 'C' || c == 'N';
    PlainPrefix(MARK, buf);
  }

  /** Behind an escaped slash or special byte a start begins exactly where the mark follows. */
  lemma StartBehind(x: char, rest: string)
    ensures START <= [x] + Escaped(rest) <==> x == '/' && MARK <= rest
  {
    MarkAhead(rest);
    var e := Escaped(rest);
    var u := [x] + e;
    assert START == ['/'] + MARK && u[1..] == e;
    if START <= u {
      assert u[0] == START[0];
      assert e[..|MARK|] == u[..|START|][1..] == MARK;
    }
    if x == '/' && MARK <= e {
      assert u == START + e[4..];
    }
  }

  lemma {:induction false} SkipPlain(d: string, rest: string, skip: nat)
    requires '/' !in d && skip >= |d|
    ensures Decoded(d + rest, skip) == Decoded(rest, skip - |d|)
  {
    if d == "" {
      assert d + rest == rest;
    } else {
      assert (d + rest)[0] == d[0] && d[0] in d && (d + rest)[1..] == d[1..] + rest;
      SkipPlain(d[1..], rest, skip - 1);
    }
  }

  /** A code is decoded to its byte, and its characters up to the last slash are passed over. */
  lemma CodeDecoded(c: char, rest: string, skip: nat)
    requires c in SPECIALS
    ensures Decoded(Code(c) + rest, skip) == [c] + Decoded("/" + rest, 1)
  {
    var body := MARK + Digits(c) + "%";
    var u := Code(c) + rest;
    DigitsGiveByte(c);
    assert u == "/" + (body + ("/" + rest));
    assert u[1..] == body + ("/" + rest);
    assert START <= u;
    assert u[5..] == Digits(c) + ("%/" + rest);
    assert Upto(u[5..], 3) == Digits(c);
    EndOfCode(c, rest);
    SkipPlain(body, "/" + rest, 9);
  }

  lemma EndOfCode(c: char, rest: string)
    requires c in SPECIALS
    ensures Find(Code(c) + rest, END, 0) == 8
  {
    var u := Code(c) + rest;
    DigitsGiveByte(c);
    var d := Digits(c);
    assert u[0] == '/' && u[1] == '%' && u[2] == 'D' && u[3] == 'C' && u[4] == 'N';
    assert u[5] == d[0] && u[6] == d[1] && u[7] == d[2] && u[8] == '%' && u[9] == '/';
    NoEndAt(u, 0);
    NoEndAt(u, 1);
    NoEndAt(u, 2);
    NoEndAt(u, 3);
    NoEndAt(u, 4);
    NoEndAt(u, 5);
    NoEndAt(u, 6);
    NoEndAt(u, 7);
    assert u[8..8 + |END|] == END;
  }

  // ---- any text ----

  lemma {:induction false} FindSkips(u: string, k: nat, n: nat)
    requires k <= n && n + |END| <= |u| && u[n..n + |END|] == END
    requires forall i :: k <= i < n ==> u[i] != '%' || u[i + 1] != '/'
    ensures Find(u, END, k) == n
    decreases n - k
  {
    if k < n {
      NoEndAt(u, k);
      FindSkips(u, k + 1, n);
    }
  }

  lemma EndBehind(p: string, rest: string)
    requires p != "" && forall i :: 1 <= i < |p| ==> p[i] != '/'
    ensures Find(p + (END + rest), END, 0) == |p|
  {
    hide Find;
    var u, n := p + (END + rest), |p|;
    assert u[n..n + |END|] == END;
    forall i | 0 <= i < n ensures u[i] != '%' || u[i + 1] != '/' {
      assert u[i + 1] == if i + 1 < n then p[i + 1] else END[0];
    }
    FindSkips(u, 0, n);
  }

  lemma EndOfStart(x: string, rest: string)
    requires '/' !in x
    ensures var u := START + (x + (END + rest));
            && Find(u, END, 0) == 5 + |x|
            && u[1..] == (MARK + x) + (END + rest) == (MARK + x + "%") + ("/" + rest) && u[5..] == x + (END + rest)
  {
    hide Find;
    var p := START + x;
    forall i | 1 <= i < |p| ensures p[i] != '/' {
      assert p[i] == if i < 5 then START[i] else x[i - 5];
      assert i >= 5 ==> x[i - 5] in x;
    }
    EndBehind(p, rest);
    assert p + (END + rest) == START + (x + (END + rest));
  }

  /** What the decoder makes of a start: with its end at most three characters behind it, the byte
      that the number between them is cut down to, and on behind the end; with the end further
      away, nothing, and on at the end itself. */
  lemma StartDecoded(x: string, rest: string)
    requires '/' !in x
    ensures Decoded(START + (x + (END + rest)), 0) ==
              if |x| <= 3 then [Byte(Atoi(Upto(x + (END + rest), 3)))] + Decoded("/" + rest, 1)
              else Decoded(END + rest, 0)
    ensures !(MARK <= rest) ==> Decoded("/" + rest, 1) == Decoded(rest, 0)
  {
    hide Decoded, Find, Atoi, Upto, Byte;
    EndOfStart(x, rest);
    OneStart(START + (x + (END + rest)), 5 + |x|);
    if |x| <= 3 {
      SkipPlain(MARK + x + "%", "/" + rest, 6 + |x|);
    } else {
      SkipPlain(MARK + x, END + rest, 4 + |x|);
    }
    StartOrNot(rest);
  }

  lemma OneStart(u: string, f: nat)
    requires START <= u && Find(u, END, 0) == f
    ensures Decoded(u, 0) == if f <= 8 then [Byte(Atoi(Upto(u[5..], 3)))] + Decoded(u[1..], f + 1) else Decoded(u[1..], f - 1)
  {
    hide Find, Atoi, Upto;
  }

  lemma StartOrNot(rest: string)
    ensures START <= "/" + rest <==> MARK <= rest
    ensures !(MARK <= rest) ==> Decoded("/" + rest, 1) == Decoded(rest, 0)
  {
    hide Find, Atoi, Upto;
    var u := "/" + rest;
    assert u[1..] == rest && START == ['/'] + MARK;
    if START <= u {
      assert rest[..4] == u[..5][1..];
    }
    if MARK <= rest {
      assert u == START + rest[4..];
    }
  }

  /** Without an end the rest of the text is dropped, and in front of a start nothing changes. */
  lemma StartWithoutEnd(x: string)
    requires '/' !in x
    ensures Decoded(START + x, 0) == ""
  {
    hide Find;
    var u := START + x;
    NoEndIn(u, 0);
    assert u[1..] == MARK + x && MARK + x + "" == MARK + x;
    SkipPlain(MARK + x, "", 4 + |x|);
  }

  lemma {:induction false} NoEndIn(u: string, k: nat)
    requires forall i :: 1 <= i < |u| ==> u[i] != '/'
    ensures Find(u, END, k) == -1
    decreases |u| - k
  {
    if k + |END| <= |u| {
      NoEndAt(u, k);
      NoEndIn(u, k + 1);
    }
  }

  lemma {:induction false} PlainDecoded(a: string, rest: string)
    requires '/' !in a
    ensures Decoded(a + rest, 0) == a + Decoded(rest, 0)
  {
    hide Find;
    if a == "" {
      assert a + rest == rest && "" + Decoded(rest, 0) == Decoded(rest, 0);
    } else {
      assert (a + rest)[0] == a[0] && a[0] in a && (a + rest)[1..] == a[1..] + rest;
      PlainDecoded(a[1..], rest);
      assert a == [a[0]] + a[1..];
    }
  }

  lemma {:induction false} CleanComesBack(buf: string)
    requires Clean(buf)
    ensures Decoded(Escaped(buf), 0) == buf
  {
    if buf != "" {
      var rest := buf[1..];
      var e := Escaped(rest);
      CleanComesBack(rest);
      if buf[0] in SPECIALS {
        CodeDecoded(buf[0], e, 0);
        StartBehind('/', rest);
        assert ("/" + e)[1..] == e;
      } else {
        StartBehind(buf[0], rest);
        assert ([buf[0]] + e)[1..] == e;
      }
    }
  }

  /** Where a start begins inside a buffer, at most one byte comes out for its five characters. */
  lemma ClashLoses(rest: string, skip: nat)
    requires MARK <= rest
    ensures exists k: nat :: |Decoded("/" + Escaped(rest), skip)| <= 1 + |Decoded(Escaped(rest[4..]), k)|
  {
    var e := Escaped(rest);
    var u := "/" + e;
    StartBehind('/', rest);
    assert u == ['/'] + e && u[1..] == e;
    StartIsNoEnd(u);
    MarkSplits(rest);
    var f := Find(u, END, 0);
    var k: nat := if f != -1 && f <= 8 then f + 1 else (if f == -1 then |u| else f) - 1;
    SkipPlain(MARK, Escaped(rest[4..]), k);
    assert |Decoded(u, skip)| <= 1 + |Decoded(Escaped(rest[4..]), k - 4)|;
  }

  lemma EscapedPlain(x: char, rest: string)
    requires x !in SPECIALS
    ensures Escaped([x] + rest) == [x] + Escaped(rest)
  {
    assert ([x] + rest)[1..] == rest;
  }

  lemma MarkSplits(rest: string)
    requires MARK <= rest
    ensures Escaped(rest) == MARK + Escaped(rest[4..])
  {
    hide Escaped;
    var d := rest[4..];
    assert rest == MARK + d && MARK + d == ['%'] + (['D'] + (['C'] + (['N'] + d)));
    EscapedPlain('N', d);
    EscapedPlain('C', ['N'] + d);
    EscapedPlain('D', ['C'] + (['N'] + d));
    EscapedPlain('%', ['D'] + (['C'] + (['N'] + d)));
    var e := Escaped(d);
    assert MARK + e == ['%'] + (['D'] + (['C'] + (['N'] + e)));
  }

  /** Never more bytes come out than went in, and fewer if a mark clashes. */
  lemma {:induction false} ClashShortens(buf: string, skip: nat)
    ensures var n := |Decoded(Escaped(buf), skip)|; n <= |buf| && (!Clean(buf) ==> n < |buf|)
    decreases |buf|
  {
    if buf != "" {
      var rest := buf[1..];
      var e := Escaped(rest);
      if buf[0] in SPECIALS {
        CodeDecoded(buf[0], e, skip);
      }
      StartBehind('/', rest);
      StartBehind(buf[0], rest);
      assert ("/" + e)[1..] == e && ([buf[0]] + e)[1..] == e;
      if Clash(buf) {
        var s := if buf[0] in SPECIALS then 1 else skip;
        ClashLoses(rest, s);
        var k: nat :| |Decoded("/" + e, s)| <= 1 + |Decoded(Escaped(rest[4..]), k)|;
        ClashShortens(rest[4..], k);
      } else if buf[0] in SPECIALS {
        ClashShortens(rest, 0);
      } else {
        ClashShortens(rest, if skip == 0 then 0 else skip - 1);
      }
    }
  }

  /** Decoding undoes encoding exactly for the buffers that hold no `%DCN` directly behind a
      slash or a special byte. */
  lemma RoundTrip(buf: string)
    ensures Decoded(Escaped(buf), 0) == buf <==> Clean(buf)
  {
    if Clean(buf) {
      CleanComesBack(buf);
    } else {
      ClashShortens(buf, 0);
    }
  }

  /** In particular for all buffers without the mark. */
  lemma {:induction false} UnmarkedIsClean(buf: string)
    requires !Contains(buf, MARK)
    ensures Clean(buf)
  {
    if buf != "" {
      forall k ensures !Occurs(buf[1..], MARK, k) {
        if 0 <= k && k + |MARK| <= |buf| - 1 {
          assert buf[1..][k..k + |MARK|] == buf[k + 1..k + 1 + |MARK|];
          assert !Occurs(buf, MARK, k + 1);
        }
      }
      assert !Occurs(buf[1..], MARK, 0);
      UnmarkedIsClean(buf[1..]);
    }
  }

  /** Encoded and decoded again, a buffer without the mark is back. */
  method ThroughTheWire(buf: seq<char>, dst: array<char>) returns (len: nat)
    requires !Contains(buf, MARK) && |Escaped(buf)| < dst.Length
    modifies dst
    ensures len <= dst.Length && dst[..len] == buf
  {
    var text := EscapeBuffer(buf);
    len := UnEscapeBuffer(text, dst);
    UnmarkedIsClean(buf);
    RoundTrip(buf);
  }
}

