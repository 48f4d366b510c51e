/** Searching a text for a delimiter, and cutting it there. */
module Texts {
  import opened Wrappers

  predicate IsDigit(c: char) {
    '0' <= c <= '9'
  }

  // ---- numbers as text ----

  function Digit(n: int): char
    requires 0 <= n < 10
  {
    ('0' as int + n) as char
  }

  /** A number as it is printed. */
  function Decimal(n: nat): (s: string)
    ensures s != ""
  {
    if n < 10 then [Digit(n)] else Decimal(n / 10) + [Digit(n % 10)]
  }

  lemma {:induction false} DecimalIsDigits(n: nat)
    ensures forall c <- Decimal(n) :: IsDigit(c)
    decreases n
  {
    if n >= 10 {
      DecimalIsDigits(n / 10);
    }
  }

  function Power10(k: nat): nat {
    if k == 0 then 1 else 10 * Power10(k - 1)
  }

  /** A number below 10^k is printed with at most k digits. */
  lemma {:induction false} DecimalLength(n: nat, k: nat)
    requires k > 0 && n < Power10(k)
    ensures |Decimal(n)| <= k
    decreases n
  {
    if n >= 10 {
      assert k > 1 by { assert Power10(1) == 10 * Power10(0); }
      DecimalLength(n / 10, k - 1);
    }
  }

  lemma OneDigitPrinted(n: nat)
    requires n < 10
    ensures Decimal(n) == [Digit(n)]
  {
  }

  lemma DigitsPrinted(n: nat)
    requires n >= 10
    ensures Decimal(n) == Decimal(n / 10) + [Digit(n % 10)]
  {
  }

  /** The codes of the characters that are special in the protocol. */
  lemma SpecialsPrinted()
    ensures Decimal(5) == "5" && Decimal(36) == "36" && Decimal(96) == "96" && Decimal(124) == "124" && Decimal(126) == "126"
  {
    hide Decimal;
    OneDigitPrinted(1);
    OneDigitPrinted(3);
    OneDigitPrinted(5);
    OneDigitPrinted(9);
    DigitsPrinted(12);
    DigitsPrinted(36);
    DigitsPrinted(96);
    DigitsPrinted(124);
    DigitsPrinted(126);
  }

  predicate Zeros(s: string) {
    forall i :: 0 <= i < |s| ==> s[i] == '0'
  }

  /** Every text of digits is a printed number behind zeros. */
  lemma {:induction false} DigitsArePrinted(s: string) returns (zeros: string, n: nat)
    requires s != "" && forall i :: 0 <= i < |s| ==> IsDigit(s[i])
    ensures Zeros(zeros) && s == zeros + Decimal(n)
    decreases |s|
  {
    var k := |s| - 1;
    var d := s[k] as int - '0' as int;
    assert s == s[..k] + [Digit(d)];
    if k == 0 {
      zeros, n := "", d;
      assert "" + Decimal(n) == s;
    } else {
      var m;
      zeros, m := DigitsArePrinted(s[..k]);
      n := 10 * m + d;
      if m == 0 {
        zeros := zeros + "0";
      } else {
        assert Decimal(n) == Decimal(m) + [Digit(d)];
        Grouped(zeros, Decimal(m), [Digit(d)]);
      }
    }
  }

  // ---- searching ----

  lemma Grouped(a: string, b: string, c: string)
    ensures (a + b) + c == a + (b + c)
  {
  }

  lemma EmptyFront(rest: string)
    ensures "" + rest == rest
  {
  }

  datatype Pair = Pair(left: string, right: string)

  predicate Occurs(s: string, lim: string, k: int) {
    0 <= k && k + |lim| <= |s| && s[k..k + |lim|] == lim
  }

  ghost predicate Contains(s: string, lim: string) {
    exists k :: Occurs(s, lim, k)
  }

  /** The library's search from the left. */
  function Find(s: string, lim: string, start: nat): (r: int)
    requires lim != ""
    ensures r == -1 || start <= r <= |s| - |lim|
    decreases |s| - start
  {
    if start + |lim| > |s| then -1
    else if s[start..start + |lim|] == lim then start
    else Find(s, lim, start + 1)
  }

  /** The library's search for a character from the right, from pos on. */
  function FindLast(s: string, c: char, pos: nat): (r: int)
    ensures -1 <= r < |s| && (r >= 0 ==> r <= pos && s[r] == c)
    ensures forall k :: r < k <= pos && k < |s| ==> s[k] != c
  {
    if pos < |s| && s[pos] == c then pos
    else if pos == 0 then -1
    else FindLast(s, c, pos - 1)
  }

  /** The same for a text. */
  function FindLastText(s: string, lim: string, pos: nat): (r: int)
    requires lim != ""
    ensures r == -1 || (0 <= r <= pos && Occurs(s, lim, r))
    ensures forall k :: r < k <= pos ==> !Occurs(s, lim, k)
  {
    if Occurs(s, lim, pos) then pos
    else if pos == 0 then -1
    else FindLastText(s, lim, pos - 1)
  }

  lemma OneCharacter(s: string, lim: string, pos: nat)
    requires |lim| == 1
    ensures FindLastText(s, lim, pos) == FindLast(s, lim[0], pos)
  {
    forall k | 0 <= k < |s| ensures Occurs(s, lim, k) <==> s[k] == lim[0] {
      assert s[k..k + 1] == [s[k]] && lim == [lim[0]];
    }
  }

  /** What stands before and behind the first delimiter. */
  function Cut(s: string, lim: string): (r: Option<Pair>)
    requires lim != ""
  {
    if |s| < |lim| then None
    else if s[..|lim|] == lim then Some(Pair("", s[|lim|..]))
    else
      match Cut(s[1..], lim)
      case None => None
      case Some(p) => Some(Pair([s[0]] + p.left, p.right))
  }

  /** What stands before and behind the last delimiter. */
  function CutLast(s: string, lim: string): (r: Option<Pair>)
    requires |lim| == 1
  {
    if s == "" then None
    else if s[|s| - 1] == lim[0] then Some(Pair(s[..|s| - 1], ""))
    else
      match CutLast(s[..|s| - 1], lim)
      case None => None
      case Some(p) => Some(Pair(p.left, p.right + [s[|s| - 1]]))
  }

  /** The cut is at the last occurrence. */
  lemma {:induction false} CutLastIsLast(s: string, lim: string)
    requires |lim| == 1
    ensures var c := CutLast(s, lim);
            && (c.None? <==> lim[0] !in s)
            && (c.Some? ==> s == c.value.left + lim + c.value.right && lim[0] !in c.value.right)
  {
    if s != "" {
      var t := s[..|s| - 1];
      assert s == t + [s[|s| - 1]];
      if s[|s| - 1] == lim[0] {
        assert s == t + lim + "";
      } else {
        CutLastIsLast(t, lim);
      }
    }
  }

  lemma TailSlices(s: string, start: nat, n: nat)
    requires start + n <= |s|
    ensures s[start..][..n] == s[start..start + n] && s[start..][n..] == s[start + n..]
  {
  }

  lemma FrontSlice(s: string, start: nat, i: nat)
    requires start < i <= |s|
    ensures s[start..i] == [s[start]] + s[start + 1..i]
  {
  }

  /** What a search result means for the rest of the text. */
  function Found(s: string, lim: string, start: nat, i: int): Option<Pair>
    requires i == -1 || start <= i <= |s| - |lim|
  {
    if i == -1 then None else Some(Pair(s[start..i], s[i + |lim|..]))
  }

  /** Searching from a position cuts the rest of the text. */
  lemma {:induction false} FindCuts(s: string, lim: string, start: nat)
    requires start <= |s| && lim != ""
    ensures Cut(s[start..], lim) == Found(s, lim, start, Find(s, lim, start))
    decreases |s| - start
  {
    if start + |lim| <= |s| {
      TailSlices(s, start, |lim|);
      TailSlices(s, start, 1);
      if s[start..start + |lim|] == lim {
        assert s[start..start] == "";
      } else {
        FindCuts(s, lim, start + 1);
        FoundLater(s, lim, start, Find(s, lim, start + 1));
      }
    }
  }

  lemma FoundLater(s: string, lim: string, start: nat, i: int)
    requires start < |s| && (i == -1 || start + 1 <= i <= |s| - |lim|)
    ensures Found(s, lim, start, i) ==
            match Found(s, lim, start + 1, i)
            case None => None
            case Some(p) => Some(Pair([s[start]] + p.left, p.right))
  {
    if i != -1 {
      FrontSlice(s, start, i);
    }
  }

  lemma NotBehind(s: string, c: char, i: nat, k: nat)
    requires i < |s| && k < |s| && s[k] == c && c !in s[i + 1..]
    ensures k <= i
  {
    forall j | i < j < |s| ensures s[j] in s[i + 1..] {
      assert s[j] == s[i + 1..][j - i - 1];
    }
  }

  /** A text is cut at the last place of the delimiter. */
  lemma CutLastAt(s: string, lim: string, i: nat)
    requires |lim| == 1 && i < |s| && s[i] == lim[0] && lim[0] !in s[i + 1..]
    ensures CutLast(s, lim) == Some(Pair(s[..i], s[i + 1..]))
  {
    CutLastIsLast(s, lim);
    var c := CutLast(s, lim).value;
    var l := |c.left|;
    assert s[l] == lim[0] && s[l + 1..] == c.right && s[..l] == c.left;
    NotBehind(s, lim[0], i, l);
    NotBehind(s, lim[0], l, i);
  }

  lemma CutLastFrom(s: string, lim: string, start: nat, i: nat)
    requires start <= i < |s| && |lim| == 1 && s[i] == lim[0] && lim[0] !in s[i + 1..]
    ensures CutLast(s[start..], lim) == Some(Pair(s[start..i], s[i + 1..]))
  {
    var t := s[start..];
    assert s[i + 1..] == t[i - start + 1..];
    CutLastAt(t, lim, i - start);
    assert s[start..i] == t[..i - start];
  }

  lemma NotInRest(s: string, c: char, n: nat)
    requires n <= |s| && forall k :: n <= k < |s| ==> s[k] != c
    ensures c !in s[n..]
  {
  }

  /** Searching backwards from the end cuts the rest of the text too. */
  lemma FindLastCuts(s: string, lim: string, start: nat, pos: nat)
    requires start <= |s| <= pos + 1 && |lim| == 1
    ensures var i := FindLast(s, lim[0], pos);
            CutLast(s[start..], lim) == if i < start then None else Some(Pair(s[start..i], s[i + 1..]))
  {
    var i := FindLast(s, lim[0], pos);
    if start <= i {
      NotInRest(s, lim[0], i + 1);
      CutLastFrom(s, lim, start, i);
    } else {
      NotInRest(s, lim[0], start);
      CutLastIsLast(s[start..], lim);
    }
  }

  lemma OccursLater(s: string, lim: string, k: int)
    requires |s| >= |lim| > 0 && s[..|lim|] != lim
    ensures Occurs(s, lim, k) <==> Occurs(s[1..], lim, k - 1)
  {
    if 1 <= k && k + |lim| <= |s| {
      assert s[1..][k - 1..k - 1 + |lim|] == s[k..k + |lim|];
    }
  }

  /** The cut is at the first occurrence. */
  lemma {:induction false} CutIsFirst(s: string, lim: string)
    requires lim != ""
    ensures var c := Cut(s, lim);
            && (c.None? ==> !Contains(s, lim))
            && (c.Some? ==> s == c.value.left + lim + c.value.right)
            && (c.Some? ==> Occurs(s, lim, |c.value.left|) && forall k :: k < |c.value.left| ==> !Occurs(s, lim, k))
  {
    if |s| >= |lim| && s[..|lim|] != lim {
      CutIsFirst(s[1..], lim);
      forall k ensures Occurs(s, lim, k) <==> Occurs(s[1..], lim, k - 1) {
        OccursLater(s, lim, k);
      }
    }
  }

  /** A text is cut where it was joined exactly if no delimiter begins earlier, not even one that
      straddles the left part and the delimiter. */
  lemma CutJoined(a: string, lim: string, b: string)
    requires lim != ""
    ensures Cut(a + lim + b, lim) == Some(Pair(a, b)) <==> !Contains(a + lim[..|lim| - 1], lim)
  {
    var s, t, c := a + lim + b, a + lim[..|lim| - 1], Cut(a + lim + b, lim);
    CutIsFirst(s, lim);
    forall k ensures Occurs(t, lim, k) <==> k < |a| && Occurs(s, lim, k) {
      if 0 <= k < |a| && k + |lim| <= |s| {
        assert s[k..k + |lim|] == t[k..k + |lim|];
      }
    }
    assert Occurs(s, lim, |a|);
    if !Contains(t, lim) {
      var l := c.value.left;
      assert s[|l|..|l| + |lim|] == lim;
      assert Occurs(s, lim, |l|);
      assert |l| == |a|;
      assert l == s[..|a|] == a;
      assert c.value.right == s[|a| + |lim|..] == b;
    }
  }

  lemma ContainsChar(s: string, lim: string)
    requires |lim| == 1
    ensures Contains(s + lim[..0], lim) <==> lim[0] in s
  {
    assert s + lim[..0] == s;
    if lim[0] in s {
      var k :| 0 <= k < |s| && s[k] == lim[0];
      assert Occurs(s, lim, k);
    }
    if k :| Occurs(s, lim, k) {
      assert s[k] == s[k..k + 1][0];
    }
  }

  /** The first and the last delimiter differ exactly if there is one in front of the last. */
  lemma FirstAndLast(s: string, lim: string)
    requires |lim| == 1 && CutLast(s, lim).Some?
    ensures var c, d := CutLast(s, lim).value, Cut(s, lim);
            d.Some? && |d.value.left| <= |c.left| && (|d.value.left| < |c.left| <==> lim[0] in c.left)
  {
    CutLastIsLast(s, lim);
    CutIsFirst(s, lim);
    var c := CutLast(s, lim).value;
    OccursAt(s, lim, |c.left|);
    var d := Cut(s, lim).value;
    OccursAt(s, lim, |d.left|);
    if |d.left| < |c.left| {
      assert c.left[|d.left|] == lim[0];
    }
    if lim[0] in c.left {
      var k :| 0 <= k < |c.left| && c.left[k] == lim[0];
      OccursAt(s, lim, k);
    }
  }

  lemma OccursAt(s: string, lim: string, k: nat)
    requires |lim| == 1 && k < |s|
    ensures Occurs(s, lim, k) <==> s[k] == lim[0]
  {
    assert s[k..k + 1] == [s[k]] && lim == [lim[0]];
  }

  lemma CutLastJoined(a: string, lim: string, b: string)
    requires |lim| == 1
    ensures CutLast(a + lim + b, lim) == Some(Pair(a, b)) <==> lim[0] !in b
  {
    var s := a + lim + b;
    assert s[|a|] == lim[0] && s[|a| + 1..] == b && s[..|a|] == a;
    CutLastIsLast(s, lim);
    if lim[0] !in b {
      CutLastAt(s, lim, |a|);
    }
  }
}
