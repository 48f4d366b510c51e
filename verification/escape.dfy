/** Escaping of the protocol's special characters in texts: as character entities, and back. */
module Escaping {
  import opened Texts
  import opened Wrappers

  // The characters 5, 36, 96, 124 and 126.
  const SPECIALS: set<char> := {'\U{0005}', '$', '`', '|', '~'}

  function Decimal(c: char): string
    requires c in SPECIALS
  {
    if c == '\U{0005}' then "5" else if c == '$' then "36" else if c == '`' then "96" else if c == '|' then "124" else "126"
  }

  function Entity(c: char, dcn: bool): string
    requires c in SPECIALS
  {
    if dcn then "/%DCN" + Decimal(c) + "%/" else "&#" + Decimal(c) + ";"
  }

  /** The entities name the characters by their codes, printed in decimal. */
  lemma EntityIsCode(c: char)
    requires c in SPECIALS
    ensures Entity(c, false) == "&#" + Texts.Decimal(c as int) + ";"
    ensures Entity(c, true) == "/%DCN" + Texts.Decimal(c as int) + "%/"
    ensures c in "\U{0005}$`|~"
  {
    hide Texts.Decimal;
    SpecialsPrinted();
  }

  /** Every character of a set of specials replaced by its entity. */
  function Escaped(s: string, chosen: set<char>, dcn: bool): string
    requires chosen <= SPECIALS
  {
    if s == "" then ""
    else (if s[0] in chosen then Entity(s[0], dcn) else [s[0]]) + Escaped(s[1..], chosen, dcn)
  }

  /** Every occurrence of a code replaced by a character, from the left. */
  function Replaced(s: string, code: string, c: char): string
    requires code != ""
  {
    if |s| < |code| then s
    else if s[..|code|] == code then [c] + Replaced(s[|code|..], code, c)
    else [s[0]] + Replaced(s[1..], code, c)
  }

  const DOLLAR: string := "&#36;"
  const PIPE: string := "&#124;"

  function Unescaped(s: string): string {
    Replaced(Replaced(s, DOLLAR, '$'), PIPE, '|')
  }

  // ---- the loops compute this ----

  lemma {:induction false} EscapedConcat(a: string, b: string, chosen: set<char>, dcn: bool)
    requires chosen <= SPECIALS
    ensures Escaped(a + b, chosen, dcn) == Escaped(a, chosen, dcn) + Escaped(b, chosen, dcn)
  {
    if a == "" {
      assert a + b == b;
    } else {
      assert (a + b)[1..] == a[1..] + b;
      EscapedConcat(a[1..], b, chosen, dcn);
    }
  }

  lemma {:induction false} EscapedOrdinary(a: string, chosen: set<char>, dcn: bool)
    requires chosen <= SPECIALS
    ensures (forall c <- a :: c !in chosen) ==> Escaped(a, chosen, dcn) == a
  {
    if a != "" {
      EscapedOrdinary(a[1..], chosen, dcn);
      assert a == [a[0]] + a[1..];
    }
  }

  /** Nothing of the set is left. */
  lemma {:induction false} NoneLeft(s: string, chosen: set<char>, dcn: bool)
    requires chosen <= SPECIALS
    ensures forall c <- Escaped(s, chosen, dcn) :: c !in chosen
  {
    if s != "" {
      NoneLeft(s[1..], chosen, dcn);
      if s[0] in chosen {
        EntityIsPlain(s[0], dcn);
      }
    }
  }

  lemma DigitsOnly(c: char, x: char)
    requires c in SPECIALS && x in Decimal(c)
    ensures '1' <= x <= '9'
  {
  }

  lemma EntityIsPlain(c: char, dcn: bool)
    requires c in SPECIALS
    ensures forall x <- Entity(c, dcn) :: x !in SPECIALS
  {
    forall x | x in Decimal(c) ensures '1' <= x <= '9' {
      DigitsOnly(c, x);
    }
    forall x | x in Entity(c, dcn) ensures x !in SPECIALS {
      if x !in Decimal(c) {
        assert x in if dcn then "/%DCN%" else "&#;";
      }
    }
  }

  /** The first special from a position on. */
  function FirstSpecial(s: string, start: nat): (r: int)
    ensures r == -1 || (start <= r < |s| && s[r] in SPECIALS)
    ensures forall k :: start <= k < (if r == -1 then |s| else r) ==> s[k] !in SPECIALS
    decreases |s| - start
  {
    if start >= |s| then -1 else if s[start] in SPECIALS then start else FirstSpecial(s, start + 1)
  }

  /** Escaping one special first makes no difference, since an entity holds no special. */
  lemma OneEscaped(s: string, pos: nat, dcn: bool)
    requires pos < |s| && s[pos] in SPECIALS
    ensures Escaped(s[..pos] + Entity(s[pos], dcn) + s[pos + 1..], SPECIALS, dcn) == Escaped(s, SPECIALS, dcn)
  {
    var a, e, b, one := s[..pos], Entity(s[pos], dcn), s[pos + 1..], [s[pos]];
    EntityIsPlain(s[pos], dcn);
    EscapedOrdinary(e, SPECIALS, dcn);
    EscapedConcat(a + e, b, SPECIALS, dcn);
    EscapedConcat(a, e, SPECIALS, dcn);
    assert s == a + one + b;
    EscapedConcat(a + one, b, SPECIALS, dcn);
    EscapedConcat(a, one, SPECIALS, dcn);
    assert one[1..] == "" && Escaped(one, SPECIALS, dcn) == e;
  }

  /** Replaces the specials in place, searching on from each replacement. */
  method EscapeChars(src: string, dcn: bool) returns (dst: string)
    ensures dst == Escaped(src, SPECIALS, dcn)
    ensures forall c <- dst :: c !in SPECIALS
  {
    hide Entity, Escaped, FirstSpecial;
    dst := src;
    var pos := FirstSpecial(dst, 0);
    while pos != -1
      invariant Escaped(dst, SPECIALS, dcn) == Escaped(src, SPECIALS, dcn)
      invariant pos == -1 || (0 <= pos < |dst| && dst[pos] in SPECIALS)
      invariant forall j :: 0 <= j < (if pos == -1 then |dst| else pos) ==> dst[j] !in SPECIALS
      decreases if pos == -1 then 0 else |dst| - pos
    {
      ghost var was := dst;
      var entity := Entity(dst[pos], dcn);
      OneEscaped(dst, pos, dcn);
      EntityIsPlain(dst[pos], dcn);
      dst := dst[..pos] + entity + dst[pos + 1..];
      forall j | 0 <= j < pos + |entity| ensures dst[j] !in SPECIALS {
        assert dst[j] == if j < pos then was[j] else entity[j - pos];
      }
      pos := FirstSpecial(dst, pos);
    }
    EscapedOrdinary(dst, SPECIALS, dcn);
  }

  /** What is in front of the first occurrence is kept. */
  lemma {:induction false} ReplacedCut(t: string, code: string, c: char)
    requires code != ""
    ensures match Cut(t, code)
            case None => Replaced(t, code, c) == t
            case Some(p) => Replaced(t, code, c) == p.left + ([c] + Replaced(p.right, code, c))
  {
    if |t| >= |code| {
      if t[..|code|] == code {
        EmptyFront([c] + Replaced(t[|code|..], code, c));
      } else {
        ReplacedCut(t[1..], code, c);
        match Cut(t[1..], code)
        case None =>
          assert t == [t[0]] + t[1..];
        case Some(p) =>
          Grouped([t[0]], p.left, [c] + Replaced(p.right, code, c));
      }
    }
  }

  /** A character other than the code's first is kept. */
  lemma StepsOver(x: char, rest: string, code: string, c: char)
    requires code != "" && x != code[0]
    ensures Replaced([x] + rest, code, c) == [x] + Replaced(rest, code, c)
  {
    var s := [x] + rest;
    assert s[1..] == rest;
    if |s| >= |code| {
      assert s[..|code|][0] == x;
    } else {
      assert Replaced(rest, code, c) == rest;
    }
  }

  lemma OneReplaced(s: string, code: string, c: char, from: nat, pos: nat)
    requires code != "" && c != code[0] && from <= |s| && Find(s, code, from) == pos
    ensures s[..pos] + Replaced([c] + s[pos + |code|..], code, c) == s[..from] + Replaced(s[from..], code, c)
  {
    hide Replaced, Find, Cut;
    var rest := s[pos + |code|..];
    FindCuts(s, code, from);
    ReplacedCut(s[from..], code, c);
    StepsOver(c, rest, code, c);
    assert s[..pos] == s[..from] + s[from..pos];
    Regrouped(s[..from], s[from..pos], [c], Replaced(rest, code, c));
  }

  lemma Regrouped(a: string, b: string, x: string, y: string)
    ensures (a + b) + (x + y) == a + (b + (x + y))
  {
  }

  /** Replaces all occurrences of a code, searching on from each replacement. */
  method ReplaceAll(src: string, code: string, c: char) returns (dst: string)
    requires |code| > 1 && c != code[0]
    ensures dst == Replaced(src, code, c)
  {
    hide Replaced, Find, Cut;
    dst := src;
    var pos := Find(dst, code, 0);
    ghost var from := 0;
    assert src[0..] == src;
    while pos != -1
      invariant from <= |dst| && pos == Find(dst, code, from)
      invariant dst[..from] + Replaced(dst[from..], code, c) == Replaced(src, code, c)
      decreases |dst|
    {
      OneReplaced(dst, code, c, from, pos);
      ghost var front, back := dst[..pos], [c] + dst[pos + |code|..];
      dst := dst[..pos] + [c] + dst[pos + |code|..];
      assert dst == front + back && dst[..pos] == front && dst[pos..] == back;
      from := pos;
      pos := Find(dst, code, pos);
    }
    FindCuts(dst, code, from);
    ReplacedCut(dst[from..], code, c);
    assert dst == dst[..from] + dst[from..];
  }

  method UnEscapeChars(src: string) returns (dst: string)
    ensures dst == Unescaped(src)
  {
    dst := ReplaceAll(src, DOLLAR, '$');
    dst := ReplaceAll(dst, PIPE, '|');
  }

  // ---- the round trip of texts ----

  lemma {:induction false} PlainKept(a: string, rest: string, code: string, c: char)
    requires code != "" && code[0] !in a
    ensures Replaced(a + rest, code, c) == a + Replaced(rest, code, c)
  {
    if a == "" {
      assert a + rest == rest;
    } else {
      var b := a[1..];
      assert a == [a[0]] + b;
      Grouped([a[0]], b, rest);
      StepsOver(a[0], b + rest, code, c);
      PlainKept(b, rest, code, c);
      Grouped([a[0]], b, Replaced(rest, code, c));
    }
  }

  /** The text of an entity, `&` first and nowhere else. */
  lemma EntityText(c: char)
    requires c in SPECIALS
    ensures var e := Entity(c, false); e == ['&'] + e[1..] && '&' !in e[1..] && '&' !in SPECIALS
  {
  }

  lemma OtherEntityKept(d: char, rest: string, c: char)
    requires c in SPECIALS && d in SPECIALS && c != d
    ensures Replaced(Entity(d, false) + rest, Entity(c, false), c) == Entity(d, false) + Replaced(rest, Entity(c, false), c)
  {
    hide Entity;
    var code, e := Entity(c, false), Entity(d, false);
    EntityText(c);
    EntityText(d);
    EntitiesDiffer(c, d, rest);
    assert (e + rest)[1..] == e[1..] + rest;
    PlainKept(e[1..], rest, code, c);
    assert Replaced(e + rest, code, c) == ['&'] + Replaced(e[1..] + rest, code, c);
  }

  lemma EntitiesDiffer(c: char, d: char, rest: string)
    requires c in SPECIALS && d in SPECIALS && c != d
    ensures !(Entity(c, false) <= Entity(d, false) + rest)
  {
    var a, b := Entity(c, false), Entity(d, false) + rest;
    assert a[2] != b[2] || (|a| > 4 && a[4] != b[4]);
  }

  lemma {:induction false} PlainPrefix(p: string, s: string, chosen: set<char>)
    requires chosen <= SPECIALS && '&' !in p && p <= Escaped(s, chosen, false)
    ensures p <= s
  {
    if p != "" {
      assert p[0] == Escaped(s, chosen, false)[0] && p[0] in p;
      if s[0] in chosen {
        EntityText(s[0]);
        assert false;
      } else {
        assert Escaped(s, chosen, false)[1..] == Escaped(s[1..], chosen, false);
        assert p[0] == s[0];
        PlainPrefix(p[1..], s[1..], chosen);
      }
    }
  }

  /** Undoing one character's entities behind the escaping is the same as undoing its ready-made
      entities first and not escaping that character. */
  lemma {:induction false} ReplacedBehindEscaped(s: string, chosen: set<char>, c: char)
    requires chosen <= SPECIALS && c in chosen
    ensures var code := Entity(c, false);
            Replaced(Escaped(s, chosen, false), code, c) == Escaped(Replaced(s, code, c), chosen - {c}, false)
    decreases |s|
  {
    var code := Entity(c, false);
    EntityText(c);
    if s != "" {
      if code <= s {
        ReadyMade(s, chosen, c);
        ReplacedBehindEscaped(s[|code|..], chosen, c);
      } else if s[0] == c {
        var e := Escaped(s[1..], chosen, false);
        assert (code + e)[..|code|] == code && (code + e)[|code|..] == e;
        ReplacedBehindEscaped(s[1..], chosen, c);
      } else {
        ReplacedBehindEscaped(s[1..], chosen, c);
        var e := Escaped(s[1..], chosen, false);
        if s[0] in chosen {
          OtherEntityKept(s[0], e, c);
        } else {
          OrdinaryKept(s, chosen, c);
        }
      }
    }
  }

  lemma ReadyMade(s: string, chosen: set<char>, c: char)
    requires chosen <= SPECIALS && c in chosen && Entity(c, false) <= s
    ensures var code := Entity(c, false);
            && Replaced(Escaped(s, chosen, false), code, c) == [c] + Replaced(Escaped(s[|code|..], chosen, false), code, c)
            && Replaced(s, code, c) == [c] + Replaced(s[|code|..], code, c)
  {
    var code := Entity(c, false);
    EntityIsPlain(c, false);
    EscapedOrdinary(code, chosen, false);
    assert s == code + s[|code|..];
    EscapedConcat(code, s[|code|..], chosen, false);
    var e := Escaped(s[|code|..], chosen, false);
    assert (code + e)[..|code|] == code && (code + e)[|code|..] == e;
  }

  lemma OrdinaryKept(s: string, chosen: set<char>, c: char)
    requires chosen <= SPECIALS && c in chosen && s != "" && s[0] !in chosen && !(Entity(c, false) <= s)
    ensures var code := Entity(c, false);
            Replaced(Escaped(s, chosen, false), code, c) == [s[0]] + Replaced(Escaped(s[1..], chosen, false), code, c)
  {
    var code, e := Entity(c, false), Escaped(s[1..], chosen, false);
    EntityText(c);
    if code <= [s[0]] + e {
      assert code[1..] <= e by {
        assert ([s[0]] + e)[1..] == e;
      }
      PlainPrefix(code[1..], s[1..], chosen);
      assert false;
    }
    assert ([s[0]] + e)[1..] == e;
  }

  /** What comes back from escaping and unescaping: ready-made entities of `$` and `|` are undone
      and the other three specials stay escaped. */
  lemma EscapeThenUnescape(s: string)
    ensures Unescaped(Escaped(s, SPECIALS, false)) == Escaped(Unescaped(s), SPECIALS - {'$'} - {'|'}, false)
  {
    assert Entity('$', false) == DOLLAR && Entity('|', false) == PIPE;
    ReplacedBehindEscaped(s, SPECIALS, '$');
    ReplacedBehindEscaped(Replaced(s, DOLLAR, '$'), SPECIALS - {'$'}, '|');
  }

  /** Replacing shortens a text unless the code does not occur in it. */
  lemma {:induction false} ReplacedLength(s: string, code: string, c: char)
    requires |code| > 1
    ensures var r := Replaced(s, code, c);
            && |r| <= |s| && (|r| == |s| <==> !Contains(s, code)) && (|r| == |s| ==> r == s)
            && forall x <- r :: x in s || x == c
  {
    if |s| >= |code| {
      if s[..|code|] == code {
        assert Occurs(s, code, 0);
        ReplacedLength(s[|code|..], code, c);
      } else {
        ReplacedLength(s[1..], code, c);
        ContainsInTail(s, code);
      }
    }
  }

  lemma ContainsInTail(s: string, code: string)
    requires code != "" && |s| >= |code| && s[..|code|] != code
    ensures Contains(s, code) <==> Contains(s[1..], code)
  {
    forall k ensures Occurs(s, code, k) <==> Occurs(s[1..], code, k - 1) {
      if 1 <= k && k + |code| <= |s| {
        assert s[1..][k - 1..k - 1 + |code|] == s[k..k + |code|];
      }
    }
    if Contains(s, code) {
      var k :| Occurs(s, code, k);
      assert Occurs(s[1..], code, k - 1);
    }
    if Contains(s[1..], code) {
      var k :| Occurs(s[1..], code, k);
      assert Occurs(s, code, k + 1);
    }
  }

  /** Unescaping undoes escaping exactly for the texts that hold none of the other three specials
      and no ready-made entity of `$` or `|`. */
  lemma RoundTrip(s: string)
    ensures Unescaped(Escaped(s, SPECIALS, false)) == s
            <==> (forall c <- s :: c !in SPECIALS - {'$'} - {'|'}) && !Contains(s, DOLLAR) && !Contains(s, PIPE)
  {
    var others, u, v := SPECIALS - {'$'} - {'|'}, Replaced(s, DOLLAR, '$'), Unescaped(s);
    EscapeThenUnescape(s);
    ReplacedLength(s, DOLLAR, '$');
    ReplacedLength(u, PIPE, '|');
    NoneLeft(v, others, false);
    EscapedOrdinary(v, others, false);
  }
}
