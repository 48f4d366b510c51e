/** Quoting of texts inside SQL string constants. */
module SqlQuoting {
  const PLAIN: set<char> := {'\\', '"', '\'', '`'}

  /** The characters that get a backslash; in a pattern the underscore is one of them. */
  function Escapes(like: bool): set<char> {
    if like then PLAIN + {'_'} else PLAIN
  }

  function Quoted(s: string, escs: set<char>): string {
    if s == "" then "" else (if s[0] in escs then ['\\', s[0]] else [s[0]]) + Quoted(s[1..], escs)
  }

  /** Removing one backslash in front of each character that has one. */
  function Unquoted(s: string): string {
    if s == "" then ""
    else if s[0] == '\\' && |s| > 1 then [s[1]] + Unquoted(s[2..])
    else [s[0]] + Unquoted(s[1..])
  }

  function FirstOf(s: string, escs: set<char>, start: nat): (r: int)
    ensures r == -1 || (start <= r < |s| && s[r] in escs)
    ensures forall k :: start <= k < (if r == -1 then |s| else r) ==> s[k] !in escs
    decreases |s| - start
  {
    if start >= |s| then -1 else if s[start] in escs then start else FirstOf(s, escs, start + 1)
  }

  lemma {:induction false} QuotedConcat(a: string, b: string, escs: set<char>)
    ensures Quoted(a + b, escs) == Quoted(a, escs) + Quoted(b, escs)
  {
    if a == "" {
      assert a + b == b;
    } else {
      assert (a + b)[1..] == a[1..] + b;
      QuotedConcat(a[1..], b, escs);
    }
  }

  lemma {:induction false} QuotedOrdinary(a: string, escs: set<char>)
    requires forall k :: 0 <= k < |a| ==> a[k] !in escs
    ensures Quoted(a, escs) == a
  {
    if a != "" {
      QuotedOrdinary(a[1..], escs);
      assert a == [a[0]] + a[1..];
    }
  }

  /** One round: up to the next character to be escaped, and that one. */
  lemma OneStretch(s: string, escs: set<char>, lastpos: nat, pos: nat)
    requires lastpos <= pos < |s| && s[pos] in escs && forall k :: lastpos <= k < pos ==> s[k] !in escs
    ensures Quoted(s[..pos + 1], escs) == Quoted(s[..lastpos], escs) + s[lastpos..pos] + ['\\', s[pos]]
  {
    var a, mid, one := s[..lastpos], s[lastpos..pos], s[pos..pos + 1];
    assert s[..pos + 1] == (a + mid) + one;
    QuotedConcat(a + mid, one, escs);
    QuotedConcat(a, mid, escs);
    QuotedOrdinary(mid, escs);
    assert one[1..] == "" && Quoted(one, escs) == ['\\', s[pos]];
  }

  lemma LastStretch(s: string, escs: set<char>, lastpos: nat)
    requires lastpos <= |s| && forall k :: lastpos <= k < |s| ==> s[k] !in escs
    ensures Quoted(s, escs) == Quoted(s[..lastpos], escs) + s[lastpos..]
  {
    assert s == s[..lastpos] + s[lastpos..];
    QuotedConcat(s[..lastpos], s[lastpos..], escs);
    QuotedOrdinary(s[lastpos..], escs);
  }

  /** Backslash and the three quotes get a backslash in every constant, the underscore only in
      patterns, and no other character ever. */
  lemma OneCharacterQuoted(c: char, like: bool)
    ensures Quoted([c], Escapes(like)) == if c in "\\\"'`" || (like && c == '_') then ['\\', c] else [c]
  {
    assert [c][1..] == "";
    assert c in "\\\"'`" <==> c in PLAIN;
  }

  method WriteStringConstant(str: string, like: bool) returns (tmp: string)
    ensures tmp == Quoted(str, Escapes(like))
  {
    var escs := Escapes(like);
    tmp := "";
    var lastpos: nat := 0;
    var pos := FirstOf(str, escs, lastpos);
    assert str[..0] == "";
    while pos != -1
      invariant lastpos <= |str| && pos == FirstOf(str, escs, lastpos)
      invariant tmp == Quoted(str[..lastpos], escs)
      decreases |str| - lastpos
    {
      OneStretch(str, escs, lastpos, pos);
      tmp := tmp + str[lastpos..pos];
      tmp := tmp + "\\";
      tmp := tmp + [str[pos]];
      lastpos := pos + 1;
      pos := FirstOf(str, escs, lastpos);
    }
    LastStretch(str, escs, lastpos);
    tmp := tmp + str[lastpos..];
  }

  /** Unquoting undoes quoting, for every text. */
  lemma {:induction false} RoundTrip(s: string, escs: set<char>)
    requires '\\' in escs
    ensures Unquoted(Quoted(s, escs)) == s
  {
    if s != "" {
      var q := Quoted(s[1..], escs);
      RoundTrip(s[1..], escs);
      assert s == [s[0]] + s[1..];
      if s[0] in escs {
        assert (['\\', s[0]] + q)[2..] == q;
      } else {
        assert ([s[0]] + q)[1..] == q;
      }
    }
  }

  datatype Literal = Literal(text: string, rest: string) | Open

  /** The reader of a string constant, behind its opening quote: backslash pairs stand for their
      second character, and the first quote outside of one closes the constant. */
  function ReadLiteral(s: string, quote: char): Literal {
    if s == "" then Open
    else if s[0] == quote then Literal("", s[1..])
    else if s[0] == '\\' && |s| > 1 then More(s[1], ReadLiteral(s[2..], quote))
    else More(s[0], ReadLiteral(s[1..], quote))
  }

  function More(c: char, l: Literal): Literal {
    match l
    case Open => Open
    case Literal(text, rest) => Literal([c] + text, rest)
  }

  lemma ReadPair(c: char, rest: string, quote: char)
    requires quote != '\\'
    ensures ReadLiteral(['\\', c] + rest, quote) == More(c, ReadLiteral(rest, quote))
  {
    assert (['\\', c] + rest)[2..] == rest;
  }

  lemma ReadOne(c: char, rest: string, quote: char)
    requires c != quote && c != '\\'
    ensures ReadLiteral([c] + rest, quote) == More(c, ReadLiteral(rest, quote))
  {
    assert ([c] + rest)[1..] == rest;
  }

  /** A quoted text between quotes is read back as that text, and reading stops at the closing
      quote: none of the text's own quotes closes the constant, whatever follows. */
  lemma {:induction false} QuotedIsOneLiteral(s: string, escs: set<char>, quote: char, rest: string)
    requires PLAIN <= escs && quote in {'"', '\'', '`'}
    ensures ReadLiteral(Quoted(s, escs) + ([quote] + rest), quote) == Literal(s, rest)
  {
    var end := [quote] + rest;
    if s == "" {
      assert "" + end == end && end[1..] == rest;
    } else {
      QuotedIsOneLiteral(s[1..], escs, quote, rest);
      var c, more := s[0], Quoted(s[1..], escs) + end;
      assert s == [c] + s[1..];
      if c in escs {
        assert Quoted(s, escs) + end == ['\\', c] + more;
        ReadPair(c, more, quote);
      } else {
        assert Quoted(s, escs) + end == [c] + more;
        ReadOne(c, more, quote);
      }
    }
  }
}
