/** IPv4 addresses as text and as numbers, and the ranges that operators type. */
module IPv4 {
  import opened Texts
  import opened Wrappers

  const LIMIT := 0x1_0000_0000
  const ULONG_MAX := 0xFFFF_FFFF_FFFF_FFFF

  // ---- printing ----

  function Dotted(a: nat, b: nat, c: nat, d: nat): string {
    Decimal(a) + ("." + (Decimal(b) + ("." + (Decimal(c) + ("." + Decimal(d))))))
  }

  // ---- scanning ----

  datatype Scan = Scan(value: int, rest: string)

  /** The digits at the start of a text, added to a value. */
  function Digits(s: string, value: int): Scan {
    if s == "" || !IsDigit(s[0]) then Scan(value, s) else Digits(s[1..], 10 * value + (s[0] as int - '0' as int))
  }

  /** An unsigned number as the library's scanner reads it: white space, a sign, at least one
      digit; too large a number becomes the largest, and a minus sign wraps. */
  function Number(s: string): Option<Scan>
    decreases |s|
  {
    if s != "" && (s[0] == ' ' || '\U{0009}' <= s[0] <= '\U{000D}') then Number(s[1..])
    else
      var minus := s != "" && s[0] == '-';
      var t := if minus || (s != "" && s[0] == '+') then s[1..] else s;
      if t == "" || !IsDigit(t[0]) then None
      else
        var n := Digits(t, 0);
        Some(Scan(if n.value > ULONG_MAX then ULONG_MAX else if minus then (ULONG_MAX + 1 - n.value) % (ULONG_MAX + 1) else n.value, n.rest))
  }

  function Dot(s: string): Option<string> {
    if s != "" && s[0] == '.' then Some(s[1..]) else None
  }

  function NumberAndDot(s: string): Option<Scan> {
    match Number(s)
    case None => None
    case Some(n) =>
      match Dot(n.rest)
      case None => None
      case Some(rest) => Some(Scan(n.value, rest))
  }

  datatype Quad = Quad(a: int, b: int, c: int, d: int)

  /** Four numbers with dots in between; what follows is not looked at. */
  function ScanQuad(s: string): Option<Quad> {
    var a := NumberAndDot(s);
    if a.None? then None
    else
      var b := NumberAndDot(a.value.rest);
      if b.None? then None
      else
        var c := NumberAndDot(b.value.rest);
        if c.None? then None
        else
          var d := Number(c.value.rest);
          if d.None? then None
          else Some(Quad(a.value.value, b.value.value, c.value.value, d.value.value))
  }

  predicate IsByte(n: int) {
    0 <= n <= 255
  }

  predicate Bytes(q: Quad) {
    IsByte(q.a) && IsByte(q.b) && IsByte(q.c) && IsByte(q.d)
  }

  function Text(q: Quad): string
    requires Bytes(q)
  {
    Dotted(q.a, q.b, q.c, q.d)
  }

  function Value(q: Quad): int {
    q.a * 0x100_0000 + q.b * 0x1_0000 + q.c * 0x100 + q.d
  }

  /** Numbers count addresses one by one, the last byte first, then the one in front of it, and
      so on. */
  lemma NextAddress(a: int, b: int, c: int, d: int)
    ensures Value(Quad(a, b, c, d + 1)) == Value(Quad(a, b, c, d)) + 1
    ensures Value(Quad(a, b, c + 1, 0)) == Value(Quad(a, b, c, 255)) + 1
    ensures Value(Quad(a, b + 1, 0, 0)) == Value(Quad(a, b, 255, 255)) + 1
    ensures Value(Quad(a + 1, 0, 0, 0)) == Value(Quad(a, 255, 255, 255)) + 1
  {
  }

  /** An address is spelled with dots between its bytes. */
  lemma SpelledWithDots(q: Quad)
    requires Bytes(q)
    ensures Text(q) == Decimal(q.a) + "." + Decimal(q.b) + "." + Decimal(q.c) + "." + Decimal(q.d)
  {
    hide Decimal;
  }

  // ---- text to number ----

  /** The one spelling of an address. */
  ghost predicate Spells(ip: string, q: Quad) {
    Bytes(q) && ip == Text(q)
  }

  /** A scanned address, if the text is of the right length and is what the address prints as. */
  function Accepted(ip: string, p: Option<Quad>): (q: Option<Quad>)
    ensures q.Some? ==> Bytes(q.value)
  {
    if 7 <= |ip| <= 15 && p.Some? && Bytes(p.value) && ip == Text(p.value) then p else None
  }

  function Address(ip: string): (q: Option<Quad>)
    ensures q.Some? ==> Bytes(q.value)
  {
    Accepted(ip, ScanQuad(ip))
  }

  /** Exactly the one spelling of each address is accepted. */
  lemma AddressIsSpelling(ip: string, q: Quad)
    ensures Address(ip) == Some(q) <==> Spells(ip, q)
  {
    if Bytes(q) && ip == Text(q) {
      TextLength(q);
      TextScans(q);
    }
  }

  function NumberOf(p: Option<Quad>, otherwise: nat): nat
    requires p.Some? ==> Bytes(p.value)
  {
    if p.Some? then Value(p.value) else otherwise
  }

  /** The number of an address; any other text is refused and leaves the number as it was, and a
      refused zero address sets it to 0. */
  method Ip2Num(ip: string, mask: nat, zero: bool) returns (ok: bool, num: nat)
    ensures var q := Address(ip); ok == (q.Some? && (zero || Value(q.value) > 0)) && num == NumberOf(q, mask)
  {
    var q := Address(ip);
    if q.None? {
      return false, mask;
    }
    ok, num := CheckNumber(q.value, zero);
  }

  method CheckNumber(q: Quad, zero: bool) returns (ok: bool, num: nat)
    requires Bytes(q)
    ensures ok == (zero || Value(q) > 0) && num == Value(q)
  {
    ValueInRange(q);
    num := Value(q);
    if (zero && num >= 0) || (!zero && num > 0) {
      if num < LIMIT {
        return true, num;
      }
    }
    return false, 0;
  }

  lemma ValueInRange(q: Quad)
    requires Bytes(q)
    ensures 0 <= Value(q) < LIMIT
  {
  }

  lemma ByteLength(n: nat)
    requires n <= 255
    ensures 1 <= |Decimal(n)| <= 3
  {
    if n >= 10 {
      assert |Decimal(n / 10)| <= 2;
    }
  }

  lemma TextLength(q: Quad)
    requires Bytes(q)
    ensures 7 <= |Text(q)| <= 15
  {
    ByteLength(q.a);
    ByteLength(q.b);
    ByteLength(q.c);
    ByteLength(q.d);
  }

  lemma MulTen(v: nat, p: nat, n: nat)
    ensures 10 * (v * p + n / 10) + n % 10 == v * (10 * p) + n
  {
    assert v * (10 * p) == 10 * (v * p);
  }

  /** Scanning the digits of a number, whatever was scanned before. */
  lemma {:induction false} DigitsOfDecimal(n: nat, rest: string, value: nat)
    requires rest == "" || !IsDigit(rest[0])
    ensures Digits(Decimal(n) + rest, value) == Scan(value * Power10(|Decimal(n)|) + n, rest)
    decreases n
  {
    if n < 10 {
      OneDigit(n, rest, value);
      assert Power10(1) == 10;
    } else {
      var front := Decimal(n / 10);
      DecimalIsDigits(n / 10);
      DigitsOfDecimal(n / 10, "", value);
      assert front + "" == front;
      DigitsBehind(front, n % 10, rest, value);
      MulTen(value, Power10(|front|), n);
    }
  }

  lemma DigitsBehind(front: string, n: nat, rest: string, value: nat)
    requires n < 10 && (rest == "" || !IsDigit(rest[0])) && forall c <- front :: IsDigit(c)
    ensures var v := Digits(front, value).value;
            v >= 0 ==> Digits(front + [Digit(n)] + rest, value) == Scan(10 * v + n, rest)
  {
    var v := Digits(front, value).value;
    Grouped(front, [Digit(n)], rest);
    DigitsSplit(front, [Digit(n)] + rest, value);
    if v >= 0 {
      OneDigit(n, rest, v);
    }
  }

  lemma OneDigit(n: nat, rest: string, value: nat)
    requires n < 10 && (rest == "" || !IsDigit(rest[0]))
    ensures Digits([Digit(n)] + rest, value) == Scan(10 * value + n, rest)
  {
    assert ([Digit(n)] + rest)[1..] == rest;
  }

  /** Scanning digits runs through a text of digits first. */
  lemma {:induction false} DigitsSplit(s: string, t: string, value: int)
    requires forall c <- s :: IsDigit(c)
    ensures Digits(s + t, value) == Digits(t, Digits(s, value).value)
  {
    if s == "" {
      assert s + t == t;
    } else {
      assert (s + t)[1..] == s[1..] + t;
      DigitsSplit(s[1..], t, 10 * value + (s[0] as int - '0' as int));
    }
  }

  /** A printed number is scanned back, up to the next dot or the end. */
  lemma NumberOfDecimal(n: nat, rest: string)
    requires n <= 255 && (rest == "" || !IsDigit(rest[0]))
    ensures Number(Decimal(n) + rest) == Some(Scan(n, rest))
  {
    FirstIsDigit(n);
    DigitsFromZero(n, rest);
    NumberOfDigits(Decimal(n) + rest);
  }

  lemma DigitsFromZero(n: nat, rest: string)
    requires rest == "" || !IsDigit(rest[0])
    ensures Digits(Decimal(n) + rest, 0) == Scan(n, rest)
  {
    DigitsOfDecimal(n, rest, 0);
  }

  lemma FirstIsDigit(n: nat)
    ensures IsDigit(Decimal(n)[0])
  {
    DecimalIsDigits(n);
    assert Decimal(n)[0] in Decimal(n);
  }

  lemma NumberOfDigits(s: string)
    requires s != "" && IsDigit(s[0]) && 0 <= Digits(s, 0).value <= ULONG_MAX
    ensures Number(s) == Some(Digits(s, 0))
  {
  }

  lemma NumberAndDotOfDecimal(n: nat, rest: string)
    requires n <= 255
    ensures NumberAndDot(Decimal(n) + ("." + rest)) == Some(Scan(n, rest))
  {
    NumberOfDecimal(n, "." + rest);
    assert ("." + rest)[1..] == rest;
  }

  lemma TextScans(q: Quad)
    requires Bytes(q)
    ensures ScanQuad(Text(q)) == Some(q)
  {
    var t3 := Decimal(q.d);
    var t2 := Decimal(q.c) + ("." + t3);
    var t1 := Decimal(q.b) + ("." + t2);
    NumberAndDotOfDecimal(q.a, t1);
    NumberAndDotOfDecimal(q.b, t2);
    NumberAndDotOfDecimal(q.c, t3);
    NumberOfDecimal(q.d, "");
    assert t3 + "" == t3;
  }

  // ---- number to text ----

  /** The four low bytes of a number. */
  function BytesOf(n: nat): (q: Quad)
    ensures Bytes(q)
  {
    Quad(n / 0x100_0000 % 0x100, n / 0x1_0000 % 0x100, n / 0x100 % 0x100, n % 0x100)
  }

  method Num2Ip(n: nat) returns (ip: string)
    ensures ip == Text(BytesOf(n))
  {
    var q := BytesOf(n);
    ip := Decimal(q.a);
    ip := ip + ".";
    ip := ip + Decimal(q.b);
    ip := ip + ".";
    ip := ip + Decimal(q.c);
    ip := ip + ".";
    ip := ip + Decimal(q.d);
  }

  /** Numbers below 2^32 and addresses are the same thing twice. */
  lemma NumberThenBytes(n: nat)
    requires n < LIMIT
    ensures Value(BytesOf(n)) == n
  {
    var h := n / 0x100;
    var g := h / 0x100;
    assert n == h * 0x100 + n % 0x100 && h == g * 0x100 + h % 0x100 && g == g / 0x100 * 0x100 + g % 0x100;
    assert n / 0x1_0000 == g && n / 0x100_0000 == g / 0x100;
  }

  lemma BytesThenNumber(q: Quad)
    requires Bytes(q)
    ensures BytesOf(Value(q)) == q
  {
    var n := Value(q);
    assert n / 0x100 == q.a * 0x1_0000 + q.b * 0x100 + q.c;
    assert n / 0x1_0000 == q.a * 0x100 + q.b;
    assert n / 0x100_0000 == q.a;
  }

  /** Printed and read again, every number below 2^32 is back. */
  method NumberThroughText(n: nat, mask: nat) returns (ok: bool, num: nat)
    requires n < LIMIT
    ensures ok && num == n
  {
    var ip := Num2Ip(n);
    NumberThenBytes(n);
    AddressIsSpelling(ip, BytesOf(n));
    ok, num := Ip2Num(ip, mask, true);
  }

  /** Read and printed again, every accepted text is back. */
  method TextThroughNumber(ip: string, mask: nat, zero: bool) returns (ok: bool, text: string)
    ensures ok ==> text == ip
    ensures ok <==> Address(ip).Some? && (zero || Value(Address(ip).value) > 0)
  {
    var num;
    ok, num := Ip2Num(ip, mask, zero);
    text := "";
    if ok {
      ghost var q := Address(ip).value;
      AddressIsSpelling(ip, q);
      BytesThenNumber(q);
      text := Num2Ip(num);
    }
  }

  // ---- ranges ----

  function Pow2(k: nat): nat {
    if k == 0 then 1 else 2 * Pow2(k - 1)
  }

  /** The first address of the block of 2^(32 - bits) addresses that holds the low 32 bits of n:
      what is left of n under a mask of as many leading ones. */
  function BlockStart(n: nat, bits: nat): nat
    requires bits <= 32
  {
    PowIsPositive(32 - bits);
    Floor(n % LIMIT, Pow2(32 - bits))
  }

  function Floor(m: nat, size: nat): nat
    requires size > 0
  {
    m - m % size
  }

  lemma PowIsPositive(k: nat)
    ensures Pow2(k) > 0
  {
  }

  /** What an operator typed: an address, two of them, or an address with a number of bits. The
      last one is looked at as a whole. */
  datatype Typed = One(ip: string) | Two(from: string, to: string) | Block(text: string, bits: nat)

  /** The range of a typed text, starting from what the two bounds hold on entry. A mask is only
      modelled for bit counts whose shifts the language defines. */
  method GetIPRange(rang: Typed, from0: nat, to0: nat) returns (from: nat, to: nat)
    requires rang.Block? ==> 1 <= rang.bits <= 31
    ensures rang.One? ==> from == to == NumberOf(Address(rang.ip), from0)
    ensures rang.Two? ==> from == NumberOf(Address(rang.from), from0)
    ensures rang.Two? ==> to == NumberOf(Address(rang.to), to0)
    ensures rang.Block? && '/' in rang.text ==>
              from == BlockStart(from0, rang.bits) && to == from + Pow2(32 - rang.bits) - 1
  {
    from, to := from0, to0;
    var ok;
    match rang
    case Two(a, b) =>
      ok, from := Ip2Num(a, from, true);
      ok, to := Ip2Num(b, to, true);
    case Block(text, bits) =>
      if '/' in text {
        SlashSpellsNothing(text);
      }
      ok, from := Ip2Num(text, from, true);
      from := BlockStart(from, bits);
      PowIsPositive(32 - bits);
      to := from + (Pow2(32 - bits) - 1);
    case One(a) =>
      ok, from := Ip2Num(a, from, true);
      to := from;
  }

  lemma SlashSpellsNothing(text: string)
    requires '/' in text
    ensures Address(text) == None
  {
    if Address(text).Some? {
      NoSlash(Address(text).value);
      assert false;
    }
  }

  lemma NoSlash(q: Quad)
    requires Bytes(q)
    ensures '/' !in Text(q)
  {
    DecimalIsDigits(q.a);
    DecimalIsDigits(q.b);
    DecimalIsDigits(q.c);
    DecimalIsDigits(q.d);
    assert !IsDigit('/');
  }

  lemma FloorIs(m: nat, size: nat) returns (k: nat)
    requires size > 0
    ensures Floor(m, size) == k * size && Floor(m, size) <= m < Floor(m, size) + size
  {
    k := m / size;
  }

  /** A block is aligned, within 32 bits, and holds the number it was made from. */
  lemma BlockHolds(n: nat, bits: nat) returns (k: nat)
    requires bits <= 32
    ensures var start, size := BlockStart(n, bits), Pow2(32 - bits);
            size > 0 && start == k * size && start <= n % LIMIT < start + size
  {
    PowIsPositive(32 - bits);
    k := FloorIs(n % LIMIT, Pow2(32 - bits));
  }

  lemma PowAdds(a: nat, b: nat)
    ensures Pow2(a + b) == Pow2(a) * Pow2(b)
  {
    if a > 0 {
      PowAdds(a - 1, b);
      assert Pow2(a + b) == 2 * Pow2(a - 1 + b);
    }
  }

  lemma MulMonotonic(x: int, y: int, size: nat)
    requires x <= y
    ensures x * size <= y * size
  {
  }

  /** A block of r units and one unit. */
  lemma NestedUnits(k: nat, r: nat, l: nat, size: nat)
    ensures var a, b, c := (k * r) * size, r * size, l * size;
            (a <= c && c + size <= a + b) || c + size <= a || a + b <= c
  {
    InUnits(k, r, size);
    assert (l + 1) * size == l * size + size;
    if l < k * r {
      MulMonotonic(l + 1, k * r, size);
    } else if l < k * r + r {
      MulMonotonic(k * r, l, size);
      MulMonotonic(l + 1, k * r + r, size);
    } else {
      MulMonotonic(k * r + r, l, size);
    }
  }

  /** Two blocks are nested or disjoint. */
  lemma NestedOrDisjoint(m: nat, bits: nat, n: nat, more: nat)
    requires bits <= more <= 32
    ensures var a, b, c, d := BlockStart(m, bits), Pow2(32 - bits), BlockStart(n, more), Pow2(32 - more);
            (a <= c && c + d <= a + b) || c + d <= a || a + b <= c
  {
    var size, r := Pow2(32 - more), Pow2(more - bits);
    PowAdds(more - bits, 32 - more);
    assert Pow2(32 - bits) == r * size;
    var k := BlockHolds(m, bits);
    var l := BlockHolds(n, more);
    InUnits(k, r, size);
    NestedUnits(k, r, l, size);
  }

  lemma InUnits(k: nat, r: nat, size: nat)
    ensures k * (r * size) == (k * r) * size && (k * r + r) * size == (k * r) * size + r * size
  {
  }

  /** A number lies in one of the blocks of a size only. */
  lemma OneBlock(k: nat, l: nat, size: nat, x: nat)
    requires k * size <= x < k * size + size && l * size <= x < l * size + size
    ensures k == l
  {
    if k < l {
      MulMonotonic(k + 1, l, size);
    } else if l < k {
      MulMonotonic(l + 1, k, size);
    }
  }

  lemma SameFloor(x: nat, y: nat, size: nat)
    requires size > 0
    ensures Floor(x, size) <= y < Floor(x, size) + size <==> Floor(x, size) == Floor(y, size)
  {
    var k := FloorIs(x, size);
    var l := FloorIs(y, size);
    if k * size <= y < k * size + size {
      OneBlock(k, l, size, y);
    }
  }

  /** The typed range is meant to cover the typed address. It does exactly if what the bound held
      on entry lies in the address's own block; the typed address itself is not used. */
  lemma CoversTypedAddress(entry: nat, typed: nat, bits: nat)
    requires typed < LIMIT && bits <= 32
    ensures var from, size := BlockStart(entry, bits), Pow2(32 - bits);
            from <= typed <= from + size - 1 <==> from == BlockStart(typed, bits)
  {
    PowIsPositive(32 - bits);
    Small(typed);
    SameFloor(entry % LIMIT, typed, Pow2(32 - bits));
  }

  lemma Small(x: nat)
    requires x < LIMIT
    ensures x % LIMIT == x
  {
  }

  /** With bounds of 0 on entry, 1.2.3.4/8 becomes the range from 0.0.0.0 to 0.255.255.255. */
  lemma TypedAddressIsMissed()
    ensures BlockStart(0, 8) == 0 && 0 + Pow2(24) - 1 == Value(Quad(0, 255, 255, 255)) < Value(Quad(1, 2, 3, 4))
  {
    PowAdds(12, 12);
    assert Pow2(12) == 4096 by {
      PowAdds(6, 6);
      assert Pow2(6) == 64;
    }
  }
}
