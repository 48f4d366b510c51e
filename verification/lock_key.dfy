/** The key that answers a hub's lock: neighbouring bytes mixed, halves of each byte swapped. */
module LockKey {
  import opened BufferEscaping

  /** The upper and lower half swapped, the upper one shifted down as the half of a signed byte. */
  function Swapped(b: bv8): bv8 {
    (b << 4) | (if b & 0x80 == 0 then b >> 4 else (b >> 4) | 0xF0)
  }

  function SwappedBack(b: bv8): bv8 {
    (b << 4) | (b >> 4)
  }

  /** Byte i of the key before the swap: the first one depends on the last two, every other one
      on its left neighbour. */
  function Mixed(lock: seq<bv8>, i: nat): bv8
    requires |lock| >= 2 && i < |lock|
  {
    if i == 0 then lock[0] ^ lock[|lock| - 1] ^ lock[|lock| - 2] ^ 5 else lock[i] ^ lock[i - 1]
  }

  function Key(lock: seq<bv8>): (key: seq<bv8>)
    requires |lock| >= 2
    ensures |key| == |lock| && forall i: nat :: i < |lock| ==> key[i] == Swapped(Mixed(lock, i))
  {
    seq(|lock|, i requires 0 <= i < |lock| => Swapped(Mixed(lock, i)))
  }

  /** The key of an unescaped lock, mixed and then swapped in place. */
  method Lock2Key(lock: seq<bv8>) returns (key: array<bv8>)
    requires |lock| >= 2
    ensures fresh(key) && key[..] == Key(lock)
  {
    var len := |lock|;
    key := new bv8[len](_ => 0);
    key[0] := lock[0] ^ lock[len - 1] ^ lock[len - 2] ^ 5;
    for count := 1 to len
      invariant forall i: nat :: i < count ==> key[i] == Mixed(lock, i)
    {
      key[count] := lock[count] ^ lock[count - 1];
    }
    for count := 0 to len
      invariant forall i: nat :: i < count ==> key[i] == Swapped(Mixed(lock, i))
      invariant forall i: nat :: count <= i < len ==> key[i] == Mixed(lock, i)
    {
      key[count] := Swapped(key[count]);
    }
  }

  /** Each byte of the key, in halves: the lower half is the upper one of the mixed byte, and the
      upper half is the lower one, or all ones where the mixed byte has the eighth bit. */
  lemma KeyByte(lock: seq<bv8>, i: nat)
    requires |lock| >= 2 && i < |lock|
    ensures var mixed := if i == 0 then lock[0] ^ lock[|lock| - 1] ^ lock[|lock| - 2] ^ 5 else lock[i] ^ lock[i - 1];
            && Key(lock)[i] & 0x0F == mixed >> 4
            && Key(lock)[i] >> 4 == (if mixed < 0x80 then mixed & 0x0F else 0x0F)
  {
    SwappedHalves(Mixed(lock, i));
  }

  lemma SwappedHalves(b: bv8)
    ensures Swapped(b) & 0x0F == b >> 4 && Swapped(b) >> 4 == (if b < 0x80 then b & 0x0F else 0x0F)
  {
  }

  /** A lock of seven-bit characters. */
  predicate SevenBit(lock: seq<bv8>) {
    forall i :: 0 <= i < |lock| ==> lock[i] & 0x80 == 0
  }

  lemma SwapTwice(b: bv8)
    requires b & 0x80 == 0
    ensures SwappedBack(Swapped(b)) == b
  {
  }

  lemma SevenBitMix(a: bv8, b: bv8, c: bv8)
    requires a & 0x80 == 0 && b & 0x80 == 0 && c & 0x80 == 0
    ensures (a ^ b) & 0x80 == 0 && (a ^ b ^ c ^ 5) & 0x80 == 0
  {
  }

  /** The lock that a key belongs to. */
  function Unlocked(key: seq<bv8>): (lock: seq<bv8>)
    requires |key| >= 2
    ensures |lock| == |key|
  {
    UnlockedUpTo(seq(|key|, i requires 0 <= i < |key| => SwappedBack(key[i])), |key|)
  }

  /** The first n bytes of the lock with the given mixture. */
  function UnlockedUpTo(mix: seq<bv8>, n: nat): (lock: seq<bv8>)
    requires n <= |mix| && |mix| >= 2
    ensures |lock| == n
  {
    if n == 0 then []
    else if n == 1 then [mix[0] ^ mix[|mix| - 1] ^ 5]
    else
      var front := UnlockedUpTo(mix, n - 1);
      front + [mix[n - 1] ^ front[n - 2]]
  }

  lemma FirstByte(a: bv8, b: bv8, c: bv8)
    ensures (a ^ b ^ c ^ 5) ^ (b ^ c) ^ 5 == a
  {
  }

  lemma NextByte(a: bv8, b: bv8)
    ensures (b ^ a) ^ a == b
  {
  }

  lemma {:induction false} UnlockedPrefix(lock: seq<bv8>, mix: seq<bv8>, n: nat)
    requires |lock| >= 2 && |mix| == |lock| && n <= |lock|
    requires forall i: nat :: i < |lock| ==> mix[i] == Mixed(lock, i)
    ensures UnlockedUpTo(mix, n) == lock[..n]
  {
    if n == 1 {
      FirstByte(lock[0], lock[|lock| - 1], lock[|lock| - 2]);
    } else if n > 1 {
      UnlockedPrefix(lock, mix, n - 1);
      NextByte(lock[n - 2], lock[n - 1]);
    }
  }

  /** A seven-bit lock is determined by its key. */
  lemma KeyUnlocks(lock: seq<bv8>)
    requires |lock| >= 2 && SevenBit(lock)
    ensures Unlocked(Key(lock)) == lock
  {
    var key := Key(lock);
    var mix := seq(|key|, i requires 0 <= i < |key| => SwappedBack(key[i]));
    forall i: nat | i < |lock| ensures mix[i] == Mixed(lock, i) {
      if i == 0 {
        SevenBitMix(lock[0], lock[|lock| - 1], lock[|lock| - 2]);
      } else {
        SevenBitMix(lock[i], lock[i - 1], 0);
      }
      SwapTwice(Mixed(lock, i));
    }
    UnlockedPrefix(lock, mix, |lock|);
  }

  lemma KeyIsInjective(a: seq<bv8>, b: seq<bv8>)
    requires |a| >= 2 && |b| >= 2 && SevenBit(a) && SevenBit(b) && Key(a) == Key(b)
    ensures a == b
  {
    KeyUnlocks(a);
    KeyUnlocks(b);
  }

  /** With the eighth bit the shift of a signed byte loses the lower half. */
  lemma EighthBitCollides()
    ensures Key([0x90, 0]) == Key([0x91, 0])
  {
    var a, b := [0x90 as bv8, 0], [0x91 as bv8, 0];
    assert Mixed(a, 0) == 5 && Mixed(b, 0) == 5 && Mixed(a, 1) == 0x90 && Mixed(b, 1) == 0x91;
    assert Swapped(0x90) == Swapped(0x91);
  }

  /** Two bytes that the swap cannot tell apart. */
  predicate SameHalves(b: bv8, c: bv8) {
    b == c || (b & 0x80 != 0 && c & 0x80 != 0 && b >> 4 == c >> 4)
  }

  lemma SwapForgets(b: bv8, c: bv8)
    ensures Swapped(b) == Swapped(c) <==> SameHalves(b, c)
  {
  }

  /** Exactly the lower halves of mixed bytes with the eighth bit are lost. */
  lemma KeysAgree(a: seq<bv8>, b: seq<bv8>)
    requires |a| == |b| >= 2
    ensures Key(a) == Key(b) <==> forall i: nat :: i < |a| ==> SameHalves(Mixed(a, i), Mixed(b, i))
  {
    forall i: nat | i < |a| ensures Key(a)[i] == Key(b)[i] <==> SameHalves(Mixed(a, i), Mixed(b, i)) {
      SwapForgets(Mixed(a, i), Mixed(b, i));
    }
  }

  function Bits(c: char): bv8 {
    (c as int % 256) as bv8
  }

  function Char(b: bv8): char {
    (b as int) as char
  }

  function BitsOf(s: string): (bits: seq<bv8>)
    ensures |bits| == |s|
  {
    seq(|s|, i requires 0 <= i < |s| => Bits(s[i]))
  }

  function CharsOf(bits: seq<bv8>): (s: string)
    ensures |s| == |bits|
  {
    seq(|bits|, i requires 0 <= i < |bits| => Char(bits[i]))
  }

  /** The key as it is sent, for a lock as it was received: none for a lock that is too short. */
  method KeyFor(text: string) returns (fkey: string)
    requires |text| >= 2 ==> |Decoded(text, 0)| >= 2
    ensures fkey == if |text| < 2 then "" else Escaped(CharsOf(Key(BitsOf(Decoded(text, 0)))))
  {
    if |text| < 2 {
      return "";
    }
    var buffer := new char[|text| + 1];
    var len := UnEscapeBuffer(text, buffer);
    var key := Lock2Key(BitsOf(buffer[..len]));
    fkey := EscapeBuffer(CharsOf(key[..]));
  }
}
