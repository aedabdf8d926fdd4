/**
 UTF-8 decoding that never fails: each longest start of a character that is not completed, or byte that
 starts none, becomes one replacement character.
 */
module Utf8Replacing {
  import opened Prelude
  import opened Utf8

  const REPLACEMENT: char := '\U{FFFD}'
  const NEWLINE: Byte := 10

  /** How many bytes a character with this first byte has; 0 when none starts so. */
  function Need(first: Byte): (n: nat)
    ensures n <= 4
  {
    if first < 0x80 then 1
    else if 0xC2 <= first < 0xE0 then 2
    else if 0xE0 <= first < 0xF0 then 3
    else if 0xF0 <= first < 0xF5 then 4
    else 0
  }

  /** The second byte also keeps out overlong forms, surrogates and what lies beyond the last code point. */
  predicate SecondFits(first: Byte, second: Byte) {
    && (if first == 0xE0 then 0xA0 <= second else if first == 0xF0 then 0x90 <= second else 0x80 <= second)
    && (if first == 0xED then second < 0xA0 else if first == 0xF4 then second < 0x90 else second < 0xC0)
  }

  /** Whether the byte at `k` can go on what the bytes before it have begun. */
  predicate GoesOn(bytes: seq<Byte>, k: nat)
    requires 1 <= k < |bytes|
  {
    k < Need(bytes[0]) && (if k == 1 then SecondFits(bytes[0], bytes[1]) else IsTail(bytes[k]))
  }

  /** How far the character begun at the front goes, from its first `k` bytes on. */
  function Reach(bytes: seq<Byte>, k: nat): (n: nat)
    requires 1 <= k <= |bytes|
    ensures k <= n <= |bytes| && (n <= Need(bytes[0]) || n == k)
    ensures forall i :: k <= i < n ==> GoesOn(bytes, i)
    ensures n < |bytes| ==> !GoesOn(bytes, n)
    decreases |bytes| - k
  {
    if k < |bytes| && GoesOn(bytes, k) then Reach(bytes, k + 1) else k
  }

  /** The width of the first unit: a character, or what one replacement stands for. */
  function Width(bytes: seq<Byte>): (n: nat)
    requires bytes != []
    ensures 1 <= n <= |bytes|
  {
    Reach(bytes, 1)
  }

  function UnitOf(bytes: seq<Byte>): char
    requires bytes != []
  {
    var decoded := DecodeOne(bytes[..Width(bytes)]);
    if Width(bytes) == Need(bytes[0]) && decoded.Some? then decoded.value.scalar as char else REPLACEMENT
  }

  /** `bytes.decode("utf-8", errors="replace")`. */
  function DecodeReplacing(bytes: seq<Byte>): string
    decreases |bytes|
  {
    if bytes == [] then "" else [UnitOf(bytes)] + DecodeReplacing(bytes[Width(bytes)..])
  }

  /** A unit is told by its own bytes and the one after, so long as that one is there. */
  lemma {:induction false} ReachOfPrefix(bytes: seq<Byte>, n: nat, k: nat)
    requires 1 <= k <= n <= |bytes|
    ensures Reach(bytes[..n], k) == if Reach(bytes, k) <= n then Reach(bytes, k) else n
    decreases |bytes| - k
  {
    if k < n && GoesOn(bytes, k) {
      ReachOfPrefix(bytes, n, k + 1);
    }
  }

  lemma DecodedNewline(bytes: seq<Byte>)
    requires DecodeOne(bytes).Some?
    ensures DecodeOne(bytes).value.scalar == NEWLINE <==> bytes[0] == NEWLINE
  {
  }

  /** A newline is a unit of its own, goes on no character, and comes from nothing else. */
  lemma NewlineUnit(bytes: seq<Byte>)
    requires bytes != []
    ensures bytes[0] == NEWLINE ==> Width(bytes) == 1
    ensures UnitOf(bytes) == '\n' <==> bytes[0] == NEWLINE
    ensures forall k :: 1 <= k < |bytes| && bytes[k] == NEWLINE ==> Width(bytes) <= k
  {
    var unit := bytes[..Width(bytes)];
    assert unit[0] == bytes[0];
    if DecodeOne(unit).Some? {
      DecodedNewline(unit);
    }
    assert forall k :: 1 <= k < |bytes| && bytes[k] == NEWLINE ==> !GoesOn(bytes, k);
  }

  /** The first unit of a text that is cut: whole when the cut is past it, else one replacement. */
  lemma UnitOfPrefix(bytes: seq<Byte>, n: nat)
    requires 1 <= n <= |bytes|
    ensures Width(bytes) <= n ==> Width(bytes[..n]) == Width(bytes) && UnitOf(bytes[..n]) == UnitOf(bytes)
    ensures Width(bytes) > n ==> Width(bytes[..n]) == n && UnitOf(bytes[..n]) == REPLACEMENT
  {
    ReachOfPrefix(bytes, n, 1);
    if Width(bytes) <= n {
      assert bytes[..n][..Width(bytes)] == bytes[..Width(bytes)];
    }
  }

  /** Decoding starts afresh at a newline byte. */
  lemma {:induction false} DecodeAtNewline(a: seq<Byte>, b: seq<Byte>)
    ensures DecodeReplacing(a + [NEWLINE] + b) == DecodeReplacing(a) + "\n" + DecodeReplacing(b)
    decreases |a|
  {
    hide Width, UnitOf;
    var bytes := a + [NEWLINE] + b;
    NewlineUnit(bytes);
    if a == [] {
      assert bytes[1..] == b;
    } else {
      assert bytes[|a|] == NEWLINE;
      var w := Width(bytes);
      UnitOfPrefix(bytes, |a|);
      assert bytes[..|a|] == a;
      assert bytes[w..] == a[w..] + [NEWLINE] + b;
      DecodeAtNewline(a[w..], b);
    }
  }

  // ----- cut anywhere -----

  /** How many units lie wholly within the first `n` bytes. */
  function WholeUnits(bytes: seq<Byte>, n: nat): nat
    requires n <= |bytes|
    decreases |bytes|
  {
    if n == 0 || Width(bytes) > n then 0 else 1 + WholeUnits(bytes[Width(bytes)..], n - Width(bytes))
  }

  /** Whether a cut after `n` bytes falls inside a unit. */
  predicate IsTorn(bytes: seq<Byte>, n: nat)
    requires n <= |bytes|
    decreases |bytes|
  {
    n > 0 && (Width(bytes) > n || IsTorn(bytes[Width(bytes)..], n - Width(bytes)))
  }

  /** A cut text decodes to the whole units before the cut, and a replacement for a torn one. */
  lemma {:induction false} DecodeCut(bytes: seq<Byte>, n: nat)
    requires n <= |bytes|
    ensures var whole, k := DecodeReplacing(bytes), WholeUnits(bytes, n);
            && k <= |whole|
            && DecodeReplacing(bytes[..n]) == whole[..k] + (if IsTorn(bytes, n) then [REPLACEMENT] else [])
            && (IsTorn(bytes, n) ==> k < |whole| && whole[k] != '\n')
    decreases |bytes|
  {
    hide Width, UnitOf;
    if n > 0 {
      var w := Width(bytes);
      UnitOfPrefix(bytes, n);
      if w <= n {
        DecodeCut(bytes[w..], n - w);
        assert bytes[..n][w..] == bytes[w..][..n - w];
      } else {
        NewlineUnit(bytes);
        assert bytes[..n][n..] == [];
      }
    }
  }

  // ----- what is not replaced -----

  lemma EncodedSecond(c: Scalar)
    ensures var unit := EncodeOne(c);
            && Need(unit[0]) == |unit|
            && (|unit| > 1 ==> SecondFits(unit[0], unit[1]))
            && forall k :: 2 <= k < |unit| ==> IsTail(unit[k])
  {
    var q := c / 64;
    assert c == 64 * q + c % 64 && q == 64 * (q / 64) + q % 64;
    assert !IsSurrogate(c);
    assert q < 864 || q >= 896;
    assert q / 64 == 13 ==> q % 64 == q - 832;
    assert q / 64 <= 271 && (q / 64 / 64 == 4 ==> q / 64 % 64 == q / 64 - 256);
  }

  lemma EncodedUnit(c: Scalar, rest: seq<Byte>)
    ensures var bytes := EncodeOne(c) + rest; Width(bytes) == |EncodeOne(c)| && UnitOf(bytes) == c as char
  {
    var bytes, n := EncodeOne(c) + rest, |EncodeOne(c)|;
    EncodedSecond(c);
    assert forall k :: 1 <= k < n ==> GoesOn(bytes, k);
    assert bytes[..n] == EncodeOne(c) + [];
    DecodeOneInvertsEncodeOne(c, []);
  }

  function AsText(text: seq<Scalar>): string {
    seq(|text|, i requires 0 <= i < |text| => text[i] as char)
  }

  /** Valid UTF-8 decodes to what it encodes. */
  lemma {:induction false} DecodeReplacingInvertsEncode(text: seq<Scalar>)
    ensures DecodeReplacing(Encode(text)) == AsText(text)
  {
    if text != [] {
      var bytes, w := Encode(text), |EncodeOne(text[0])|;
      EncodedUnit(text[0], Encode(text[1..]));
      assert bytes[w..] == Encode(text[1..]);
      DecodeReplacingInvertsEncode(text[1..]);
    }
  }
}
