/** UTF-8 as section 3 of RFC 3629 defines it, on Unicode scalar values. */
module Utf8 {
  import opened Prelude

  type Byte = b: int | 0 <= b < 256

  type CodePoint = c: int | 0 <= c < 0x110000

  predicate IsSurrogate(c: CodePoint) {
    0xD800 <= c < 0xE000
  }

  type Scalar = c: CodePoint | !IsSurrogate(c)

  function EncodeOne(c: Scalar): (bytes: seq<Byte>)
    ensures 1 <= |bytes| <= 4
  {
    if c < 0x80 then [c]
    else if c < 0x800 then [0xC0 + c / 64, 0x80 + c % 64]
    else if c < 0x10000 then [0xE0 + c / 64 / 64, 0x80 + c / 64 % 64, 0x80 + c % 64]
    else [0xF0 + c / 64 / 64 / 64, 0x80 + c / 64 / 64 % 64, 0x80 + c / 64 % 64, 0x80 + c % 64]
  }

  function Encode(text: seq<Scalar>): seq<Byte> {
    if text == [] then [] else EncodeOne(text[0]) + Encode(text[1..])
  }

  predicate IsTail(b: int) {
    0x80 <= b < 0xC0
  }

  datatype Decoded = Decoded(scalar: Scalar, width: nat)

  function Lead(first: int, marker: int): int {
    first - marker
  }

  /** Six more bits, from a tail byte. */
  function More(high: int, tail: int): int {
    high * 64 + (tail - 0x80)
  }

  function Accept(c: int, least: int, width: nat): (d: Option<Decoded>)
    requires 0 <= least
    ensures d.Some? ==> d.value.width == width && least <= c == d.value.scalar
  {
    if least <= c < 0x110000 && !IsSurrogate(c) then Some(Decoded(c, width)) else None
  }

  /** The first character of a byte string; overlong forms and surrogates are refused. */
  function DecodeOne(bytes: seq<Byte>): (d: Option<Decoded>)
    ensures d.Some? ==> 1 <= d.value.width <= |bytes|
  {
    if |bytes| >= 1 && bytes[0] < 0x80 then Some(Decoded(bytes[0], 1))
    else if |bytes| >= 2 && 0xC0 <= bytes[0] < 0xE0 && IsTail(bytes[1])
    then Accept(More(Lead(bytes[0], 0xC0), bytes[1]), 0x80, 2)
    else if |bytes| >= 3 && 0xE0 <= bytes[0] < 0xF0 && IsTail(bytes[1]) && IsTail(bytes[2])
    then Accept(More(More(Lead(bytes[0], 0xE0), bytes[1]), bytes[2]), 0x800, 3)
    else if |bytes| >= 4 && 0xF0 <= bytes[0] < 0xF8 && IsTail(bytes[1]) && IsTail(bytes[2]) && IsTail(bytes[3])
    then Accept(More(More(More(Lead(bytes[0], 0xF0), bytes[1]), bytes[2]), bytes[3]), 0x10000, 4)
    else None
  }

  function Decode(bytes: seq<Byte>): Option<seq<Scalar>>
    decreases |bytes|
  {
    if bytes == [] then Some([])
    else
      var first := DecodeOne(bytes);
      if first.None? then None
      else
        var rest := Decode(bytes[first.value.width..]);
        if rest.None? then None else Some([first.value.scalar] + rest.value)
  }

  /** The widths of section 3 of RFC 3629, and characters of its section 7, of two, three and four bytes. */
  lemma ExamplesOfTheStandard(c: Scalar)
    ensures |EncodeOne(c)| == if c < 0x80 then 1 else if c < 0x800 then 2 else if c < 0x1_0000 then 3 else 4
    ensures EncodeOne(0x391) == [0xCE, 0x91] && EncodeOne(0x2262) == [0xE2, 0x89, 0xA2]
    ensures EncodeOne(0x2_33B4) == [0xF0, 0xA3, 0x8E, 0xB4]
  {
  }

  /** Taking six bits off and putting them back. */
  lemma MoreInvertsSplit(high: int, tail: int)
    requires IsTail(tail)
    ensures More(high / 64, 0x80 + high % 64) == high
    ensures More(high, tail) / 64 == high && 0x80 + More(high, tail) % 64 == tail
  {
  }

  lemma DecodeOneInvertsEncodeOne(c: Scalar, rest: seq<Byte>)
    ensures DecodeOne(EncodeOne(c) + rest) == Some(Decoded(c, |EncodeOne(c)|))
  {
    var one := EncodeOne(c);
    var bytes := one + rest;
    assert forall i :: 0 <= i < |one| ==> bytes[i] == one[i];
    MoreInvertsSplit(c, 0x80);
    MoreInvertsSplit(c / 64, 0x80);
    MoreInvertsSplit(c / 64 / 64, 0x80);
  }

  lemma EncodeTwo(first: Byte, tail: Byte)
    requires 0xC0 <= first < 0xE0 && IsTail(tail)
    ensures var c := More(Lead(first, 0xC0), tail); 0x80 <= c ==> EncodeOne(c) == [first, tail]
  {
  }

  lemma EncodeThree(first: Byte, tail: Byte, last: Byte)
    requires 0xE0 <= first < 0xF0 && IsTail(tail) && IsTail(last)
    ensures var c := More(More(Lead(first, 0xE0), tail), last);
            Accept(c, 0x800, 3).Some? ==> EncodeOne(c) == [first, tail, last]
  {
    MoreInvertsSplit(first - 0xE0, tail);
    MoreInvertsSplit(More(first - 0xE0, tail), last);
  }

  lemma EncodeFour(first: Byte, tail: Byte, third: Byte, last: Byte)
    requires 0xF0 <= first < 0xF8 && IsTail(tail) && IsTail(third) && IsTail(last)
    ensures var c := More(More(More(Lead(first, 0xF0), tail), third), last);
            Accept(c, 0x10000, 4).Some? ==> EncodeOne(c) == [first, tail, third, last]
  {
    var high := More(first - 0xF0, tail);
    MoreInvertsSplit(first - 0xF0, tail);
    MoreInvertsSplit(high, third);
    MoreInvertsSplit(More(high, third), last);
  }

  lemma EncodeOneInvertsDecodeOne(bytes: seq<Byte>)
    requires DecodeOne(bytes).Some?
    ensures var d := DecodeOne(bytes).value; EncodeOne(d.scalar) == bytes[..d.width]
  {
    if bytes[0] < 0x80 {
    } else if bytes[0] < 0xE0 {
      EncodeTwo(bytes[0], bytes[1]);
    } else if bytes[0] < 0xF0 {
      EncodeThree(bytes[0], bytes[1], bytes[2]);
    } else {
      EncodeFour(bytes[0], bytes[1], bytes[2], bytes[3]);
    }
  }

  lemma {:induction false} DecodeInvertsEncode(text: seq<Scalar>)
    ensures Decode(Encode(text)) == Some(text)
  {
    if text != [] {
      var one, rest := EncodeOne(text[0]), Encode(text[1..]);
      DecodeOneInvertsEncodeOne(text[0], rest);
      DecodeInvertsEncode(text[1..]);
      assert (one + rest)[|one|..] == rest;
      assert [text[0]] + text[1..] == text;
    }
  }

  lemma EncodeCons(c: Scalar, rest: seq<Scalar>)
    ensures Encode([c] + rest) == EncodeOne(c) + Encode(rest)
  {
  }

  lemma DecodeStep(bytes: seq<Byte>)
    requires bytes != [] && Decode(bytes).Some?
    ensures DecodeOne(bytes).Some?
    ensures var d := DecodeOne(bytes).value;
            Decode(bytes[d.width..]).Some? && Decode(bytes).value == [d.scalar] + Decode(bytes[d.width..]).value
  {
  }

  /** Decoding is strict: whatever decodes is the encoding of what it decodes to. */
  lemma {:induction false} EncodeInvertsDecode(bytes: seq<Byte>)
    requires Decode(bytes).Some?
    ensures Encode(Decode(bytes).value) == bytes
    decreases |bytes|
  {
    if bytes != [] {
      DecodeStep(bytes);
      var d := DecodeOne(bytes).value;
      var rest := bytes[d.width..];
      calc {
        Encode(Decode(bytes).value);
        { EncodeCons(d.scalar, Decode(rest).value); }
        EncodeOne(d.scalar) + Encode(Decode(rest).value);
        { EncodeInvertsDecode(rest); EncodeOneInvertsDecodeOne(bytes); }
        bytes[..d.width] + rest;
        bytes;
      }
    }
  }

  lemma {:induction false} EncodeAppend(a: seq<Scalar>, b: seq<Scalar>)
    ensures Encode(a + b) == Encode(a) + Encode(b)
  {
    if a == [] {
      assert a + b == b;
    } else {
      assert (a + b)[1..] == a[1..] + b;
      EncodeAppend(a[1..], b);
    }
  }
}
