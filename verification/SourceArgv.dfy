/** Base64 as section 4 of RFC 4648 defines it. */
module Base64 {
  import opened Prelude
  import opened Utf8

  type Sextet = n: int | 0 <= n < 64

  function Letter(n: Sextet): char {
    if n < 26 then ('A' as int + n) as char
    else if n < 52 then ('a' as int + n - 26) as char
    else if n < 62 then ('0' as int + n - 52) as char
    else if n == 62 then '+'
    else '/'
  }

  /** The alphabet of table 1 of RFC 4648: upper case, lower case, digits, each in order, then plus and slash. */
  lemma LettersAreTheAlphabet(n: Sextet)
    ensures Letter(0) == 'A' && Letter(25) == 'Z' && Letter(26) == 'a' && Letter(51) == 'z'
    ensures Letter(52) == '0' && Letter(61) == '9' && Letter(62) == '+' && Letter(63) == '/'
    ensures n !in {25, 51, 61, 62, 63} ==> Letter(n + 1) as int == Letter(n) as int + 1
  {
  }

  function Index(c: char): Option<Sextet> {
    if 'A' <= c <= 'Z' then Some(c as int - 'A' as int)
    else if 'a' <= c <= 'z' then Some(c as int - 'a' as int + 26)
    else if '0' <= c <= '9' then Some(c as int - '0' as int + 52)
    else if c == '+' then Some(62)
    else if c == '/' then Some(63)
    else None
  }

  function Encode64(bytes: seq<Byte>): string {
    if bytes == [] then ""
    else if |bytes| == 1 then [Letter(bytes[0] / 4), Letter(bytes[0] % 4 * 16), '=', '=']
    else if |bytes| == 2
    then [Letter(bytes[0] / 4), Letter(bytes[0] % 4 * 16 + bytes[1] / 16), Letter(bytes[1] % 16 * 4), '=']
    else
      [Letter(bytes[0] / 4), Letter(bytes[0] % 4 * 16 + bytes[1] / 16),
       Letter(bytes[1] % 16 * 4 + bytes[2] / 64), Letter(bytes[2] % 64)] + Encode64(bytes[3..])
  }

  function First(a: int, b: int): int {
    a * 4 + b / 16
  }

  function Second(b: int, c: int): int {
    b % 16 * 16 + c / 4
  }

  function Third(c: int, d: int): int {
    c % 4 * 64 + d
  }

  /** Whole groups of four; padding only closes the last one. */
  function Decode64(text: string): Option<seq<Byte>> {
    if text == "" then Some([])
    else if |text| < 4 then None
    else
      var (a, b, c, d) := (Index(text[0]), Index(text[1]), Index(text[2]), Index(text[3]));
      if a.None? || b.None? then None
      else if text[2..] == "==" then Some([First(a.value, b.value)])
      else if c.None? then None
      else if text[3..] == "=" then Some([First(a.value, b.value), Second(b.value, c.value)])
      else if d.None? then None
      else
        var rest := Decode64(text[4..]);
        if rest.None? then None
        else Some([First(a.value, b.value), Second(b.value, c.value), Third(c.value, d.value)] + rest.value)
  }

  lemma IndexInvertsLetter(n: Sextet)
    ensures Index(Letter(n)) == Some(n) && Letter(n) != '='
  {
  }

  lemma SplitInverts(a: Byte, b: Byte, c: Byte)
    ensures First(a / 4, a % 4 * 16 + b / 16) == a
    ensures Second(a % 4 * 16 + b / 16, b % 16 * 4 + c / 64) == b
    ensures Third(b % 16 * 4 + c / 64, c % 64) == c
  {
  }

  lemma DecodeGroup(a: Sextet, b: Sextet, c: Sextet, d: Sextet, rest: string)
    requires Decode64(rest).Some? && Third(c, d) < 256
    ensures Decode64([Letter(a), Letter(b), Letter(c), Letter(d)] + rest) ==
            Some([First(a, b), Second(b, c), Third(c, d)] + Decode64(rest).value)
  {
    var text := [Letter(a), Letter(b), Letter(c), Letter(d)] + rest;
    IndexInvertsLetter(a);
    IndexInvertsLetter(b);
    IndexInvertsLetter(c);
    IndexInvertsLetter(d);
    assert text[4..] == rest;
    assert text[2..][0] != '=' && text[3..][0] != '=';
  }

  lemma DecodeTwoBytes(a: Sextet, b: Sextet, c: Sextet)
    ensures Decode64([Letter(a), Letter(b), Letter(c), '=']) == Some([First(a, b), Second(b, c)])
  {
    var text := [Letter(a), Letter(b), Letter(c), '='];
    IndexInvertsLetter(a);
    IndexInvertsLetter(b);
    IndexInvertsLetter(c);
    assert text[2..][0] != '=';
    assert text[3..] == "=";
  }

  lemma DecodeThreeBytes(a: Byte, b: Byte, c: Byte, rest: seq<Byte>)
    requires Decode64(Encode64(rest)) == Some(rest)
    ensures Decode64(Encode64([a, b, c] + rest)) == Some([a, b, c] + rest)
  {
    var bytes := [a, b, c] + rest;
    assert bytes[3..] == rest;
    SplitInverts(a, b, c);
    DecodeGroup(a / 4, a % 4 * 16 + b / 16, b % 16 * 4 + c / 64, c % 64, Encode64(rest));
  }

  lemma LastOne(a: Byte)
    ensures Decode64(Encode64([a])) == Some([a])
  {
  }

  lemma LastTwo(a: Byte, b: Byte)
    ensures Decode64(Encode64([a, b])) == Some([a, b])
  {
    SplitInverts(a, b, 0);
    DecodeTwoBytes(a / 4, a % 4 * 16 + b / 16, b % 16 * 4);
  }

  lemma {:induction false} Decode64InvertsEncode64(bytes: seq<Byte>)
    ensures Decode64(Encode64(bytes)) == Some(bytes)
  {
    if bytes == [] {
    } else if |bytes| == 1 {
      assert bytes == [bytes[0]];
      LastOne(bytes[0]);
    } else if |bytes| == 2 {
      assert bytes == [bytes[0], bytes[1]];
      LastTwo(bytes[0], bytes[1]);
    } else {
      assert bytes == [bytes[0], bytes[1], bytes[2]] + bytes[3..];
      Decode64InvertsEncode64(bytes[3..]);
      DecodeThreeBytes(bytes[0], bytes[1], bytes[2], bytes[3..]);
    }
  }

  /** The vectors of section 10 of RFC 4648 that end in none, one and two padding signs: "foo", "fo" and "f". */
  lemma VectorsOfTheStandard()
    ensures Encode64([0x66, 0x6F, 0x6F]) == "Zm9v"
    ensures Encode64([0x66, 0x6F]) == "Zm8=" && Encode64([0x66]) == "Zg=="
  {
    assert [0x66, 0x6F, 0x6F][3..] == [];
  }

  predicate IsPlain(c: char) {
    Index(c).Some? || c == '='
  }

  lemma {:induction false} Encode64IsPlain(bytes: seq<Byte>)
    ensures forall c :: c in Encode64(bytes) ==> IsPlain(c)
  {
    if |bytes| > 2 {
      Encode64IsPlain(bytes[3..]);
    }
    forall n: Sextet
      ensures IsPlain(Letter(n))
    {
      IndexInvertsLetter(n);
    }
  }
}

/** `python_source_argv` of `local_operator/computer_input.py` and the bootstrap that undoes it. */
module SourceArgv {
  import opened Prelude
  import opened Utf8
  import opened Base64

  const BOOTSTRAP := "import base64, sys; exec(base64.b64decode(''.join(sys.argv[1:])).decode())"
  const MAX_ARGUMENT_CHARACTERS: nat := 16_000

  predicate Encodable(source: seq<CodePoint>) {
    forall c :: c in source ==> !IsSurrogate(c)
  }

  function AsScalars(source: seq<CodePoint>): (scalars: seq<Scalar>)
    requires Encodable(source)
    ensures scalars == source
  {
    seq(|source|, i requires 0 <= i < |source| => assert source[i] in source; source[i])
  }

  function Chunks(text: string): seq<string> {
    if text == "" then []
    else if |text| <= MAX_ARGUMENT_CHARACTERS then [text]
    else [text[..MAX_ARGUMENT_CHARACTERS]] + Chunks(text[MAX_ARGUMENT_CHARACTERS..])
  }

  function Join(parts: seq<string>): string {
    if parts == [] then "" else parts[0] + Join(parts[1..])
  }

  /** The argv for one source; `None` is Python's `UnicodeEncodeError`. */
  function PythonSourceArgv(source: seq<CodePoint>): Option<seq<string>> {
    if !Encodable(source) then None
    else Some(["python", "-c", BOOTSTRAP] + Chunks(Encode64(Encode(AsScalars(source)))))
  }

  /** What the bootstrap hands to `exec`: under `-c`, `sys.argv[1:]` is the argv from index 3 on. */
  function Bootstrapped(argv: seq<string>): Option<seq<Scalar>>
    requires |argv| >= 3
  {
    var bytes := Decode64(Join(argv[3..]));
    if bytes.None? then None else Decode(bytes.value)
  }

  lemma {:induction false} ChunksRejoin(text: string)
    ensures Join(Chunks(text)) == text
    ensures forall i :: 0 <= i < |Chunks(text)| ==> 1 <= |Chunks(text)[i]| <= MAX_ARGUMENT_CHARACTERS
    ensures forall i :: 0 <= i < |Chunks(text)| - 1 ==> |Chunks(text)[i]| == MAX_ARGUMENT_CHARACTERS
  {
    if |text| > MAX_ARGUMENT_CHARACTERS {
      var rest := text[MAX_ARGUMENT_CHARACTERS..];
      ChunksRejoin(rest);
      assert Chunks(text)[1..] == Chunks(rest);
      assert text == text[..MAX_ARGUMENT_CHARACTERS] + rest;
    } else if text != "" {
      assert Chunks(text)[1..] == [];
    }
  }

  lemma {:induction false} JoinMembers(parts: seq<string>, i: nat, c: char)
    requires i < |parts| && c in parts[i]
    ensures c in Join(parts)
  {
    if i > 0 {
      JoinMembers(parts[1..], i - 1, c);
    }
  }

  lemma ChunksArePlain(bytes: seq<Byte>)
    ensures forall i, c :: 0 <= i < |Chunks(Encode64(bytes))| && c in Chunks(Encode64(bytes))[i] ==> IsPlain(c)
  {
    var text := Encode64(bytes);
    ChunksRejoin(text);
    Encode64IsPlain(bytes);
    forall i, c | 0 <= i < |Chunks(text)| && c in Chunks(text)[i]
      ensures IsPlain(c)
    {
      JoinMembers(Chunks(text), i, c);
    }
  }

  lemma BootstrapReads(text: string)
    ensures var argv := ["python", "-c", BOOTSTRAP] + Chunks(text); argv[3..] == Chunks(text) && Join(argv[3..]) == text
  {
  }

  /**
   Every source that can be encoded at all comes back: the bootstrap executes exactly what was asked,
   and the argv is the fixed program followed by plain base64 entries within the bound.
   */
  lemma SourceRoundTrip(source: seq<CodePoint>)
    ensures PythonSourceArgv(source).Some? <==> Encodable(source)
    ensures Encodable(source) ==>
              var argv := PythonSourceArgv(source).value;
              && |argv| >= 3 && argv[..3] == ["python", "-c", BOOTSTRAP]
              && Bootstrapped(argv) == Some(AsScalars(source))
              && (forall i :: 3 <= i < |argv| ==> 1 <= |argv[i]| <= 16_000)
              && (forall i :: 3 <= i < |argv| - 1 ==> |argv[i]| == 16_000)
              && (forall i, c :: 3 <= i < |argv| && c in argv[i] ==> IsPlain(c))
  {
    if Encodable(source) {
      var bytes := Encode(AsScalars(source));
      var text := Encode64(bytes);
      var argv := PythonSourceArgv(source).value;
      BootstrapReads(text);
      assert Bootstrapped(argv) == Some(AsScalars(source)) by {
        Decode64InvertsEncode64(bytes);
        DecodeInvertsEncode(AsScalars(source));
      }
      ChunksRejoin(text);
      ChunksArePlain(bytes);
      assert forall i :: 3 <= i < |argv| ==> argv[i] == Chunks(text)[i - 3];
    }
  }

  /** Two sources never share an argv. */
  lemma ArgvIsInjective(a: seq<CodePoint>, b: seq<CodePoint>)
    requires Encodable(a) && PythonSourceArgv(a) == PythonSourceArgv(b)
    ensures a == b
  {
    SourceRoundTrip(a);
    SourceRoundTrip(b);
  }
}
