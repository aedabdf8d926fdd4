/**
 The control-sequence stripper of `local_operator/ansi.py`.

 `Strip` is a deterministic scanner; `Matches` is the pattern itself, alternative by alternative, in
 the grammar of ECMA-48 (sections 5.4 and 5.6), and the scanner is proved to take what a leftmost,
 ordered-alternative, greedy match of the pattern takes.
 */
module ControlStripper {
  // ----- character classes -----

  const ESC: char := '\U{1B}'
  const BEL: char := '\U{07}'
  const ST: char := '\U{9C}'
  const CSI: char := '\U{9B}'

  predicate IsParameter(c: char) { '0' <= c <= '?' }

  predicate IsIntermediate(c: char) { ' ' <= c <= '/' }

  predicate IsFinal(c: char) { '@' <= c <= '~' }

  /** C0 other than tab and newline, DEL, and C1. */
  predicate IsControl(c: char) {
    c <= '\U{08}' || '\U{0B}' <= c <= '\U{1F}' || '\U{7F}' <= c <= '\U{9F}'
  }

  predicate IsStringOpener7(c: char) { c == ']' || c == 'P' || c == 'X' || c == '^' || c == '_' }

  predicate IsStringOpener8(c: char) {
    c == '\U{9D}' || c == '\U{90}' || c == '\U{98}' || c == '\U{9E}' || c == '\U{9F}'
  }

  /** The classes by the columns of the code table: 3 and 2, and 4 to 7 without DEL. */
  lemma ClassesAreColumns(c: char)
    ensures IsParameter(c) <==> c as int / 16 == 3
    ensures IsIntermediate(c) <==> c as int / 16 == 2
    ensures IsFinal(c) <==> 4 <= c as int / 16 <= 7 && c as int != 0x7F
    ensures IsControl(c) <==> (c as int / 16 in {0, 1, 8, 9} && c as int !in {9, 10}) || c as int == 0x7F
  {
  }

  /** Each 8-bit opener is the C1 control that ESC and its 7-bit letter stand for. */
  lemma OpenersCorrespond(c: char)
    requires '@' <= c <= '_'
    ensures IsStringOpener7(c) <==> IsStringOpener8((c as int + 0x40) as char)
    ensures CSI as int == '[' as int + 0x40 && ST as int == '\\' as int + 0x40
  {
  }

  // ----- pieces of the scanner -----

  /** The width of the introducer of a control string, or 0. */
  function StringOpener(s: string): (n: nat)
    ensures n <= |s| && n <= 2
  {
    if |s| >= 2 && s[0] == ESC && IsStringOpener7(s[1]) then 2
    else if |s| >= 1 && IsStringOpener8(s[0]) then 1
    else 0
  }

  function SequenceOpener(s: string): (n: nat)
    ensures n <= |s| && n <= 2
  {
    if |s| >= 2 && s[0] == ESC && s[1] == '[' then 2
    else if |s| >= 1 && s[0] == CSI then 1
    else 0
  }

  /** The width of the string terminator that starts here, or 0. */
  function Terminator(s: string): (n: nat)
    ensures n <= |s| && n <= 2
  {
    if |s| >= 1 && (s[0] == BEL || s[0] == ST) then 1
    else if |s| >= 2 && s[0] == ESC && s[1] == '\\' then 2
    else 0
  }

  /** The payload of a control string and its terminator; without a terminator, everything. */
  function Payload(s: string): (n: nat)
    ensures n <= |s|
  {
    if s == "" then 0
    else if Terminator(s) > 0 then Terminator(s)
    else 1 + Payload(s[1..])
  }

  function SpanWhile(s: string, among: char -> bool): (n: nat)
    ensures n <= |s|
    ensures forall i :: 0 <= i < n ==> among(s[i])
    ensures n < |s| ==> !among(s[n])
  {
    if s != "" && among(s[0]) then 1 + SpanWhile(s[1..], among) else 0
  }

  /** Parameters then intermediates. */
  function SequenceBody(s: string): (n: nat)
    ensures n <= |s|
  {
    var p := SpanWhile(s, IsParameter);
    p + SpanWhile(s[p..], IsIntermediate)
  }

  /** Where `$` matches: at the end, or before a newline that ends the text. */
  predicate AtEnd(s: string) {
    s == "" || s == "\n"
  }

  /** How many characters the match at the start of `s` takes; 0 when there is none. */
  function MatchLength(s: string): (n: nat)
    ensures n <= |s|
  {
    var opener, csi := StringOpener(s), SequenceOpener(s);
    var body := SequenceBody(s[csi..]);
    if s == "" then 0
    else if opener > 0 then opener + Payload(s[opener..])
    else if csi > 0 && csi + body < |s| && IsFinal(s[csi + body]) then csi + body + 1
    else if csi > 0 && AtEnd(s[csi + body..]) then csi + body
    else if s[0] == ESC then EscapeLength(s)
    else if IsControl(s[0]) then 1
    else 0
  }

  /** An escape that opens neither a control string nor a control sequence. */
  function EscapeLength(s: string): (n: nat)
    requires s != "" && s[0] == ESC
    ensures 1 <= n <= |s|
  {
    var i := SpanWhile(s[1..], IsIntermediate);
    if i > 0 && 1 + i < |s| && '0' <= s[1 + i] <= '~' then i + 2
    else if |s| >= 2 && ('@' <= s[1] <= 'Z' || '\\' <= s[1] <= '_') then 2
    else 1
  }

  /** `strip_control_sequences`. */
  function Strip(s: string): string {
    if s == "" then ""
    else if MatchLength(s) == 0 then [s[0]] + Strip(s[1..])
    else Strip(s[MatchLength(s)..])
  }

  // ----- the laws -----

  predicate IsClean(s: string) {
    forall i :: 0 <= i < |s| ==> !IsControl(s[i])
  }

  lemma ControlsMatch(s: string)
    requires s != ""
    ensures MatchLength(s) == 0 <==> !IsControl(s[0])
    ensures Chosen(s) == 0 <==> !IsControl(s[0])
  {
  }

  /** Nothing that moves a cursor survives. */
  lemma {:induction false} StripIsClean(s: string)
    ensures IsClean(Strip(s))
    ensures forall c :: c in Strip(s) ==> ' ' <= c <= '~' || c == '\t' || c == '\n' || c > '\U{9F}'
    decreases |s|
  {
    if s != "" {
      ControlsMatch(s);
      StripIsClean(s[if MatchLength(s) == 0 then 1 else MatchLength(s)..]);
    }
  }

  /** `t` is `s` with characters left out. */
  predicate IsSubsequence(t: string, s: string) {
    if t == "" then true
    else if s == "" then false
    else if t[0] == s[0] && IsSubsequence(t[1..], s[1..]) then true
    else IsSubsequence(t, s[1..])
  }

  lemma {:induction false} SubsequenceOfMore(t: string, s: string, k: nat)
    requires k <= |s| && IsSubsequence(t, s[k..])
    ensures IsSubsequence(t, s)
    decreases k
  {
    if k == 0 {
      assert s[0..] == s;
    } else {
      assert s[k..] == s[1..][k - 1..];
      SubsequenceOfMore(t, s[1..], k - 1);
    }
  }

  /** Stripping only takes characters out. */
  lemma {:induction false} StripIsSubsequence(s: string)
    ensures IsSubsequence(Strip(s), s)
    decreases |s|
  {
    if s != "" {
      var n := MatchLength(s);
      if n == 0 {
        StripIsSubsequence(s[1..]);
        assert Strip(s)[1..] == Strip(s[1..]);
      } else {
        StripIsSubsequence(s[n..]);
        SubsequenceOfMore(Strip(s), s, n);
      }
    }
  }

  lemma CleanHead(c: char, rest: string)
    requires !IsControl(c)
    ensures Strip([c] + rest) == [c] + Strip(rest)
  {
    ControlsMatch([c] + rest);
    assert ([c] + rest)[1..] == rest;
  }

  /** Clean text in front stays as it is and does not change what follows. */
  lemma {:induction false} StripAfterClean(a: string, b: string)
    requires IsClean(a)
    ensures Strip(a + b) == a + Strip(b)
    decreases |a|
  {
    hide MatchLength;
    if a == "" {
      assert a + b == b;
    } else {
      StripAfterClean(a[1..], b);
      CleanHead(a[0], a[1..] + b);
      assert a + b == [a[0]] + (a[1..] + b);
      assert a + Strip(b) == [a[0]] + (a[1..] + Strip(b));
    }
  }

  /** Stripping twice is stripping once. */
  lemma StripTwice(s: string)
    ensures Strip(Strip(s)) == Strip(s)
  {
    StripIsClean(s);
    StripAfterClean(Strip(s), "");
    assert Strip(s) + "" == Strip(s);
  }

  predicate TerminatorFree(body: string) {
    forall i :: 0 <= i < |body| ==> Terminator(body[i..]) == 0
  }

  lemma {:induction false} PayloadOf(body: string, terminator: string, rest: string)
    requires TerminatorFree(body) && terminator in {[BEL], [ST], [ESC, '\\']}
    ensures Payload(body + terminator + rest) == |body| + |terminator|
    decreases |body|
  {
    var s := body + terminator + rest;
    if body == "" {
      assert s[0] == terminator[0];
      assert |terminator| == 2 ==> s[1] == terminator[1];
    } else {
      assert body[0..] == body;
      assert Terminator(s) == 0 by {
        assert s[0] == body[0];
        assert |body| > 1 ==> s[1] == body[1];
        assert |body| == 1 ==> s[1] == terminator[0] && s[1] != '\\';
      }
      assert s[1..] == body[1..] + terminator + rest;
      assert TerminatorFree(body[1..]) by {
        assert forall i :: 0 <= i < |body| - 1 ==> body[1..][i..] == body[i + 1..];
      }
      PayloadOf(body[1..], terminator, rest);
    }
  }

  /** A whole control string goes, payload included, and what follows is stripped as if it came first. */
  lemma ControlStringGoes(opener: string, body: string, terminator: string, rest: string)
    requires opener != "" && StringOpener(opener) == |opener| && TerminatorFree(body)
    requires terminator in {[BEL], [ST], [ESC, '\\']}
    ensures Strip(opener + body + terminator + rest) == Strip(rest)
  {
    var tail := body + terminator + rest;
    var s := opener + tail;
    assert s == opener + body + terminator + rest;
    assert StringOpener(s) == |opener|;
    assert s[|opener|..] == tail;
    PayloadOf(body, terminator, rest);
    assert s[|opener| + |body| + |terminator|..] == rest;
  }

  /** An unterminated control string takes everything to the end. */
  lemma {:induction false} PayloadTakesAll(body: string)
    requires TerminatorFree(body)
    ensures Payload(body) == |body|
    decreases |body|
  {
    if body != "" {
      assert body[0..] == body;
      assert TerminatorFree(body[1..]) by {
        assert forall i :: 0 <= i < |body| - 1 ==> body[1..][i..] == body[i + 1..];
      }
      PayloadTakesAll(body[1..]);
    }
  }

  lemma UnterminatedStringGoes(opener: string, body: string)
    requires opener != "" && StringOpener(opener) == |opener| && TerminatorFree(body)
    ensures Strip(opener + body) == ""
  {
    var s := opener + body;
    assert StringOpener(s) == |opener| && s[|opener|..] == body;
    PayloadTakesAll(body);
    assert s[|s|..] == "";
  }

  lemma BodyOf(parameters: string, intermediates: string, after: string)
    requires forall i :: 0 <= i < |parameters| ==> IsParameter(parameters[i])
    requires forall i :: 0 <= i < |intermediates| ==> IsIntermediate(intermediates[i])
    requires after != "" && IsFinal(after[0])
    ensures SequenceBody(parameters + (intermediates + after)) == |parameters| + |intermediates|
  {
    SpanOf(parameters, intermediates + after, IsParameter);
    SpanOf(intermediates, after, IsIntermediate);
    assert (parameters + (intermediates + after))[|parameters|..] == intermediates + after;
  }

  lemma WholeSequenceLength(opener: string, body: string, n: nat)
    requires opener != "" && SequenceOpener(opener) == |opener| && StringOpener(opener) == 0
    requires SequenceBody(body) == n < |body| && IsFinal(body[n])
    ensures MatchLength(opener + body) == |opener| + n + 1
  {
    hide SequenceBody;
    assert (opener + body)[|opener|..] == body;
  }

  lemma StripMatched(before: string, rest: string)
    requires before != "" && MatchLength(before + rest) == |before|
    ensures Strip(before + rest) == Strip(rest)
  {
  }

  lemma Regroup(a: string, b: string, c: string, d: string, e: string)
    ensures a + (b + (c + (d + e))) == (a + b + c + d) + e
  {
  }

  /** A whole control sequence goes. */
  lemma ControlSequenceGoes(opener: string, parameters: string, intermediates: string, closing: char, rest: string)
    requires opener != "" && SequenceOpener(opener) == |opener| && StringOpener(opener) == 0
    requires forall i :: 0 <= i < |parameters| ==> IsParameter(parameters[i])
    requires forall i :: 0 <= i < |intermediates| ==> IsIntermediate(intermediates[i])
    requires IsFinal(closing)
    ensures Strip((opener + parameters + intermediates + [closing]) + rest) == Strip(rest)
  {
    hide MatchLength, SequenceBody, Strip;
    var after := [closing] + rest;
    var body := parameters + (intermediates + after);
    BodyOf(parameters, intermediates, after);
    FinalAt(parameters, intermediates, after);
    WholeSequenceLength(opener, body, |parameters| + |intermediates|);
    Regroup(opener, parameters, intermediates, [closing], rest);
    StripMatched(opener + parameters + intermediates + [closing], rest);
  }

  lemma FinalAt(a: string, b: string, c: string)
    requires c != ""
    ensures var s := a + (b + c); |a| + |b| < |s| && s[|a| + |b|] == c[0]
  {
  }

  lemma {:induction false} SpanOf(a: string, b: string, among: char -> bool)
    requires forall i :: 0 <= i < |a| ==> among(a[i])
    requires b != "" ==> !among(b[0])
    ensures SpanWhile(a + b, among) == |a|
    decreases |a|
  {
    if a == "" {
      assert a + b == b;
    } else {
      assert (a + b)[1..] == a[1..] + b;
      SpanOf(a[1..], b, among);
    }
  }

  // ----- the pattern itself -----

  predicate AllIn(s: string, from: nat, to: nat, among: char -> bool)
    requires from <= to <= |s|
  {
    forall i :: from <= i < to ==> among(s[i])
  }

  /** A control string after its opener: `m` characters of payload, then a terminator or the end. */
  ghost predicate StringBody(s: string, m: nat, n: nat) {
    && m <= n <= |s| && (forall i :: 0 <= i < m ==> Terminator(s[i..]) == 0)
    && ((m < n && n - m == Terminator(s[m..])) || (m == n && AtEnd(s[n..])))
  }

  /** Parameters from `from` to `p`, then intermediates to `m`. */
  predicate SequencePart(s: string, from: nat, p: nat, m: nat) {
    from <= p <= m <= |s| && AllIn(s, from, p, IsParameter) && AllIn(s, p, m, IsIntermediate)
  }

  ghost predicate HasSequencePart(s: string, from: nat, m: nat) {
    exists p :: SequencePart(s, from, p, m)
  }

  ghost predicate HasStringBody(s: string, n: nat) {
    exists m :: StringBody(s, m, n)
  }

  /** A control string: opener, payload free of terminators, terminator or end. */
  ghost predicate IsString(s: string, n: nat) {
    0 < StringOpener(s) <= n && HasStringBody(s[StringOpener(s)..], n - StringOpener(s))
  }

  /** A control sequence: opener, parameters, intermediates, final. */
  ghost predicate IsSequence(s: string, n: nat) {
    0 < SequenceOpener(s) && 0 < n <= |s| && IsFinal(s[n - 1]) &&
    HasSequencePart(s, SequenceOpener(s), n - 1)
  }

  /** A control sequence cut off by the end. */
  ghost predicate IsCutSequence(s: string, n: nat) {
    0 < SequenceOpener(s) && n <= |s| && AtEnd(s[n..]) && HasSequencePart(s, SequenceOpener(s), n)
  }

  /** ESC, intermediates, final. */
  predicate IsDesignator(s: string, n: nat) {
    3 <= n <= |s| && s[0] == ESC && AllIn(s, 1, n - 1, IsIntermediate) && '0' <= s[n - 1] <= '~'
  }

  predicate IsEscapePair(s: string, n: nat) {
    n == 2 <= |s| && s[0] == ESC && ('@' <= s[1] <= 'Z' || '\\' <= s[1] <= '_')
  }

  predicate IsLastEscape(s: string, n: nat) {
    n == 1 <= |s| && s[0] == ESC && AtEnd(s[1..])
  }

  predicate IsStray(s: string, n: nat) {
    n == 1 <= |s| && IsControl(s[0])
  }

  /** Whether the `k`-th alternative of the pattern can match exactly the first `n` characters of `s`. */
  ghost predicate Matches(k: nat, s: string, n: nat) {
    match k
    case 1 => IsString(s, n)
    case 2 => IsSequence(s, n)
    case 3 => IsCutSequence(s, n)
    case 4 => IsDesignator(s, n)
    case 5 => IsEscapePair(s, n)
    case 6 => IsLastEscape(s, n)
    case 7 => IsStray(s, n)
    case _ => false
  }

  /** The alternative the scanner uses at the start of `s`; 0 for none. */
  function Chosen(s: string): nat
    requires s != ""
  {
    var csi := SequenceOpener(s);
    var body := SequenceBody(s[csi..]);
    var i := if s[0] == ESC then SpanWhile(s[1..], IsIntermediate) else 0;
    if StringOpener(s) > 0 then 1
    else if csi > 0 && csi + body < |s| && IsFinal(s[csi + body]) then 2
    else if csi > 0 && AtEnd(s[csi + body..]) then 3
    else if s[0] == ESC && i > 0 && 1 + i < |s| && '0' <= s[1 + i] <= '~' then 4
    else if |s| >= 2 && s[0] == ESC && ('@' <= s[1] <= 'Z' || '\\' <= s[1] <= '_') then 5
    else if s[0] == ESC && AtEnd(s[1..]) then 6
    else if IsControl(s[0]) then 7
    else 0
  }

  /** Parameters, then intermediates, then something else: the classes are disjoint, so the split is forced. */
  lemma BodyExact(s: string, from: nat, p: nat, m: nat)
    requires from <= p <= m <= |s| && AllIn(s, from, p, IsParameter) && AllIn(s, p, m, IsIntermediate)
    requires m < |s| ==> !IsParameter(s[m]) && !IsIntermediate(s[m])
    ensures from + SequenceBody(s[from..]) == m
  {
  }

  /** What the scanner takes for a body is parameters, then intermediates. */
  lemma BodyIs(s: string, from: nat)
    requires from <= |s|
    ensures var p := from + SpanWhile(s[from..], IsParameter);
            var m := from + SequenceBody(s[from..]);
            p <= m <= |s| && AllIn(s, from, p, IsParameter) && AllIn(s, p, m, IsIntermediate)
  {
  }

  /** `m` is where the payload of `s` ends: at the first terminator, or at the end. */
  ghost predicate PayloadEnds(s: string, m: nat) {
    && m <= |s| && (forall i :: 0 <= i < m ==> Terminator(s[i..]) == 0)
    && (m < |s| ==> Terminator(s[m..]) > 0)
  }

  lemma {:induction false} PayloadIs(s: string) returns (m: nat)
    ensures PayloadEnds(s, m) && Payload(s) == m + Terminator(s[m..])
  {
    if s == "" || Terminator(s) > 0 {
      assert s[0..] == s;
      m := 0;
    } else {
      var t := s[1..];
      var m' := PayloadIs(t);
      m := m' + 1;
      assert s[0..] == s && s[m..] == t[m'..];
      forall i | 0 <= i < m
        ensures Terminator(s[i..]) == 0
      {
        if i > 0 {
          assert s[i..] == t[i - 1..];
        }
      }
    }
  }

  /** The scanner's payload is the longest the pattern allows. */
  lemma PayloadIsLongest(s: string) returns (m: nat)
    ensures StringBody(s, m, Payload(s))
    ensures forall m': nat, n: nat :: StringBody(s, m', n) ==> n <= Payload(s)
  {
    m := PayloadIs(s);
    hide Payload;
    if m == |s| {
      assert s[m..] == "";
    }
    forall m': nat, n: nat | StringBody(s, m', n)
      ensures n <= Payload(s)
    {
      if m' == n < m {
        NoTerminatorAtEnd(s, m', m);
      }
    }
  }

  /** At a place where `$` matches no terminator follows. */
  lemma NoTerminatorAtEnd(s: string, n: nat, m: nat)
    requires n <= m <= |s| && AtEnd(s[n..]) && (m < |s| ==> Terminator(s[m..]) > 0)
    ensures m == |s|
  {
  }

  lemma StringChoice(s: string)
    requires StringOpener(s) > 0
    ensures IsString(s, MatchLength(s))
    ensures forall n: nat :: IsString(s, n) ==> n <= MatchLength(s)
  {
    var opener := StringOpener(s);
    var m := PayloadIsLongest(s[opener..]);
    assert MatchLength(s) == opener + Payload(s[opener..]);
  }

  /** The end of the scanner's body of a control sequence. */
  function BodyEnd(s: string): (m: nat)
    ensures m <= |s|
  {
    SequenceOpener(s) + SequenceBody(s[SequenceOpener(s)..])
  }

  /** A match of a control sequence ends where the scanner's body does. */
  lemma SequenceIsForced(s: string, n: nat)
    ensures IsSequence(s, n) ==> n == BodyEnd(s) + 1 && IsFinal(s[BodyEnd(s)])
    ensures IsCutSequence(s, n) ==> n == BodyEnd(s)
  {
    var csi := SequenceOpener(s);
    if IsSequence(s, n) {
      var p :| SequencePart(s, csi, p, n - 1);
      BodyExact(s, csi, p, n - 1);
    }
    if IsCutSequence(s, n) {
      var p :| SequencePart(s, csi, p, n);
      assert n < |s| ==> s[n] == s[n..][0];
      BodyExact(s, csi, p, n);
    }
  }

  lemma BodyIsPart(s: string)
    ensures HasSequencePart(s, SequenceOpener(s), BodyEnd(s))
  {
    var csi := SequenceOpener(s);
    BodyIs(s, csi);
    assert SequencePart(s, csi, csi + SpanWhile(s[csi..], IsParameter), BodyEnd(s));
  }

  lemma SequenceChoice(s: string)
    requires s != "" && StringOpener(s) == 0 && SequenceOpener(s) > 0
    ensures BodyEnd(s) < |s| && IsFinal(s[BodyEnd(s)]) ==>
              MatchLength(s) == BodyEnd(s) + 1 && IsSequence(s, MatchLength(s))
    ensures !(BodyEnd(s) < |s| && IsFinal(s[BodyEnd(s)])) && AtEnd(s[BodyEnd(s)..]) ==>
              MatchLength(s) == BodyEnd(s) && IsCutSequence(s, MatchLength(s))
  {
    BodyIsPart(s);
    hide SequenceBody;
  }

  lemma DesignatorIsForced(s: string, n: nat)
    requires IsDesignator(s, n)
    ensures n == SpanWhile(s[1..], IsIntermediate) + 2
  {
  }

  lemma DesignatorChoice(s: string)
    requires s != "" && Chosen(s) == 4
    ensures IsDesignator(s, MatchLength(s))
  {
    var t := s[1..];
    assert forall i :: 0 <= i < |t| ==> t[i] == s[1 + i];
  }

  /** The scanner's choice matches, and takes the longest match that alternative has. */
  lemma ChoiceMatches(s: string)
    requires s != "" && Chosen(s) > 0
    ensures Matches(Chosen(s), s, MatchLength(s))
    ensures forall n: nat :: Matches(Chosen(s), s, n) ==> n <= MatchLength(s)
  {
    var k := Chosen(s);
    if k == 1 {
      StringChoice(s);
    } else if k <= 3 {
      SequenceChoice(s);
      forall n: nat
        ensures Matches(k, s, n) ==> n <= MatchLength(s)
      {
        SequenceIsForced(s, n);
      }
    } else if k == 4 {
      DesignatorChoice(s);
      forall n: nat | IsDesignator(s, n)
        ensures n <= MatchLength(s)
      {
        DesignatorIsForced(s, n);
        DesignatorIsForced(s, MatchLength(s));
      }
    }
  }

  /** No earlier alternative matches at all, at any length; with no choice, none of the seven does. */
  lemma EarlierAlternativesFail(s: string, k: nat, n: nat)
    requires s != "" && (k < Chosen(s) || Chosen(s) == 0)
    ensures !Matches(k, s, n)
  {
    if k == 2 || k == 3 {
      SequenceIsForced(s, n);
      hide SequenceBody;
    } else if k == 4 {
      hide SequenceBody;
      if IsDesignator(s, n) {
        DesignatorIsForced(s, n);
      }
    } else {
      hide SequenceBody;
    }
  }

  /**
   The scanner is the pattern: at any place it takes the longest match of the first alternative that
   matches there, and takes nothing exactly when no alternative matches.
   */
  lemma ScannerIsThePattern(s: string)
    requires s != ""
    ensures MatchLength(s) == 0 <==> Chosen(s) == 0
    ensures Chosen(s) == 0 ==> forall k: nat, n: nat :: !Matches(k, s, n)
    ensures Chosen(s) > 0 ==>
              && Matches(Chosen(s), s, MatchLength(s))
              && (forall n: nat :: Matches(Chosen(s), s, n) ==> n <= MatchLength(s))
              && (forall k: nat, n: nat :: k < Chosen(s) ==> !Matches(k, s, n))
  {
    ControlsMatch(s);
    if Chosen(s) > 0 {
      ChoiceMatches(s);
    }
    forall k: nat, n: nat | k < Chosen(s) || Chosen(s) == 0
      ensures !Matches(k, s, n)
    {
      EarlierAlternativesFail(s, k, n);
    }
  }
}
