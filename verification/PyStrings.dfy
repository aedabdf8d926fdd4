/** The few operations of Python's `str` that several models use. */
module PyStrings {
  /** `str.isspace`. */
  predicate IsSpace(c: char) {
    '\t' <= c <= '\r' || '\U{1C}' <= c <= ' ' || c == '\U{85}' || c == '\U{A0}' || c == '\U{1680}' ||
    '\U{2000}' <= c <= '\U{200A}' || c == '\U{2028}' || c == '\U{2029}' || c == '\U{202F}' || c == '\U{205F}' ||
    c == '\U{3000}'
  }

  function LeftStrip(line: string): string {
    if line != "" && IsSpace(line[0]) then LeftStrip(line[1..]) else line
  }

  function RightStrip(line: string): string {
    if line != "" && IsSpace(line[|line| - 1]) then RightStrip(line[..|line| - 1]) else line
  }

  function Strip(line: string): string {
    RightStrip(LeftStrip(line))
  }

  /** No white space at either end. */
  predicate IsTrimmed(s: string) {
    s == "" || (!IsSpace(s[0]) && !IsSpace(s[|s| - 1]))
  }

  lemma {:induction false} LeftStripIs(s: string)
    ensures var t := LeftStrip(s);
            && |t| <= |s| && t == s[|s| - |t|..]
            && (t != "" ==> !IsSpace(t[0]))
            && (s != "" && !IsSpace(s[0]) ==> t == s)
  {
    if s != "" && IsSpace(s[0]) {
      LeftStripIs(s[1..]);
    }
  }

  lemma {:induction false} RightStripIs(s: string)
    ensures RightStrip(s) <= s
    ensures RightStrip(s) != "" ==> !IsSpace(RightStrip(s)[|RightStrip(s)| - 1])
    ensures s != "" && !IsSpace(s[|s| - 1]) ==> RightStrip(s) == s
  {
    if s != "" && IsSpace(s[|s| - 1]) {
      RightStripIs(s[..|s| - 1]);
    }
  }

  predicate AllSpace(s: string) {
    forall i :: 0 <= i < |s| ==> IsSpace(s[i])
  }

  lemma {:induction false} LeftStripTakesSpace(s: string)
    ensures |LeftStrip(s)| <= |s| && AllSpace(s[..|s| - |LeftStrip(s)|])
  {
    LeftStripIs(s);
    if s != "" && IsSpace(s[0]) {
      LeftStripTakesSpace(s[1..]);
      LeftStripIs(s[1..]);
      assert s[..|s| - |LeftStrip(s)|] == [s[0]] + s[1..][..|s[1..]| - |LeftStrip(s)|];
    }
  }

  lemma {:induction false} RightStripTakesSpace(s: string)
    ensures RightStrip(s) <= s && AllSpace(s[|RightStrip(s)|..])
  {
    hide IsSpace;
    RightStripIs(s);
    if s != "" && IsSpace(s[|s| - 1]) {
      var init := s[..|s| - 1];
      RightStripTakesSpace(init);
      assert s[|RightStrip(s)|..] == init[|RightStrip(s)|..] + [s[|s| - 1]];
    }
  }

  /** Stripping takes exactly the white space at the two ends. */
  lemma StripTakesTheEnds(s: string) returns (before: string, after: string)
    ensures s == before + Strip(s) + after && AllSpace(before) && AllSpace(after)
  {
    hide LeftStrip, RightStrip, AllSpace, IsSpace;
    var left := LeftStrip(s);
    LeftStripIs(s);
    LeftStripTakesSpace(s);
    RightStripTakesSpace(left);
    before, after := s[..|s| - |left|], left[|RightStrip(left)|..];
    assert left == RightStrip(left) + after && s == before + left;
    assert s == before + RightStrip(left) + after;
  }

  /** Stripping trims, takes nothing but ends, and leaves trimmed text alone. */
  lemma StripIs(s: string)
    ensures IsTrimmed(Strip(s)) && (Strip(s) == s <==> IsTrimmed(s))
    ensures forall c :: c in Strip(s) ==> c in s
  {
    LeftStripIs(s);
    RightStripIs(LeftStrip(s));
    assert forall c :: c in LeftStrip(s) ==> c in s;
  }

  /** `str.split` on one separator character. */
  function SplitOn(s: string, separator: char): (parts: seq<string>)
    ensures parts != []
  {
    if s == "" then [""]
    else
      var rest := SplitOn(s[1..], separator);
      if s[0] == separator then [""] + rest else [[s[0]] + rest[0]] + rest[1..]
  }

  function JoinWith(parts: seq<string>, separator: char): string {
    if parts == [] then ""
    else if |parts| == 1 then parts[0]
    else parts[0] + [separator] + JoinWith(parts[1..], separator)
  }

  lemma {:induction false} SplitPartsLackSeparator(s: string, separator: char)
    ensures forall part :: part in SplitOn(s, separator) ==> separator !in part
  {
    if s != "" {
      SplitPartsLackSeparator(s[1..], separator);
      var rest := SplitOn(s[1..], separator);
      assert rest[0] in rest && forall part :: part in rest[1..] ==> part in rest;
    }
  }

  lemma {:induction false} SplitOfPart(part: string, separator: char)
    requires separator !in part
    ensures SplitOn(part, separator) == [part]
  {
    if part != "" {
      SplitOfPart(part[1..], separator);
      assert part == [part[0]] + part[1..];
    }
  }

  lemma {:induction false} SplitOfCons(part: string, rest: string, separator: char)
    requires separator !in part
    ensures SplitOn(part + [separator] + rest, separator) == [part] + SplitOn(rest, separator)
  {
    var s := part + [separator] + rest;
    if part == "" {
      assert s[1..] == rest;
    } else {
      assert s[1..] == part[1..] + [separator] + rest;
      SplitOfCons(part[1..], rest, separator);
      assert part == [part[0]] + part[1..];
    }
  }

  /** Splitting undoes joining of parts without the separator. */
  lemma {:induction false} SplitInvertsJoin(parts: seq<string>, separator: char)
    requires parts != [] && forall part :: part in parts ==> separator !in part
    ensures SplitOn(JoinWith(parts, separator), separator) == parts
  {
    if |parts| == 1 {
      SplitOfPart(parts[0], separator);
    } else {
      SplitInvertsJoin(parts[1..], separator);
      SplitOfCons(parts[0], JoinWith(parts[1..], separator), separator);
      assert parts == [parts[0]] + parts[1..];
    }
  }

  lemma {:induction false} JoinOfSplit(s: string, separator: char)
    ensures JoinWith(SplitOn(s, separator), separator) == s
  {
    if s != "" {
      JoinOfSplit(s[1..], separator);
      var rest := SplitOn(s[1..], separator);
      if s[0] == separator {
        assert ([""] + rest)[1..] == rest;
      } else if |rest| > 1 {
        assert ([[s[0]] + rest[0]] + rest[1..])[1..] == rest[1..];
      }
      assert s == [s[0]] + s[1..];
    }
  }

  /** Lower case, for comparison with ASCII words. */
  function Lower(s: string): string {
    seq(|s|, i requires 0 <= i < |s| => if 'A' <= s[i] <= 'Z' then ((s[i] as int) + 32) as char else s[i])
  }
}
