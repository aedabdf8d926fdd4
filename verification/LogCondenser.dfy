/**
 The log condenser of `local_operator/console.py`: a run of one line, and a block of two to ten lines
 that repeats, is written once with a count.
 */
module LogCondenser {
  import opened Prelude
  import opened PyStrings

  const MAX_PATTERN: nat := 10

  /** What one stretch of the output stands for. */
  datatype Token =
    | Plain(line: string)
    | Run(line: string, count: nat)
    | Block(pattern: seq<string>, repeats: nat)

  /** One line of the output as it is printed. */
  datatype Printed =
    | Verbatim(line: string)
    | Repeated(line: string, count: nat)
    | BlockEnd(line: string, repeats: nat)
    | Removed(gone: int)

  function Times(pattern: seq<string>, n: nat): seq<string> {
    if n == 0 then [] else pattern + Times(pattern, n - 1)
  }

  /** The input lines a token stands for. */
  function Expand(token: Token): seq<string> {
    match token
    case Plain(line) => [line]
    case Run(line, count) => Times([line], count)
    case Block(pattern, repeats) => Times(pattern, repeats)
  }

  function ExpandAll(tokens: seq<Token>): seq<string> {
    if tokens == [] then [] else Expand(tokens[0]) + ExpandAll(tokens[1..])
  }

  function Quoted(lines: seq<string>): (printed: seq<Printed>)
    ensures |printed| == |lines|
  {
    seq(|lines|, i requires 0 <= i < |lines| => Verbatim(lines[i]))
  }

  /** How a token is printed. */
  function Print(token: Token): seq<Printed> {
    match token
    case Plain(line) => [Verbatim(line)]
    case Run(line, count) => [Repeated(line, count)]
    case Block(pattern, repeats) =>
      if pattern == [] then []
      else Quoted(pattern[..|pattern| - 1]) + [BlockEnd(pattern[|pattern| - 1], repeats)]
  }

  function PrintAll(tokens: seq<Token>): seq<Printed> {
    if tokens == [] then [] else Print(tokens[0]) + PrintAll(tokens[1..])
  }

  // ----- what the loops find -----

  /** How many copies of `pattern` stand at the start of `lines`, one after the other. */
  function Copies(lines: seq<string>, pattern: seq<string>): nat
    requires pattern != []
  {
    if pattern <= lines then 1 + Copies(lines[|pattern|..], pattern) else 0
  }

  predicate Blank(line: string) {
    Strip(line) == ""
  }

  function Least(a: nat, b: nat): nat {
    if a < b then a else b
  }

  /** The shortest pattern of at least `p` lines that repeats, or 0. */
  function FirstPattern(lines: seq<string>, p: nat): (q: nat)
    requires p >= 1
    ensures q == 0 || (p <= q <= MAX_PATTERN && q <= |lines| && Copies(lines, lines[..q]) > 1)
    ensures forall r :: p <= r <= MAX_PATTERN && r <= |lines| && (q == 0 || r < q) ==> Copies(lines, lines[..r]) <= 1
    decreases |lines| - p
  {
    if p > Least(MAX_PATTERN, |lines|) then 0
    else if Copies(lines, lines[..p]) > 1 then p
    else FirstPattern(lines, p + 1)
  }

  function NextToken(lines: seq<string>): Token
    requires lines != []
  {
    var count := Copies(lines, lines[..1]);
    var p := FirstPattern(lines, 2);
    if count > 1 && !Blank(lines[0]) then Run(lines[0], count)
    else if p > 0 then Block(lines[..p], Copies(lines, lines[..p]))
    else Plain(lines[0])
  }

  lemma {:induction false} TimesIsPrefix(lines: seq<string>, pattern: seq<string>)
    requires pattern != []
    ensures Times(pattern, Copies(lines, pattern)) <= lines
    ensures !(pattern <= lines[|Times(pattern, Copies(lines, pattern))|..])
  {
    if pattern <= lines {
      var rest := lines[|pattern|..];
      TimesIsPrefix(rest, pattern);
      var times := Times(pattern, Copies(rest, pattern));
      assert lines == pattern + rest;
      assert lines[|pattern + times|..] == rest[|times|..];
    } else {
      assert lines[0..] == lines;
    }
  }

  /** What a token stands for is a non-empty start of the lines it was found in. */
  lemma TokenIsPrefix(lines: seq<string>)
    requires lines != []
    ensures Expand(NextToken(lines)) <= lines && Expand(NextToken(lines)) != []
  {
    match NextToken(lines)
    case Plain(line) =>
    case Run(line, count) => TimesIsPrefix(lines, [line]); assert lines[..1] == [line];
    case Block(pattern, repeats) => TimesIsPrefix(lines, pattern);
  }

  function Tokenize(lines: seq<string>): seq<Token>
    decreases |lines|
  {
    if lines == [] then []
    else
      TokenIsPrefix(lines);
      var token := NextToken(lines);
      [token] + Tokenize(lines[|Expand(token)|..])
  }

  // ----- what it promises -----

  lemma TokenizeStep(lines: seq<string>)
    requires lines != []
    ensures var token := NextToken(lines);
            && |Expand(token)| <= |lines|
            && var rest := lines[|Expand(token)|..];
               && lines == Expand(token) + rest && |rest| < |lines|
               && Tokenize(lines) == [token] + Tokenize(rest)
  {
    TokenIsPrefix(lines);
  }

  lemma ConsToken(token: Token, tokens: seq<Token>)
    ensures ExpandAll([token] + tokens) == Expand(token) + ExpandAll(tokens)
    ensures PrintAll([token] + tokens) == Print(token) + PrintAll(tokens)
  {
  }

  /** Lossless: expanding the tokens gives back exactly the input lines. */
  lemma {:induction false} ExpandInvertsTokenize(lines: seq<string>)
    ensures ExpandAll(Tokenize(lines)) == lines
    decreases |lines|
  {
    if lines != [] {
      TokenizeStep(lines);
      var token := NextToken(lines);
      var rest := lines[|Expand(token)|..];
      ConsToken(token, Tokenize(rest));
      ExpandInvertsTokenize(rest);
    }
  }

  lemma {:induction false} TimesLonger(pattern: seq<string>, n: nat)
    requires n >= 1
    ensures |Times(pattern, n)| >= |pattern|
  {
  }

  /** The output is never longer than the input. */
  lemma {:induction false} NeverLonger(lines: seq<string>)
    ensures |PrintAll(Tokenize(lines))| <= |lines|
    decreases |lines|
  {
    if lines != [] {
      TokenizeStep(lines);
      var token := NextToken(lines);
      var rest := lines[|Expand(token)|..];
      ConsToken(token, Tokenize(rest));
      NeverLonger(rest);
      if token.Block? {
        TimesLonger(token.pattern, token.repeats);
      }
    }
  }

  /**
   Each token takes all it can: a run or block stops only where the next line or copy differs, a block
   is the shortest that repeats, and a plain line starts neither.
   */
  lemma TokenIsGreedy(lines: seq<string>)
    requires lines != []
    ensures var token := NextToken(lines);
            |Expand(token)| <= |lines| &&
            var rest := lines[|Expand(token)|..];
            match token
            case Run(line, count) => count >= 2 && !Blank(line) && !([line] <= rest)
            case Block(pattern, repeats) =>
              && repeats >= 2 && 2 <= |pattern| <= 10 && !(pattern <= rest)
              && forall r :: 2 <= r < |pattern| ==> !(lines[..r] + lines[..r] <= lines)
            case Plain(line) =>
              && (!Blank(line) ==> !([line, line] <= lines))
              && forall r :: 2 <= r <= 10 && r <= |lines| ==> !(lines[..r] + lines[..r] <= lines)
  {
    forall r | 1 <= r <= |lines| && lines[..r] + lines[..r] <= lines
      ensures Copies(lines, lines[..r]) > 1
    {
      assert lines[..r] <= lines[r..] by {
        assert forall k :: 0 <= k < r ==> lines[r..][k] == (lines[..r] + lines[..r])[r + k];
      }
    }
    assert lines[..1] == [lines[0]];
    assert [lines[0], lines[0]] == lines[..1] + lines[..1];
    TokenIsPrefix(lines);
    match NextToken(lines)
    case Plain(line) =>
    case Run(line, count) => TimesIsPrefix(lines, [line]);
    case Block(pattern, repeats) => TimesIsPrefix(lines, pattern);
  }

  // ----- the loops -----

  method CountRun(lines: seq<string>, i: nat) returns (count: nat)
    requires i < |lines|
    ensures count == Copies(lines[i..], [lines[i]])
  {
    count := 1;
    while i + count < |lines| && lines[i + count] == lines[i]
      invariant i + count <= |lines|
      invariant Copies(lines[i..], [lines[i]]) == count + Copies(lines[i + count..], [lines[i]])
    {
      assert lines[i + count..][1..] == lines[i + count + 1..];
      count := count + 1;
    }
    assert i + count < |lines| ==> lines[i + count..][0] != lines[i];
  }

  method CountRepeats(lines: seq<string>, i: nat, pattern: seq<string>) returns (repeats: nat)
    requires pattern != [] && i <= |lines|
    ensures repeats == Copies(lines[i..], pattern)
  {
    repeats := 0;
    var j := i;
    while j <= |lines| - |pattern|
      invariant i <= j <= |lines|
      invariant Copies(lines[i..], pattern) == repeats + Copies(lines[j..], pattern)
    {
      if lines[j..j + |pattern|] != pattern {
        assert lines[j..][..|pattern|] == lines[j..j + |pattern|];
        return;
      }
      assert pattern <= lines[j..];
      assert lines[j..][|pattern|..] == lines[j + |pattern|..];
      repeats := repeats + 1;
      j := j + |pattern|;
    }
  }

  /** The pattern search from line `i`: the shortest length that repeats and how often, or zeros. */
  method FindPattern(lines: seq<string>, i: nat) returns (length: nat, repeats: nat)
    requires i < |lines|
    ensures length == FirstPattern(lines[i..], 2)
    ensures length > 0 ==> repeats == Copies(lines[i..], lines[i..][..length])
  {
    length, repeats := 0, 0;
    var rest := lines[i..];
    var limit := Least(MAX_PATTERN, |rest|);
    var p := 2;
    while p <= limit
      invariant 2 <= p
      invariant FirstPattern(rest, 2) == FirstPattern(rest, p)
    {
      var pattern := lines[i..i + p];
      assert pattern == rest[..p];
      var found := CountRepeats(lines, i, pattern);
      if found > 1 {
        return p, found;
      }
      p := p + 1;
    }
  }

  /** `condensed_lines[-m:]`: with `m` not positive this is not the last `m`. */
  function LastSlice<T>(s: seq<T>, m: int): seq<T> {
    if m > 0 then (if m <= |s| then s[|s| - m..] else s)
    else if -m <= |s| then s[-m..]
    else []
  }

  function Truncated(printed: seq<Printed>, maxLines: int): seq<Printed> {
    if |printed| > maxLines then [Removed(|printed| - maxLines)] + LastSlice(printed, maxLines) else printed
  }

  /** The body of the main loop: what is printed for the lines from `i` on, and where to go on. */
  method CondenseFrom(lines: seq<string>, i: nat) returns (printed: seq<Printed>, next: nat)
    requires i < |lines|
    ensures i < next <= |lines| && PrintFrom(lines, i) == printed + PrintFrom(lines, next)
  {
    printed, next := CondenseOne(lines, i);
    TokenIsPrefix(lines[i..]);
    PrintFromStep(lines, i, next);
  }

  method CondenseOne(lines: seq<string>, i: nat) returns (printed: seq<Printed>, next: nat)
    requires i < |lines|
    ensures printed == Print(NextToken(lines[i..])) && next == i + |Expand(NextToken(lines[i..]))|
  {
    var rest := lines[i..];
    assert rest[..1] == [lines[i]];
    var count := CountRun(lines, i);
    if count > 1 && !Blank(lines[i]) {
      TimesLength([lines[i]], count);
      return [Repeated(lines[i], count)], i + count;
    }
    var length, repeats := FindPattern(lines, i);
    if length > 0 {
      var pattern := rest[..length];
      TimesLength(pattern, repeats);
      return Quoted(pattern[..length - 1]) + [BlockEnd(pattern[length - 1], repeats)], i + length * repeats;
    }
    return [Verbatim(lines[i])], i + 1;
  }

  /** What the lines from `i` on are printed as. */
  function PrintFrom(lines: seq<string>, i: nat): seq<Printed>
    requires i <= |lines|
  {
    PrintAll(Tokenize(lines[i..]))
  }

  lemma PrintFromStep(lines: seq<string>, i: nat, next: nat)
    requires i < |lines| && next == i + |Expand(NextToken(lines[i..]))|
    ensures next <= |lines| && PrintFrom(lines, i) == Print(NextToken(lines[i..])) + PrintFrom(lines, next)
  {
    var rest := lines[i..];
    TokenizeStep(rest);
    assert rest[next - i..] == lines[next..];
    ConsToken(NextToken(rest), Tokenize(lines[next..]));
  }

  /** The main loop. */
  method CondenseLines(lines: seq<string>) returns (printed: seq<Printed>)
    ensures printed == PrintFrom(lines, 0)
  {
    hide PrintFrom;
    var i := 0;
    printed := [];
    while i < |lines|
      invariant i <= |lines|
      invariant printed + PrintFrom(lines, i) == PrintFrom(lines, 0)
      decreases |lines| - i
    {
      var more, next := CondenseFrom(lines, i);
      printed, i := printed + more, next;
    }
    PrintFromEnd(lines);
  }

  lemma PrintFromEnd(lines: seq<string>)
    ensures PrintFrom(lines, |lines|) == []
    ensures PrintFrom(lines, 0) == PrintAll(Tokenize(lines))
  {
  }

  /** What the limit does to what would be printed without one. */
  ghost predicate IsLimited(printed: seq<Printed>, all: seq<Printed>, maxLines: int) {
    && (|all| <= maxLines || all == [] ==> printed == all)
    && (0 < maxLines < |all| ==> printed == [Removed(|all| - maxLines)] + all[|all| - maxLines..])
    && (maxLines <= 0 && all != [] ==>
          printed == [Removed(|all| - maxLines)] + (if -maxLines <= |all| then all[-maxLines..] else []))
  }

  /** `condense_logging`, on the lines of the log; an empty log is returned as it is. */
  method CondenseLogging(lines: seq<string>, maxLines: int) returns (printed: seq<Printed>)
    ensures printed == if lines == [] then [] else Truncated(PrintAll(Tokenize(lines)), maxLines)
    ensures IsLimited(printed, PrintAll(Tokenize(lines)), maxLines)
  {
    if lines == [] {
      return [];
    }
    PrintedIsNotEmpty(lines);
    hide PrintAll, Tokenize;
    printed := CondenseLines(lines);
    PrintFromEnd(lines);
    if |printed| > maxLines {
      var removed := |printed| - maxLines;
      printed := [Removed(removed)] + LastSlice(printed, maxLines);
    }
  }

  lemma PrintedIsNotEmpty(lines: seq<string>)
    requires lines != []
    ensures PrintAll(Tokenize(lines)) != []
  {
    TokenizeStep(lines);
    ConsToken(NextToken(lines), Tokenize(lines[|Expand(NextToken(lines))|..]));
  }

  lemma {:induction false} TimesLength(pattern: seq<string>, n: nat)
    ensures |Times(pattern, n)| == |pattern| * n
  {
    if n > 0 {
      TimesLength(pattern, n - 1);
      assert |pattern| * n == |pattern| * (n - 1) + |pattern|;
    }
  }

  /** Truncation keeps exactly the last `maxLines` lines when there are such: a limit of 0 keeps everything. */
  lemma TruncationKeepsTheLast(printed: seq<Printed>, maxLines: int)
    requires |printed| > maxLines
    ensures var kept := Truncated(printed, maxLines)[1..];
            var wanted := if maxLines > 0 then maxLines else 0;
            kept == printed[|printed| - wanted..] <==> maxLines > 0 || (maxLines < 0 && |printed| <= -maxLines)
  {
    var kept := Truncated(printed, maxLines)[1..];
    assert kept == LastSlice(printed, maxLines);
    if maxLines <= 0 {
      assert printed[|printed| - 0..] == [];
    }
  }

  // ----- what the printed form does not keep -----

  /** A pattern that does not stand again where its first copy ends occurs at most once. */
  lemma NotRepeated(lines: seq<string>, r: nat, k: nat)
    requires 1 <= r <= |lines| && k < r && (r + k < |lines| ==> lines[r + k] != lines[k])
    ensures Copies(lines, lines[..r]) <= 1
  {
  }

  lemma OneToken(lines: seq<string>, token: Token)
    requires lines != [] && NextToken(lines) == token && Expand(token) == lines
    ensures Tokenize(lines) == [token]
  {
  }

  lemma TwoCopies(pattern: seq<string>)
    requires pattern != []
    ensures Copies(pattern + pattern, pattern) == 2 && Times(pattern, 2) == pattern + pattern
  {
    assert Copies([], pattern) == 0;
    assert pattern[|pattern|..] == [];
    assert Copies(pattern, pattern) == 1;
    assert (pattern + pattern)[|pattern|..] == pattern;
    assert Times(pattern, 1) == pattern;
  }

  /** The width of a block, which is not printed. */
  function Width(token: Token): seq<nat> {
    if token.Block? then [|token.pattern|] else []
  }

  /** The widths of the blocks, in order: the one thing a token list has that its print has not. */
  function Widths(tokens: seq<Token>): seq<nat> {
    if tokens == [] then []
    else
      var last := tokens[|tokens| - 1];
      Widths(tokens[..|tokens| - 1]) + Width(last)
  }

  predicate AllVerbatim(printed: seq<Printed>) {
    forall i :: 0 <= i < |printed| ==> printed[i].Verbatim?
  }

  function LinesOf(printed: seq<Printed>): seq<string>
    requires AllVerbatim(printed)
  {
    seq(|printed|, i requires 0 <= i < |printed| => printed[i].line)
  }

  function BlockOf(quoted: seq<Printed>, line: string, repeats: nat): Token
    requires AllVerbatim(quoted)
  {
    Block(LinesOf(quoted) + [line], repeats)
  }

  /** How many printed lines a token takes. */
  function Extent(token: Token): nat {
    if token.Block? then |token.pattern| else 1
  }

  /** The token a print ends with, when the last block has the last of these widths. */
  function LastToken(printed: seq<Printed>, widths: seq<nat>): (last: Option<Token>)
    requires printed != []
    ensures last.Some? ==> 1 <= Extent(last.value) <= |printed|
    ensures last.Some? && last.value.Block? ==> widths != [] && widths[|widths| - 1] == Extent(last.value)
  {
    var n := |printed| - 1;
    match printed[n]
    case Verbatim(line) => Some(Plain(line))
    case Repeated(line, count) => Some(Run(line, count))
    case BlockEnd(line, repeats) =>
      if widths == [] then None
      else
        var width := widths[|widths| - 1];
        if !(1 <= width <= n + 1) || !AllVerbatim(printed[n + 1 - width..n]) then None
        else Some(BlockOf(printed[n + 1 - width..n], line, repeats))
    case Removed(_) => None
  }

  /** The tokens a print stands for when its blocks have these widths, if they can. */
  function Reading(printed: seq<Printed>, widths: seq<nat>): Option<seq<Token>>
    decreases |printed|
  {
    if printed == [] then (if widths == [] then Some([]) else None)
    else
      match LastToken(printed, widths)
      case None => None
      case Some(last) =>
        Then(Reading(printed[..|printed| - Extent(last)], if last.Block? then widths[..|widths| - 1] else widths), last)
  }

  function Then(tokens: Option<seq<Token>>, last: Token): Option<seq<Token>> {
    if tokens.None? then None else Some(tokens.value + [last])
  }

  predicate BlocksHaveLines(tokens: seq<Token>) {
    forall i :: 0 <= i < |tokens| && tokens[i].Block? ==> tokens[i].pattern != []
  }

  lemma {:induction false} PrintSnoc(tokens: seq<Token>, last: Token)
    ensures PrintAll(tokens + [last]) == PrintAll(tokens) + Print(last)
  {
    if tokens == [] {
      assert tokens + [last] == [last];
      assert [last][1..] == [];
    } else {
      assert (tokens + [last])[1..] == tokens[1..] + [last];
      PrintSnoc(tokens[1..], last);
    }
  }

  lemma WidthsSnoc(tokens: seq<Token>, last: Token)
    ensures Widths(tokens + [last]) == Widths(tokens) + Width(last)
  {
    assert (tokens + [last])[..|tokens|] == tokens;
  }

  lemma PrintOfBlock(quoted: seq<Printed>, line: string, repeats: nat)
    requires AllVerbatim(quoted)
    ensures Print(BlockOf(quoted, line, repeats)) == quoted + [BlockEnd(line, repeats)]
  {
    var pattern := LinesOf(quoted) + [line];
    assert pattern[..|pattern| - 1] == LinesOf(quoted);
    assert Quoted(LinesOf(quoted)) == quoted;
  }

  lemma BlockIsOne(token: Token) returns (quoted: seq<Printed>)
    requires token.Block? && token.pattern != []
    ensures AllVerbatim(quoted) && token == BlockOf(quoted, token.pattern[|token.pattern| - 1], token.repeats)
  {
    var w := |token.pattern|;
    quoted := Quoted(token.pattern[..w - 1]);
    assert LinesOf(quoted) == token.pattern[..w - 1];
    assert token.pattern == token.pattern[..w - 1] + [token.pattern[w - 1]];
  }

  lemma SplitOff<T>(s: seq<T>, k: nat)
    requires k < |s|
    ensures s == s[..k] + (s[k..|s| - 1] + [s[|s| - 1]])
  {
  }

  lemma LastTokenPrints(printed: seq<Printed>, widths: seq<nat>)
    requires printed != [] && LastToken(printed, widths).Some?
    ensures var last := LastToken(printed, widths).value;
            printed == printed[..|printed| - Extent(last)] + Print(last)
  {
    var n, last := |printed| - 1, LastToken(printed, widths).value;
    var k := n + 1 - Extent(last);
    SplitOff(printed, k);
    if last.Block? {
      PrintOfBlock(printed[k..n], printed[n].line, printed[n].repeats);
    } else {
      assert printed[k..n] == [] && Print(last) == [printed[n]];
    }
  }

  lemma LastTokenIs(printed: seq<Printed>, widths: seq<nat>, last: Token)
    requires last.Block? ==> last.pattern != []
    ensures |Print(last)| == Extent(last)
    ensures LastToken(printed + Print(last), widths + Width(last)) == Some(last)
  {
    if last.Block? {
      var quoted := BlockIsOne(last);
      PrintOfBlock(quoted, last.pattern[|last.pattern| - 1], last.repeats);
      hide Print;
      var all := printed + Print(last);
      assert all[|all| - Extent(last)..|all| - 1] == quoted;
    }
  }

  /** Reading one more token off the end of a print. */
  lemma ReadingSnoc(printed: seq<Printed>, widths: seq<nat>, last: Token)
    requires last.Block? ==> last.pattern != []
    ensures Reading(printed + Print(last), widths + Width(last)) == Then(Reading(printed, widths), last)
  {
    hide LastToken;
    var all, ws := printed + Print(last), widths + Width(last);
    LastTokenIs(printed, widths, last);
    assert all[..|all| - Extent(last)] == printed;
    assert (if last.Block? then ws[..|ws| - 1] else ws) == widths;
  }

  /** With its own widths a print is read as what was printed. */
  lemma {:induction false} ReadingInvertsPrint(tokens: seq<Token>)
    requires BlocksHaveLines(tokens)
    ensures Reading(PrintAll(tokens), Widths(tokens)) == Some(tokens)
    decreases |tokens|
  {
    if tokens != [] {
      var before, last := tokens[..|tokens| - 1], tokens[|tokens| - 1];
      assert tokens == before + [last];
      ReadingInvertsPrint(before);
      PrintSnoc(before, last);
      ReadingSnoc(PrintAll(before), Widths(before), last);
    }
  }

  /** Whatever a print is read as prints the same and has the widths it was read with. */
  lemma {:induction false} PrintInvertsReading(printed: seq<Printed>, widths: seq<nat>)
    requires Reading(printed, widths).Some?
    ensures var tokens := Reading(printed, widths).value; PrintAll(tokens) == printed && Widths(tokens) == widths
    decreases |printed|
  {
    if printed != [] {
      hide LastToken, Print;
      var last := LastToken(printed, widths).value;
      var before := printed[..|printed| - Extent(last)];
      LastTokenPrints(printed, widths);
      var inner := if last.Block? then widths[..|widths| - 1] else widths;
      assert widths == inner + Width(last);
      PrintInvertsReading(before, inner);
      PrintSnoc(Reading(before, inner).value, last);
      WidthsSnoc(Reading(before, inner).value, last);
    }
  }

  lemma {:induction false} TokenizedBlocksHaveLines(lines: seq<string>)
    ensures BlocksHaveLines(Tokenize(lines))
    ensures forall i :: 0 <= i < |Widths(Tokenize(lines))| ==> 2 <= Widths(Tokenize(lines))[i] <= MAX_PATTERN
    decreases |lines|
  {
    if lines != [] {
      TokenizeStep(lines);
      var token := NextToken(lines);
      var rest := lines[|Expand(token)|..];
      TokenizedBlocksHaveLines(rest);
      WidthsCons(token, Tokenize(rest));
    }
  }

  lemma {:induction false} WidthsCons(token: Token, tokens: seq<Token>)
    ensures Widths([token] + tokens) == Width(token) + Widths(tokens)
  {
    hide Width;
    if tokens == [] {
      assert [token] + tokens == [] + [token];
      WidthsSnoc([], token);
    } else {
      var before, last := tokens[..|tokens| - 1], tokens[|tokens| - 1];
      WidthsCons(token, before);
      assert [token] + tokens == ([token] + before) + [last];
      WidthsSnoc([token] + before, last);
    }
  }

  /** Some other log is printed just like this one. */
  ghost predicate IsAmbiguous(lines: seq<string>) {
    exists other: seq<string> :: other != lines && PrintAll(Tokenize(other)) == PrintAll(Tokenize(lines))
  }

  /** Read with these widths, the print of the log gives lines that condense to just that reading. */
  predicate Rereads(lines: seq<string>, widths: seq<nat>) {
    var tokens := Reading(PrintAll(Tokenize(lines)), widths);
    tokens.Some? && Tokenize(ExpandAll(tokens.value)) == tokens.value
  }

  predicate OtherWidths(lines: seq<string>, widths: seq<nat>) {
    && widths != Widths(Tokenize(lines)) && |widths| == |Widths(Tokenize(lines))|
    && forall i :: 0 <= i < |widths| ==> 2 <= widths[i] <= MAX_PATTERN
  }

  lemma {:induction false} BlockEndsCounted(tokens: seq<Token>, others: seq<Token>)
    requires BlocksHaveLines(tokens) && BlocksHaveLines(others) && PrintAll(tokens) == PrintAll(others)
    ensures |Widths(tokens)| == |Widths(others)|
  {
    BlockEndsAre(tokens);
    BlockEndsAre(others);
  }

  function BlockEnds(printed: seq<Printed>): nat {
    if printed == [] then 0
    else BlockEnds(printed[..|printed| - 1]) + (if printed[|printed| - 1].BlockEnd? then 1 else 0)
  }

  lemma {:induction false} NoBlockEnds(printed: seq<Printed>, quoted: seq<Printed>)
    requires AllVerbatim(quoted)
    ensures BlockEnds(printed + quoted) == BlockEnds(printed)
    decreases |quoted|
  {
    if quoted == [] {
      assert printed + quoted == printed;
    } else {
      NoBlockEnds(printed, quoted[..|quoted| - 1]);
      assert (printed + quoted)[..|printed + quoted| - 1] == printed + quoted[..|quoted| - 1];
    }
  }

  lemma PrintShape(token: Token) returns (quoted: seq<Printed>, final: Printed)
    requires token.Block? ==> token.pattern != []
    ensures AllVerbatim(quoted) && Print(token) == quoted + [final] && (final.BlockEnd? <==> token.Block?)
  {
    if token.Block? {
      quoted := BlockIsOne(token);
      final := BlockEnd(token.pattern[|token.pattern| - 1], token.repeats);
      PrintOfBlock(quoted, final.line, final.repeats);
    } else {
      quoted, final := [], Print(token)[0];
    }
  }

  lemma BlockEndsSnoc(printed: seq<Printed>, last: Token)
    requires last.Block? ==> last.pattern != []
    ensures BlockEnds(printed + Print(last)) == BlockEnds(printed) + |Width(last)|
  {
    var quoted, final := PrintShape(last);
    hide Print;
    NoBlockEnds(printed, quoted);
    assert printed + Print(last) == (printed + quoted) + [final];
    assert ((printed + quoted) + [final])[..|printed + quoted|] == printed + quoted;
  }

  lemma {:induction false} BlockEndsAre(tokens: seq<Token>)
    requires BlocksHaveLines(tokens)
    ensures BlockEnds(PrintAll(tokens)) == |Widths(tokens)|
  {
    if tokens != [] {
      var before, last := tokens[..|tokens| - 1], tokens[|tokens| - 1];
      assert tokens == before + [last];
      BlockEndsAre(before);
      PrintSnoc(before, last);
      WidthsSnoc(before, last);
      BlockEndsSnoc(PrintAll(before), last);
    }
  }

  /**
   The widths of the blocks are not printed, so lossless holds of the tokens and not always of the printed
   lines. A log shares its print with another exactly when some other choice of block widths, out of
   the finitely many there are, reads the print as tokens that condensing their lines gives back.
   */
  lemma AmbiguousExactlyWhen(lines: seq<string>)
    ensures IsAmbiguous(lines) <==> exists widths :: OtherWidths(lines, widths) && Rereads(lines, widths)
  {
    var tokens := Tokenize(lines);
    ExpandInvertsTokenize(lines);
    TokenizedBlocksHaveLines(lines);
    if other: seq<string> :| other != lines && PrintAll(Tokenize(other)) == PrintAll(tokens) {
      var widths := Widths(Tokenize(other));
      ExpandInvertsTokenize(other);
      TokenizedBlocksHaveLines(other);
      ReadingInvertsPrint(Tokenize(other));
      ReadingInvertsPrint(tokens);
      BlockEndsCounted(tokens, Tokenize(other));
      assert OtherWidths(lines, widths) && Rereads(lines, widths);
    }
    if widths :| OtherWidths(lines, widths) && Rereads(lines, widths) {
      var read := Reading(PrintAll(tokens), widths).value;
      PrintInvertsReading(PrintAll(tokens), widths);
      assert Tokenize(ExpandAll(read)) == read && read != tokens;
      assert ExpandAll(read) != lines && PrintAll(Tokenize(ExpandAll(read))) == PrintAll(tokens);
    }
  }

  /** In particular a log without a block is the only one with its print. */
  lemma BlockFreeIsUnambiguous(lines: seq<string>)
    requires forall token :: token in Tokenize(lines) ==> !token.Block?
    ensures !IsAmbiguous(lines)
  {
    AmbiguousExactlyWhen(lines);
    NoWidths(Tokenize(lines));
  }

  lemma {:induction false} NoWidths(tokens: seq<Token>)
    requires forall token :: token in tokens ==> !token.Block?
    ensures Widths(tokens) == []
  {
    if tokens != [] {
      assert tokens[|tokens| - 1] in tokens;
      NoWidths(tokens[..|tokens| - 1]);
    }
  }

  /** An input for it, for any three different lines: these two logs differ and are printed alike. */
  lemma PrintedFormIsAmbiguous(a: string, b: string, c: string)
    requires a != b && b != c && a != c
    ensures [a, b, c, b, c] != [a, b, c, a, b, c]
    ensures PrintAll(Tokenize([a, b, c, b, c])) == PrintAll(Tokenize([a, b, c, a, b, c])) ==
            [Verbatim(a), Verbatim(b), BlockEnd(c, 2)]
    ensures IsAmbiguous([a, b, c, b, c])
  {
    hide Tokenize, PrintAll;
    FirstLog([a, b, c, b, c], a, b, c);
    SecondLog([a, b, c, a, b, c], a, b, c);
    assert |[a, b, c, b, c]| != |[a, b, c, a, b, c]|;
  }

  lemma FirstLog(lines: seq<string>, a: string, b: string, c: string)
    requires a != b && b != c && a != c && lines == [a, b, c, b, c]
    ensures PrintAll(Tokenize(lines)) == [Verbatim(a), Verbatim(b), BlockEnd(c, 2)]
  {
    hide Copies, FirstPattern;
    var pattern := [b, c];
    var rest := lines[1..];
    NotRepeated(lines, 1, 0);
    NotRepeated(lines, 2, 0);
    NotRepeated(lines, 3, 0);
    NotRepeated(lines, 4, 0);
    NotRepeated(lines, 5, 0);
    assert NextToken(lines) == Plain(a);
    TokenIsPrefix(lines);
    assert rest == pattern + pattern && rest[..2] == pattern;
    TwoCopies(pattern);
    NotRepeated(rest, 1, 0);
    assert NextToken(rest) == Block(pattern, 2);
    OneToken(rest, Block(pattern, 2));
    assert Tokenize(lines) == [Plain(a), Block(pattern, 2)];
    PrintPair(Plain(a), Block(pattern, 2));
  }

  lemma PrintPair(first: Token, second: Token)
    ensures PrintAll([first, second]) == Print(first) + Print(second)
  {
    assert [first, second] == [first] + [second] && [second] == [second] + [];
    ConsToken(first, [second]);
    ConsToken(second, []);
  }

  lemma SecondLog(lines: seq<string>, a: string, b: string, c: string)
    requires a != b && b != c && a != c && lines == [a, b, c, a, b, c]
    ensures PrintAll(Tokenize(lines)) == [Verbatim(a), Verbatim(b), BlockEnd(c, 2)]
  {
    hide Copies, FirstPattern;
    var pattern := [a, b, c];
    NotRepeated(lines, 1, 0);
    NotRepeated(lines, 2, 0);
    assert lines == pattern + pattern && lines[..3] == pattern;
    TwoCopies(pattern);
    assert NextToken(lines) == Block(pattern, 2);
    OneToken(lines, Block(pattern, 2));
    assert [Block(pattern, 2)][1..] == [];
  }
}
