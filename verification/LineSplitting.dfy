/**
 Line numbering in `local_operator/context_files.py`: Python's `str.splitlines`, and the head of a
 file cut at a newline, whose line numbers have to agree with a reader of the whole file.
 */
module LineSplitting {
  import opened Utf8
  import opened Utf8Replacing

  const HEAD_BYTES: nat := 8 * 1024

  predicate IsSeparator(c: char) {
    '\n' <= c <= '\r' || '\U{1C}' <= c <= '\U{1E}' || c == '\U{85}' || c == '\U{2028}' || c == '\U{2029}'
  }

  /** LF, VT, FF, CR, FS, GS, RS, NEL, and the line and paragraph separators. */
  lemma SeparatorsAre(c: char)
    ensures IsSeparator(c) <==> c as int in {10, 11, 12, 13, 28, 29, 30, 0x85, 0x2028, 0x2029}
  {
  }

  /** Reading from left to right: the finished lines, the unfinished one, and whether a CR came last. */
  datatype Scan = Scan(done: seq<string>, part: string, cr: bool)

  /** CR LF is one separator. */
  function Feed(s: Scan, c: char): (t: Scan)
    ensures t.cr ==> t.part == ""
  {
    if !IsSeparator(c) then Scan(s.done, s.part + [c], false)
    else if c == '\n' && s.cr then Scan(s.done, "", false)
    else Scan(s.done + [s.part], "", c == '\r')
  }

  function ScanOf(text: string): (s: Scan)
    ensures s.cr ==> s.part == ""
  {
    if text == "" then Scan([], "", false) else Feed(ScanOf(text[..|text| - 1]), text[|text| - 1])
  }

  function Lines(s: Scan): seq<string> {
    if s.part == "" then s.done else s.done + [s.part]
  }

  /** `str.splitlines`. */
  function SplitLines(text: string): seq<string> {
    Lines(ScanOf(text))
  }

  lemma ScanStep(text: string, k: nat)
    requires k < |text|
    ensures ScanOf(text[..k + 1]) == Feed(ScanOf(text[..k]), text[k])
  {
    assert text[..k + 1][..k] == text[..k];
  }

  /** The unfinished line is empty exactly at the start and after a separator; a CR is noted only there. */
  lemma {:induction false} PartAt(text: string, k: nat)
    requires k <= |text|
    ensures ScanOf(text[..k]).part == "" <==> k == 0 || IsSeparator(text[k - 1])
    ensures ScanOf(text[..k]).cr ==> k > 0 && text[k - 1] == '\r'
  {
  }

  /** `line` is, or will become, the line at its place: it starts with `start`. */
  predicate Carries(s: Scan, at: nat, start: string) {
    at <= |s.done| && start <= (if at < |s.done| then s.done[at] else s.part)
  }

  /** Reading on keeps the finished lines, and the unfinished one only grows. */
  predicate Grown(a: Scan, b: Scan) {
    a.done <= b.done && |Lines(a)| <= |Lines(b)| && (a.part != "" ==> Carries(b, |a.done|, a.part))
  }

  lemma FeedGrows(a: Scan, b: Scan, c: char)
    requires Grown(a, b) && (b.cr ==> b.part == "")
    ensures Grown(a, Feed(b, c))
  {
  }

  lemma {:induction false} ScanGrows(text: string, k: nat, m: nat)
    requires k <= m <= |text|
    ensures Grown(ScanOf(text[..k]), ScanOf(text[..m]))
  {
    hide Feed, ScanOf;
    if k < m {
      ScanGrows(text, k, m - 1);
      ScanStep(text, m - 1);
      FeedGrows(ScanOf(text[..k]), ScanOf(text[..m - 1]), text[m - 1]);
    }
  }

  predicate AtLineEdge(text: string, k: nat)
    requires k <= |text|
  {
    k == 0 || k == |text| || IsSeparator(text[k - 1]) || IsSeparator(text[k])
  }

  /**
   The lines of a head are the first lines of the whole text exactly when the cut touches a line
   separator or an end of the text.
   */
  lemma HeadLinesArePrefix(text: string, k: nat)
    requires k <= |text|
    ensures SplitLines(text[..k]) <= SplitLines(text) <==> AtLineEdge(text, k)
  {
    var head := ScanOf(text[..k]);
    assert text[..|text|] == text;
    PartAt(text, k);
    if k == |text| || head.part == "" {
      ScanGrows(text, k, |text|);
    } else {
      ScanStep(text, k);
      ScanGrows(text, k + 1, |text|);
      var whole := ScanOf(text);
      if !IsSeparator(text[k]) {
        assert Carries(whole, |head.done|, head.part + [text[k]]);
        assert SplitLines(text[..k])[|head.done|] == head.part;
      }
    }
  }

  lemma ScanSnoc(text: string, c: char)
    ensures ScanOf(text + [c]) == Feed(ScanOf(text), c)
  {
    assert (text + [c])[..|text|] == text;
  }

  lemma ScanOfNothing()
    ensures ScanOf("") == Scan([], "", false)
  {
  }

  /** After a separator reading starts afresh, unless what follows completes a CR LF. */
  lemma {:induction false} ScanStartsAfresh(p: string, rest: string)
    requires p != "" && ScanOf(p).part == "" && !(ScanOf(p).cr && rest != "" && rest[0] == '\n')
    ensures var s, t, u := ScanOf(p + rest), ScanOf(p), ScanOf(rest);
            s.done == t.done + u.done && s.part == u.part && (rest != "" ==> s.cr == u.cr)
  {
    hide ScanOf;
    ScanOfNothing();
    if rest == "" {
      assert p + rest == p;
    } else {
      var init, c := rest[..|rest| - 1], rest[|rest| - 1];
      assert rest == init + [c] && p + rest == (p + init) + [c];
      assert init != "" ==> init[0] == rest[0];
      assert init == "" ==> p + init == p && rest[0] == c;
      ScanStartsAfresh(p, init);
      ScanSnoc(p + init, c);
      ScanSnoc(init, c);
    }
  }

  lemma {:induction false} ScanOfLine(line: string)
    requires forall i :: 0 <= i < |line| ==> !IsSeparator(line[i])
    ensures ScanOf(line) == Scan([], line, false)
  {
    hide ScanOf;
    ScanOfNothing();
    if line != "" {
      var init, c := line[..|line| - 1], line[|line| - 1];
      assert line == init + [c];
      ScanOfLine(init);
      ScanSnoc(init, c);
    }
  }

  lemma ScanOfEnded(line: string, separator: string)
    requires forall i :: 0 <= i < |line| ==> !IsSeparator(line[i])
    requires separator == "\r\n" || (|separator| == 1 && IsSeparator(separator[0]))
    ensures ScanOf(line + separator) == Scan([line], "", separator == "\r")
  {
    hide ScanOf;
    ScanOfLine(line);
    ScanSnoc(line, separator[0]);
    assert |separator| == 1 ==> separator == [separator[0]];
    if separator == "\r\n" {
      ScanSnoc(line + ['\r'], '\n');
      assert line + separator == (line + ['\r']) + ['\n'];
    }
  }

  lemma LinesAfter(p: string, rest: string)
    requires p != "" && ScanOf(p).part == "" && !(ScanOf(p).cr && rest != "" && rest[0] == '\n')
    ensures SplitLines(p + rest) == ScanOf(p).done + SplitLines(rest)
  {
    ScanStartsAfresh(p, rest);
    hide ScanOf;
    var done, part := ScanOf(rest).done, ScanOf(rest).part;
    assert ScanOf(p).done + (done + [part]) == (ScanOf(p).done + done) + [part];
  }

  /** What `splitlines` makes of a text without separators: one line, or none. */
  lemma LineAlone(line: string)
    requires forall i :: 0 <= i < |line| ==> !IsSeparator(line[i])
    ensures SplitLines(line) == if line == "" then [] else [line]
  {
    ScanOfLine(line);
  }

  /** And of any other: what precedes its first separator, then the lines of the rest, CR LF being one separator. */
  lemma FirstLineThenRest(line: string, separator: string, rest: string)
    requires forall i :: 0 <= i < |line| ==> !IsSeparator(line[i])
    requires separator == "\r\n" || (|separator| == 1 && IsSeparator(separator[0]))
    requires separator == "\r" && rest != "" ==> rest[0] != '\n'
    ensures SplitLines(line + separator + rest) == [line] + SplitLines(rest)
  {
    ScanOfEnded(line, separator);
    hide ScanOf, SplitLines;
    LinesAfter(line + separator, rest);
  }

  /** The number of the line a character is on, as a reader counts. */
  function LineOf(text: string, p: nat): nat
    requires p < |text|
  {
    |SplitLines(text[..p + 1])|
  }

  /** A newline leaves no line unfinished, and the next character starts one more. */
  lemma NewlineThenMore(s: Scan, c: char)
    requires s.cr ==> s.part == ""
    ensures var ended := Feed(s, '\n'); |Lines(Feed(ended, c))| > |Lines(s)|
  {
  }

  /** What lies after a newline is numbered beyond every line that ends at or before it. */
  lemma LinesAfterNewline(text: string, k: nat, p: nat)
    requires k < p < |text| && text[k] == '\n'
    ensures LineOf(text, p) > |SplitLines(text[..k])|
  {
    var (before, after) := (ScanOf(text[..k]), ScanOf(text[..k + 2]));
    assert |Lines(after)| > |Lines(before)| by {
      ScanStep(text, k);
      ScanStep(text, k + 1);
      NewlineThenMore(before, text[k + 1]);
    }
    ScanGrows(text, k + 2, p + 1);
  }

  /**
   A cut that ends in another character than the text has there: its lines are never the first ones.
   The one text that could hide the difference goes on with the LF of a CR LF.
   */
  lemma WrongCharacterShows(text: string, k: nat, c: char)
    requires k < |text| && text[k] != c && text[k] != '\n' && !IsSeparator(c)
    ensures !(SplitLines(text[..k] + [c]) <= SplitLines(text))
  {
    var before := ScanOf(text[..k]);
    var at := |before.done|;
    assert (text[..k] + [c])[..k] == text[..k];
    assert SplitLines(text[..k] + [c])[at] == before.part + [c];
    ScanStep(text, k);
    ScanGrows(text, k + 1, |text|);
    assert text[..|text|] == text;
    if IsSeparator(text[k]) {
      assert ScanOf(text).done[at] == before.part;
    } else {
      assert Carries(ScanOf(text), at, before.part + [text[k]]);
      assert SplitLines(text)[at][|before.part|] == text[k];
    }
  }

  /** A text cut at a newline: the lines before it stay the first ones, and all that follows is numbered beyond them. */
  lemma CutAtNewlineNumbers(head: string, rest: string)
    ensures var whole := head + "\n" + rest;
            && SplitLines(head) <= SplitLines(whole)
            && forall p :: |head| < p < |whole| ==> LineOf(whole, p) > |SplitLines(head)|
  {
    var whole, k := head + "\n" + rest, |head|;
    assert whole[..k] == head;
    HeadLinesArePrefix(whole, k);
    forall p | k < p < |whole|
      ensures LineOf(whole, p) > |SplitLines(head)|
    {
      LinesAfterNewline(whole, k, p);
    }
  }

  /** A start of a text, with a replacement for the character it was torn in, if any. */
  lemma TornTextShows(whole: string, k: nat, torn: bool)
    requires k <= |whole| && (torn ==> k < |whole| && whole[k] != '\n')
    ensures var head := whole[..k] + (if torn then [REPLACEMENT] else []);
            SplitLines(head) <= SplitLines(whole) <==> head <= whole && AtLineEdge(whole, |head|)
  {
    hide SplitLines, AtLineEdge;
    var head := whole[..k] + (if torn then [REPLACEMENT] else []);
    if head <= whole {
      assert whole[..|head|] == head;
      HeadLinesArePrefix(whole, |head|);
    } else {
      assert torn && whole[k] != REPLACEMENT;
      WrongCharacterShows(whole, k, REPLACEMENT);
    }
  }

  // ----- the head of a file -----

  /** `bytes.rfind(b"\n")`. */
  function LastNewline(bytes: seq<Byte>): (at: int)
    ensures -1 <= at < |bytes|
    ensures at >= 0 ==> bytes[at] == NEWLINE
    ensures forall i :: at < i < |bytes| ==> bytes[i] != NEWLINE
  {
    if bytes == [] then -1
    else if bytes[|bytes| - 1] == NEWLINE then |bytes| - 1
    else LastNewline(bytes[..|bytes| - 1])
  }

  datatype Head = Head(text: string, lines: nat, more: bool)

  /** The bytes that `_read_head` keeps. */
  function Kept(bytes: seq<Byte>): seq<Byte> {
    if |bytes| <= HEAD_BYTES then bytes
    else
      var probe := bytes[..HEAD_BYTES];
      if LastNewline(probe) > 0 then probe[..LastNewline(probe)] else probe
  }

  /** `_read_head`. */
  function ReadHead(bytes: seq<Byte>): Head {
    var text := DecodeReplacing(Kept(bytes));
    Head(text, |SplitLines(text)|, |bytes| > HEAD_BYTES)
  }

  predicate CutAtNewline(bytes: seq<Byte>) {
    |bytes| > HEAD_BYTES && LastNewline(bytes[..HEAD_BYTES]) > 0
  }

  /** Such a head is cut at the last newline within reach. */
  lemma HeadEndsAtTheLastNewline(bytes: seq<Byte>)
    requires CutAtNewline(bytes)
    ensures exists cut: nat ::
              && 0 < cut < 8192 && bytes[cut] == NEWLINE && NEWLINE !in bytes[cut + 1..8192]
              && ReadHead(bytes).text == DecodeReplacing(bytes[..cut])
  {
    var probe := bytes[..HEAD_BYTES];
    var cut := LastNewline(probe);
    assert probe[..cut] == bytes[..cut];
    assert forall i :: cut < i < HEAD_BYTES ==> probe[i] == bytes[i];
  }

  /**
   When the head was cut at a newline its lines are the first lines of the whole file, and every
   character past the cut is on a line numbered above the head's count, so a range offered from
   there on misses none of it.
   */
  lemma HeadNumberingMatchesReader(bytes: seq<Byte>)
    requires CutAtNewline(bytes)
    ensures var whole, head := DecodeReplacing(bytes), ReadHead(bytes);
            && head.more && head.text <= whole && |head.text| < |whole| && whole[|head.text|] == '\n'
            && SplitLines(head.text) <= SplitLines(whole)
            && forall p :: |head.text| < p < |whole| ==> LineOf(whole, p) > head.lines
  {
    var cut := LastNewline(bytes[..HEAD_BYTES]);
    var whole, head := DecodeReplacing(bytes), ReadHead(bytes);
    assert Kept(bytes) == bytes[..cut];
    hide Kept, LastNewline, SplitLines, DecodeReplacing, LineOf;
    assert bytes[cut] == NEWLINE;
    assert bytes == bytes[..cut] + [NEWLINE] + bytes[cut + 1..];
    DecodeAtNewline(bytes[..cut], bytes[cut + 1..]);
    CutAtNewlineNumbers(head.text, DecodeReplacing(bytes[cut + 1..]));
  }

  /**
   The lines of a head are the first lines of its file exactly when the file is short, the head was cut
   at a newline, or the cut happens to leave a start of the text and to touch a line's edge.
   */
  lemma HeadIsFirstLinesExactlyWhen(bytes: seq<Byte>)
    ensures var whole, head := DecodeReplacing(bytes), ReadHead(bytes).text;
            SplitLines(head) <= SplitLines(whole) <==>
            |bytes| <= HEAD_BYTES || CutAtNewline(bytes) || (head <= whole && AtLineEdge(whole, |head|))
    ensures var head := ReadHead(bytes);
            && head.lines == |SplitLines(head.text)| && (head.more <==> |bytes| > 8192)
            && (!head.more ==> head.text == DecodeReplacing(bytes))
            && (head.more && !CutAtNewline(bytes) ==> head.text == DecodeReplacing(bytes[..8192]))
  {
    if CutAtNewline(bytes) {
      HeadNumberingMatchesReader(bytes);
    } else if |bytes| > HEAD_BYTES {
      assert Kept(bytes) == bytes[..HEAD_BYTES];
      hide Kept, DecodeReplacing, SplitLines, AtLineEdge, CutAtNewline;
      DecodeCut(bytes, HEAD_BYTES);
      TornTextShows(DecodeReplacing(bytes), WholeUnits(bytes, HEAD_BYTES), IsTorn(bytes, HEAD_BYTES));
    }
  }

  /**
   Cut anywhere else, inside a line, the head counts a line it shows only part of: the next
   character is on a line the count already covers.
   */
  lemma CutInsideALine(text: string, k: nat)
    requires k < |text| && !AtLineEdge(text, k)
    ensures !(SplitLines(text[..k]) <= SplitLines(text))
    ensures LineOf(text, k) == |SplitLines(text[..k])|
  {
    HeadLinesArePrefix(text, k);
    PartAt(text, k);
    ScanStep(text, k);
  }

  predicate AllLetters(bytes: seq<Byte>) {
    forall i :: 0 <= i < |bytes| ==> bytes[i] == 'a' as int
  }

  /** An input for it: a file of one long line is counted as one line although the rest of that line is unread. */
  lemma OneLongLineIsCut(bytes: seq<Byte>)
    requires |bytes| > HEAD_BYTES && AllLetters(bytes)
    ensures var whole, head := DecodeReplacing(bytes), ReadHead(bytes);
            && !(SplitLines(head.text) <= SplitLines(whole))
            && |head.text| < |whole| && LineOf(whole, |head.text|) == head.lines
  {
    hide ReadHead, SplitLines, LineOf, DecodeReplacing;
    var whole, probe := DecodeReplacing(bytes), bytes[..HEAD_BYTES];
    HeadWithoutNewline(bytes);
    DecodeLetters(bytes);
    DecodeLetters(probe);
    assert whole[..HEAD_BYTES] == DecodeReplacing(probe);
    CutInsideALine(whole, HEAD_BYTES);
  }

  lemma HeadWithoutNewline(bytes: seq<Byte>)
    requires |bytes| > HEAD_BYTES && AllLetters(bytes)
    ensures var head, text := ReadHead(bytes), DecodeReplacing(bytes[..HEAD_BYTES]);
            head.text == text && head.lines == |SplitLines(text)|
  {
    WithoutNewline(bytes[..HEAD_BYTES]);
  }

  lemma {:induction false} WithoutNewline(bytes: seq<Byte>)
    requires AllLetters(bytes)
    ensures LastNewline(bytes) == -1
  {
    if bytes != [] {
      WithoutNewline(bytes[..|bytes| - 1]);
    }
  }

  lemma {:induction false} DecodeLetters(bytes: seq<Byte>)
    requires AllLetters(bytes)
    ensures var text := DecodeReplacing(bytes); |text| == |bytes| && forall i :: 0 <= i < |text| ==> text[i] == 'a'
    decreases |bytes|
  {
    if bytes != [] {
      assert Width(bytes) == 1 && UnitOf(bytes) == 'a';
      DecodeLetters(bytes[1..]);
    }
  }
}
