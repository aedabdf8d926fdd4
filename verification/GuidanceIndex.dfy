/**
 The section index of `local_operator/context_files.py`: a scan for markdown headings that tracks code
 fences, the line span each heading owns, and the rows offered for what lies past the head.
 */
module GuidanceIndex {
  import opened Prelude
  import opened PyStrings

  const MAX_LEVEL: nat := 3

  // ----- lines -----

  function Hashes(line: string): (n: nat)
    ensures n <= |line|
    ensures n > 0 <==> line != "" && line[0] == '#'
  {
    if line != "" && line[0] == '#' then 1 + Hashes(line[1..]) else 0
  }

  /** The fence marker a line opens or closes with. */
  function FenceMarker(line: string): Option<string> {
    var stripped := LeftStrip(line);
    if "```" <= stripped || "~~~" <= stripped then Some(stripped[..3]) else None
  }

  datatype Heading = Heading(level: nat, title: string)

  function HeadingOf(line: string): Option<Heading> {
    var level := Hashes(line);
    if level == 0 || level > MAX_LEVEL || !(" " <= line[level..]) || Strip(line[level..]) == "" then None
    else Some(Heading(level, Strip(line[level..])))
  }

  // ----- the scan -----

  datatype Section = Section(level: nat, title: string, start: nat, end: nat)

  datatype Pass = Pass(found: seq<Section>, fence: Option<string>)

  /** One line of a pass. */
  function Visit(pass: Pass, line: string, number: nat, trackFences: bool): Pass {
    var marker := FenceMarker(line);
    if trackFences && marker.Some? then
      if pass.fence.None? then pass.(fence := marker)
      else if pass.fence == marker then pass.(fence := None)
      else pass
    else if trackFences && pass.fence.Some? then pass
    else
      match HeadingOf(line)
      case None => pass
      case Some(h) => pass.(found := pass.found + [Section(h.level, h.title, number, number)])
  }

  /** The pass over the first `n` lines. */
  function PassOver(lines: seq<string>, n: nat, trackFences: bool): Pass
    requires n <= |lines|
  {
    if n == 0 then Pass([], None) else Visit(PassOver(lines, n - 1, trackFences), lines[n - 1], n, trackFences)
  }

  /** The headings kept: those of the fence-tracking pass, or all of them when it ends inside a fence. */
  function Kept(lines: seq<string>): seq<Section> {
    var tracked := PassOver(lines, |lines|, true);
    var blind := PassOver(lines, |lines|, false).found;
    if tracked.fence.Some? && |blind| > |tracked.found| then blind else tracked.found
  }

  /** The line before the next heading of the same or a higher level. */
  function EndOf(found: seq<Section>, level: nat, from: nat, total: nat): int
    requires from <= |found|
    decreases |found| - from
  {
    if from == |found| then total
    else if found[from].level <= level then found[from].start - 1
    else EndOf(found, level, from + 1, total)
  }

  function Spanned(found: seq<Section>, total: nat): (sections: seq<Section>)
    requires forall i :: 0 <= i < |found| ==> found[i].start >= 1
    ensures |sections| == |found|
  {
    seq(|found|, i requires 0 <= i < |found| =>
      EndOfNonNegative(found, found[i].level, i + 1, total);
      found[i].(end := EndOf(found, found[i].level, i + 1, total)))
  }

  lemma {:induction false} EndOfNonNegative(found: seq<Section>, level: nat, from: nat, total: nat)
    requires from <= |found| && forall i :: 0 <= i < |found| ==> found[i].start >= 1
    ensures EndOf(found, level, from, total) >= 0
    decreases |found| - from
  {
    if from < |found| && found[from].level > level {
      EndOfNonNegative(found, level, from + 1, total);
    }
  }

  /** Starts go up from line 1 and stay within `n`; levels are 1 to 3. */
  ghost predicate Ordered(found: seq<Section>, n: nat) {
    && (forall i :: 0 <= i < |found| ==> 1 <= found[i].start <= n && 1 <= found[i].level <= MAX_LEVEL)
    && (forall i, j :: 0 <= i < j < |found| ==> found[i].start < found[j].start)
  }

  lemma {:induction false} PassIsOrdered(lines: seq<string>, n: nat, trackFences: bool)
    requires n <= |lines|
    ensures Ordered(PassOver(lines, n, trackFences).found, n)
  {
    if n > 0 {
      PassIsOrdered(lines, n - 1, trackFences);
    }
  }

  lemma KeptIsOrdered(lines: seq<string>)
    ensures Ordered(Kept(lines), |lines|)
  {
    PassIsOrdered(lines, |lines|, true);
    PassIsOrdered(lines, |lines|, false);
  }

  /** `_scan_sections` on the lines of the file. */
  function Sections(lines: seq<string>): seq<Section> {
    KeptIsOrdered(lines);
    Spanned(Kept(lines), |lines|)
  }

  /** The inner `collect`: one pass, toggling the fence. */
  method Collect(lines: seq<string>, trackFences: bool) returns (found: seq<Section>, fence: Option<string>)
    ensures Pass(found, fence) == PassOver(lines, |lines|, trackFences)
  {
    found, fence := [], None;
    for i := 0 to |lines|
      invariant Pass(found, fence) == PassOver(lines, i, trackFences)
    {
      var line, number := lines[i], i + 1;
      var stripped := LeftStrip(line);
      if trackFences && ("```" <= stripped || "~~~" <= stripped) {
        var marker := stripped[..3];
        if fence.None? {
          fence := Some(marker);
        } else if fence.value == marker {
          fence := None;
        }
        continue;
      }
      if (trackFences && fence.Some?) || !("#" <= line) {
        continue;
      }
      var level := Hashes(line);
      if level > MAX_LEVEL || !(" " <= line[level..]) {
        continue;
      }
      var title := Strip(line[level..]);
      if title == "" {
        continue;
      }
      found := found + [Section(level, title, number, number)];
    }
  }

  method ScanSections(lines: seq<string>) returns (sections: seq<Section>, total: nat, unterminated: bool)
    ensures sections == Sections(lines) && total == |lines|
    ensures unterminated <==> PassOver(lines, |lines|, true).fence.Some?
  {
    total := |lines|;
    var fence;
    sections, fence := Collect(lines, true);
    unterminated := fence.Some?;
    if unterminated {
      var recovered, _ := Collect(lines, false);
      if |recovered| > |sections| {
        sections := recovered;
      }
    }
    KeptIsOrdered(lines);
    sections := AssignEnds(sections, total);
  }

  /** The second loop of `_scan_sections`: each section's end, found by looking ahead. */
  method AssignEnds(found: seq<Section>, total: nat) returns (sections: seq<Section>)
    requires forall i :: 0 <= i < |found| ==> found[i].start >= 1
    ensures sections == Spanned(found, total)
  {
    sections := found;
    for i := 0 to |found|
      invariant |sections| == |found|
      invariant forall k :: 0 <= k < i ==> sections[k] == Spanned(found, total)[k]
      invariant forall k :: i <= k < |found| ==> sections[k] == found[k]
    {
      var end := LookAhead(sections, i, total);
      EndOfSameStarts(found, sections, sections[i].level, i + 1, total);
      EndOfNonNegative(found, found[i].level, i + 1, total);
      sections := sections[i := sections[i].(end := end)];
    }
  }

  method LookAhead(sections: seq<Section>, i: nat, total: nat) returns (end: int)
    requires i < |sections|
    ensures end == EndOf(sections, sections[i].level, i + 1, total)
  {
    end := total;
    for j := i + 1 to |sections|
      invariant end == total
      invariant EndOf(sections, sections[i].level, i + 1, total) == EndOf(sections, sections[i].level, j, total)
    {
      if sections[j].level <= sections[i].level {
        end := sections[j].start - 1;
        break;
      }
    }
  }

  lemma {:induction false} EndOfSameStarts(a: seq<Section>, b: seq<Section>, level: nat, from: nat, total: nat)
    requires from <= |a| == |b| && forall k :: from <= k < |a| ==> a[k] == b[k]
    ensures EndOf(a, level, from, total) == EndOf(b, level, from, total)
    decreases |a| - from
  {
    if from < |a| {
      EndOfSameStarts(a, b, level, from + 1, total);
    }
  }

  // ----- what the spans are -----

  lemma {:induction false} EndOfIs(found: seq<Section>, level: nat, from: nat, total: nat)
    requires from <= |found| && Ordered(found, total)
    ensures var end := EndOf(found, level, from, total);
            && (forall j :: from <= j < |found| && found[j].level <= level ==> end < found[j].start)
            && (end == total || exists j :: from <= j < |found| && found[j].level <= level && end == found[j].start - 1)
    decreases |found| - from
  {
    if from < |found| {
      if found[from].level <= level {
        assert found[from].level <= level && EndOf(found, level, from, total) == found[from].start - 1;
      } else {
        EndOfIs(found, level, from + 1, total);
      }
    }
  }

  /** Every section runs to the line before the next heading of its level or above, or to the last line. */
  ghost predicate WellSpanned(sections: seq<Section>, total: nat) {
    && Ordered(sections, total)
    && forall i :: 0 <= i < |sections| ==> SpanOk(sections, i, total)
  }

  ghost predicate SpanOk(sections: seq<Section>, i: nat, total: nat)
    requires i < |sections|
  {
    && sections[i].start <= sections[i].end <= total
    && (forall j :: i < j < |sections| && sections[j].level <= sections[i].level ==>
          sections[i].end < sections[j].start)
    && (sections[i].end == total ||
        exists j :: i < j < |sections| && sections[j].level <= sections[i].level &&
          sections[i].end == sections[j].start - 1)
  }

  lemma SpannedIsOk(found: seq<Section>, i: nat, total: nat)
    requires Ordered(found, total) && i < |found|
    ensures SpanOk(Spanned(found, total), i, total)
  {
    var sections := Spanned(found, total);
    var level := found[i].level;
    EndOfIs(found, level, i + 1, total);
    assert sections[i] == found[i].(end := EndOf(found, level, i + 1, total));
    assert forall j :: 0 <= j < |found| ==> sections[j].level == found[j].level && sections[j].start == found[j].start;
    hide Spanned, EndOf;
    assert found[i].start <= sections[i].end;
    if sections[i].end != total {
      var j :| i + 1 <= j < |found| && found[j].level <= level && sections[i].end == found[j].start - 1;
      assert sections[j].level <= sections[i].level;
    }
  }

  lemma SectionsAreWellSpanned(lines: seq<string>)
    ensures WellSpanned(Sections(lines), |lines|)
  {
    KeptIsOrdered(lines);
    forall i | 0 <= i < |Sections(lines)|
      ensures SpanOk(Sections(lines), i, |lines|)
    {
      SpannedIsOk(Kept(lines), i, |lines|);
    }
  }

  /** Two spans are apart, or the later one lies inside the earlier and is a deeper heading. */
  lemma SpansAreLaminar(sections: seq<Section>, total: nat, i: nat, j: nat)
    requires WellSpanned(sections, total) && i < j < |sections|
    ensures var a, b := sections[i], sections[j];
            && a.start < b.start
            && (a.end < b.start || (b.end <= a.end && b.level > a.level))
  {
    var a, b := sections[i], sections[j];
    assert SpanOk(sections, i, total) && SpanOk(sections, j, total);
    if a.end >= b.start {
      assert b.level > a.level;
      if a.end != total {
        var k :| i < k < |sections| && sections[k].level <= a.level && a.end == sections[k].start - 1;
        assert k > j;
        assert sections[k].level <= b.level;
      }
    }
  }

  lemma {:induction false} TrackedInBlind(lines: seq<string>, n: nat)
    requires n <= |lines|
    ensures forall s :: s in PassOver(lines, n, true).found ==> s in PassOver(lines, n, false).found
  {
    if n > 0 {
      TrackedInBlind(lines, n - 1);
    }
  }

  /** Inside a code block nothing is found until a line with the opening marker closes it. */
  lemma {:induction false} FenceHides(lines: seq<string>, a: nat, b: nat, marker: string)
    requires a <= b <= |lines| && PassOver(lines, a, true).fence == Some(marker)
    requires forall k :: a <= k < b ==> FenceMarker(lines[k]) != Some(marker)
    ensures PassOver(lines, b, true) == PassOver(lines, a, true)
  {
    if a < b {
      FenceHides(lines, a, b - 1, marker);
    }
  }

  /** The tracked pass finds exactly the heading lines outside every code block, each with its line number. */
  lemma {:induction false} FoundExactly(lines: seq<string>, n: nat, number: nat)
    requires 1 <= number <= n <= |lines|
    ensures (exists s :: s in PassOver(lines, n, true).found && s.start == number) <==>
            HeadingOf(lines[number - 1]).Some? && PassOver(lines, number - 1, true).fence.None?
  {
    var line := lines[n - 1];
    var before, after := PassOver(lines, n - 1, true), PassOver(lines, n, true);
    PassIsOrdered(lines, n - 1, true);
    assert FenceMarker(line).Some? ==> HeadingOf(line).None?;
    assert forall s :: s in before.found ==> s.start <= n - 1;
    if number < n {
      FoundExactly(lines, n - 1, number);
      assert forall s :: s in after.found && s.start == number <==> s in before.found && s.start == number;
    } else if HeadingOf(line).Some? && before.fence.None? {
      assert after.found[|after.found| - 1] in after.found;
    }
  }

  /** What one line does to the fence: a marker opens a block, the same marker closes it, nothing else matters. */
  lemma FenceStep(lines: seq<string>, n: nat)
    requires n < |lines|
    ensures var before, after := PassOver(lines, n, true).fence, PassOver(lines, n + 1, true).fence;
            var marker := FenceMarker(lines[n]);
            && (before.None? ==> after == marker)
            && (before.Some? && marker == before ==> after.None?)
            && (before.Some? && marker != before ==> after == before)
  {
  }

  /** A line is a heading exactly when it is one to three hashes, a space, and a title that is not blank. */
  lemma HeadingExactlyWhen(line: string, level: nat, title: string)
    ensures HeadingOf(line) == Some(Heading(level, title)) <==>
            && 1 <= level <= 3 && level < |line| && line[level] == ' '
            && (forall i :: 0 <= i < level ==> line[i] == '#')
            && title != "" && title == Strip(line[level..])
  {
    HashesAre(line);
    if level < |line| && line[level] == ' ' && (forall i :: 0 <= i < level ==> line[i] == '#') {
      assert Hashes(line) == level;
    }
  }

  lemma {:induction false} HashesAre(line: string)
    ensures forall i :: 0 <= i < Hashes(line) ==> line[i] == '#'
    ensures Hashes(line) < |line| ==> line[Hashes(line)] != '#'
  {
    if line != "" && line[0] == '#' {
      HashesAre(line[1..]);
    }
  }

  /** Each section found is the heading on its line. */
  lemma {:induction false} FoundAreHeadings(lines: seq<string>, n: nat, trackFences: bool)
    requires n <= |lines|
    ensures forall s :: s in PassOver(lines, n, trackFences).found ==>
              1 <= s.start <= n && HeadingOf(lines[s.start - 1]) == Some(Heading(s.level, s.title))
  {
    if n > 0 {
      FoundAreHeadings(lines, n - 1, trackFences);
    }
  }

  /** The blind pass finds every heading line. */
  lemma {:induction false} BlindFindsAll(lines: seq<string>, n: nat, number: nat)
    requires 1 <= number <= n <= |lines|
    ensures (exists s :: s in PassOver(lines, n, false).found && s.start == number) <==>
            HeadingOf(lines[number - 1]).Some?
  {
    var before, after := PassOver(lines, n - 1, false), PassOver(lines, n, false);
    PassIsOrdered(lines, n - 1, false);
    assert forall s :: s in before.found ==> s.start <= n - 1;
    if number < n {
      BlindFindsAll(lines, n - 1, number);
      assert forall s :: s in after.found && s.start == number <==> s in before.found && s.start == number;
    } else if HeadingOf(lines[n - 1]).Some? {
      assert after.found[|after.found| - 1] in after.found;
    }
  }

  /** It finds no fewer than the tracked pass, and as many only when it finds the same. */
  lemma {:induction false} BlindFindsMore(lines: seq<string>, n: nat)
    requires n <= |lines|
    ensures var tracked, blind := PassOver(lines, n, true).found, PassOver(lines, n, false).found;
            |tracked| <= |blind| && (|tracked| == |blind| ==> tracked == blind)
  {
    if n > 0 {
      BlindFindsMore(lines, n - 1);
    }
  }

  ghost predicate StartsAt(sections: seq<Section>, number: nat) {
    exists s :: s in sections && s.start == number
  }

  predicate IsHeadingOfItsLine(lines: seq<string>, s: Section) {
    1 <= s.start <= |lines| && HeadingOf(lines[s.start - 1]) == Some(Heading(s.level, s.title))
  }

  lemma KeptExactly(lines: seq<string>, number: nat)
    requires 1 <= number <= |lines|
    ensures StartsAt(Kept(lines), number) <==>
            HeadingOf(lines[number - 1]).Some? &&
            (PassOver(lines, |lines|, true).fence.Some? || PassOver(lines, number - 1, true).fence.None?)
    ensures forall s :: s in Kept(lines) ==> IsHeadingOfItsLine(lines, s)
  {
    var n := |lines|;
    FoundExactly(lines, n, number);
    BlindFindsAll(lines, n, number);
    BlindFindsMore(lines, n);
    FoundAreHeadings(lines, n, true);
    FoundAreHeadings(lines, n, false);
    hide PassOver, HeadingOf;
  }

  /** Spanning changes nothing but the ends. */
  lemma SpannedAre(found: seq<Section>, total: nat, number: nat)
    requires forall i :: 0 <= i < |found| ==> found[i].start >= 1
    ensures StartsAt(Spanned(found, total), number) <==> StartsAt(found, number)
    ensures forall s :: s in Spanned(found, total) ==> exists k :: k in found && s == k.(end := s.end)
  {
    var sections := Spanned(found, total);
    assert forall i :: 0 <= i < |found| ==> sections[i] == found[i].(end := sections[i].end);
    forall s | s in found && s.start == number
      ensures StartsAt(sections, number)
    {
      var i :| 0 <= i < |found| && found[i] == s;
      assert sections[i] in sections;
    }
    forall s | s in sections
      ensures exists k :: k in found && s == k.(end := s.end)
    {
      var i :| 0 <= i < |found| && sections[i] == s;
      assert found[i] in found;
    }
  }

  /**
   Which lines start a section, of the file as a whole: those that are headings outside every code block, or,
   when the last block is never closed, all that are headings; and each section has its line's level and title.
   */
  lemma SectionsExactly(lines: seq<string>, number: nat)
    requires 1 <= number <= |lines|
    ensures StartsAt(Sections(lines), number) <==>
            HeadingOf(lines[number - 1]).Some? &&
            (PassOver(lines, |lines|, true).fence.Some? || PassOver(lines, number - 1, true).fence.None?)
    ensures forall s :: s in Sections(lines) ==> IsHeadingOfItsLine(lines, s)
  {
    KeptIsOrdered(lines);
    KeptExactly(lines, number);
    SpannedAre(Kept(lines), |lines|, number);
    hide PassOver, HeadingOf, Kept, Spanned;
    forall s | s in Sections(lines)
      ensures IsHeadingOfItsLine(lines, s)
    {
      var k :| k in Kept(lines) && s == k.(end := s.end);
      assert IsHeadingOfItsLine(lines, k);
    }
  }

  /** Rescanning without fences only ever adds headings. */
  lemma RescanOnlyAdds(lines: seq<string>)
    ensures forall s :: s in PassOver(lines, |lines|, true).found ==> s in Kept(lines)
  {
    TrackedInBlind(lines, |lines|);
  }

  // ----- the index -----

  datatype Row = Row(indent: nat, start: nat, end: nat, title: string)

  /** A range of lines; without an end it runs to the end of the file. */
  datatype Range = Range(first: nat, last: Option<nat>)

  datatype Index =
    | BarePointer(known: Option<nat>, rest: Range)
    | Rows(rows: seq<Row>, total: nat, tail: Option<Range>, truncated: bool, unterminated: bool)

  function TopHeadings(sections: seq<Section>): nat {
    if sections == [] then 0
    else TopHeadings(sections[..|sections| - 1]) + (if sections[|sections| - 1].level == 1 then 1 else 0)
  }

  /** A lone H1 is the title of the file and is not listed. */
  function Floor(sections: seq<Section>): nat {
    if TopHeadings(sections) < 2 then 2 else 1
  }

  function Remaining(sections: seq<Section>, headLines: nat, floor: nat): seq<Section> {
    if sections == [] then []
    else
      var last := sections[|sections| - 1];
      Remaining(sections[..|sections| - 1], headLines, floor) +
      (if last.end > headLines && last.level >= floor then [last] else [])
  }

  lemma {:induction false} RemainingIs(sections: seq<Section>, headLines: nat, floor: nat)
    ensures forall s :: s in Remaining(sections, headLines, floor) <==>
              s in sections && s.end > headLines && s.level >= floor
  {
    if sections != [] {
      RemainingIs(sections[..|sections| - 1], headLines, floor);
      assert sections == sections[..|sections| - 1] + [sections[|sections| - 1]];
    }
  }

  function RowOf(section: Section, headLines: nat, floor: nat): Row
    requires section.level >= floor
  {
    var start := if section.start > headLines then section.start else headLines + 1;
    Row(section.level - floor, start, section.end, section.title)
  }

  function CoveredTo(sections: seq<Section>): (n: nat)
    requires sections != []
    ensures forall s :: s in sections ==> s.end <= n
    ensures exists s :: s in sections && s.end == n
  {
    var last := sections[|sections| - 1];
    assert last in sections;
    if |sections| == 1 then last.end
    else
      var before := sections[..|sections| - 1];
      var n := CoveredTo(before);
      assert forall s :: s in sections <==> s in before || s == last;
      if last.end > n then last.end else n
  }

  function BareIndex(headLines: nat, total: Option<nat>, truncated: bool): Index {
    BarePointer(total, Range(headLines + 1,
      if total.Some? && !truncated && total.value > headLines then total else None))
  }

  function RowsOf(remaining: seq<Section>, headLines: nat, floor: nat): (rows: seq<Row>)
    requires forall s :: s in remaining ==> s.level >= floor
    ensures |rows| == |remaining|
    ensures forall i :: 0 <= i < |rows| ==>
              remaining[i] in remaining && rows[i] == RowOf(remaining[i], headLines, floor)
  {
    seq(|remaining|, i requires 0 <= i < |remaining| =>
      assert remaining[i] in remaining; RowOf(remaining[i], headLines, floor))
  }

  /** `_render_index` after the scan. */
  function IndexOf(sections: seq<Section>, total: nat, truncated: bool, unterminated: bool, headLines: nat): Index {
    var floor := Floor(sections);
    var remaining := Remaining(sections, headLines, floor);
    if remaining == [] then BareIndex(headLines, Some(total), truncated)
    else
      RemainingIs(sections, headLines, floor);
      var covered := CoveredTo(remaining);
      Rows(RowsOf(remaining, headLines, floor), total,
           if covered < total then Some(Range(covered + 1, Some(total))) else None, truncated, unterminated)
  }

  /** `_render_index`; a file that could not be scanned has no lines to go by. */
  function RenderIndex(scanned: Option<seq<string>>, truncated: bool, headLines: nat): Index {
    match scanned
    case None => BareIndex(headLines, None, false)
    case Some(lines) =>
      IndexOf(Sections(lines), |lines|, truncated, PassOver(lines, |lines|, true).fence.Some?, headLines)
  }

  predicate InRow(index: Index, n: nat) {
    index.Rows? && exists i :: 0 <= i < |index.rows| && index.rows[i].start <= n <= index.rows[i].end
  }

  predicate InRange(range: Range, n: nat) {
    range.first <= n && (range.last.Some? ==> n <= range.last.value)
  }

  /** The nearest heading at or above a line, or -1. */
  function Owner(sections: seq<Section>, n: nat): (i: int)
    ensures -1 <= i < |sections|
    ensures i >= 0 ==> sections[i].start <= n
    ensures forall j :: i < j < |sections| ==> sections[j].start > n
  {
    if sections == [] then -1
    else if sections[|sections| - 1].start <= n then |sections| - 1
    else Owner(sections[..|sections| - 1], n)
  }

  predicate Listed(sections: seq<Section>, i: int) {
    0 <= i < |sections| && !(sections[i].level == 1 && TopHeadings(sections) < 2)
  }

  /** `i` is a listed section whose span holds line `n`. */
  predicate Holds(sections: seq<Section>, i: int, n: nat) {
    Listed(sections, i) && sections[i].start <= n <= sections[i].end
  }

  lemma RowGivesSection(sections: seq<Section>, headLines: nat, n: nat)
    requires n > headLines && forall s :: s in sections ==> s.level >= 1
    requires var floor := Floor(sections);
             exists s :: s in Remaining(sections, headLines, floor) && s.start <= n <= s.end
    ensures exists i :: Holds(sections, i, n)
  {
    var floor := Floor(sections);
    RemainingIs(sections, headLines, floor);
    var s :| s in Remaining(sections, headLines, floor) && s.start <= n <= s.end;
    var i :| 0 <= i < |sections| && sections[i] == s;
    assert Holds(sections, i, n);
  }

  lemma SectionGivesRow(sections: seq<Section>, headLines: nat, n: nat, i: int)
    requires n > headLines && Holds(sections, i, n) && sections[i].level >= 1
    ensures sections[i] in Remaining(sections, headLines, Floor(sections))
  {
    RemainingIs(sections, headLines, Floor(sections));
  }

  /** A row is the unread part of a listed section. */
  lemma RowsAreListedSections(
    sections: seq<Section>, total: nat, truncated: bool, unterminated: bool, headLines: nat, n: nat)
    requires n > headLines && forall s :: s in sections ==> s.level >= 1
    ensures InRow(IndexOf(sections, total, truncated, unterminated, headLines), n) <==>
            exists i :: Holds(sections, i, n)
  {
    var index := IndexOf(sections, total, truncated, unterminated, headLines);
    var remaining := Remaining(sections, headLines, Floor(sections));
    RemainingIs(sections, headLines, Floor(sections));
    if InRow(index, n) {
      var k :| 0 <= k < |index.rows| && index.rows[k].start <= n <= index.rows[k].end;
      assert remaining[k] in remaining && remaining[k].start <= n <= remaining[k].end;
      RowGivesSection(sections, headLines, n);
    }
    if i :| Holds(sections, i, n) {
      SectionGivesRow(sections, headLines, n, i);
      var k :| 0 <= k < |remaining| && remaining[k] == sections[i];
      assert index.rows[k].start <= n <= index.rows[k].end;
    }
  }

  /** A line inside a listed span has a listed nearest heading, and the reverse. */
  lemma OwnerDecides(sections: seq<Section>, total: nat, n: nat)
    requires WellSpanned(sections, total) && n <= total
    ensures (exists i :: Holds(sections, i, n)) <==> Listed(sections, Owner(sections, n))
  {
    var o := Owner(sections, n);
    if Listed(sections, o) {
      assert SpanOk(sections, o, total);
      assert Holds(sections, o, n);
    }
    if i :| Holds(sections, i, n) {
      assert o >= i;
      if o > i {
        SpansAreLaminar(sections, total, i, o);
      }
    }
  }

  /**
   What the index reaches: a line past the head lies in some row exactly when its nearest preceding
   heading exists and is not the file's only H1.
   */
  lemma IndexReaches(lines: seq<string>, truncated: bool, headLines: nat, n: nat)
    requires headLines < n <= |lines|
    ensures InRow(RenderIndex(Some(lines), truncated, headLines), n) <==>
            Listed(Sections(lines), Owner(Sections(lines), n))
  {
    var sections := Sections(lines);
    SectionsAreWellSpanned(lines);
    RowsAreListedSections(sections, |lines|, truncated, PassOver(lines, |lines|, true).fence.Some?, headLines, n);
    OwnerDecides(sections, |lines|, n);
  }

  lemma TailOf(sections: seq<Section>, total: nat, truncated: bool, unterminated: bool, headLines: nat, n: nat)
    requires IndexOf(sections, total, truncated, unterminated, headLines).Rows?
    ensures var index := IndexOf(sections, total, truncated, unterminated, headLines);
            (index.tail.Some? && InRange(index.tail.value, n)) <==>
            n <= total && forall i :: 0 <= i < |index.rows| ==> index.rows[i].end < n
  {
  }

  /** The tail note names exactly the lines past every row. */
  lemma TailNoteIsExact(lines: seq<string>, truncated: bool, headLines: nat, n: nat)
    requires RenderIndex(Some(lines), truncated, headLines).Rows?
    ensures var index := RenderIndex(Some(lines), truncated, headLines);
            (index.tail.Some? && InRange(index.tail.value, n)) <==>
            n <= |lines| && forall i :: 0 <= i < |index.rows| ==> index.rows[i].end < n
  {
    TailOf(Sections(lines), |lines|, truncated, PassOver(lines, |lines|, true).fence.Some?, headLines, n);
  }

  /** With nothing to list the pointer offers every line past the head. */
  lemma BarePointerMissesNothing(scanned: Option<seq<string>>, truncated: bool, headLines: nat, n: nat)
    requires RenderIndex(scanned, truncated, headLines).BarePointer? && n > headLines
    requires scanned.Some? && !truncated ==> n <= |scanned.value|
    ensures InRange(RenderIndex(scanned, truncated, headLines).rest, n)
    ensures scanned.Some? && n <= |scanned.value| ==>
              !Listed(Sections(scanned.value), Owner(Sections(scanned.value), n))
  {
    if scanned.Some? && n <= |scanned.value| {
      IndexReaches(scanned.value, truncated, headLines, n);
    }
  }

  // ----- what the rows say -----

  /** There is one H1 or none, so that it is the title of the file. */
  ghost predicate HasLoneTitle(sections: seq<Section>) {
    forall i, j :: 0 <= i < j < |sections| ==> !(sections[i].level == 1 && sections[j].level == 1)
  }

  lemma {:induction false} TopHeadingsAre(sections: seq<Section>)
    ensures TopHeadings(sections) == 0 <==> forall i :: 0 <= i < |sections| ==> sections[i].level != 1
    ensures TopHeadings(sections) < 2 <==> HasLoneTitle(sections)
  {
    if sections != [] {
      var last := |sections| - 1;
      TopHeadingsAre(sections[..last]);
      assert forall i :: 0 <= i < last ==> sections[..last][i] == sections[i];
    }
  }

  /** A section is offered when some of it is unread and it is not a lone title. */
  ghost predicate IsOffered(sections: seq<Section>, headLines: nat, i: int) {
    0 <= i < |sections| && sections[i].end > headLines && !(sections[i].level == 1 && HasLoneTitle(sections))
  }

  /** Its row: indented by its depth, from its first unread line to its end, under its title. */
  ghost predicate IsRowOf(row: Row, sections: seq<Section>, headLines: nat, i: nat)
    requires i < |sections| && sections[i].level >= 1
  {
    && row.title == sections[i].title && row.end == sections[i].end
    && row.start == (if sections[i].start <= headLines then headLines + 1 else sections[i].start)
    && (HasLoneTitle(sections) ==> row.indent + 2 == sections[i].level)
    && (!HasLoneTitle(sections) ==> row.indent + 1 == sections[i].level)
  }

  /** Which of the first `n` sections remain. */
  function Places(sections: seq<Section>, headLines: nat, floor: nat, n: nat): seq<nat>
    requires n <= |sections|
  {
    if n == 0 then []
    else
      Places(sections, headLines, floor, n - 1) +
      (if sections[n - 1].end > headLines && sections[n - 1].level >= floor then [n - 1] else [])
  }

  lemma {:induction false} PlacesAre(sections: seq<Section>, headLines: nat, floor: nat, n: nat)
    requires n <= |sections|
    ensures var places, remaining := Places(sections, headLines, floor, n), Remaining(sections[..n], headLines, floor);
            && |places| == |remaining|
            && forall k :: 0 <= k < |places| ==> places[k] < n && remaining[k] == sections[places[k]]
  {
    if n > 0 {
      PlacesAre(sections, headLines, floor, n - 1);
      assert sections[..n][..n - 1] == sections[..n - 1];
    }
  }

  lemma {:induction false} PlacesHold(sections: seq<Section>, headLines: nat, floor: nat, n: nat)
    requires n <= |sections|
    ensures forall i: nat :: i in Places(sections, headLines, floor, n) <==>
              i < n && sections[i].end > headLines && sections[i].level >= floor
    ensures forall j, k :: 0 <= j < k < |Places(sections, headLines, floor, n)| ==>
              Places(sections, headLines, floor, n)[j] < Places(sections, headLines, floor, n)[k]
  {
    if n > 0 {
      PlacesHold(sections, headLines, floor, n - 1);
      var before, places := Places(sections, headLines, floor, n - 1), Places(sections, headLines, floor, n);
      var last := sections[n - 1];
      assert places == before + (if last.end > headLines && last.level >= floor then [n - 1] else []);
      assert forall i: nat :: i in places <==>
        i in before || (i == n - 1 && last.end > headLines && last.level >= floor);
      forall j, k | 0 <= j < k < |places|
        ensures places[j] < places[k]
      {
        assert places[j] == before[j] && before[j] in before;
        assert k < |before| ==> places[k] == before[k];
      }
    }
  }

  lemma RowOfIs(sections: seq<Section>, headLines: nat, i: nat)
    requires i < |sections| && 1 <= sections[i].level && Floor(sections) <= sections[i].level
    ensures IsRowOf(RowOf(sections[i], headLines, Floor(sections)), sections, headLines, i)
  {
    TopHeadingsAre(sections);
  }

  lemma OfferedPlaces(sections: seq<Section>, headLines: nat) returns (places: seq<nat>)
    requires forall s :: s in sections ==> s.level >= 1
    ensures places == Places(sections, headLines, Floor(sections), |sections|)
    ensures forall i: nat :: i in places <==> IsOffered(sections, headLines, i)
    ensures forall k :: 0 <= k < |places| ==> IsOffered(sections, headLines, places[k])
    ensures forall j, k :: 0 <= j < k < |places| ==> places[j] < places[k]
  {
    TopHeadingsAre(sections);
    var floor := Floor(sections);
    places := Places(sections, headLines, floor, |sections|);
    PlacesHold(sections, headLines, floor, |sections|);
    hide Places, Remaining, TopHeadings, HasLoneTitle;
    forall i: nat
      ensures i in places <==> IsOffered(sections, headLines, i)
    {
      if i < |sections| {
        assert sections[i] in sections;
      }
    }
    forall k | 0 <= k < |places|
      ensures IsOffered(sections, headLines, places[k])
    {
      assert places[k] in places;
    }
  }

  /** The rows are the offered sections, each once and in their order, when there are any. */
  lemma IndexRowsAre(sections: seq<Section>, total: nat, truncated: bool, unterminated: bool, headLines: nat)
    returns (places: seq<nat>)
    requires forall s :: s in sections ==> s.level >= 1
    ensures var index := IndexOf(sections, total, truncated, unterminated, headLines);
            && (index.Rows? <==> places != [])
            && (index.Rows? ==>
                  && |places| == |index.rows|
                  && forall k :: 0 <= k < |places| ==>
                       && IsOffered(sections, headLines, places[k]) && sections[places[k]] in sections
                       && IsRowOf(index.rows[k], sections, headLines, places[k]))
    ensures forall i: nat :: i in places <==> IsOffered(sections, headLines, i)
    ensures forall j, k :: 0 <= j < k < |places| ==> places[j] < places[k]
  {
    places := OfferedPlaces(sections, headLines);
    var floor := Floor(sections);
    var remaining := Remaining(sections, headLines, floor);
    PlacesAre(sections, headLines, floor, |sections|);
    assert sections[..|sections|] == sections;
    RemainingIs(sections, headLines, floor);
    var index := IndexOf(sections, total, truncated, unterminated, headLines);
    hide Places, Remaining, TopHeadings, HasLoneTitle, RowOf, IsRowOf, IsOffered, IndexOf, Floor;
    if index.Rows? {
      forall k | 0 <= k < |places|
        ensures IsRowOf(index.rows[k], sections, headLines, places[k])
      {
        assert remaining[k] in remaining && index.rows[k] == RowOf(sections[places[k]], headLines, floor);
        RowOfIs(sections, headLines, places[k]);
      }
    }
  }

  /**
   The rows of a file's index are its offered sections, each once and in their order; the line count and the two
   notes are the file's; and the bare pointer stands exactly where nothing is offered, or nothing was scanned.
   */
  lemma RowsExactly(lines: seq<string>, truncated: bool, headLines: nat) returns (places: seq<nat>)
    ensures var index, sections := RenderIndex(Some(lines), truncated, headLines), Sections(lines);
            && (index.Rows? <==> places != []) && (index.BarePointer? ==> index.known == Some(|lines|))
            && (index.Rows? ==>
                  && index.total == |lines| && index.truncated == truncated
                  && index.unterminated == PassOver(lines, |lines|, true).fence.Some?
                  && |places| == |index.rows|
                  && forall k :: 0 <= k < |places| ==>
                       && IsOffered(sections, headLines, places[k]) && sections[places[k]].level >= 1
                       && IsRowOf(index.rows[k], sections, headLines, places[k]))
    ensures forall i: nat :: i in places <==> IsOffered(Sections(lines), headLines, i)
    ensures forall j, k :: 0 <= j < k < |places| ==> places[j] < places[k]
    ensures RenderIndex(None, truncated, headLines) == BarePointer(None, Range(headLines + 1, None))
  {
    SectionsAreWellSpanned(lines);
    var unterminated := PassOver(lines, |lines|, true).fence.Some?;
    places := IndexRowsAre(Sections(lines), |lines|, truncated, unterminated, headLines);
    hide Sections, PassOver, IsOffered, IsRowOf;
  }
}
