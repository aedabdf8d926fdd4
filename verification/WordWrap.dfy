/** The greedy line breaker of `local_operator/console.py`. */
module WordWrap {
  import opened PyStrings

  type Line = seq<string>

  /** The width of the words of a line, each with one space. */
  function Weight(line: Line): nat {
    if line == [] then 0 else |line[0]| + 1 + Weight(line[1..])
  }

  function Joined(line: Line): string {
    if line == [] then ""
    else if |line| == 1 then line[0]
    else line[0] + " " + Joined(line[1..])
  }

  function JoinedAll(lines: seq<Line>): (texts: seq<string>)
    ensures |texts| == |lines|
  {
    seq(|lines|, i requires 0 <= i < |lines| => Joined(lines[i]))
  }

  function Flat(lines: seq<Line>): seq<string> {
    if lines == [] then [] else lines[0] + Flat(lines[1..])
  }

  /** The lines made of `words` after a line that holds `current` and is `length` wide. */
  function Wrapped(current: Line, length: int, words: seq<string>, maxWidth: int): seq<Line>
    decreases |words|
  {
    if words == [] then (if current == [] then [] else [current])
    else
      var word := words[0];
      if length + |word| + 1 <= maxWidth
      then Wrapped(current + [word], length + |word| + 1, words[1..], maxWidth)
      else [current] + Wrapped([word], |word|, words[1..], maxWidth)
  }

  /** `wrap_text_to_width`, on the words of the text. */
  method WrapTextToWidth(words: seq<string>, maxWidth: int, prefix: string) returns (lines: seq<string>)
    ensures lines == JoinedAll(Wrapped([], |prefix|, words, maxWidth))
  {
    lines := [];
    var current: Line := [];
    var length: nat := |prefix|;
    ghost var done: seq<Line> := [];
    for i := 0 to |words|
      invariant lines == JoinedAll(done)
      invariant done + Wrapped(current, length, words[i..], maxWidth) == Wrapped([], |prefix|, words, maxWidth)
    {
      var word := words[i];
      assert words[i..][1..] == words[i + 1..];
      if length + |word| + 1 <= maxWidth {
        current := current + [word];
        length := length + |word| + 1;
      } else {
        lines := lines + [Joined(current)];
        done := done + [current];
        current := [word];
        length := |word|;
      }
    }
    if current != [] {
      lines := lines + [Joined(current)];
    }
  }

  /** A printed line shows its words, in order and one space apart: splitting it at the spaces gives them back. */
  lemma {:induction false} JoinedSplitsBack(line: Line)
    requires line != [] && forall word :: word in line ==> ' ' !in word
    ensures SplitOn(Joined(line), ' ') == line
  {
    assert line[0] in line;
    if |line| == 1 {
      SplitOfPart(line[0], ' ');
    } else {
      JoinedSplitsBack(line[1..]);
      SplitOfCons(line[0], Joined(line[1..]), ' ');
      assert line == [line[0]] + line[1..];
    }
  }

  // ----- the fit test -----

  /**
   The first line shares its width with the prefix, and may stay empty. Its first word is charged a space
   as well, so that this line has to leave one column spare.
   */
  predicate FirstFits(line: Line, prefix: int, maxWidth: int) {
    line == [] || prefix + Weight(line) <= maxWidth
  }

  /** A later line fits, or is one word that fits nowhere. */
  predicate LaterFits(line: Line, maxWidth: int) {
    line != [] && (|line| == 1 || |Joined(line)| <= maxWidth)
  }

  ghost predicate IsSplit(lines: seq<Line>, words: seq<string>, prefix: int, maxWidth: int) {
    && Flat(lines) == words
    && (lines != [] ==> FirstFits(lines[0], prefix, maxWidth))
    && forall i :: 1 <= i < |lines| ==> LaterFits(lines[i], maxWidth)
  }

  lemma {:induction false} JoinedWidth(line: Line)
    requires line != []
    ensures |Joined(line)| + 1 == Weight(line)
  {
    if |line| > 1 {
      JoinedWidth(line[1..]);
    } else {
      assert line[1..] == [];
    }
  }

  lemma {:induction false} WeightSnoc(line: Line, word: string)
    ensures Weight(line + [word]) == Weight(line) + |word| + 1
  {
    if line == [] {
      assert line + [word] == [word] && [word][1..] == [];
    } else {
      assert (line + [word])[1..] == line[1..] + [word];
      WeightSnoc(line[1..], word);
    }
  }

  lemma WeightCons(word: string, rest: Line)
    ensures Weight([word] + rest) == |word| + 1 + Weight(rest)
  {
  }

  /** All words, in order. */
  lemma {:induction false} WrappedKeepsWords(current: Line, length: int, words: seq<string>, maxWidth: int)
    ensures Flat(Wrapped(current, length, words, maxWidth)) == current + words
    decreases |words|
  {
    if words == [] {
      if current != [] {
        assert [current][1..] == [];
      }
    } else {
      var word, rest := words[0], words[1..];
      assert words == [word] + rest;
      if length + |word| + 1 <= maxWidth {
        WrappedKeepsWords(current + [word], length + |word| + 1, rest, maxWidth);
        assert current + [word] + rest == current + words;
      } else {
        var more := Wrapped([word], |word|, rest, maxWidth);
        WrappedKeepsWords([word], |word|, rest, maxWidth);
        assert ([current] + more)[1..] == more;
      }
    }
  }

  ghost predicate AllLater(lines: seq<Line>, maxWidth: int) {
    forall i :: 0 <= i < |lines| ==> LaterFits(lines[i], maxWidth)
  }

  /** After the first line. */
  lemma {:induction false} LaterLinesFit(current: Line, length: int, words: seq<string>, maxWidth: int)
    requires LaterFits(current, maxWidth) && length == |Joined(current)|
    ensures AllLater(Wrapped(current, length, words, maxWidth), maxWidth)
    decreases |words|
  {
    if words != [] {
      var word := words[0];
      JoinedWidth(current);
      WeightSnoc(current, word);
      JoinedWidth(current + [word]);
      if length + |word| + 1 <= maxWidth {
        LaterLinesFit(current + [word], length + |word| + 1, words[1..], maxWidth);
      } else {
        LaterLinesFit([word], |word|, words[1..], maxWidth);
      }
    }
  }

  lemma {:induction false} FirstLineFits(current: Line, length: int, prefix: int, words: seq<string>, maxWidth: int)
    requires FirstFits(current, prefix, maxWidth) && length == prefix + Weight(current)
    ensures var lines := Wrapped(current, length, words, maxWidth);
            lines != [] ==> FirstFits(lines[0], prefix, maxWidth) && AllLater(lines[1..], maxWidth)
    decreases |words|
  {
    if words != [] {
      var word := words[0];
      WeightSnoc(current, word);
      if length + |word| + 1 <= maxWidth {
        FirstLineFits(current + [word], length + |word| + 1, prefix, words[1..], maxWidth);
      } else {
        LaterLinesFit([word], |word|, words[1..], maxWidth);
        assert Wrapped(current, length, words, maxWidth)[1..] == Wrapped([word], |word|, words[1..], maxWidth);
      }
    }
  }

  /** What greedy makes is a split: the words in order, the first line with its prefix, every later line fitting. */
  lemma GreedyIsASplit(words: seq<string>, prefix: int, maxWidth: int)
    ensures IsSplit(Wrapped([], prefix, words, maxWidth), words, prefix, maxWidth)
  {
    WrappedKeepsWords([], prefix, words, maxWidth);
    FirstLineFits([], prefix, prefix, words, maxWidth);
    assert [] + words == words;
    var lines := Wrapped([], prefix, words, maxWidth);
    assert forall i :: 1 <= i < |lines| ==> lines[i] == lines[1..][i - 1];
  }

  // ----- no split is shorter -----

  /** How many more lines greedy starts. */
  function Breaks(length: int, words: seq<string>, maxWidth: int): nat
    decreases |words|
  {
    if words == [] then 0
    else if length + |words[0]| + 1 <= maxWidth then Breaks(length + |words[0]| + 1, words[1..], maxWidth)
    else 1 + Breaks(|words[0]|, words[1..], maxWidth)
  }

  lemma {:induction false} WrappedCount(current: Line, length: int, words: seq<string>, maxWidth: int)
    requires current != [] || words != []
    ensures |Wrapped(current, length, words, maxWidth)| == 1 + Breaks(length, words, maxWidth)
    decreases |words|
  {
    if words != [] {
      var word := words[0];
      if length + |word| + 1 <= maxWidth {
        WrappedCount(current + [word], length + |word| + 1, words[1..], maxWidth);
      } else {
        WrappedCount([word], |word|, words[1..], maxWidth);
      }
    }
  }

  /** Starting narrower never costs a line, and starting anywhere else costs at most one. */
  lemma {:induction false} BreaksCompare(a: int, b: int, words: seq<string>, maxWidth: int)
    requires a >= -1 && b >= -1
    ensures a <= b ==> Breaks(a, words, maxWidth) <= Breaks(b, words, maxWidth)
    ensures Breaks(a, words, maxWidth) <= Breaks(b, words, maxWidth) + 1
    decreases |words|
  {
    if words != [] {
      var w, rest := |words[0]|, words[1..];
      BreaksCompare(a + w + 1, b + w + 1, rest, maxWidth);
      BreaksCompare(a + w + 1, w, rest, maxWidth);
      BreaksCompare(w, b + w + 1, rest, maxWidth);
    }
  }

  /** `lines` continues a line that is `length` wide. */
  ghost predicate Continues(lines: seq<Line>, length: int, words: seq<string>, maxWidth: int) {
    && lines != [] && Flat(lines) == words
    && (lines[0] == [] || length + Weight(lines[0]) <= maxWidth)
    && forall i :: 1 <= i < |lines| ==> LaterFits(lines[i], maxWidth)
  }

  /** Taking the first word off the first line. */
  lemma TakeWord(lines: seq<Line>, length: int, words: seq<string>, maxWidth: int)
    requires Continues(lines, length, words, maxWidth) && lines[0] != []
    ensures words != [] && words[0] == lines[0][0] && length + |words[0]| + 1 <= maxWidth
    ensures Continues([lines[0][1..]] + lines[1..], length + |words[0]| + 1, words[1..], maxWidth)
  {
  }

  /** Leaving an empty first line for the next, whose first word then opens it. */
  lemma NextLine(lines: seq<Line>, length: int, words: seq<string>, maxWidth: int)
    requires Continues(lines, length, words, maxWidth) && lines[0] == [] && words != []
    ensures |lines| > 1 && lines[1] != [] && words[0] == lines[1][0]
    ensures Continues([lines[1][1..]] + lines[2..], |words[0]|, words[1..], maxWidth)
  {
    hide Joined, Weight;
    var others := lines[1..];
    assert words == Flat(others);
    assert others != [];
    var first := others[0];
    assert LaterFits(lines[1], maxWidth);
    assert first == [first[0]] + first[1..];
    WeightCons(first[0], first[1..]);
    JoinedWidth(first);
    var shorter := [first[1..]] + lines[2..];
    assert others[1..] == lines[2..] && shorter[1..] == lines[2..];
    assert words == first + Flat(lines[2..]);
    assert words[1..] == first[1..] + Flat(lines[2..]);
  }

  lemma {:induction false} GreedyContinuesBest(lines: seq<Line>, length: int, words: seq<string>, maxWidth: int)
    requires length >= -1 && Continues(lines, length, words, maxWidth)
    ensures Breaks(length, words, maxWidth) <= |lines| - 1
    decreases |words|
  {
    if words != [] {
      var w := |words[0]|;
      if lines[0] != [] {
        TakeWord(lines, length, words, maxWidth);
        GreedyContinuesBest([lines[0][1..]] + lines[1..], length + w + 1, words[1..], maxWidth);
      } else {
        NextLine(lines, length, words, maxWidth);
        GreedyContinuesBest([lines[1][1..]] + lines[2..], w, words[1..], maxWidth);
        BreaksCompare(length + w + 1, w, words[1..], maxWidth);
      }
    }
  }

  /** Greedy is optimal: no split of the same words that meets the same fit test has fewer lines. */
  lemma GreedyIsOptimal(words: seq<string>, prefix: int, maxWidth: int, lines: seq<Line>)
    requires prefix >= -1 && IsSplit(lines, words, prefix, maxWidth)
    ensures |Wrapped([], prefix, words, maxWidth)| <= |lines|
  {
    if words != [] {
      GreedyContinuesBest(lines, prefix, words, maxWidth);
      WrappedCount([], prefix, words, maxWidth);
    }
  }

  // ----- the spare column -----

  /** The plain width test: what is printed of the first line, prefix included, is no wider than the width. */
  ghost predicate IsPlainSplit(lines: seq<Line>, words: seq<string>, prefix: nat, maxWidth: int) {
    && Flat(lines) == words
    && (lines != [] ==> lines[0] == [] || prefix + |Joined(lines[0])| <= maxWidth)
    && forall i :: 1 <= i < |lines| ==> LaterFits(lines[i], maxWidth)
  }

  /** It is the test that greedy meets, with a prefix one column shorter. */
  lemma PlainIsOneWider(lines: seq<Line>, words: seq<string>, prefix: nat, maxWidth: int)
    ensures IsPlainSplit(lines, words, prefix, maxWidth) <==> IsSplit(lines, words, prefix - 1, maxWidth)
  {
    if lines != [] && lines[0] != [] {
      JoinedWidth(lines[0]);
    }
  }

  lemma MeetsThePlainTest(lines: seq<Line>, words: seq<string>, prefix: nat, maxWidth: int)
    requires IsSplit(lines, words, prefix, maxWidth)
    ensures IsPlainSplit(lines, words, prefix, maxWidth)
  {
    PlainIsOneWider(lines, words, prefix, maxWidth);
  }

  lemma OneColumnCostsALineAtMost(words: seq<string>, prefix: nat, maxWidth: int)
    ensures var mine, best := |Wrapped([], prefix, words, maxWidth)|, |Wrapped([], prefix - 1, words, maxWidth)|;
            best <= mine <= best + 1
  {
    if words != [] {
      WrappedCount([], prefix, words, maxWidth);
      WrappedCount([], prefix - 1, words, maxWidth);
      BreaksCompare(prefix - 1, prefix, words, maxWidth);
      BreaksCompare(prefix, prefix - 1, words, maxWidth);
    }
  }

  ghost predicate NoPlainSplitIsShorter(n: nat, words: seq<string>, prefix: nat, maxWidth: int) {
    forall lines :: IsPlainSplit(lines, words, prefix, maxWidth) ==> n <= |lines|
  }

  /**
   Under the plain test greedy still makes a split, with at most one line too many, and is optimal exactly
   when it would make no fewer lines after a prefix one column shorter.
   */
  lemma PlainOptimalExactlyWhen(words: seq<string>, prefix: nat, maxWidth: int)
    ensures var mine, best := Wrapped([], prefix, words, maxWidth), Wrapped([], prefix - 1, words, maxWidth);
            && IsPlainSplit(mine, words, prefix, maxWidth) && |best| <= |mine| <= |best| + 1
            && (NoPlainSplitIsShorter(|mine|, words, prefix, maxWidth) <==> |mine| == |best|)
  {
    hide Wrapped, IsSplit, IsPlainSplit;
    var mine, best := Wrapped([], prefix, words, maxWidth), Wrapped([], prefix - 1, words, maxWidth);
    GreedyIsASplit(words, prefix, maxWidth);
    GreedyIsASplit(words, prefix - 1, maxWidth);
    MeetsThePlainTest(mine, words, prefix, maxWidth);
    PlainIsOneWider(best, words, prefix, maxWidth);
    OneColumnCostsALineAtMost(words, prefix, maxWidth);
    forall lines | IsPlainSplit(lines, words, prefix, maxWidth)
      ensures |best| <= |lines|
    {
      PlainIsOneWider(lines, words, prefix, maxWidth);
      GreedyIsOptimal(words, prefix - 1, maxWidth, lines);
    }
  }

  /** The spare column only shows where the first words and the prefix would fill the width exactly. */
  lemma {:induction false} OnlyAnExactFitShows(current: Line, length: int, words: seq<string>, maxWidth: int)
    requires forall k :: 1 <= k <= |words| ==> length + Weight(words[..k]) != maxWidth + 1
    ensures Wrapped(current, length, words, maxWidth) == Wrapped(current, length - 1, words, maxWidth)
    decreases |words|
  {
    if words != [] {
      var word, rest := words[0], words[1..];
      assert words[..1] == [word] + [];
      WeightCons(word, []);
      assert length + |word| + 1 != maxWidth + 1;
      forall k | 1 <= k <= |rest|
        ensures length + |word| + 1 + Weight(rest[..k]) != maxWidth + 1
      {
        assert words[..k + 1] == [word] + rest[..k];
        WeightCons(word, rest[..k]);
      }
      OnlyAnExactFitShows(current + [word], length + |word| + 1, rest, maxWidth);
    }
  }

  /** An input where it costs a line: one word that, with the prefix, just fills the width. */
  lemma ExactFitIsBroken(word: string, prefix: nat, maxWidth: int)
    requires prefix + |word| == maxWidth
    ensures Wrapped([], prefix, [word], maxWidth) == [[], [word]]
    ensures IsPlainSplit([[word]], [word], prefix, maxWidth)
  {
    assert [word][1..] == [] && [[word]][1..] == [];
    assert [word] + [] == [word];
  }
}
