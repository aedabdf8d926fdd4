/** How `local_operator/agents.py` names an incoming agent: never under a key the registry already holds. */
module ImportNaming {
  import opened Prelude
  import opened PyStrings

  const MAX_NAME: nat := 128

  // ----- decimal suffixes -----

  function Digit(d: nat): char
    requires d < 10
  {
    ('0' as int + d) as char
  }

  function Digits(n: nat): (s: string)
    ensures s != "" && forall c :: c in s ==> '0' <= c <= '9'
  {
    if n < 10 then [Digit(n)] else Digits(n / 10) + [Digit(n % 10)]
  }

  function Tail(n: nat): (s: string)
    ensures |s| >= 2
  {
    "-" + Digits(n)
  }

  lemma {:induction false} DigitsInjective(m: nat, n: nat)
    requires Digits(m) == Digits(n)
    ensures m == n
  {
    var a, b := Digits(m), Digits(n);
    assert a[|a| - 1] == Digit(m % 10) && b[|b| - 1] == Digit(n % 10);
    if m >= 10 && n >= 10 {
      assert Digits(m / 10) == a[..|a| - 1] == b[..|b| - 1] == Digits(n / 10);
      DigitsInjective(m / 10, n / 10);
    }
  }

  function PowerOfTen(k: nat): nat {
    if k == 0 then 1 else 10 * PowerOfTen(k - 1)
  }

  lemma {:induction false} DigitsFit(n: nat, k: nat)
    requires k >= 1 && n < PowerOfTen(k)
    ensures |Digits(n)| <= k
  {
    if n >= 10 {
      DigitsFit(n / 10, k - 1);
    }
  }

  // ----- keys -----

  /** NFKC and lower-casing together, as one function. */
  type Folding = string -> string

  /** A hyphen and digits neither compose with what precedes them nor change its case. */
  ghost predicate KeepsTails(fold: Folding) {
    forall x, n :: fold(x + Tail(n)) == fold(x) + Tail(n)
  }

  /** Left to right: what is kept so far, and whether white space is owed before the next character. */
  datatype Squeeze = Squeeze(kept: string, owed: bool)

  function Squeezed(s: string): Squeeze {
    if s == "" then Squeeze("", false)
    else
      var before, c := Squeezed(s[..|s| - 1]), s[|s| - 1];
      if IsSpace(c) then Squeeze(before.kept, before.kept != "")
      else Squeeze(before.kept + (if before.owed then " " else "") + [c], false)
  }

  /** `agent_name_key`: trimmed, with every run of white space as one space. */
  function NameKey(fold: Folding, name: string): string {
    Squeezed(fold(name)).kept
  }

  /** `str.split`: the runs of characters that are no white space. */
  function Words(s: string): (words: seq<string>)
    ensures s != "" && !IsSpace(s[|s| - 1]) ==> words != []
  {
    if s == "" then []
    else
      var init, c := s[..|s| - 1], s[|s| - 1];
      if IsSpace(c) then Words(init)
      else if init == "" || IsSpace(init[|init| - 1]) then Words(init) + [[c]]
      else Words(init)[..|Words(init)| - 1] + [Words(init)[|Words(init)| - 1] + [c]]
  }

  lemma {:induction false} JoinSnoc(words: seq<string>, word: string)
    requires words != []
    ensures JoinWith(words + [word], ' ') == JoinWith(words, ' ') + [' '] + word
  {
    if |words| == 1 {
      assert (words + [word])[1..] == [word];
    } else {
      assert (words + [word])[1..] == words[1..] + [word];
      JoinSnoc(words[1..], word);
    }
  }

  lemma {:induction false} JoinGrow(words: seq<string>, c: char)
    requires words != []
    ensures JoinWith(words[..|words| - 1] + [words[|words| - 1] + [c]], ' ') == JoinWith(words, ' ') + [c]
  {
    var grown := words[..|words| - 1] + [words[|words| - 1] + [c]];
    if |words| > 1 {
      assert grown[1..] == words[1..][..|words| - 2] + [words[|words| - 1] + [c]];
      JoinGrow(words[1..], c);
    }
  }

  lemma JoinIsEmpty(words: seq<string>)
    requires words != [] && words[0] != ""
    ensures JoinWith(words, ' ') != ""
  {
  }

  lemma {:induction false} WordsAreWords(s: string)
    ensures forall i :: 0 <= i < |Words(s)| ==> Words(s)[i] != "" && forall c :: c in Words(s)[i] ==> !IsSpace(c)
  {
    if s != "" {
      WordsAreWords(s[..|s| - 1]);
    }
  }

  /** The key of a name is the words of its folding, one space apart. */
  lemma {:induction false} SqueezedIsJoinedWords(s: string)
    ensures Squeezed(s).kept == JoinWith(Words(s), ' ')
    ensures Squeezed(s).owed <==> Words(s) != [] && IsSpace(s[|s| - 1])
  {
    hide JoinWith, IsSpace;
    if s != "" {
      var init, c := s[..|s| - 1], s[|s| - 1];
      SqueezedIsJoinedWords(init);
      WordsAreWords(init);
      JoinOfNone();
      if Words(init) != [] {
        JoinIsEmpty(Words(init));
        JoinSnoc(Words(init), [c]);
        JoinGrow(Words(init), c);
      } else {
        JoinOfOne([c]);
        assert Words(init) + [[c]] == [[c]];
      }
    }
    JoinOfNone();
  }

  lemma JoinOfNone()
    ensures JoinWith([], ' ') == ""
  {
  }

  lemma JoinOfOne(word: string)
    ensures JoinWith([word], ' ') == word
  {
  }

  function Stem(s: string): string {
    Squeezed(s).kept + (if Squeezed(s).owed then " " else "")
  }

  lemma {:induction false} SqueezeTail(s: string, t: string)
    requires t != "" && forall c :: c in t ==> !IsSpace(c)
    ensures Squeezed(s + t) == Squeeze(Stem(s) + t, false)
  {
    var init, c := t[..|t| - 1], t[|t| - 1];
    assert (s + t)[..|s + t| - 1] == s + init;
    assert c in t;
    if init == "" {
      assert s + init == s;
      assert Stem(s) + t == Squeezed(s).kept + (if Squeezed(s).owed then " " else "") + [c];
    } else {
      SqueezeTail(s, init);
      assert Stem(s) + t == Stem(s) + init + [c];
    }
  }

  // ----- candidates -----

  /** Python's `s[:k]`. */
  function Take(s: string, k: int): string {
    if k >= |s| then s
    else if k >= 0 then s[..k]
    else if |s| + k >= 0 then s[..|s| + k]
    else ""
  }

  /** `_collision_free_name`. */
  function Candidate(name: string, n: nat): string {
    Take(name, MAX_NAME - |Tail(n)|) + Tail(n)
  }

  lemma CandidateKey(fold: Folding, name: string, n: nat)
    requires KeepsTails(fold)
    ensures NameKey(fold, Candidate(name, n)) == Stem(fold(Take(name, MAX_NAME - |Tail(n)|))) + Tail(n)
  {
    SqueezeTail(fold(Take(name, MAX_NAME - |Tail(n)|)), Tail(n));
  }

  /** The text after the last hyphen is told by the whole. */
  lemma LastHyphen(a: string, d: string, b: string, e: string)
    requires '-' !in d && '-' !in e && a + ("-" + d) == b + ("-" + e)
    ensures d == e
  {
    var s := a + ("-" + d);
    assert s[|a|] == '-' && s[|b|] == '-';
    assert forall i :: |a| < i < |s| ==> s[i] == d[i - |a| - 1];
    assert forall i :: |b| < i < |s| ==> s[i] == e[i - |b| - 1];
    assert |a| == |b|;
    assert d == s[|a| + 1..] && e == s[|b| + 1..];
  }

  /** Candidates with different suffixes have different keys, however the base was cut. */
  lemma CandidatesDiffer(fold: Folding, name: string, m: nat, n: nat)
    requires KeepsTails(fold) && m != n
    ensures NameKey(fold, Candidate(name, m)) != NameKey(fold, Candidate(name, n))
  {
    CandidateKey(fold, name, m);
    CandidateKey(fold, name, n);
    if NameKey(fold, Candidate(name, m)) == NameKey(fold, Candidate(name, n)) {
      LastHyphen(Stem(fold(Take(name, MAX_NAME - |Tail(m)|))), Digits(m),
                 Stem(fold(Take(name, MAX_NAME - |Tail(n)|))), Digits(n));
      DigitsInjective(m, n);
    }
  }

  // ----- resolution -----

  /** `n` is the first suffix from 2 on whose candidate is free. */
  ghost predicate FirstFree(fold: Folding, taken: set<string>, name: string, n: nat) {
    && n >= 2 && NameKey(fold, Candidate(name, n)) !in taken
    && forall i :: 2 <= i < n ==> NameKey(fold, Candidate(name, i)) in taken
  }

  /** What `resolve_import_name` answers: where the name lands, and the name it was renamed from. */
  ghost predicate Resolves(fold: Folding, taken: set<string>, name: string, to: string, from: Option<string>) {
    if NameKey(fold, name) == "" || NameKey(fold, name) !in taken then to == name && from == None
    else
      from == Some(name) &&
      exists n: nat :: n <= |taken| + 2 && FirstFree(fold, taken, name, n) && to == Candidate(name, n)
  }

  /** The keys of the candidates tried before `n`. */
  ghost function Tried(fold: Folding, name: string, n: nat): set<string> {
    set i: nat | 2 <= i < n :: NameKey(fold, Candidate(name, i))
  }

  lemma TriedGrows(fold: Folding, name: string, n: nat)
    requires KeepsTails(fold) && n >= 2
    ensures Tried(fold, name, n + 1) == Tried(fold, name, n) + {NameKey(fold, Candidate(name, n))}
    ensures NameKey(fold, Candidate(name, n)) !in Tried(fold, name, n)
    ensures |Tried(fold, name, n + 1)| == |Tried(fold, name, n)| + 1
  {
    hide NameKey, Candidate, KeepsTails;
    var key := NameKey(fold, Candidate(name, n));
    if key in Tried(fold, name, n) {
      var i: nat :| 2 <= i < n && key == NameKey(fold, Candidate(name, i));
      CandidatesDiffer(fold, name, i, n);
    }
    assert Tried(fold, name, n + 1) == Tried(fold, name, n) + {key};
    hide Tried;
  }

  lemma SubsetCardinality<T>(a: set<T>, b: set<T>)
    requires a <= b
    ensures |a| <= |b|
  {
    assert b == a + (b - a);
  }

  type AgentId = string

  class AgentRegistry {
    const fold: Folding
    var agents: map<AgentId, string>
    /** What lies in the agents directory, known to the registry or not. */
    var directories: set<AgentId>

    constructor (fold: Folding, agents: map<AgentId, string>, directories: set<AgentId>)
      ensures this.fold == fold && this.agents == agents && this.directories == directories
    {
      this.fold := fold;
      this.agents := agents;
      this.directories := directories;
    }

    /** `resolve_import_name`. */
    method ResolveImportName(name: string) returns (to: string, from: Option<string>)
      requires KeepsTails(fold)
      ensures Resolves(fold, TakenKeys(fold, agents), name, to, from)
    {
      var key := NameKey(fold, name);
      if key == "" {
        return name, None;
      }
      var taken := TakenKeys(fold, agents);
      if key !in taken {
        return name, None;
      }
      var suffix := 2;
      var candidate := Candidate(name, suffix);
      while NameKey(fold, candidate) in taken
        invariant 2 <= suffix && candidate == Candidate(name, suffix)
        invariant forall i :: 2 <= i < suffix ==> NameKey(fold, Candidate(name, i)) in taken
        invariant Tried(fold, name, suffix) <= taken && |Tried(fold, name, suffix)| == suffix - 2
        decreases |taken| + 3 - suffix
      {
        TriedGrows(fold, name, suffix);
        SubsetCardinality(Tried(fold, name, suffix + 1), taken);
        suffix := suffix + 1;
        candidate := Candidate(name, suffix);
      }
      SubsetCardinality(Tried(fold, name, suffix), taken);
      return candidate, Some(name);
    }

    /** The naming step of `import_agent`; an id or a directory that is already there fails the import. */
    method ImportAgent(id: AgentId, name: string) returns (ok: bool)
      requires KeepsTails(fold)
      modifies this
      ensures ok <==> id !in old(agents) && id !in old(directories)
      ensures !ok ==> agents == old(agents) && directories == old(directories)
      ensures ok ==> directories == old(directories) + {id}
      ensures ok ==> exists to, from ::
                Resolves(fold, TakenKeys(fold, old(agents)), name, to, from) && agents == old(agents)[id := to]
    {
      var to, from := ResolveImportName(name);
      if id in agents {
        return false;
      }
      if id in directories {
        return false;
      }
      directories := directories + {id};
      agents := agents[id := to];
      return true;
    }
  }

  function TakenKeys(fold: Folding, agents: map<AgentId, string>): set<string> {
    set id | id in agents :: NameKey(fold, agents[id])
  }

  // ----- what it promises -----

  /** The name an import lands under is free, unless it is blank. */
  lemma LandsFree(fold: Folding, taken: set<string>, name: string, to: string, from: Option<string>)
    requires Resolves(fold, taken, name, to, from) && NameKey(fold, name) != ""
    ensures NameKey(fold, to) !in taken
    ensures from.Some? <==> NameKey(fold, name) in taken
  {
  }

  /**
   A renamed agent keeps its whole suffix and fits the limit, in any registry short of a number of
   names that takes 128 digits to write.
   */
  lemma RenamedNameFits(fold: Folding, taken: set<string>, name: string, to: string, from: Option<string>)
    requires Resolves(fold, taken, name, to, from) && from.Some?
    requires |taken| + 2 < PowerOfTen(MAX_NAME - 1)
    ensures |to| <= 128
    ensures exists base, n :: to == base + Tail(n) && base <= name && n >= 2 && (base == name || |to| == MAX_NAME)
  {
    var n: nat :| n <= |taken| + 2 && FirstFree(fold, taken, name, n) && to == Candidate(name, n);
    DigitsFit(n, MAX_NAME - 1);
    var base := Take(name, MAX_NAME - |Tail(n)|);
    assert base <= name && to == base + Tail(n);
  }

  datatype Import = Import(id: AgentId, name: string, to: string, from: Option<string>)

  /** `imports` are successful imports of non-blank names, one after the other, into `agents`. */
  ghost predicate Imports(fold: Folding, agents: map<AgentId, string>, imports: seq<Import>)
    decreases |imports|
  {
    imports == [] ||
    var i := imports[0];
    && i.id !in agents && NameKey(fold, i.name) != ""
    && Resolves(fold, TakenKeys(fold, agents), i.name, i.to, i.from)
    && Imports(fold, agents[i.id := i.to], imports[1..])
  }

  function AfterImports(agents: map<AgentId, string>, imports: seq<Import>): map<AgentId, string>
    decreases |imports|
  {
    if imports == [] then agents else AfterImports(agents[imports[0].id := imports[0].to], imports[1..])
  }

  ghost predicate Collide(fold: Folding, agents: map<AgentId, string>, a: AgentId, b: AgentId) {
    a in agents && b in agents && a != b && NameKey(fold, agents[a]) == NameKey(fold, agents[b])
  }

  /** No run of imports adds a collision: whatever collides afterwards collided before. */
  lemma {:induction false} NoNewCollisions(
    fold: Folding, agents: map<AgentId, string>, imports: seq<Import>, a: AgentId, b: AgentId)
    requires Imports(fold, agents, imports)
    requires Collide(fold, AfterImports(agents, imports), a, b)
    ensures Collide(fold, agents, a, b)
    decreases |imports|
  {
    if imports != [] {
      var i := imports[0];
      var next := agents[i.id := i.to];
      NoNewCollisions(fold, next, imports[1..], a, b);
      LandsFree(fold, TakenKeys(fold, agents), i.name, i.to, i.from);
      assert forall id :: id in agents ==> NameKey(fold, agents[id]) in TakenKeys(fold, agents);
    }
  }
}
