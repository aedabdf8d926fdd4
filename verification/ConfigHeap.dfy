/**
 Who may see whose dictionaries in `local_operator/config.py`: a heap of nested dictionaries in which
 the memo and the shipped defaults stay hidden, loads hand out deep copies, `_load_config` fills
 defaults in place, and callers edit whatever they were handed.
 */
module ConfigHeap {
  import opened Prelude

  /** An allocation, by when it was made: afresh, or by `deepcopy` of another. */
  datatype Addr = Made(time: nat, n: nat) | CopyOf(time: nat, original: Addr)

  /** A value in a dictionary: something immutable, or another dictionary. */
  datatype Cell = Atom(id: int) | Ref(addr: Addr)

  type Dict = map<string, Cell>

  type Heap = map<Addr, Dict>

  function Kids(dict: Dict): set<Addr> {
    set key | key in dict && dict[key].Ref? :: dict[key].addr
  }

  /** `s` lies in the heap and no reference leads out of it. */
  ghost predicate Closed(h: Heap, s: set<Addr>) {
    s <= h.Keys && forall a :: a in s ==> Kids(h[a]) <= s
  }

  function AllKids(h: Heap, s: set<Addr>): (kids: set<Addr>)
    requires s <= h.Keys
    ensures forall a :: a in s ==> Kids(h[a]) <= kids
  {
    set a, kid | a in s && kid in Kids(h[a]) :: kid
  }

  /** Everything reachable from `s`. */
  function Reach(h: Heap, s: set<Addr>): (r: set<Addr>)
    requires s <= h.Keys
    ensures s <= r <= h.Keys
    decreases h.Keys - s
  {
    var more := AllKids(h, s) * h.Keys;
    if more <= s then s else Reach(h, s + more)
  }

  lemma {:induction false} ReachIsClosed(h: Heap, s: set<Addr>)
    requires Closed(h, h.Keys) && s <= h.Keys
    ensures Closed(h, Reach(h, s))
    decreases h.Keys - s
  {
    var more := AllKids(h, s) * h.Keys;
    if more <= s {
      forall a | a in s
        ensures Kids(h[a]) <= s
      {
        assert Kids(h[a]) <= h.Keys;
      }
    } else {
      ReachIsClosed(h, s + more);
    }
  }

  lemma {:induction false} ReachIsLeast(h: Heap, s: set<Addr>, t: set<Addr>)
    requires s <= t && Closed(h, t)
    ensures Reach(h, s) <= t
    decreases h.Keys - s
  {
    var more := AllKids(h, s) * h.Keys;
    if !(more <= s) {
      ReachIsLeast(h, s + more, t);
    }
  }

  /** A closed part of the heap that has not changed reaches what it reached. */
  lemma ReachFrame(h: Heap, h': Heap, s: set<Addr>, frame: set<Addr>)
    requires Closed(h, h.Keys) && Closed(h', h'.Keys) && Closed(h, frame) && s <= frame
    requires forall a :: a in frame ==> a in h' && h'[a] == h[a]
    ensures Reach(h', s) == Reach(h, s) && Reach(h, s) <= frame
  {
    ReachIsClosed(h, s);
    ReachIsLeast(h, s, frame);
    ReachIsLeast(h', s, Reach(h, s));
    ReachIsClosed(h', s);
    ReachIsLeast(h, s, Reach(h', s));
  }

  // ----- deepcopy -----

  function CopiedCell(cell: Cell, now: nat): Cell {
    if cell.Ref? then Ref(CopyOf(now, cell.addr)) else cell
  }

  function CopiedDict(dict: Dict, now: nat): Dict {
    map key | key in dict :: CopiedCell(dict[key], now)
  }

  function Copied(s: set<Addr>, now: nat): (t: set<Addr>)
    ensures forall b :: b in t <==> b.CopyOf? && b.time == now && b.original in s
  {
    set a | a in s :: CopyOf(now, a)
  }

  function Copies(h: Heap, r: set<Addr>, now: nat): (copies: Heap)
    requires r <= h.Keys
    ensures copies.Keys == Copied(r, now)
    ensures forall b :: b in copies ==> copies[b] == CopiedDict(h[b.original], now)
  {
    map b | b in Copied(r, now) :: CopiedDict(h[b.original], now)
  }

  /** `copy.deepcopy`: everything reachable, shared and cyclic parts included, each dictionary at a new address. */
  function DeepCopy(h: Heap, now: nat, root: Addr): Heap
    requires root in h
  {
    h + Copies(h, Reach(h, {root}), now)
  }

  ghost predicate Before(h: Heap, now: nat) {
    forall a :: a in h ==> a.time < now
  }

  lemma CopiesAreClosed(h: Heap, r: set<Addr>, now: nat)
    requires Closed(h, r)
    ensures Closed(Copies(h, r, now), Copied(r, now))
  {
  }

  lemma ClosedIn(h: Heap, h': Heap, s: set<Addr>)
    requires Closed(h, s) && forall a :: a in s ==> a in h' && h'[a] == h[a]
    ensures Closed(h', s)
  {
  }

  lemma ClosedUnion(h: Heap, s: set<Addr>, t: set<Addr>)
    requires Closed(h, s) && Closed(h, t)
    ensures Closed(h, s + t)
  {
  }

  /** The copy is a closed part of the heap of its own, and the old heap is as it was. */
  lemma DeepCopyIsApart(h: Heap, now: nat, root: Addr)
    requires Closed(h, h.Keys) && Before(h, now) && root in h
    ensures var h', cells := DeepCopy(h, now, root), Copied(Reach(h, {root}), now);
            && h'.Keys == h.Keys + cells && cells !! h.Keys && CopyOf(now, root) in cells
            && (forall a :: a in h ==> h'[a] == h[a])
            && Closed(h', cells) && Closed(h', h'.Keys) && Before(h', now + 1)
            && (forall b :: b in cells ==> h'[b] == CopiedDict(h[b.original], now))
  {
    var r := Reach(h, {root});
    var h', cells := DeepCopy(h, now, root), Copied(r, now);
    ReachIsClosed(h, {root});
    CopiesAreClosed(h, r, now);
    ClosedIn(Copies(h, r, now), h', cells);
    ClosedIn(h, h', h.Keys);
    ClosedUnion(h', h.Keys, cells);
  }

  // ----- the process -----

  /**
   `hidden` holds the memo's trees and `DEFAULT_CONFIG`; `handed` holds what callers were given or
   made themselves.
   */
  datatype Process = Process(
    heap: Heap, now: nat, hidden: set<Addr>, handed: set<Addr>, cache: map<string, Addr>, defaults: Addr)

  ghost predicate Valid(p: Process) {
    && Closed(p.heap, p.heap.Keys) && Before(p.heap, p.now)
    && Closed(p.heap, p.hidden) && Closed(p.heap, p.handed) && p.hidden !! p.handed
    && (forall name :: name in p.cache ==> p.cache[name] in p.hidden)
    && p.defaults in p.hidden
  }

  /** Nothing hidden has changed. */
  ghost predicate Preserved(p: Process, q: Process) {
    && p.hidden <= q.hidden && p.defaults == q.defaults
    && forall a :: a in p.hidden && a in p.heap ==> a in q.heap && q.heap[a] == p.heap[a]
  }

  datatype Step =
    | Hit(name: string)
    | Miss(name: string, graph: Heap, root: Addr, store: bool)
    | FreshDefaults
    | FillDefaults(root: Addr, keys: seq<string>)
    | Edit(addr: Addr, key: string, cell: Option<Cell>)

  /** A copy of something hidden, handed out. */
  function HandOut(p: Process, root: Addr): Process
    requires root in p.heap
  {
    p.(heap := DeepCopy(p.heap, p.now, root), now := p.now + 1,
       handed := p.handed + Copied(Reach(p.heap, {root}), p.now))
  }

  /** A copy of something handed out, kept under a name. */
  function Keep(p: Process, name: string, root: Addr): Process
    requires root in p.heap
  {
    p.(heap := DeepCopy(p.heap, p.now, root), now := p.now + 1,
       hidden := p.hidden + Copied(Reach(p.heap, {root}), p.now), cache := p.cache[name := CopyOf(p.now, root)])
  }

  /** What the YAML loader builds: new dictionaries that refer only to each other. */
  ghost predicate IsParse(p: Process, graph: Heap, root: Addr) {
    root in graph && Closed(graph, graph.Keys) && forall a :: a in graph ==> a.time == p.now
  }

  /** It belongs to the caller. */
  function Parsed(p: Process, graph: Heap): Process {
    p.(heap := p.heap + graph, now := p.now + 1, handed := p.handed + graph.Keys)
  }

  predicate MayWrite(p: Process, addr: Addr, cell: Option<Cell>) {
    addr in p.handed && addr in p.heap && (cell.Some? && cell.value.Ref? ==> cell.value.addr in p.handed)
  }

  /** A write into a handed dictionary of something the caller can reach, or a deletion. */
  function Write(p: Process, addr: Addr, key: string, cell: Option<Cell>): Process
    requires addr in p.heap
  {
    var dict := p.heap[addr];
    p.(heap := p.heap[addr := if cell.None? then dict - {key} else dict[key := cell.value]])
  }

  /** One missing key of a handed dictionary, filled from a hidden one by a deep copy. */
  function FillKey(p: Process, target: Addr, from: Addr, key: string): (q: Process)
    requires target in p.heap && from in p.heap
    ensures target in q.heap && from in q.heap
  {
    if key !in p.heap[from] || key in p.heap[target] then p
    else
      match p.heap[from][key]
      case Atom(id) => Write(p, target, key, Some(Atom(id)))
      case Ref(addr) =>
        if addr in p.heap then Write(HandOut(p, addr), target, key, Some(Ref(CopyOf(p.now, addr)))) else p
  }

  function FillKeys(p: Process, target: Addr, from: Addr, keys: seq<string>): Process
    requires target in p.heap && from in p.heap
    decreases |keys|
  {
    if keys == [] then p else FillKeys(FillKey(p, target, from, keys[0]), target, from, keys[1..])
  }

  /** `_load_config` after the parse: the whole `values` block, or its missing top-level keys. */
  function Filled(p: Process, root: Addr, keys: seq<string>): Process
    requires root in p.heap && p.defaults in p.heap
  {
    if "values" !in p.heap[root] then FillKey(p, root, p.defaults, "values")
    else if "values" in p.heap[p.defaults] && p.heap[p.defaults]["values"].Ref? && p.heap[root]["values"].Ref? then
      var from, target := p.heap[p.defaults]["values"].addr, p.heap[root]["values"].addr;
      if from in p.heap && target in p.heap then FillKeys(p, target, from, keys) else p
    else p
  }

  /** A step that is not possible leaves the process as it is. */
  ghost function Next(p: Process, step: Step): Process {
    match step
    case Hit(name) => if name in p.cache && p.cache[name] in p.heap then HandOut(p, p.cache[name]) else p
    case Miss(name, graph, root, store) =>
      if !IsParse(p, graph, root) then p
      else if store then Keep(Parsed(p, graph), name, root)
      else Parsed(p, graph)
    case FreshDefaults => if p.defaults in p.heap then HandOut(p, p.defaults) else p
    case FillDefaults(root, keys) =>
      if root in p.handed && root in p.heap && p.defaults in p.heap then Filled(p, root, keys) else p
    case Edit(addr, key, cell) => if MayWrite(p, addr, cell) then Write(p, addr, key, cell) else p
  }

  ghost function Run(p: Process, steps: seq<Step>): Process
    decreases |steps|
  {
    if steps == [] then p else Run(Next(p, steps[0]), steps[1..])
  }

  // ----- every step keeps the two sides apart -----

  /** Growing the heap leaves what was closed closed. */
  lemma SidesStayClosed(p: Process, h: Heap)
    requires Valid(p) && forall a :: a in p.heap ==> a in h && h[a] == p.heap[a]
    ensures Closed(h, p.hidden) && Closed(h, p.handed)
  {
  }

  lemma HandOutKeeps(p: Process, root: Addr)
    requires Valid(p) && root in p.hidden
    ensures var q := HandOut(p, root);
            && Valid(q) && Preserved(p, q)
            && p.handed <= q.handed && p.heap.Keys <= q.heap.Keys && q.hidden == p.hidden
            && CopyOf(p.now, root) in q.handed
            && forall a :: a in p.heap ==> q.heap[a] == p.heap[a]
  {
    DeepCopyIsApart(p.heap, p.now, root);
    var q := HandOut(p, root);
    SidesStayClosed(p, q.heap);
    ClosedUnion(q.heap, p.handed, Copied(Reach(p.heap, {root}), p.now));
  }

  lemma KeepKeeps(p: Process, name: string, root: Addr)
    requires Valid(p) && root in p.handed
    ensures Valid(Keep(p, name, root)) && Preserved(p, Keep(p, name, root))
  {
    DeepCopyIsApart(p.heap, p.now, root);
    var q := Keep(p, name, root);
    SidesStayClosed(p, q.heap);
    ClosedUnion(q.heap, p.hidden, Copied(Reach(p.heap, {root}), p.now));
  }

  lemma ParsedKeeps(p: Process, graph: Heap, root: Addr)
    requires Valid(p) && IsParse(p, graph, root)
    ensures Valid(Parsed(p, graph)) && Preserved(p, Parsed(p, graph))
  {
    var q := Parsed(p, graph);
    assert p.heap.Keys !! graph.Keys;
    SidesStayClosed(p, q.heap);
    ClosedIn(p.heap, q.heap, p.heap.Keys);
    ClosedIn(graph, q.heap, graph.Keys);
    ClosedUnion(q.heap, p.handed, graph.Keys);
    ClosedUnion(q.heap, p.heap.Keys, graph.Keys);
    assert q.heap.Keys == p.heap.Keys + graph.Keys;
  }

  lemma WriteKeeps(p: Process, addr: Addr, key: string, cell: Option<Cell>)
    requires Valid(p) && MayWrite(p, addr, cell)
    ensures Valid(Write(p, addr, key, cell)) && Preserved(p, Write(p, addr, key, cell))
  {
    var q := Write(p, addr, key, cell);
    assert Kids(p.heap[addr]) <= p.handed;
    assert Kids(q.heap[addr]) <= p.handed;
    assert p.handed <= p.heap.Keys;
    assert q.heap.Keys == p.heap.Keys;
    assert forall a :: a in p.heap && a != addr ==> q.heap[a] == p.heap[a];
  }

  lemma PreservedTwice(p: Process, q: Process, r: Process)
    requires p.hidden <= p.heap.Keys && Preserved(p, q) && Preserved(q, r)
    ensures Preserved(p, r)
  {
  }

  lemma FillKeyKeeps(p: Process, target: Addr, from: Addr, key: string)
    requires Valid(p) && target in p.handed && from in p.hidden
    ensures var q := FillKey(p, target, from, key);
            Valid(q) && Preserved(p, q) && target in q.handed && from in q.hidden
  {
    if key in p.heap[from] && key !in p.heap[target] {
      match p.heap[from][key]
      case Atom(id) => WriteKeeps(p, target, key, Some(Atom(id)));
      case Ref(addr) =>
        assert addr in Kids(p.heap[from]);
        HandOutKeeps(p, addr);
        var q := HandOut(p, addr);
        WriteKeeps(q, target, key, Some(Ref(CopyOf(p.now, addr))));
        PreservedTwice(p, q, Write(q, target, key, Some(Ref(CopyOf(p.now, addr)))));
    }
  }

  lemma {:induction false} FillKeysKeeps(p: Process, target: Addr, from: Addr, keys: seq<string>)
    requires Valid(p) && target in p.handed && from in p.hidden
    ensures Valid(FillKeys(p, target, from, keys)) && Preserved(p, FillKeys(p, target, from, keys))
    decreases |keys|
  {
    if keys != [] {
      var q := FillKey(p, target, from, keys[0]);
      FillKeyKeeps(p, target, from, keys[0]);
      FillKeysKeeps(q, target, from, keys[1..]);
      PreservedTwice(p, q, FillKeys(q, target, from, keys[1..]));
    }
  }

  /** Filling adds exactly the missing keys the defaults have, and leaves the keys the file set alone. */
  lemma {:induction false} FillingAddsTheMissingKeys(p: Process, target: Addr, from: Addr, keys: seq<string>)
    requires Valid(p) && target in p.handed && from in p.hidden
    ensures var before, after := p.heap[target], FillKeys(p, target, from, keys).heap;
            && target in after
            && (forall key :: key in after[target] <==> key in before || (key in keys && key in p.heap[from]))
            && (forall key :: key in before ==> after[target][key] == before[key])
    decreases |keys|
  {
    FillKeysKeeps(p, target, from, keys);
    if keys != [] {
      var q := FillKey(p, target, from, keys[0]);
      FillKeyKeeps(p, target, from, keys[0]);
      FillingAddsTheMissingKeys(q, target, from, keys[1..]);
      FillKeyAdds(p, target, from, keys[0]);
      assert forall key :: key in keys <==> key == keys[0] || key in keys[1..];
    }
  }

  lemma FillKeyAdds(p: Process, target: Addr, from: Addr, key: string)
    requires Valid(p) && target in p.handed && from in p.hidden
    ensures var q := FillKey(p, target, from, key);
            && (forall k :: k in q.heap[target] <==> k in p.heap[target] || (k == key && k in p.heap[from]))
            && (forall k :: k in p.heap[target] ==> q.heap[target][k] == p.heap[target][k])
            && q.heap[from] == p.heap[from]
  {
    if key in p.heap[from] && key !in p.heap[target] && p.heap[from][key].Ref? {
      assert p.heap[from][key].addr in Kids(p.heap[from]);
      HandOutKeeps(p, p.heap[from][key].addr);
    }
  }

  /** What a filled cell holds: the default itself when it is immutable, else a deep copy of its tree. */
  ghost predicate IsFilledFrom(h: Heap, cell: Cell, h': Heap, filled: Cell) {
    match cell
    case Atom(_) => filled == cell
    case Ref(addr) =>
      && addr in h && filled.Ref? && filled.addr.CopyOf? && filled.addr.original == addr
      && IsTreeCopy(h, Reach(h, {addr}), h', filled.addr.time)
  }

  ghost predicate IsTreeCopy(h: Heap, tree: set<Addr>, h': Heap, time: nat) {
    forall a :: a in tree && a in h ==> CopyOf(time, a) in h' && h'[CopyOf(time, a)] == CopiedDict(h[a], time)
  }

  lemma FillKeyTouchesOnlyTheTarget(p: Process, target: Addr, from: Addr, key: string)
    requires Valid(p) && target in p.handed && from in p.hidden
    ensures var q := FillKey(p, target, from, key);
            forall a :: a in p.heap && a != target ==> a in q.heap && q.heap[a] == p.heap[a]
  {
    if key in p.heap[from] && key !in p.heap[target] && p.heap[from][key].Ref? {
      assert p.heap[from][key].addr in Kids(p.heap[from]);
      HandOutKeeps(p, p.heap[from][key].addr);
    }
  }

  lemma {:induction false} FillKeysTouchOnlyTheTarget(p: Process, target: Addr, from: Addr, keys: seq<string>)
    requires Valid(p) && target in p.handed && from in p.hidden
    ensures var q := FillKeys(p, target, from, keys);
            forall a :: a in p.heap && a != target ==> a in q.heap && q.heap[a] == p.heap[a]
    decreases |keys|
  {
    if keys != [] {
      FillKeyKeeps(p, target, from, keys[0]);
      FillKeyTouchesOnlyTheTarget(p, target, from, keys[0]);
      FillKeysTouchOnlyTheTarget(FillKey(p, target, from, keys[0]), target, from, keys[1..]);
    }
  }

  lemma FilledKeyIsACopy(p: Process, target: Addr, from: Addr, key: string)
    requires Valid(p) && target in p.handed && from in p.hidden
    requires key in p.heap[from] && key !in p.heap[target]
    ensures var q := FillKey(p, target, from, key);
            && key in q.heap[target] && IsFilledFrom(p.heap, p.heap[from][key], q.heap, q.heap[target][key])
            && (q.heap[target][key].Ref? ==> q.heap[target][key].addr.time == p.now)
  {
    if p.heap[from][key].Ref? {
      var addr := p.heap[from][key].addr;
      assert addr in Kids(p.heap[from]);
      DeepCopyIsApart(p.heap, p.now, addr);
      assert forall a :: CopyOf(p.now, a) != target;
    }
  }

  /** A copy made by now is not disturbed by more filling. */
  lemma FilledStays(h: Heap, cell: Cell, p: Process, filled: Cell, target: Addr, from: Addr, keys: seq<string>)
    requires Valid(p) && target in p.handed && from in p.hidden
    requires IsFilledFrom(h, cell, p.heap, filled) && (filled.Ref? ==> target.time < filled.addr.time)
    ensures IsFilledFrom(h, cell, FillKeys(p, target, from, keys).heap, filled)
  {
    FillKeysTouchOnlyTheTarget(p, target, from, keys);
  }

  /** A copy of a hidden tree is one of the same tree before the last key was filled. */
  lemma FilledFromBefore(p: Process, q: Process, cell: Cell, h': Heap, filled: Cell)
    requires Valid(p) && Valid(q) && Preserved(p, q) && (cell.Ref? ==> cell.addr in p.hidden)
    requires IsFilledFrom(q.heap, cell, h', filled)
    ensures IsFilledFrom(p.heap, cell, h', filled)
  {
    if cell.Ref? {
      ReachFrame(p.heap, q.heap, {cell.addr}, p.hidden);
    }
  }

  /** And each key that filling adds holds the default, or a deep copy of it. */
  lemma {:induction false} FillingCopiesTheDefaults(
    p: Process, target: Addr, from: Addr, keys: seq<string>, key: string)
    requires Valid(p) && target in p.handed && from in p.hidden
    requires key in keys && key in p.heap[from] && key !in p.heap[target]
    ensures var after := FillKeys(p, target, from, keys).heap;
            target in after && key in after[target] &&
            IsFilledFrom(p.heap, p.heap[from][key], after, after[target][key])
    decreases |keys|
  {
    var q, rest, cell := FillKey(p, target, from, keys[0]), keys[1..], p.heap[from][key];
    FillKeyKeeps(p, target, from, keys[0]);
    FillKeyAdds(p, target, from, keys[0]);
    FillingAddsTheMissingKeys(q, target, from, rest);
    hide IsFilledFrom;
    if keys[0] == key {
      FilledKeyIsACopy(p, target, from, key);
      FilledStays(p.heap, cell, q, q.heap[target][key], target, from, rest);
    } else {
      assert key in rest;
      FillingCopiesTheDefaults(q, target, from, rest, key);
      assert cell.Ref? ==> cell.addr in Kids(p.heap[from]);
      var after := FillKeys(q, target, from, rest).heap;
      FilledFromBefore(p, q, cell, after, after[target][key]);
    }
  }

  lemma FilledKeeps(p: Process, root: Addr, keys: seq<string>)
    requires Valid(p) && root in p.handed
    ensures Valid(Filled(p, root, keys)) && Preserved(p, Filled(p, root, keys))
  {
    if "values" !in p.heap[root] {
      FillKeyKeeps(p, root, p.defaults, "values");
    } else if "values" in p.heap[p.defaults] && p.heap[p.defaults]["values"].Ref? && p.heap[root]["values"].Ref? {
      var from, target := p.heap[p.defaults]["values"].addr, p.heap[root]["values"].addr;
      assert from in Kids(p.heap[p.defaults]) && target in Kids(p.heap[root]);
      FillKeysKeeps(p, target, from, keys);
    }
  }

  lemma NextKeeps(p: Process, step: Step)
    requires Valid(p)
    ensures Valid(Next(p, step)) && Preserved(p, Next(p, step))
  {
    match step
    case Hit(name) =>
      if name in p.cache {
        HandOutKeeps(p, p.cache[name]);
      }
    case Miss(name, graph, root, store) =>
      if IsParse(p, graph, root) {
        var q := Parsed(p, graph);
        ParsedKeeps(p, graph, root);
        if store {
          KeepKeeps(q, name, root);
          PreservedTwice(p, q, Keep(q, name, root));
        }
      }
    case FreshDefaults => HandOutKeeps(p, p.defaults);
    case FillDefaults(root, keys) =>
      if root in p.handed {
        FilledKeeps(p, root, keys);
      }
    case Edit(addr, key, cell) =>
      if MayWrite(p, addr, cell) {
        WriteKeeps(p, addr, key, cell);
      }
  }

  lemma {:induction false} RunKeeps(p: Process, steps: seq<Step>)
    requires Valid(p)
    ensures Valid(Run(p, steps)) && Preserved(p, Run(p, steps))
    decreases |steps|
  {
    if steps != [] {
      var q := Next(p, steps[0]);
      NextKeeps(p, steps[0]);
      RunKeeps(q, steps[1..]);
      PreservedTwice(p, q, Run(q, steps[1..]));
    }
  }

  /**
   No sequence of loads, fills and edits changes a cached tree or the shipped defaults: each reaches
   exactly the dictionaries it reached, holding exactly what they held.
   */
  lemma HiddenTreesNeverChange(p: Process, steps: seq<Step>, root: Addr)
    requires Valid(p) && root in p.hidden
    ensures var q := Run(p, steps);
            && root in q.heap
            && Reach(q.heap, {root}) == Reach(p.heap, {root})
            && forall a :: a in Reach(p.heap, {root}) ==> q.heap[a] == p.heap[a]
  {
    RunKeeps(p, steps);
    ReachFrame(p.heap, Run(p, steps).heap, {root}, p.hidden);
  }

  /** A copy handed out is the tree, dictionary by dictionary, and shares none with anything that exists. */
  ghost predicate IsPrivateCopy(p: Process, q: Process, root: Addr) {
    var copy := CopyOf(p.now, root);
    && root in p.heap && copy in q.handed && copy in q.heap
    && Reach(q.heap, {copy}) !! p.heap.Keys
    && IsTreeCopy(p.heap, Reach(p.heap, {root}), q.heap, p.now)
  }

  lemma HandedOutIsPrivate(p: Process, root: Addr)
    requires Valid(p) && root in p.hidden
    ensures IsPrivateCopy(p, HandOut(p, root), root)
  {
    DeepCopyIsApart(p.heap, p.now, root);
    ReachIsLeast(DeepCopy(p.heap, p.now, root), {CopyOf(p.now, root)}, Copied(Reach(p.heap, {root}), p.now));
  }

  /** What a hit hands out is a private copy of the cached tree. */
  lemma HitIsPrivate(p: Process, name: string)
    requires Valid(p) && name in p.cache
    ensures IsPrivateCopy(p, Next(p, Hit(name)), p.cache[name])
  {
    HandedOutIsPrivate(p, p.cache[name]);
  }

  /** `_fresh_default_config` hands out a private copy of the shipped defaults. */
  lemma FreshDefaultsArePrivate(p: Process)
    requires Valid(p)
    ensures IsPrivateCopy(p, Next(p, FreshDefaults), p.defaults)
  {
    HandedOutIsPrivate(p, p.defaults);
  }

  lemma ParsedReaches(p: Process, graph: Heap, root: Addr)
    requires Valid(p) && IsParse(p, graph, root)
    ensures var parsed := Parsed(p, graph);
            && Valid(parsed) && root in parsed.heap && Reach(parsed.heap, {root}) == Reach(graph, {root})
            && Reach(graph, {root}) <= graph.Keys && forall a :: a in graph ==> parsed.heap[a] == graph[a]
  {
    ParsedKeeps(p, graph, root);
    assert p.heap.Keys !! graph.Keys;
    ReachFrame(graph, Parsed(p, graph).heap, {root}, graph.Keys);
  }

  /** A load that misses hands over what was parsed. */
  lemma MissHandsOverWhatItParsed(p: Process, name: string, graph: Heap, root: Addr, store: bool)
    requires Valid(p) && IsParse(p, graph, root)
    ensures var q := Next(p, Miss(name, graph, root, store));
            && root in q.handed && (forall a :: a in graph ==> a in q.heap && q.heap[a] == graph[a])
            && (!store ==> q.cache == p.cache && q.hidden == p.hidden)
  {
    ParsedReaches(p, graph, root);
    if store {
      DeepCopyIsApart(Parsed(p, graph).heap, p.now + 1, root);
    }
  }

  /** And it remembers, when the file did not change meanwhile, a copy of just that under its name. */
  lemma MissRemembersWhatItParsed(p: Process, name: string, graph: Heap, root: Addr)
    requires Valid(p) && IsParse(p, graph, root)
    ensures var q := Next(p, Miss(name, graph, root, true));
            && q.cache == p.cache[name := CopyOf(p.now + 1, root)] && q.cache[name] in q.hidden
            && IsTreeCopy(graph, Reach(graph, {root}), q.heap, p.now + 1)
  {
    var parsed := Parsed(p, graph);
    ParsedReaches(p, graph, root);
    DeepCopyIsApart(parsed.heap, p.now + 1, root);
    var tree := Reach(graph, {root});
    hide Reach, Parsed, DeepCopy;
    assert CopyOf(p.now + 1, root) in Copied(tree, p.now + 1);
  }

  /** What loading does to a tree that was handed out: it fills `values`, whole or key by key, from the defaults. */
  lemma LoadFillsTheDefaults(p: Process, root: Addr, keys: seq<string>, key: string)
    requires Valid(p) && root in p.handed
    requires "values" in p.heap[p.defaults] && p.heap[p.defaults]["values"].Ref?
    requires "values" in p.heap[root] ==> p.heap[root]["values"].Ref?
    ensures var q := Next(p, FillDefaults(root, keys));
            var from := p.heap[p.defaults]["values"].addr;
            && from in p.heap && root in q.heap && "values" in q.heap[root]
            && ("values" !in p.heap[root] ==>
                  IsFilledFrom(p.heap, Ref(from), q.heap, q.heap[root]["values"]))
            && ("values" in p.heap[root] ==>
                  var target := p.heap[root]["values"].addr;
                  && target in p.heap && target in q.heap
                  && (key in q.heap[target] <==> key in p.heap[target] || (key in keys && key in p.heap[from]))
                  && (key in p.heap[target] ==> q.heap[target][key] == p.heap[target][key])
                  && (key in keys && key in p.heap[from] && key !in p.heap[target] ==>
                        IsFilledFrom(p.heap, p.heap[from][key], q.heap, q.heap[target][key])))
  {
    var from := p.heap[p.defaults]["values"].addr;
    assert from in Kids(p.heap[p.defaults]);
    if "values" !in p.heap[root] {
      FilledKeyIsACopy(p, root, p.defaults, "values");
    } else {
      var target := p.heap[root]["values"].addr;
      assert target in Kids(p.heap[root]);
      FillingAddsTheMissingKeys(p, target, from, keys);
      FillKeysTouchOnlyTheTarget(p, target, from, keys);
      if key in keys && key in p.heap[from] && key !in p.heap[target] {
        FillingCopiesTheDefaults(p, target, from, keys, key);
      }
    }
  }

  /** An edit of a dictionary one was handed sets, or drops, that one key of it and nothing else. */
  lemma EditIsExact(p: Process, addr: Addr, key: string, cell: Option<Cell>)
    requires MayWrite(p, addr, cell)
    ensures var q := Next(p, Edit(addr, key, cell));
            && q == p.(heap := q.heap) && q.heap.Keys == p.heap.Keys
            && (forall a :: a in p.heap && a != addr ==> q.heap[a] == p.heap[a])
            && (forall k :: k != key ==> (k in q.heap[addr] <==> k in p.heap[addr]))
            && (forall k :: k != key && k in p.heap[addr] ==> q.heap[addr][k] == p.heap[addr][k])
            && (key in q.heap[addr] <==> cell.Some?) && (cell.Some? ==> q.heap[addr][key] == cell.value)
  {
  }

  /** However long ago a tree was cached and whatever was done since, a hit still hands out that same tree. */
  lemma LaterHitIsTheSameTree(p: Process, steps: seq<Step>, name: string)
    requires Valid(p) && name in p.cache
    requires var q := Run(p, steps); name in q.cache && q.cache[name] == p.cache[name]
    ensures var q := Run(p, steps);
            var h := Next(q, Hit(name)).heap;
            && p.cache[name] in p.heap
            && forall a :: a in Reach(p.heap, {p.cache[name]}) ==>
                 CopyOf(q.now, a) in h && h[CopyOf(q.now, a)] == CopiedDict(p.heap[a], q.now)
  {
    RunKeeps(p, steps);
    HiddenTreesNeverChange(p, steps, p.cache[name]);
    HitIsPrivate(Run(p, steps), name);
  }

  /** A process that has loaded nothing yet, whatever its defaults are built of. */
  lemma StartIsValid(h: Heap, now: nat, defaults: Addr)
    requires Closed(h, h.Keys) && Before(h, now) && defaults in h
    ensures Valid(Process(h, now, h.Keys, {}, map[], defaults))
  {
  }

  // ----- a handed tree stays its holder's -----

  /** Nothing outside `tree` refers into it, and nothing in it refers out. */
  ghost predicate Isolated(p: Process, tree: set<Addr>) {
    && Closed(p.heap, tree) && tree <= p.handed
    && forall a :: a in p.heap && a !in tree ==> Kids(p.heap[a]) !! tree
  }

  /** A step that neither writes into `tree` nor stores an address of it: every load is one. */
  predicate Spares(step: Step, tree: set<Addr>) {
    match step
    case FillDefaults(root, _) => root !in tree
    case Edit(addr, _, cell) => addr !in tree && (cell.Some? && cell.value.Ref? ==> cell.value.addr !in tree)
    case _ => true
  }

  /** `tree` is still isolated and holds what it held. */
  ghost predicate Undisturbed(p: Process, q: Process, tree: set<Addr>) {
    Isolated(q, tree) && forall a :: a in tree && a in p.heap ==> a in q.heap && q.heap[a] == p.heap[a]
  }

  lemma WriteSpares(p: Process, addr: Addr, key: string, cell: Option<Cell>, tree: set<Addr>)
    requires Isolated(p, tree) && addr in p.heap && addr !in tree
    requires cell.Some? && cell.value.Ref? ==> cell.value.addr !in tree
    ensures Undisturbed(p, Write(p, addr, key, cell), tree)
  {
    var q := Write(p, addr, key, cell);
    assert Kids(p.heap[addr]) !! tree;
    assert Kids(q.heap[addr]) !! tree;
  }

  lemma HandOutSpares(p: Process, root: Addr, tree: set<Addr>)
    requires Valid(p) && Isolated(p, tree) && root in p.heap
    ensures Undisturbed(p, HandOut(p, root), tree)
    ensures forall name :: Undisturbed(p, Keep(p, name, root), tree)
  {
    DeepCopyIsApart(p.heap, p.now, root);
    var q, cells := HandOut(p, root), Copied(Reach(p.heap, {root}), p.now);
    assert tree !! cells;
    forall a | a in q.heap && a !in tree
      ensures Kids(q.heap[a]) !! tree
    {
      if a in cells {
        assert Kids(q.heap[a]) <= cells;
      }
    }
  }

  lemma ParsedSpares(p: Process, graph: Heap, root: Addr, tree: set<Addr>)
    requires Valid(p) && Isolated(p, tree) && IsParse(p, graph, root)
    ensures Undisturbed(p, Parsed(p, graph), tree)
  {
    var q := Parsed(p, graph);
    assert tree !! graph.Keys;
    forall a | a in q.heap && a !in tree
      ensures Kids(q.heap[a]) !! tree
    {
      if a in graph {
        assert Kids(q.heap[a]) <= graph.Keys;
      }
    }
  }

  lemma FillKeySpares(p: Process, target: Addr, from: Addr, key: string, tree: set<Addr>)
    requires Valid(p) && Isolated(p, tree) && target in p.handed && target !in tree && from in p.hidden
    ensures Undisturbed(p, FillKey(p, target, from, key), tree)
  {
    if key in p.heap[from] && key !in p.heap[target] {
      match p.heap[from][key]
      case Atom(id) => WriteSpares(p, target, key, Some(Atom(id)), tree);
      case Ref(addr) =>
        assert addr in Kids(p.heap[from]);
        HandOutKeeps(p, addr);
        HandOutSpares(p, addr, tree);
        assert CopyOf(p.now, addr) !in tree;
        WriteSpares(HandOut(p, addr), target, key, Some(Ref(CopyOf(p.now, addr))), tree);
    }
  }

  lemma {:induction false} FillKeysSpares(p: Process, target: Addr, from: Addr, keys: seq<string>, tree: set<Addr>)
    requires Valid(p) && Isolated(p, tree) && target in p.handed && target !in tree && from in p.hidden
    ensures Undisturbed(p, FillKeys(p, target, from, keys), tree)
    decreases |keys|
  {
    if keys != [] {
      FillKeyKeeps(p, target, from, keys[0]);
      FillKeySpares(p, target, from, keys[0], tree);
      FillKeysSpares(FillKey(p, target, from, keys[0]), target, from, keys[1..], tree);
    }
  }

  lemma FilledSpares(p: Process, root: Addr, keys: seq<string>, tree: set<Addr>)
    requires Valid(p) && Isolated(p, tree) && root in p.handed && root !in tree
    ensures Undisturbed(p, Filled(p, root, keys), tree)
  {
    if "values" !in p.heap[root] {
      FillKeySpares(p, root, p.defaults, "values", tree);
    } else if "values" in p.heap[p.defaults] && p.heap[p.defaults]["values"].Ref? && p.heap[root]["values"].Ref? {
      var from, target := p.heap[p.defaults]["values"].addr, p.heap[root]["values"].addr;
      assert from in Kids(p.heap[p.defaults]) && target in Kids(p.heap[root]);
      FillKeysSpares(p, target, from, keys, tree);
    }
  }

  lemma NextSpares(p: Process, step: Step, tree: set<Addr>)
    requires Valid(p) && Isolated(p, tree) && Spares(step, tree)
    ensures Undisturbed(p, Next(p, step), tree)
  {
    match step
    case Hit(name) =>
      if name in p.cache {
        HandOutSpares(p, p.cache[name], tree);
      }
    case Miss(name, graph, root, store) =>
      if IsParse(p, graph, root) {
        ParsedKeeps(p, graph, root);
        ParsedSpares(p, graph, root, tree);
        if store {
          HandOutSpares(Parsed(p, graph), root, tree);
        }
      }
    case FreshDefaults => HandOutSpares(p, p.defaults, tree);
    case FillDefaults(root, keys) =>
      if root in p.handed {
        FilledSpares(p, root, keys, tree);
      }
    case Edit(addr, key, cell) =>
      if MayWrite(p, addr, cell) {
        WriteSpares(p, addr, key, cell, tree);
      }
  }

  lemma {:induction false} RunSpares(p: Process, steps: seq<Step>, tree: set<Addr>)
    requires Valid(p) && Isolated(p, tree)
    requires forall step :: step in steps ==> Spares(step, tree)
    ensures Undisturbed(p, Run(p, steps), tree)
    decreases |steps|
  {
    if steps != [] {
      assert steps[0] in steps;
      NextKeeps(p, steps[0]);
      NextSpares(p, steps[0], tree);
      RunSpares(Next(p, steps[0]), steps[1..], tree);
    }
  }

  /**
   What a hit hands out stays its holder's: until somebody writes into that very tree, or ties it into
   another, no load, fill or edit changes it, not even one of another copy of the same cached tree.
   */
  lemma HandedTreeStays(p: Process, name: string, steps: seq<Step>)
    requires Valid(p) && name in p.cache
    requires var tree := Reach(Next(p, Hit(name)).heap, {CopyOf(p.now, p.cache[name])});
             forall step :: step in steps ==> Spares(step, tree)
    ensures var q, copy := Next(p, Hit(name)), CopyOf(p.now, p.cache[name]);
            var r := Run(q, steps);
            && copy in r.heap && Reach(r.heap, {copy}) == Reach(q.heap, {copy})
            && forall a :: a in Reach(q.heap, {copy}) ==> r.heap[a] == q.heap[a]
  {
    var q, copy := Next(p, Hit(name)), CopyOf(p.now, p.cache[name]);
    var tree := Reach(q.heap, {copy});
    HandOutKeeps(p, p.cache[name]);
    HitIsIsolated(p, name);
    RunSpares(q, steps, tree);
    NextKeeps(p, Hit(name));
    RunKeeps(q, steps);
    ReachFrame(q.heap, Run(q, steps).heap, {copy}, tree);
  }

  lemma HitIsIsolated(p: Process, name: string)
    requires Valid(p) && name in p.cache
    ensures var q, copy := Next(p, Hit(name)), CopyOf(p.now, p.cache[name]);
            copy in q.heap && Isolated(q, Reach(q.heap, {copy}))
  {
    var root := p.cache[name];
    var q, copy, cells := Next(p, Hit(name)), CopyOf(p.now, root), Copied(Reach(p.heap, {root}), p.now);
    DeepCopyIsApart(p.heap, p.now, root);
    CopyReachesAll(p.heap, root, p.now);
    HandOutKeeps(p, root);
    forall a | a in q.heap && a !in cells
      ensures Kids(q.heap[a]) !! cells
    {
      assert Kids(p.heap[a]) <= p.heap.Keys;
    }
  }

  lemma KidsAreCopied(h: Heap, h': Heap, a: Addr, now: nat, tree: set<Addr>)
    requires a in h && CopyOf(now, a) in tree && Closed(h', tree) && h'[CopyOf(now, a)] == CopiedDict(h[a], now)
    ensures forall kid :: kid in Kids(h[a]) ==> CopyOf(now, kid) in tree
  {
    var copy := h'[CopyOf(now, a)];
    forall kid | kid in Kids(h[a])
      ensures CopyOf(now, kid) in tree
    {
      var key :| key in h[a] && h[a][key] == Ref(kid);
      assert copy[key] == Ref(CopyOf(now, kid));
      assert CopyOf(now, kid) in Kids(copy);
    }
  }

  /** A copy reaches exactly the copies of what its original reaches. */
  lemma CopyReachesAll(h: Heap, root: Addr, now: nat)
    requires Closed(h, h.Keys) && Before(h, now) && root in h
    ensures CopyOf(now, root) in DeepCopy(h, now, root)
    ensures Reach(DeepCopy(h, now, root), {CopyOf(now, root)}) == Copied(Reach(h, {root}), now)
  {
    var h', cells, copy := DeepCopy(h, now, root), Copied(Reach(h, {root}), now), CopyOf(now, root);
    DeepCopyIsApart(h, now, root);
    ReachIsLeast(h', {copy}, cells);
    ReachIsClosed(h', {copy});
    ReachIsClosed(h, {root});
    var tree := Reach(h', {copy});
    var reached := set a | a in Reach(h, {root}) && CopyOf(now, a) in tree;
    forall a | a in reached
      ensures Kids(h[a]) <= reached
    {
      KidsAreCopied(h, h', a, now, tree);
    }
    ReachIsLeast(h, {root}, reached);
  }
}
