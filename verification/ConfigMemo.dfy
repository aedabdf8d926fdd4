/**
 The parsed-config memo of `local_operator/config.py`: `_parse_config_stream` and the files under it.

 `Memo` is the module's dictionary and the one function that writes it. `World` adds the files, their
 in-place rewrites and atomic replacements, and any number of loads in flight, each of which takes an
 fstat, reads in chunks, and takes a second fstat, with writes landing anywhere in between.
 */
module ConfigMemo {
  import opened Prelude
  import opened Yaml

  type Bytes = seq<int>

  /** What fstat says: inode, device, size, mtime and ctime, as one value. */
  type Key = int

  type Name = string

  type Parser = Bytes -> Option<Value>

  datatype Entry = Entry(key: Key, tree: Value)

  type Cache = map<Name, Entry>

  predicate Hits(cache: Cache, name: Name, key: Option<Key>) {
    key.Some? && name in cache && cache[name].key == key.value
  }

  /** The store at the end of a load, gated by the second fstat. */
  function Stored(cache: Cache, name: Name, key: Option<Key>, tree: Value, again: Option<Key>): Cache {
    if key.Some? && again == key then cache[name := Entry(key.value, tree)] else cache
  }

  /** `_parse_config_stream`, given what its two fstats and its read saw; `None` is a parse error. */
  function ParsedStream(parse: Parser, cache: Cache, name: Name, first: Option<Key>, read: Bytes, second: Option<Key>)
    : (Option<Value>, Cache)
  {
    if Hits(cache, name, first) then (Some(cache[name].tree), cache)
    else
      var loaded := parse(read);
      (loaded, if loaded.None? then cache else Stored(cache, name, first, loaded.value, second))
  }

  class Memo {
    var parsed: Cache

    constructor ()
      ensures parsed == map[]
    {
      parsed := map[];
    }

    method ParseConfigStream(parse: Parser, name: Name, first: Option<Key>, read: Bytes, second: Option<Key>)
      returns (loaded: Option<Value>)
      modifies this
      ensures (loaded, parsed) == ParsedStream(parse, old(parsed), name, first, read, second)
      ensures var hit := first.Some? && name in old(parsed) && old(parsed)[name].key == first.value;
              && (hit ==> loaded == Some(old(parsed)[name].tree) && parsed == old(parsed))
              && (!hit ==> loaded == parse(read))
              && (!hit && first.Some? && second == first && loaded.Some? ==>
                    parsed == old(parsed)[name := Entry(first.value, loaded.value)])
              && (!hit && (first.None? || second != first || loaded.None?) ==> parsed == old(parsed))
    {
      if first.Some? {
        if name in parsed && parsed[name].key == first.value {
          return Some(parsed[name].tree);
        }
      }
      loaded := parse(read);
      if loaded.None? {
        return;
      }
      if first.Some? {
        var stable := second.Some? && second.value == first.value;
        if stable {
          parsed := parsed[name := Entry(first.value, loaded.value)];
        }
      }
    }
  }

  // ----- the world of files and loads -----

  type Inode = nat

  type LoadId = nat

  datatype Version = Version(key: Key, bytes: Bytes)

  /**
   A load in flight on an open descriptor. `since` is the version the first fstat saw and `got` what
   has been read so far.
   */
  datatype Load =
    | Opened(name: Name, inode: Inode)
    | Reading(name: Name, inode: Inode, key: Option<Key>, since: nat, got: Bytes)
    | Read(name: Name, inode: Inode, key: Option<Key>, since: nat, got: Bytes)
    | Returned(name: Name, inode: Inode, tree: Option<Value>)

  /** `files` holds every version each inode has had; the last is the present one. */
  datatype World = World(
    files: map<Inode, seq<Version>>, paths: map<Name, Inode>, cache: Cache, loads: map<LoadId, Load>)

  datatype Step =
    | Rewrite(inode: Inode, key: Key, bytes: Bytes)
    | Replace(name: Name, inode: Inode, key: Key, bytes: Bytes)
    | Open(id: LoadId, name: Name)
    | FirstStat(id: LoadId, ok: bool)
    | ReadChunk(id: LoadId, size: nat)
    | EndOfFile(id: LoadId)
    | SecondStat(id: LoadId, ok: bool)

  ghost predicate KeyUnused(files: map<Inode, seq<Version>>, key: Key) {
    forall i, n :: i in files && 0 <= n < |files[i]| ==> files[i][n].key != key
  }

  predicate OnDisk(w: World, load: Load) {
    load.inode in w.files && w.files[load.inode] != []
  }

  function Present(w: World, load: Load): Version
    requires OnDisk(w, load)
  {
    w.files[load.inode][|w.files[load.inode]| - 1]
  }

  function Put(w: World, id: LoadId, load: Load): World {
    w.(loads := w.loads[id := load])
  }

  function StatKey(w: World, load: Load, ok: bool): Option<Key>
    requires OnDisk(w, load)
  {
    if ok then Some(Present(w, load).key) else None
  }

  /** The step of one load. */
  function Advance(parse: Parser, w: World, load: Load, step: Step): (World, Load)
    requires OnDisk(w, load)
  {
    var now := Present(w, load);
    match load
    case Opened(name, inode) =>
      if step.FirstStat? then
        var key := StatKey(w, load, step.ok);
        if Hits(w.cache, name, key) then (w, Returned(name, inode, Some(w.cache[name].tree)))
        else (w, Reading(name, inode, key, |w.files[inode]| - 1, []))
      else (w, load)
    case Reading(name, inode, key, since, got) =>
      if step.ReadChunk? && |got| < |now.bytes| then
        var upto := if |got| + step.size <= |now.bytes| then |got| + step.size else |now.bytes|;
        (w, Reading(name, inode, key, since, got + now.bytes[|got|..upto]))
      else if step.EndOfFile? && |got| >= |now.bytes| then (w, Read(name, inode, key, since, got))
      else (w, load)
    case Read(name, inode, key, since, got) =>
      if step.SecondStat? then
        var tree := parse(got);
        (if tree.None? then w else w.(cache := Stored(w.cache, name, key, tree.value, StatKey(w, load, step.ok))),
         Returned(name, inode, tree))
      else (w, load)
    case Returned(_, _, _) => (w, load)
  }

  /** A step that is not enabled leaves the world as it is; every write gives a key never seen before. */
  ghost function Next(parse: Parser, w: World, step: Step): World {
    match step
    case Rewrite(inode, key, bytes) =>
      if inode in w.files && KeyUnused(w.files, key)
      then w.(files := w.files[inode := w.files[inode] + [Version(key, bytes)]])
      else w
    case Replace(name, inode, key, bytes) =>
      if inode !in w.files && KeyUnused(w.files, key)
      then w.(files := w.files[inode := [Version(key, bytes)]], paths := w.paths[name := inode])
      else w
    case Open(id, name) =>
      if id !in w.loads && name in w.paths then Put(w, id, Opened(name, w.paths[name])) else w
    case _ =>
      if step.id in w.loads && OnDisk(w, w.loads[step.id]) then
        var (w', load) := Advance(parse, w, w.loads[step.id], step);
        Put(w', step.id, load)
      else w
  }

  ghost function Run(parse: Parser, w: World, steps: seq<Step>): World
    decreases |steps|
  {
    if steps == [] then w else Run(parse, Next(parse, w, steps[0]), steps[1..])
  }

  const EMPTY: World := World(map[], map[], map[], map[])

  // ----- the invariant -----

  ghost predicate KeysDistinct(files: map<Inode, seq<Version>>) {
    forall i, m, j, n ::
      i in files && j in files && 0 <= m < |files[i]| && 0 <= n < |files[j]| && files[i][m].key == files[j][n].key ==>
        i == j && m == n
  }

  /** Some version of some file has this key, and its bytes parse to this tree. */
  ghost predicate Vouched(parse: Parser, files: map<Inode, seq<Version>>, entry: Entry) {
    exists i, n :: i in files && 0 <= n < |files[i]| && files[i][n].key == entry.key &&
      parse(files[i][n].bytes) == Some(entry.tree)
  }

  /** Unless a write has landed since the first fstat, what was read is a prefix, and at the end all, of the file. */
  ghost predicate LoadOk(w: World, load: Load) {
    && OnDisk(w, load)
    && (load.Reading? || load.Read? ==> GotOk(w.files[load.inode], load.key, load.since, load.got, load.Read?))
  }

  ghost predicate GotOk(versions: seq<Version>, key: Option<Key>, since: nat, got: Bytes, done: bool) {
    && since < |versions|
    && (key.Some? ==> key.value == versions[since].key)
    && (since == |versions| - 1 ==> if done then got == versions[since].bytes else got <= versions[since].bytes)
  }

  ghost predicate Invariant(parse: Parser, w: World) {
    && (forall i :: i in w.files ==> w.files[i] != [])
    && KeysDistinct(w.files)
    && (forall name :: name in w.paths ==> w.paths[name] in w.files)
    && (forall name :: name in w.cache ==> Vouched(parse, w.files, w.cache[name]))
    && (forall id :: id in w.loads ==> LoadOk(w, w.loads[id]))
  }

  lemma VouchedGrows(parse: Parser, files: map<Inode, seq<Version>>, files': map<Inode, seq<Version>>, entry: Entry)
    requires Vouched(parse, files, entry)
    requires forall i :: i in files ==> i in files' && files[i] <= files'[i]
    ensures Vouched(parse, files', entry)
  {
  }

  lemma WriteKeepsInvariant(parse: Parser, w: World, inode: Inode, version: Version, paths: map<Name, Inode>)
    requires Invariant(parse, w) && KeyUnused(w.files, version.key)
    requires forall name :: name in paths ==> paths[name] in w.files || paths[name] == inode
    ensures var older := if inode in w.files then w.files[inode] else [];
            Invariant(parse, w.(files := w.files[inode := older + [version]], paths := paths))
  {
    var older := if inode in w.files then w.files[inode] else [];
    var w' := w.(files := w.files[inode := older + [version]], paths := paths);
    forall name | name in w.cache
      ensures Vouched(parse, w'.files, w'.cache[name])
    {
      VouchedGrows(parse, w.files, w'.files, w.cache[name]);
    }
    assert KeysDistinct(w'.files);
    forall id | id in w.loads
      ensures LoadOk(w', w'.loads[id])
    {
      assert LoadOk(w, w.loads[id]);
    }
  }

  /** A load that stores read the whole of the version its key names: a torn read is never stored. */
  lemma StoredIsWhole(parse: Parser, w: World, load: Load, step: Step)
    requires Invariant(parse, w) && LoadOk(w, load)
    requires Advance(parse, w, load, step).0.cache != w.cache
    ensures load.Read? && load.key == Some(Present(w, load).key) && load.got == Present(w, load).bytes
    ensures parse(load.got).Some?
    ensures Advance(parse, w, load, step).0.cache ==
            w.cache[load.name := Entry(Present(w, load).key, parse(load.got).value)]
  {
    var versions := w.files[load.inode];
    assert versions[|versions| - 1].key == versions[load.since].key;
  }

  lemma AdvanceStoresVouched(parse: Parser, w: World, load: Load, step: Step)
    requires Invariant(parse, w) && LoadOk(w, load)
    ensures var cache := Advance(parse, w, load, step).0.cache;
            forall name :: name in cache ==> Vouched(parse, w.files, cache[name])
  {
    var cache := Advance(parse, w, load, step).0.cache;
    if cache != w.cache {
      StoredIsWhole(parse, w, load, step);
      var n := |w.files[load.inode]| - 1;
      assert w.files[load.inode][n].key == load.key.value;
      assert parse(w.files[load.inode][n].bytes) == Some(cache[load.name].tree);
      assert Vouched(parse, w.files, cache[load.name]);
    }
  }

  /** A load's own step stores nothing but vouched entries and keeps the load in order. */
  lemma AdvanceKeeps(parse: Parser, w: World, load: Load, step: Step)
    requires Invariant(parse, w) && LoadOk(w, load)
    ensures var (w', load') := Advance(parse, w, load, step);
            && w'.files == w.files && w'.paths == w.paths && w'.loads == w.loads
            && LoadOk(w', load')
            && forall name :: name in w'.cache ==> Vouched(parse, w.files, w'.cache[name])
  {
    AdvanceStoresVouched(parse, w, load, step);
  }

  lemma NextKeepsInvariant(parse: Parser, w: World, step: Step)
    requires Invariant(parse, w)
    ensures Invariant(parse, Next(parse, w, step))
  {
    match step
    case Rewrite(inode, key, bytes) =>
      if inode in w.files && KeyUnused(w.files, key) {
        WriteKeepsInvariant(parse, w, inode, Version(key, bytes), w.paths);
      }
    case Replace(name, inode, key, bytes) =>
      if inode !in w.files && KeyUnused(w.files, key) {
        WriteKeepsInvariant(parse, w, inode, Version(key, bytes), w.paths[name := inode]);
        assert [] + [Version(key, bytes)] == [Version(key, bytes)];
      }
    case Open(id, name) =>
    case _ =>
      if step.id in w.loads && OnDisk(w, w.loads[step.id]) {
        AdvanceKeeps(parse, w, w.loads[step.id], step);
        LoadStepKeepsInvariant(parse, w, step);
      }
  }

  lemma LoadStepKeepsInvariant(parse: Parser, w: World, step: Step)
    requires Invariant(parse, w)
    requires step.FirstStat? || step.ReadChunk? || step.EndOfFile? || step.SecondStat?
    requires step.id in w.loads
    requires var (w', load) := Advance(parse, w, w.loads[step.id], step);
             && w'.files == w.files && w'.paths == w.paths && w'.loads == w.loads
             && LoadOk(w', load)
             && forall name :: name in w'.cache ==> Vouched(parse, w.files, w'.cache[name])
    ensures Invariant(parse, Next(parse, w, step))
  {
    var (w', load) := Advance(parse, w, w.loads[step.id], step);
    var next := Put(w', step.id, load);
    assert next == Next(parse, w, step);
    forall id | id in next.loads
      ensures LoadOk(next, next.loads[id])
    {
      if id != step.id {
        assert LoadOk(w, w.loads[id]);
      }
    }
  }

  lemma {:induction false} RunKeepsInvariant(parse: Parser, w: World, steps: seq<Step>)
    requires Invariant(parse, w)
    ensures Invariant(parse, Run(parse, w, steps))
    decreases |steps|
  {
    if steps != [] {
      NextKeepsInvariant(parse, w, steps[0]);
      RunKeepsInvariant(parse, Next(parse, w, steps[0]), steps[1..]);
    }
  }

  /** A version that was read undisturbed is parsed once: the next load of it hits, whatever it would have read. */
  lemma SecondLoadHits(
    parse: Parser, cache: Cache, name: Name, key: Key, read: Bytes, again: Bytes, second: Option<Key>)
    requires parse(read).Some? && !Hits(cache, name, Some(key))
    ensures var stored := ParsedStream(parse, cache, name, Some(key), read, Some(key)).1;
            ParsedStream(parse, stored, name, Some(key), again, second) == (parse(read), stored)
  {
  }

  // ----- the steps refine the function -----

  /** A write by anyone, or a read by this load. */
  predicate IsWriteOrRead(step: Step, id: LoadId) {
    step.Rewrite? || step.Replace? || (step.ReadChunk? && step.id == id) || (step.EndOfFile? && step.id == id)
  }

  lemma WriteOrReadKeeps(parse: Parser, w: World, id: LoadId, step: Step)
    requires Invariant(parse, w) && id in w.loads && IsWriteOrRead(step, id) && !w.loads[id].Opened?
    ensures var t := Next(parse, w, step);
            && t.cache == w.cache && id in t.loads && SameLoad(w.loads[id], t.loads[id])
  {
    assert LoadOk(w, w.loads[id]);
  }

  /** Later in the same load: what its first fstat saw, or what it has returned, stays. */
  predicate SameLoad(load: Load, later: Load) {
    && load.name == later.name && load.inode == later.inode
    && ((load.Reading? || load.Read?) ==> (later.Reading? || later.Read?) && later.key == load.key)
    && (load.Returned? ==> later == load)
    && !later.Opened?
  }

  lemma {:induction false} WritesAndReadsKeep(parse: Parser, w: World, id: LoadId, steps: seq<Step>)
    requires Invariant(parse, w) && id in w.loads && !w.loads[id].Opened?
    requires forall step :: step in steps ==> IsWriteOrRead(step, id)
    ensures var t := Run(parse, w, steps);
            && Invariant(parse, t) && t.cache == w.cache && id in t.loads && SameLoad(w.loads[id], t.loads[id])
    decreases |steps|
  {
    if steps != [] {
      assert steps[0] in steps;
      WriteOrReadKeeps(parse, w, id, steps[0]);
      NextKeepsInvariant(parse, w, steps[0]);
      WritesAndReadsKeep(parse, Next(parse, w, steps[0]), id, steps[1..]);
    }
  }

  lemma LoadStarts(parse: Parser, w: World, id: LoadId, name: Name, ok: bool)
    requires Invariant(parse, w) && id !in w.loads && name in w.paths
    ensures var start := Next(parse, w, Open(id, name));
            var started := Next(parse, start, FirstStat(id, ok));
            && id in start.loads && OnDisk(start, start.loads[id])
            && Invariant(parse, started) && started.cache == w.cache && id in started.loads
            && var first, load := StatKey(start, start.loads[id], ok), started.loads[id];
               && load.name == name && load.inode == w.paths[name]
               && if Hits(w.cache, name, first) then load == Returned(name, load.inode, Some(w.cache[name].tree))
                  else load.Reading? && load.key == first
  {
    var start := Next(parse, w, Open(id, name));
    NextKeepsInvariant(parse, w, Open(id, name));
    assert LoadOk(start, start.loads[id]);
    NextKeepsInvariant(parse, start, FirstStat(id, ok));
  }

  /**
   The steps refine the object: an open, a first fstat, then partial reads with writes landing anywhere
   among them, and a second fstat leave exactly what `Memo.ParseConfigStream` makes of what the two fstats
   and the read saw.
   */
  lemma LoadRefinesParse(
    parse: Parser, w: World, id: LoadId, name: Name, firstOk: bool, between: seq<Step>, secondOk: bool)
    requires Invariant(parse, w) && id !in w.loads && name in w.paths
    requires forall step :: step in between ==> IsWriteOrRead(step, id)
    ensures var start := Next(parse, w, Open(id, name));
            var started := Next(parse, start, FirstStat(id, firstOk));
            var read := Run(parse, started, between);
            var done := Next(parse, read, SecondStat(id, secondOk));
            && id in start.loads && OnDisk(start, start.loads[id])
            && id in read.loads && OnDisk(read, read.loads[id])
            && (!read.loads[id].Reading? ==>
                  var first := StatKey(start, start.loads[id], firstOk);
                  var bytes := if read.loads[id].Read? then read.loads[id].got else [];
                  var (tree, cache) :=
                    ParsedStream(parse, w.cache, name, first, bytes, StatKey(read, read.loads[id], secondOk));
                  done.loads[id] == Returned(name, w.paths[name], tree) && done.cache == cache)
  {
    LoadStarts(parse, w, id, name, firstOk);
    var started := Next(parse, Next(parse, w, Open(id, name)), FirstStat(id, firstOk));
    WritesAndReadsKeep(parse, started, id, between);
    var read := Run(parse, started, between);
    assert LoadOk(read, read.loads[id]);
    hide Run, Invariant, LoadOk;
  }

  // ----- what the memo promises over every run -----

  /** Every stored entry is the parse of the bytes its key names, and of no others. */
  lemma EntriesAreFreshParses(parse: Parser, steps: seq<Step>, name: Name)
    requires name in Run(parse, EMPTY, steps).cache
    ensures var w := Run(parse, EMPTY, steps);
            var entry := w.cache[name];
            && Vouched(parse, w.files, entry)
            && forall i, n :: i in w.files && 0 <= n < |w.files[i]| && w.files[i][n].key == entry.key ==>
                 parse(w.files[i][n].bytes) == Some(entry.tree)
  {
    RunKeepsInvariant(parse, EMPTY, steps);
  }

  /** A hit returns the parse of what the open descriptor held at the fstat. */
  lemma HitIsAFreshParse(parse: Parser, steps: seq<Step>, id: LoadId)
    requires var w := Run(parse, EMPTY, steps); id in w.loads && w.loads[id].Opened?
    ensures var w := Run(parse, EMPTY, steps);
            var load := w.loads[id];
            && OnDisk(w, load)
            && (Hits(w.cache, load.name, StatKey(w, load, true)) ==>
                  && Next(parse, w, FirstStat(id, true)).loads[id].tree == parse(Present(w, load).bytes)
                  && parse(Present(w, load).bytes).Some?)
  {
    var w := Run(parse, EMPTY, steps);
    RunKeepsInvariant(parse, EMPTY, steps);
    var load := w.loads[id];
    assert LoadOk(w, load);
    if Hits(w.cache, load.name, StatKey(w, load, true)) {
      EntriesAreFreshParses(parse, steps, load.name);
    }
  }

  /** Whatever the interleaving, the step that stores has the whole file in hand, as it is now. */
  lemma TornReadIsNeverStored(parse: Parser, steps: seq<Step>, step: Step)
    requires var w := Run(parse, EMPTY, steps); Next(parse, w, step).cache != w.cache
    ensures var w := Run(parse, EMPTY, steps);
            && step.SecondStat? && step.ok && step.id in w.loads
            && var load := w.loads[step.id];
               && OnDisk(w, load) && load.Read?
               && load.got == Present(w, load).bytes
               && Next(parse, w, step).cache ==
                  w.cache[load.name := Entry(Present(w, load).key, parse(Present(w, load).bytes).value)]
  {
    var w := Run(parse, EMPTY, steps);
    RunKeepsInvariant(parse, EMPTY, steps);
    assert !step.Rewrite? && !step.Replace? && !step.Open?;
    assert LoadOk(w, w.loads[step.id]);
    StoredIsWhole(parse, w, w.loads[step.id], step);
  }
}
