/**
 The live config watcher of `local_operator/config_watch.py`.

 A tick is a stat, two fingerprint comparisons, a read, a diff and a publication, and a writer may
 replace or delete the file between the stat and the read. `ConfigWatcher` is the object itself;
 `System` is the object together with the file and its writers, one atomic action per step.
 */
module ConfigWatch {
  import opened Prelude
  import opened Yaml

  // ----- values, settings and files -----

  type Values = map<string, Value>

  /** One row of the settings registry: the name users see and the path into `values`. */
  datatype Setting = Setting(key: string, path: seq<string>)

  /** The process-wide constants: the shipped defaults and the registry. */
  datatype Env = Env(defaults: Values, registry: seq<Setting>)

  datatype Fingerprint = Fingerprint(inode: int, size: int, mtimeNs: int)

  datatype Source = Disk | Local

  datatype ConfigChange = ConfigChange(values: Values, changedKeys: set<string>, source: Source)

  /** What the bytes of `config.yml` are, by the shapes the parser tells apart. */
  datatype Doc =
    | NotUtf8
    | Blank
    | YamlError
    | NullDocument
    | NotMapping
    | Document(entries: map<string, Value>)

  function Walk(current: Value, path: seq<string>): Option<Value> {
    if path == [] then Some(current)
    else if current.Mapping? && path[0] in current.entries then Walk(current.entries[path[0]], path[1..])
    else None
  }

  function Lookup(values: Values, setting: Setting): Option<Value> {
    Walk(Mapping(values), setting.path)
  }

  function Merged(env: Env, values: Values): Values {
    env.defaults + values
  }

  /** The `values` a file yields, or `None` when it must not be adopted. */
  function Parse(env: Env, doc: Doc): Option<Values> {
    match doc
    case Document(entries) =>
      if "values" !in entries then Some(Merged(env, map[]))
      else if entries["values"].Mapping? then Some(Merged(env, entries["values"].entries))
      else None
    case _ => None
  }

  function ChangedKeys(env: Env, before: Values, after: Values): set<string> {
    set setting | setting in env.registry && Lookup(before, setting) != Lookup(after, setting) :: setting.key
  }

  // ----- what these mean -----

  /** One value after another down a path of keys. */
  ghost predicate IsDescent(chain: seq<Value>, path: seq<string>) {
    && |chain| == |path| + 1
    && forall i :: 0 <= i < |path| ==>
         chain[i].Mapping? && path[i] in chain[i].entries && chain[i].entries[path[i]] == chain[i + 1]
  }

  lemma {:induction false} WalkDescends(current: Value, path: seq<string>)
    returns (chain: seq<Value>)
    requires Walk(current, path).Some?
    ensures IsDescent(chain, path) && chain[0] == current && chain[|path|] == Walk(current, path).value
  {
    chain := [current];
    if path != [] {
      var rest := WalkDescends(current.entries[path[0]], path[1..]);
      chain := chain + rest;
    }
  }

  lemma {:induction false} DescentIsWalked(chain: seq<Value>, path: seq<string>)
    requires IsDescent(chain, path)
    ensures Walk(chain[0], path) == Some(chain[|path|])
  {
    if path != [] {
      assert chain[0].entries[path[0]] == chain[1];
      DescentIsWalked(chain[1..], path[1..]);
    }
  }

  /** A path leads to a value exactly when there is a descent from the whole to it, key by key. */
  lemma WalkExactlyWhen(current: Value, path: seq<string>, found: Value)
    ensures Walk(current, path) == Some(found) <==>
            exists chain: seq<Value> :: IsDescent(chain, path) && chain[0] == current && chain[|path|] == found
  {
    if Walk(current, path) == Some(found) {
      var chain := WalkDescends(current, path);
    }
    if chain: seq<Value> :| IsDescent(chain, path) && chain[0] == current && chain[|path|] == found {
      DescentIsWalked(chain, path);
    }
  }

  /** A file is adopted exactly when it is a mapping whose `values`, if there, is one; its keys beat the defaults. */
  lemma ParseExactlyWhen(env: Env, doc: Doc)
    ensures Parse(env, doc).Some? <==>
            doc.Document? && ("values" in doc.entries ==> doc.entries["values"].Mapping?)
    ensures Parse(env, doc).Some? ==>
              var own := if "values" in doc.entries then doc.entries["values"].entries else map[];
              var adopted := Parse(env, doc).value;
              && adopted.Keys == own.Keys + env.defaults.Keys
              && forall key :: key in adopted ==>
                   adopted[key] == if key in own then own[key] else env.defaults[key]
  {
  }

  /** Some setting of this key looks up differently. */
  ghost predicate KeyDiffers(env: Env, before: Values, after: Values, key: string) {
    exists setting ::
      setting in env.registry && setting.key == key && Lookup(before, setting) != Lookup(after, setting)
  }

  ghost predicate SomeKeyDiffers(env: Env, before: Values, after: Values) {
    exists setting :: setting in env.registry && Lookup(before, setting) != Lookup(after, setting)
  }

  lemma ChangedKeysAre(env: Env, before: Values, after: Values)
    ensures forall key :: key in ChangedKeys(env, before, after) <==> KeyDiffers(env, before, after, key)
    ensures ChangedKeys(env, before, after) != {} <==> SomeKeyDiffers(env, before, after)
  {
    if setting :| setting in env.registry && Lookup(before, setting) != Lookup(after, setting) {
      assert setting.key in ChangedKeys(env, before, after);
    }
  }

  /** `_with_defaults`: the loop that back-fills missing top-level keys. */
  method WithDefaults(env: Env, values: Values) returns (merged: Values)
    ensures merged == Merged(env, values)
  {
    merged := values;
    var todo := env.defaults.Keys;
    while todo != {}
      invariant todo <= env.defaults.Keys
      invariant merged.Keys == values.Keys + (env.defaults.Keys - todo)
      invariant forall key :: key in merged ==>
        merged[key] == if key in values then values[key] else env.defaults[key]
      decreases todo
    {
      var key :| key in todo;
      if key !in merged {
        merged := merged[key := env.defaults[key]];
      }
      todo := todo - {key};
    }
  }

  /** `_changed_registry_keys`: the registry walk that fills a set. */
  method ChangedRegistryKeys(env: Env, before: Values, after: Values) returns (changed: set<string>)
    ensures changed == ChangedKeys(env, before, after)
    ensures forall key :: key in changed <==> KeyDiffers(env, before, after, key)
  {
    ChangedKeysAre(env, before, after);
    changed := {};
    for i := 0 to |env.registry|
      invariant changed == set s | s in env.registry[..i] && Lookup(before, s) != Lookup(after, s) :: s.key
    {
      var setting := env.registry[i];
      assert env.registry[..i + 1] == env.registry[..i] + [setting];
      var was := Walk(Mapping(before), setting.path);
      var now := Walk(Mapping(after), setting.path);
      if was.None? && now.None? {
        continue;
      }
      if was.None? || now.None? || was != now {
        changed := changed + {setting.key};
      }
    }
    assert env.registry[..|env.registry|] == env.registry;
  }

  // ----- one tick -----

  datatype Watcher = Watcher(fingerprint: Option<Fingerprint>, bad: Option<Fingerprint>, values: Values)

  /** What `os.stat` answers. */
  datatype Stat = StatError | NoFile | Stamp(fingerprint: Fingerprint)

  /** What reading the file answers; the file may be gone by then. */
  datatype Read = ReadError | Contents(doc: Doc)

  function ParseRead(env: Env, read: Read): Option<Values> {
    if read.Contents? then Parse(env, read.doc) else None
  }

  /** `_stat`: an I/O error reports the remembered fingerprint, that is, "no change". */
  function Observed(w: Watcher, stat: Stat): Option<Fingerprint> {
    match stat
    case StatError => w.fingerprint
    case NoFile => None
    case Stamp(fingerprint) => Some(fingerprint)
  }

  datatype Decision = Settled(watcher: Watcher) | MustRead(fingerprint: Fingerprint)

  /** The half of a tick before the read. */
  function AfterStat(w: Watcher, stat: Stat): Decision {
    var seen := Observed(w, stat);
    if seen == w.fingerprint then Settled(w)
    else if seen.None? then Settled(w.(fingerprint := None, bad := None))
    else if seen == w.bad then Settled(w)
    else MustRead(seen.value)
  }

  /** The half of a tick after the read: the new watcher and the change it announces. */
  function AfterRead(env: Env, w: Watcher, fingerprint: Fingerprint, parsed: Option<Values>, source: Source)
    : (Watcher, Option<ConfigChange>)
  {
    if parsed.None? then (w.(bad := Some(fingerprint)), None)
    else
      var changed := ChangedKeys(env, w.values, parsed.value);
      (Watcher(Some(fingerprint), None, parsed.value),
       if changed == {} then None else Some(ConfigChange(parsed.value, changed, source)))
  }

  function WholeTick(env: Env, w: Watcher, stat: Stat, read: Read, source: Source): (Watcher, Option<ConfigChange>) {
    match AfterStat(w, stat)
    case Settled(w') => (w', None)
    case MustRead(fingerprint) => AfterRead(env, w, fingerprint, ParseRead(env, read), source)
  }

  function Primed(env: Env, stat: Stat, read: Read): Watcher {
    var blank := Watcher(None, None, Merged(env, map[]));
    if !stat.Stamp? then blank
    else
      match ParseRead(env, read)
      case None => blank.(bad := Some(stat.fingerprint))
      case Some(values) => blank.(fingerprint := Some(stat.fingerprint), values := values)
  }

  type ListenerId = nat

  function Calls(listeners: seq<ListenerId>, change: Option<ConfigChange>): seq<(ListenerId, ConfigChange)> {
    if change.None? then [] else seq(|listeners|, i requires 0 <= i < |listeners| => (listeners[i], change.value))
  }

  /** Each listener is called once, in order, with the change; without one nobody is. */
  lemma CallsAre(listeners: seq<ListenerId>, change: Option<ConfigChange>)
    ensures change.None? ==> Calls(listeners, change) == []
    ensures change.Some? ==>
              && |Calls(listeners, change)| == |listeners|
              && forall i :: 0 <= i < |listeners| ==> Calls(listeners, change)[i] == (listeners[i], change.value)
  {
  }

  lemma {:induction false} RaisingAre(listeners: seq<ListenerId>, raises: ListenerId -> bool, listener: ListenerId)
    ensures multiset(Raising(listeners, raises))[listener] ==
            if raises(listener) then multiset(listeners)[listener] else 0
  {
    if listeners != [] {
      var before, last := listeners[..|listeners| - 1], listeners[|listeners| - 1];
      RaisingAre(before, raises, listener);
      assert listeners == before + [last];
    }
  }

  /** The list after its first entry of this listener, if it has one, is removed. */
  function Without(listeners: seq<ListenerId>, listener: ListenerId): seq<ListenerId> {
    if listeners == [] then []
    else if listeners[0] == listener then listeners[1..]
    else [listeners[0]] + Without(listeners[1..], listener)
  }

  /** Unsubscribing takes exactly one subscription of that listener, whatever else came and went. */
  lemma {:induction false} UnsubscribeTakesOne(listeners: seq<ListenerId>, listener: ListenerId)
    ensures multiset(listeners) ==
            multiset(Without(listeners, listener)) + (if listener in listeners then multiset{listener} else multiset{})
  {
    if listeners != [] {
      var first, rest := listeners[0], listeners[1..];
      assert listeners == [first] + rest;
      if first != listener {
        UnsubscribeTakesOne(rest, listener);
        assert multiset(Without(listeners, listener)) == multiset{first} + multiset(Without(rest, listener));
      }
    }
  }

  /**
   Unsubscribing what was subscribed last restores the list exactly when no other listener came after an
   earlier subscription of the same one: it is the first of them that goes.
   */
  lemma {:induction false} UnsubscribeUndoesExactlyWhen(listeners: seq<ListenerId>, listener: ListenerId)
    ensures Without(listeners + [listener], listener) == listeners <==>
            forall i, j :: 0 <= i < j < |listeners| && listeners[i] == listener ==> listeners[j] == listener
  {
    if listeners != [] {
      var first, rest := listeners[0], listeners[1..];
      assert (listeners + [listener])[1..] == rest + [listener];
      if first == listener {
        AllTheSame(listeners, listener);
      } else {
        UnsubscribeUndoesExactlyWhen(rest, listener);
        assert listeners == [first] + rest;
      }
    }
  }

  lemma {:induction false} AllTheSame(listeners: seq<ListenerId>, listener: ListenerId)
    requires listeners != [] && listeners[0] == listener
    ensures listeners[1..] + [listener] == listeners <==> forall i :: 0 <= i < |listeners| ==> listeners[i] == listener
  {
    var rest := listeners[1..];
    if rest != [] && rest + [listener] == listeners {
      assert rest[0] == listeners[0] && (rest + [listener])[1..] == rest[1..] + [listener];
      AllTheSame(rest, listener);
    }
  }

  lemma {:induction false} WithoutNone(listeners: seq<ListenerId>, listener: ListenerId)
    ensures Without(listeners, listener) == listeners <==> listener !in listeners
  {
    if listeners != [] {
      WithoutNone(listeners[1..], listener);
      assert listeners == [listeners[0]] + listeners[1..];
    }
  }

  /** Unsubscribing twice does what once does exactly when the listener was not subscribed more than once. */
  lemma RepeatedUnsubscribe(listeners: seq<ListenerId>, listener: ListenerId)
    ensures Without(Without(listeners, listener), listener) == Without(listeners, listener) <==>
            multiset(listeners)[listener] <= 1
  {
    WithoutNone(Without(listeners, listener), listener);
    UnsubscribeTakesOne(listeners, listener);
  }

  /** The listeners among these whose call ends in an exception. */
  function Raising(listeners: seq<ListenerId>, raises: ListenerId -> bool): seq<ListenerId> {
    if listeners == [] then []
    else
      var last := listeners[|listeners| - 1];
      Raising(listeners[..|listeners| - 1], raises) + (if raises(last) then [last] else [])
  }

  class ConfigWatcher {
    const env: Env
    var fingerprint: Option<Fingerprint>
    var badFingerprint: Option<Fingerprint>
    var values: Values
    var listeners: seq<ListenerId>
    /** Every listener call made so far, in order. */
    var calls: seq<(ListenerId, ConfigChange)>
    /** The listeners whose exceptions were logged. */
    var logged: seq<ListenerId>

    function State(): Watcher
      reads this
    {
      Watcher(fingerprint, badFingerprint, values)
    }

    constructor (env: Env, stat: Stat, read: Read)
      ensures this.env == env && State() == Primed(env, stat, read)
      ensures listeners == [] && calls == [] && logged == []
    {
      this.env := env;
      fingerprint, badFingerprint := None, None;
      listeners, calls, logged := [], [], [];
      var defaults := WithDefaults(env, map[]);
      values := defaults;
      new;
      if stat.Stamp? {
        var parsed := ParseFile(read);
        if parsed.None? {
          badFingerprint := Some(stat.fingerprint);
        } else {
          fingerprint := Some(stat.fingerprint);
          values := parsed.value;
        }
      }
    }

    /** `_parse`. */
    method ParseFile(read: Read) returns (parsed: Option<Values>)
      ensures parsed == ParseRead(env, read)
    {
      parsed := None;
      if read.Contents? && read.doc.Document? {
        var loaded := read.doc.entries;
        var own: Values := map[];
        if "values" in loaded {
          if loaded["values"].Scalar? {
            return;
          }
          own := loaded["values"].entries;
        }
        var merged := WithDefaults(env, own);
        parsed := Some(merged);
      }
    }

    method Subscribe(listener: ListenerId)
      modifies this`listeners
      ensures listeners == old(listeners) + [listener]
    {
      listeners := listeners + [listener];
    }

    /** What `subscribe` returns. */
    method Unsubscribe(listener: ListenerId)
      modifies this`listeners
      ensures listeners == Without(old(listeners), listener)
    {
      listeners := Without(listeners, listener);
    }

    /** `_fan_out`: one call per listener, in order; a raising listener is logged and starves nobody. */
    method FanOut(change: ConfigChange, raises: ListenerId -> bool)
      modifies this`calls, this`logged
      ensures calls == old(calls) + Calls(listeners, Some(change))
      ensures logged == old(logged) + Raising(listeners, raises)
    {
      for i := 0 to |listeners|
        invariant calls == old(calls) + Calls(listeners, Some(change))[..i]
        invariant logged == old(logged) + Raising(listeners[..i], raises)
      {
        assert listeners[..i + 1][..i] == listeners[..i];
        calls := calls + [(listeners[i], change)];
        if raises(listeners[i]) {
          logged := logged + [listeners[i]];
        }
      }
      assert listeners[..|listeners|] == listeners;
    }

    /** `_tick`, given what its stat and its later read each saw. */
    method Tick(stat: Stat, read: Read, source: Source, raises: ListenerId -> bool)
      returns (change: Option<ConfigChange>)
      modifies this`fingerprint, this`badFingerprint, this`values, this`calls, this`logged
      ensures (State(), change) == WholeTick(env, old(State()), stat, read, source)
      ensures change.Some? ==> change.value.values == values && change.value.source == source
      ensures change.Some? ==>
                forall key :: key in change.value.changedKeys <==> KeyDiffers(env, old(values), values, key)
      ensures change.Some? <==> SomeKeyDiffers(env, old(values), values)
      ensures calls == old(calls) + Calls(listeners, change)
      ensures logged == old(logged) + (if change.None? then [] else Raising(listeners, raises))
    {
      change := None;
      var seen := match stat
        case StatError => fingerprint
        case NoFile => None
        case Stamp(f) => Some(f);
      if seen == fingerprint {
        return;
      }
      if seen.None? {
        fingerprint, badFingerprint := None, None;
        return;
      }
      if seen == badFingerprint {
        return;
      }
      var parsed := ParseFile(read);
      if parsed.None? {
        badFingerprint := seen;
        return;
      }
      badFingerprint := None;
      var previous := values;
      fingerprint := seen;
      var changed := ChangedRegistryKeys(env, previous, parsed.value);
      ChangedKeysAre(env, previous, parsed.value);
      values := parsed.value;
      if changed == {} {
        return;
      }
      change := Some(ConfigChange(values, changed, source));
      FanOut(change.value, raises);
    }
  }

  // ----- the watcher among its writers -----

  datatype File = Missing | Present(fingerprint: Fingerprint, doc: Doc)

  /** Where the watcher is: not yet constructed, between a stat and its read, or between ticks. */
  datatype Phase =
    | Unprimed
    | Priming(fingerprint: Fingerprint)
    | Idle
    | Reading(fingerprint: Fingerprint, source: Source)

  /** An adopted snapshot: which version of the file it is (-1 for the defaults) and which tick took it. */
  datatype Snapshot = Snapshot(version: int, values: Values, source: Source)

  /** `history` holds every state the file has been in; the last is the present one. */
  datatype System = System(
    history: seq<File>, watcher: Watcher, phase: Phase,
    adopted: seq<Snapshot>, delivered: seq<ConfigChange>, readFailed: bool)

  datatype Step =
    | Replace(fingerprint: Fingerprint, doc: Doc)
    | Delete
    | Begin(source: Source, statOk: bool)
    | Finish(readOk: bool)

  function Latest(s: System): File
    requires s.history != []
  {
    s.history[|s.history| - 1]
  }

  predicate HasStamp(file: File, fingerprint: Fingerprint) {
    file.Present? && file.fingerprint == fingerprint
  }

  predicate Fresh(history: seq<File>, fingerprint: Fingerprint) {
    forall i :: 0 <= i < |history| ==> !HasStamp(history[i], fingerprint)
  }

  function StatOf(file: File, ok: bool): Stat {
    if !ok then StatError else if file.Missing? then NoFile else Stamp(file.fingerprint)
  }

  function ParseNow(env: Env, file: File): Option<Values> {
    if file.Present? then Parse(env, file.doc) else None
  }

  function Start(env: Env, file: File): System {
    var defaults := Merged(env, map[]);
    System([file], Watcher(None, None, defaults), Unprimed, [Snapshot(-1, defaults, Disk)], [], false)
  }

  /** A step that is not enabled leaves the system as it is; a write needs a fingerprint never used before. */
  function Next(env: Env, s: System, step: Step): System
    requires s.history != []
  {
    var file := s.history[|s.history| - 1];
    match step
    case Replace(fingerprint, doc) =>
      if Fresh(s.history, fingerprint) then s.(history := s.history + [Present(fingerprint, doc)]) else s
    case Delete => s.(history := s.history + [Missing])
    case Begin(source, ok) => BeginTick(s, StatOf(file, ok), source)
    case Finish(ok) => FinishTick(env, s, if ok then ParseNow(env, file) else None, ok)
  }

  function BeginTick(s: System, stat: Stat, source: Source): System {
    match s.phase
    case Unprimed => s.(phase := if stat.Stamp? then Priming(stat.fingerprint) else Idle)
    case Idle =>
      (match AfterStat(s.watcher, stat)
       case Settled(w) => s.(watcher := w)
       case MustRead(fingerprint) => s.(phase := Reading(fingerprint, source)))
    case _ => s
  }

  function FinishTick(env: Env, s: System, parsed: Option<Values>, ok: bool): System {
    var now := |s.history| - 1;
    match s.phase
    case Priming(fingerprint) =>
      if parsed.None?
      then s.(phase := Idle, watcher := s.watcher.(bad := Some(fingerprint)), readFailed := s.readFailed || !ok)
      else s.(phase := Idle, watcher := s.watcher.(fingerprint := Some(fingerprint), values := parsed.value),
              adopted := [Snapshot(now, parsed.value, Disk)])
    case Reading(fingerprint, source) =>
      var (w, change) := AfterRead(env, s.watcher, fingerprint, parsed, source);
      s.(phase := Idle, watcher := w, readFailed := s.readFailed || !ok,
         adopted := s.adopted + (if parsed.None? then [] else [Snapshot(now, parsed.value, source)]),
         delivered := s.delivered + (if change.None? then [] else [change.value]))
    case _ => s
  }

  function Run(env: Env, s: System, steps: seq<Step>): (t: System)
    requires s.history != []
    ensures t.history != []
    decreases |steps|
  {
    if steps == [] then s else Run(env, Next(env, s, steps[0]), steps[1..])
  }

  predicate IsWrite(step: Step) {
    step.Replace? || step.Delete?
  }

  function ReadOf(file: File, ok: bool): Read {
    if ok && file.Present? then Contents(file.doc) else ReadError
  }

  lemma {:induction false} RunAppend(env: Env, s: System, first: seq<Step>, second: seq<Step>)
    requires s.history != []
    ensures Run(env, s, first + second) == Run(env, Run(env, s, first), second)
    decreases |first|
  {
    if first == [] {
      assert first + second == second;
    } else {
      assert (first + second)[1..] == first[1..] + second;
      RunAppend(env, Next(env, s, first[0]), first[1..], second);
    }
  }

  lemma {:induction false} WritesTouchOnlyTheFile(env: Env, s: System, writes: seq<Step>)
    requires s.history != [] && forall step :: step in writes ==> IsWrite(step)
    ensures Run(env, s, writes) == s.(history := Run(env, s, writes).history)
    decreases |writes|
  {
    if writes != [] {
      assert writes[0] in writes;
      WritesTouchOnlyTheFile(env, Next(env, s, writes[0]), writes[1..]);
    }
  }

  /** A stat, then writes, then a read: the three parts one after the other. */
  lemma RunSplitTick(env: Env, s: System, begin: Step, writes: seq<Step>, finish: Step)
    requires s.history != [] && forall step :: step in writes ==> IsWrite(step)
    ensures var begun := Next(env, s, begin);
            var history := Run(env, begun, writes).history;
            history != [] &&
            Run(env, s, [begin] + writes + [finish]) == Next(env, begun.(history := history), finish)
  {
    var begun := Next(env, s, begin);
    WritesTouchOnlyTheFile(env, begun, writes);
    var written := Run(env, begun, writes);
    assert [begin][1..] == [] && [finish][1..] == [];
    assert Run(env, written, [finish]) == Next(env, written, finish);
    assert Run(env, s, [begin]) == begun;
    RunAppend(env, s, [begin], writes);
    RunAppend(env, s, [begin] + writes, [finish]);
  }

  /**
   The steps refine the object: a stat, any writes, then a read leave exactly what
   `ConfigWatcher.Tick` makes of what the two observations saw.
   */
  lemma StepsRefineTick(env: Env, s: System, source: Source, statOk: bool, writes: seq<Step>, readOk: bool)
    requires s.history != [] && s.phase.Idle? && forall step :: step in writes ==> IsWrite(step)
    ensures var t := Run(env, s, [Begin(source, statOk)] + writes + [Finish(readOk)]);
            var (w, change) :=
              WholeTick(env, s.watcher, StatOf(Latest(s), statOk), ReadOf(Latest(t), readOk), source);
            && t.watcher == w && t.phase.Idle?
            && t.delivered == s.delivered + (if change.None? then [] else [change.value])
  {
    RunSplitTick(env, s, Begin(source, statOk), writes, Finish(readOk));
    var begun := Next(env, s, Begin(source, statOk));
    var written := begun.(history := Run(env, begun, writes).history);
    var t := Next(env, written, Finish(readOk));
    assert Latest(t) == Latest(written);
    assert ParseRead(env, ReadOf(Latest(t), readOk)) == if readOk then ParseNow(env, Latest(t)) else None;
  }

  /** And from the start they leave exactly what the constructor makes. */
  lemma StepsRefineConstructor(env: Env, file: File, source: Source, statOk: bool, writes: seq<Step>, readOk: bool)
    requires forall step :: step in writes ==> IsWrite(step)
    ensures var t := Run(env, Start(env, file), [Begin(source, statOk)] + writes + [Finish(readOk)]);
            t.watcher == Primed(env, StatOf(file, statOk), ReadOf(Latest(t), readOk)) && t.phase.Idle?
  {
    var s := Start(env, file);
    RunSplitTick(env, s, Begin(source, statOk), writes, Finish(readOk));
    var begun := Next(env, s, Begin(source, statOk));
    var written := begun.(history := Run(env, begun, writes).history);
    var t := Next(env, written, Finish(readOk));
    assert Latest(t) == Latest(written);
    assert ParseRead(env, ReadOf(Latest(t), readOk)) == if readOk then ParseNow(env, Latest(t)) else None;
  }

  // ----- the invariant -----

  /** What the adopted snapshots say should have been announced: one change per differing neighbour pair. */
  function Announcements(env: Env, adopted: seq<Snapshot>): seq<ConfigChange> {
    if |adopted| <= 1 then []
    else
      var last := adopted[|adopted| - 1];
      var changed := ChangedKeys(env, adopted[|adopted| - 2].values, last.values);
      Announcements(env, adopted[..|adopted| - 1]) +
      (if changed == {} then [] else [ConfigChange(last.values, changed, last.source)])
  }

  ghost predicate DistinctStamps(history: seq<File>) {
    forall i, j :: 0 <= i < j < |history| && history[i].Present? ==> !HasStamp(history[j], history[i].fingerprint)
  }

  /** Every snapshot is the defaults or a readable version of the file, and versions never go back. */
  ghost predicate Faithful(env: Env, history: seq<File>, adopted: seq<Snapshot>) {
    && (forall i :: 0 <= i < |adopted| ==>
          && -1 <= adopted[i].version < |history|
          && Some(adopted[i].values) == (if adopted[i].version == -1 then Some(Merged(env, map[]))
                                         else ParseNow(env, history[adopted[i].version])))
    && (forall i, j :: 0 <= i < j < |adopted| ==> adopted[i].version <= adopted[j].version)
  }

  /** `fingerprint` belongs to some version of the file numbered at most `limit`. */
  ghost predicate StampedBy(history: seq<File>, fingerprint: Fingerprint, limit: int) {
    exists i :: 0 <= i < |history| && i <= limit && HasStamp(history[i], fingerprint)
  }

  /** Some version from the stamped one on could not be parsed. */
  ghost predicate BadSince(env: Env, history: seq<File>, fingerprint: Fingerprint) {
    exists i, j :: 0 <= i <= j < |history| && HasStamp(history[i], fingerprint) && ParseNow(env, history[j]).None?
  }

  /** The fingerprints the watcher holds are those of real versions, no newer than they should be. */
  ghost predicate StampsOk(env: Env, history: seq<File>, w: Watcher, phase: Phase, version: int, readFailed: bool) {
    && (phase.Priming? || phase.Reading? ==> StampedBy(history, phase.fingerprint, |history|))
    && (w.fingerprint.Some? ==> StampedBy(history, w.fingerprint.value, version))
    && (w.bad.Some? && !readFailed ==> BadSince(env, history, w.bad.value))
  }

  ghost predicate Invariant(env: Env, s: System) {
    && s.history != []
    && s.adopted != []
    && DistinctStamps(s.history)
    && Faithful(env, s.history, s.adopted)
    && s.watcher.values == s.adopted[|s.adopted| - 1].values
    && s.delivered == Announcements(env, s.adopted)
    && (s.phase.Unprimed? || s.phase.Priming? ==> s.watcher.fingerprint.None? && |s.adopted| == 1)
    && StampsOk(env, s.history, s.watcher, s.phase, s.adopted[|s.adopted| - 1].version, s.readFailed)
  }

  lemma StartInvariant(env: Env, file: File)
    ensures Invariant(env, Start(env, file))
  {
  }

  lemma StampedByGrows(history: seq<File>, file: File, fingerprint: Fingerprint, limit: int, limit': int)
    requires StampedBy(history, fingerprint, limit) && limit <= limit'
    ensures StampedBy(history + [file], fingerprint, limit')
  {
    var i :| 0 <= i < |history| && i <= limit && HasStamp(history[i], fingerprint);
    assert HasStamp((history + [file])[i], fingerprint);
  }

  lemma BadSinceGrows(env: Env, history: seq<File>, file: File, fingerprint: Fingerprint)
    requires BadSince(env, history, fingerprint)
    ensures BadSince(env, history + [file], fingerprint)
  {
    var i, j :| 0 <= i <= j < |history| && HasStamp(history[i], fingerprint) && ParseNow(env, history[j]).None?;
    assert HasStamp((history + [file])[i], fingerprint) && ParseNow(env, (history + [file])[j]).None?;
  }

  lemma FaithfulGrows(env: Env, history: seq<File>, file: File, adopted: seq<Snapshot>)
    requires Faithful(env, history, adopted)
    ensures Faithful(env, history + [file], adopted)
  {
  }

  lemma DistinctGrows(history: seq<File>, file: File)
    requires DistinctStamps(history) && (file.Present? ==> Fresh(history, file.fingerprint))
    ensures DistinctStamps(history + [file])
  {
  }

  lemma WriteKeepsInvariant(env: Env, s: System, file: File)
    requires Invariant(env, s)
    requires file.Present? ==> Fresh(s.history, file.fingerprint)
    ensures Invariant(env, s.(history := s.history + [file]))
  {
    hide DistinctStamps, Faithful, Announcements, StampedBy, BadSince, Fresh;
    var version := s.adopted[|s.adopted| - 1].version;
    FaithfulGrows(env, s.history, file, s.adopted);
    DistinctGrows(s.history, file);
    if s.phase.Priming? || s.phase.Reading? {
      StampedByGrows(s.history, file, s.phase.fingerprint, |s.history|, |s.history| + 1);
    }
    if s.watcher.fingerprint.Some? {
      StampedByGrows(s.history, file, s.watcher.fingerprint.value, version, version);
    }
    if s.watcher.bad.Some? && !s.readFailed {
      BadSinceGrows(env, s.history, file, s.watcher.bad.value);
    }
  }

  /** Moving the watcher and the phase keeps the invariant when both still speak of real versions. */
  lemma RefocusKeepsInvariant(env: Env, s: System, w: Watcher, phase: Phase)
    requires Invariant(env, s)
    requires w.values == s.watcher.values
    requires w.fingerprint.None? || w.fingerprint == s.watcher.fingerprint
    requires w.bad.None? || w.bad == s.watcher.bad
    requires !phase.Unprimed? && (phase.Priming? ==> s.phase.Unprimed?)
    requires phase.Priming? || phase.Reading? ==> HasStamp(Latest(s), phase.fingerprint)
    ensures Invariant(env, s.(watcher := w, phase := phase))
  {
    if phase.Priming? || phase.Reading? {
      assert HasStamp(s.history[|s.history| - 1], phase.fingerprint);
    }
  }

  lemma BeginKeepsInvariant(env: Env, s: System, ok: bool, source: Source)
    requires Invariant(env, s)
    ensures Invariant(env, Next(env, s, Begin(source, ok)))
  {
    var t := Next(env, s, Begin(source, ok));
    if s.phase.Unprimed? || s.phase.Idle? {
      assert t == s.(watcher := t.watcher, phase := t.phase);
      RefocusKeepsInvariant(env, s, t.watcher, t.phase);
    } else {
      assert t == s;
    }
  }

  lemma BadSinceNow(env: Env, history: seq<File>, fingerprint: Fingerprint)
    requires StampedBy(history, fingerprint, |history|) && ParseNow(env, history[|history| - 1]).None?
    ensures BadSince(env, history, fingerprint)
  {
  }

  /** A read that yields nothing remembers the stamp as bad. */
  lemma BadReadKeepsInvariant(env: Env, s: System, ok: bool)
    requires Invariant(env, s) && (s.phase.Priming? || s.phase.Reading?)
    requires ok ==> ParseNow(env, Latest(s)).None?
    ensures Invariant(env, s.(phase := Idle, watcher := s.watcher.(bad := Some(s.phase.fingerprint)),
                              readFailed := s.readFailed || !ok))
  {
    hide Faithful, Announcements, DistinctStamps;
    if ok {
      BadSinceNow(env, s.history, s.phase.fingerprint);
    }
    hide BadSince, StampedBy;
  }

  lemma AdoptionIsFaithful(env: Env, history: seq<File>, adopted: seq<Snapshot>, next: Snapshot)
    requires history != [] && Faithful(env, history, adopted)
    requires next.version == |history| - 1 && Some(next.values) == ParseNow(env, history[next.version])
    ensures Faithful(env, history, adopted + [next])
  {
  }

  /** An adoption adds to the announcements exactly the change the tick delivers. */
  lemma AdoptionIsAnnounced(env: Env, adopted: seq<Snapshot>, w: Watcher, next: Snapshot, f: Fingerprint)
    requires adopted != [] && w.values == adopted[|adopted| - 1].values
    ensures var change := AfterRead(env, w, f, Some(next.values), next.source).1;
            Announcements(env, adopted + [next]) ==
            Announcements(env, adopted) + (if change.None? then [] else [change.value])
  {
  }

  /** A good read leaves a system whose newest snapshot is the present file. */
  lemma AdoptionKeepsInvariant(env: Env, s: System, t: System)
    requires Invariant(env, s) && (s.phase.Priming? || s.phase.Reading?)
    requires t.history == s.history && t.phase.Idle? && t.adopted != []
    requires Faithful(env, t.history, t.adopted) && t.delivered == Announcements(env, t.adopted)
    requires t.adopted[|t.adopted| - 1].version == |s.history| - 1
    requires t.watcher.values == t.adopted[|t.adopted| - 1].values
    requires t.watcher.fingerprint == Some(s.phase.fingerprint)
    requires t.readFailed == s.readFailed && (t.watcher.bad.None? || t.watcher.bad == s.watcher.bad)
    ensures Invariant(env, t)
  {
  }

  lemma GoodPrimingKeepsInvariant(env: Env, s: System)
    requires Invariant(env, s) && s.phase.Priming? && ParseNow(env, Latest(s)).Some?
    ensures Invariant(env, Next(env, s, Finish(true)))
  {
    var t := Next(env, s, Finish(true));
    assert t.adopted == [Snapshot(|s.history| - 1, ParseNow(env, Latest(s)).value, Disk)];
    AdoptionKeepsInvariant(env, s, t);
  }

  lemma GoodReadKeepsInvariant(env: Env, s: System, snapshot: Snapshot, t: System)
    requires Invariant(env, s) && s.phase.Reading?
    requires snapshot.version == |s.history| - 1 && snapshot.source == s.phase.source
    requires Some(snapshot.values) == ParseNow(env, Latest(s))
    requires t == s.(phase := Idle, watcher := Watcher(Some(s.phase.fingerprint), None, snapshot.values),
                     adopted := s.adopted + [snapshot], delivered := t.delivered)
    requires var change := AfterRead(env, s.watcher, s.phase.fingerprint, Some(snapshot.values), snapshot.source).1;
             t.delivered == s.delivered + (if change.None? then [] else [change.value])
    ensures Invariant(env, t)
  {
    AdoptionIsFaithful(env, s.history, s.adopted, snapshot);
    AdoptionIsAnnounced(env, s.adopted, s.watcher, snapshot, s.phase.fingerprint);
    AdoptionKeepsInvariant(env, s, t);
  }

  lemma FinishKeepsInvariant(env: Env, s: System, ok: bool)
    requires Invariant(env, s)
    ensures Invariant(env, Next(env, s, Finish(ok)))
  {
    var t := Next(env, s, Finish(ok));
    if s.phase.Unprimed? || s.phase.Idle? {
      assert t == s;
    } else if ok && ParseNow(env, Latest(s)).Some? {
      if s.phase.Priming? {
        GoodPrimingKeepsInvariant(env, s);
      } else {
        GoodReadKeepsInvariant(env, s, Snapshot(|s.history| - 1, ParseNow(env, Latest(s)).value, s.phase.source), t);
      }
    } else {
      BadReadKeepsInvariant(env, s, ok);
      assert t.adopted == s.adopted && t.delivered == s.delivered;
    }
  }

  lemma NextKeepsInvariant(env: Env, s: System, step: Step)
    requires Invariant(env, s)
    ensures Invariant(env, Next(env, s, step))
  {
    match step
    case Replace(fingerprint, doc) =>
      if Fresh(s.history, fingerprint) {
        WriteKeepsInvariant(env, s, Present(fingerprint, doc));
      }
    case Delete => WriteKeepsInvariant(env, s, Missing);
    case Begin(source, ok) => BeginKeepsInvariant(env, s, ok, source);
    case Finish(ok) => FinishKeepsInvariant(env, s, ok);
  }

  lemma {:induction false} RunKeepsInvariant(env: Env, s: System, steps: seq<Step>)
    requires Invariant(env, s)
    ensures Invariant(env, Run(env, s, steps))
    decreases |steps|
  {
    if steps != [] {
      NextKeepsInvariant(env, s, steps[0]);
      RunKeepsInvariant(env, Next(env, s, steps[0]), steps[1..]);
    }
  }

  /**
   Safety over every run: the live view is the defaults or a readable content the file really held,
   contents are adopted in write order, and the changes announced are exactly the differing
   neighbours among the adopted snapshots, each announced once.
   */
  lemma LastGoodSnapshot(env: Env, file: File, steps: seq<Step>)
    ensures var s := Run(env, Start(env, file), steps);
            && Faithful(env, s.history, s.adopted)
            && s.adopted != [] && s.watcher.values == s.adopted[|s.adopted| - 1].values
            && s.delivered == Announcements(env, s.adopted)
            && forall i :: 0 <= i < |s.delivered| ==> s.delivered[i].changedKeys != {}
  {
    StartInvariant(env, file);
    RunKeepsInvariant(env, Start(env, file), steps);
    AnnouncementsNotEmpty(env, Run(env, Start(env, file), steps).adopted);
  }

  lemma {:induction false} AnnouncementsNotEmpty(env: Env, adopted: seq<Snapshot>)
    ensures forall i :: 0 <= i < |Announcements(env, adopted)| ==> Announcements(env, adopted)[i].changedKeys != {}
    decreases |adopted|
  {
    if |adopted| > 1 {
      AnnouncementsNotEmpty(env, adopted[..|adopted| - 1]);
    }
  }

  /** The snapshots that some setting tells from the one before. */
  ghost function DifferingPairs(env: Env, adopted: seq<Snapshot>): seq<nat> {
    if |adopted| <= 1 then []
    else
      var last := |adopted| - 1;
      DifferingPairs(env, adopted[..last]) +
      (if SomeKeyDiffers(env, adopted[last - 1].values, adopted[last].values) then [last] else [])
  }

  /** Some setting tells snapshot `i` from the one before it. */
  ghost predicate IsDiffering(env: Env, adopted: seq<Snapshot>, i: int) {
    1 <= i < |adopted| && SomeKeyDiffers(env, adopted[i - 1].values, adopted[i].values)
  }

  lemma DifferingOfMore(env: Env, adopted: seq<Snapshot>, i: int)
    requires adopted != []
    ensures IsDiffering(env, adopted, i) <==>
            IsDiffering(env, adopted[..|adopted| - 1], i) ||
            (i == |adopted| - 1 && IsDiffering(env, adopted, |adopted| - 1))
  {
  }

  /** Those snapshots in order, each once, and no others. */
  lemma {:induction false} DifferingPairsAre(env: Env, adopted: seq<Snapshot>)
    ensures forall i: nat :: i in DifferingPairs(env, adopted) <==> IsDiffering(env, adopted, i)
    ensures forall j, k :: 0 <= j < k < |DifferingPairs(env, adopted)| ==>
              DifferingPairs(env, adopted)[j] < DifferingPairs(env, adopted)[k]
  {
    if |adopted| > 1 {
      var last := |adopted| - 1;
      var pairs, before := DifferingPairs(env, adopted), DifferingPairs(env, adopted[..last]);
      DifferingPairsAre(env, adopted[..last]);
      assert pairs == before + (if IsDiffering(env, adopted, last) then [last] else []);
      forall i: nat
        ensures i in pairs <==> IsDiffering(env, adopted, i)
      {
        DifferingOfMore(env, adopted, i);
      }
      forall k | 0 <= k < |before|
        ensures before[k] < last
      {
        assert before[k] in before && IsDiffering(env, adopted[..last], before[k]);
      }
    }
  }

  /** The change announces snapshot `i` against the one before it. */
  ghost predicate Announces(env: Env, change: ConfigChange, adopted: seq<Snapshot>, i: nat) {
    && 1 <= i < |adopted|
    && change.values == adopted[i].values && change.source == adopted[i].source
    && forall key :: key in change.changedKeys <==> KeyDiffers(env, adopted[i - 1].values, adopted[i].values, key)
  }

  lemma {:induction false} AnnouncementsAre(env: Env, adopted: seq<Snapshot>)
    ensures var pairs, changes := DifferingPairs(env, adopted), Announcements(env, adopted);
            |changes| == |pairs| && forall k :: 0 <= k < |pairs| ==> Announces(env, changes[k], adopted, pairs[k])
  {
    if |adopted| > 1 {
      var last := |adopted| - 1;
      var before := adopted[..last];
      AnnouncementsAre(env, before);
      ChangedKeysAre(env, adopted[last - 1].values, adopted[last].values);
      hide KeyDiffers, SomeKeyDiffers, ChangedKeys;
      var pairs, changes := DifferingPairs(env, before), Announcements(env, before);
      forall k | 0 <= k < |pairs|
        ensures Announces(env, changes[k], adopted, pairs[k])
      {
        assert Announces(env, changes[k], before, pairs[k]);
      }
    }
  }

  /** One change for each of these snapshots, in order, which are those that some setting tells from the one before. */
  ghost predicate DeliversTheDifferences(
    env: Env, delivered: seq<ConfigChange>, adopted: seq<Snapshot>, pairs: seq<nat>)
  {
    && |delivered| == |pairs|
    && (forall k :: 0 <= k < |pairs| ==> Announces(env, delivered[k], adopted, pairs[k]))
    && (forall j, k :: 0 <= j < k < |pairs| ==> pairs[j] < pairs[k])
    && (forall i: nat :: i in pairs <==> IsDiffering(env, adopted, i))
  }

  /**
   Exactly once, and exactly the differing keys: over every run one change is delivered, in order, for each
   snapshot that some setting tells from the one adopted before it, and for no other; and it names a key
   exactly when some setting of that key looks up differently in the two.
   */
  lemma DeliveriesAreTheDifferences(env: Env, file: File, steps: seq<Step>)
    ensures var s := Run(env, Start(env, file), steps);
            DeliversTheDifferences(env, s.delivered, s.adopted, DifferingPairs(env, s.adopted))
  {
    var s := Run(env, Start(env, file), steps);
    LastGoodSnapshot(env, file, steps);
    AnnouncementsAre(env, s.adopted);
    DifferingPairsAre(env, s.adopted);
  }

  /** A tick that finds no file keeps the last good view, forgets both fingerprints and delivers nothing. */
  lemma MissingFileKeepsTheView(env: Env, s: System, source: Source)
    requires s.history != [] && s.phase.Idle? && Latest(s).Missing? && s.watcher.fingerprint.Some?
    ensures Run(env, s, TickSteps(source)) == s.(watcher := Watcher(None, None, s.watcher.values))
  {
    RunTick(env, s, source);
  }

  /** A file that cannot be parsed is read once: the view stays, nothing is delivered, and the next stat settles. */
  lemma UnreadableFileIsReadOnce(env: Env, s: System, source: Source)
    requires s.history != [] && (s.phase.Idle? || s.phase.Unprimed?)
    requires Latest(s).Present? && ParseNow(env, Latest(s)).None?
    ensures var t := Run(env, s, TickSteps(source));
            && t.phase.Idle? && t.watcher.values == s.watcher.values && t.delivered == s.delivered
            && AfterStat(t.watcher, StatOf(Latest(s), true)) == Settled(t.watcher)
  {
    RunTick(env, s, source);
  }

  // ----- convergence -----

  function TickSteps(source: Source): seq<Step> {
    [Begin(source, true), Finish(true)]
  }

  lemma RunTick(env: Env, s: System, source: Source)
    requires s.history != []
    ensures Run(env, s, TickSteps(source)) == Next(env, Next(env, s, Begin(source, true)), Finish(true))
  {
  }

  /** The latest file is remembered as unreadable although it can be read. */
  predicate Pinned(s: System)
    requires s.history != []
  {
    Latest(s).Present? && s.watcher.bad == Some(Latest(s).fingerprint) && s.watcher.fingerprint != s.watcher.bad
  }

  /** When the remembered fingerprint is the present file's, the view is the present file. */
  lemma RememberedIsAdopted(env: Env, s: System)
    requires Invariant(env, s) && Latest(s).Present? && s.watcher.fingerprint == Some(Latest(s).fingerprint)
    ensures Some(s.watcher.values) == ParseNow(env, Latest(s))
  {
    var f, version := Latest(s).fingerprint, s.adopted[|s.adopted| - 1].version;
    var i :| 0 <= i < |s.history| && i <= version && HasStamp(s.history[i], f);
    assert i == |s.history| - 1;
  }

  /**
   One undisturbed tick over a readable file, from any state a run can leave: it adopts the file
   exactly unless an earlier failed read pinned the file as bad, and then it does nothing at all.
   */
  lemma TickAdoptsUnlessPinned(env: Env, s: System, source: Source)
    requires Invariant(env, s) && s.phase.Idle? && ParseNow(env, Latest(s)).Some?
    ensures var t := Run(env, s, TickSteps(source));
            && (Pinned(s) ==> t == s)
            && (!Pinned(s) ==>
                  && t.watcher.values == ParseNow(env, Latest(s)).value
                  && t.watcher.fingerprint == Some(Latest(s).fingerprint)
                  && t.phase.Idle? && t.history == s.history)
  {
    RunTick(env, s, source);
    if s.watcher.fingerprint == Some(Latest(s).fingerprint) {
      RememberedIsAdopted(env, s);
    }
  }

  /** A run in which no read of the file failed never pins a readable file. */
  lemma NotPinned(env: Env, s: System)
    requires Invariant(env, s) && !s.readFailed && ParseNow(env, Latest(s)).Some?
    ensures !Pinned(s)
  {
    var last := |s.history| - 1;
    assert forall i :: 0 <= i <= last && HasStamp(s.history[i], Latest(s).fingerprint) ==> i == last;
  }

  lemma {:induction false} GoodReadsStayGood(env: Env, s: System, steps: seq<Step>)
    requires s.history != [] && !s.readFailed && Finish(false) !in steps
    ensures !Run(env, s, steps).readFailed
    decreases |steps|
  {
    if steps != [] {
      assert steps[0] in steps;
      GoodReadsStayGood(env, Next(env, s, steps[0]), steps[1..]);
    }
  }

  /** With the present file adopted and nobody writing, ticks of any outcome change nothing. */
  lemma {:induction false} QuietWhileUnwritten(env: Env, s: System, steps: seq<Step>)
    requires s.history != [] && s.phase.Idle? && Latest(s).Present?
    requires s.watcher.fingerprint == Some(Latest(s).fingerprint)
    requires forall step :: step in steps ==> !IsWrite(step)
    ensures Run(env, s, steps) == s
    decreases |steps|
  {
    if steps != [] {
      assert steps[0] in steps;
      assert Next(env, s, steps[0]) == s;
      QuietWhileUnwritten(env, s, steps[1..]);
    }
  }

  /**
   Convergence. After any interleaving of writes, deletes and ticks, the first tick begun after the
   last write to a readable file leaves `values` equal to that file merged with the defaults, and
   nothing that follows, short of another write, changes the view or announces anything.
   */
  lemma Convergence(env: Env, file: File, before: seq<Step>, source: Source, after: seq<Step>)
    requires Finish(false) !in before
    requires forall step :: step in after ==> !IsWrite(step)
    requires var s := Run(env, Start(env, file), before); s.phase.Idle? && ParseNow(env, Latest(s)).Some?
    ensures var s := Run(env, Start(env, file), before);
            var t := Run(env, s, TickSteps(source));
            && t.watcher.values == ParseNow(env, Latest(s)).value
            && Run(env, t, after) == t
  {
    var s0 := Start(env, file);
    StartInvariant(env, file);
    RunKeepsInvariant(env, s0, before);
    GoodReadsStayGood(env, s0, before);
    var s := Run(env, s0, before);
    NotPinned(env, s);
    TickAdoptsUnlessPinned(env, s, source);
    QuietWhileUnwritten(env, Run(env, s, TickSteps(source)), after);
  }

  /** Why reads must not fail: one failed read and the readable file is ignored by every later tick. */
  lemma FailedReadPins(f: Fingerprint, source: Source)
    ensures var env := Env(map["a" := Scalar(0)], []);
            var file := Present(f, Document(map["values" := Mapping(map["a" := Scalar(1)])]));
            var s := Run(env, Start(env, file), [Begin(Disk, true), Finish(false)]);
            && s.phase.Idle? && Pinned(s)
            && Run(env, s, TickSteps(source)) == s
            && ParseNow(env, Latest(s)).Some? && s.watcher.values != ParseNow(env, Latest(s)).value
  {
    var env := Env(map["a" := Scalar(0)], []);
    var file := Present(f, Document(map["values" := Mapping(map["a" := Scalar(1)])]));
    var s0 := Start(env, file);
    var steps := [Begin(Disk, true), Finish(false)];
    assert steps[1..] == [Finish(false)] && steps[1..][1..] == [];
    var s := Run(env, s0, steps);
    assert s == Next(env, Next(env, s0, steps[0]), Finish(false));
    RunTick(env, s, source);
    assert s.watcher.values["a"] == Scalar(0);
    assert Merged(env, map["a" := Scalar(1)])["a"] == Scalar(1);
  }

  // ----- deliveries telescope -----

  type Mirror = map<Setting, Option<Value>>

  function View(env: Env, values: Values): Mirror {
    map setting | setting in env.registry :: Lookup(values, setting)
  }

  /** A subscriber that copies only the keys a change names. */
  function Copied(env: Env, mirror: Mirror, change: ConfigChange): Mirror {
    map setting | setting in env.registry ::
      if setting.key in change.changedKeys || setting !in mirror then Lookup(change.values, setting)
      else mirror[setting]
  }

  function Replay(env: Env, mirror: Mirror, changes: seq<ConfigChange>): Mirror
    decreases |changes|
  {
    if changes == [] then mirror else Replay(env, Copied(env, mirror, changes[0]), changes[1..])
  }

  lemma {:induction false} ReplayAppend(env: Env, mirror: Mirror, first: seq<ConfigChange>, second: seq<ConfigChange>)
    ensures Replay(env, mirror, first + second) == Replay(env, Replay(env, mirror, first), second)
    decreases |first|
  {
    if first == [] {
      assert first + second == second;
    } else {
      assert (first + second)[1..] == first[1..] + second;
      ReplayAppend(env, Copied(env, mirror, first[0]), first[1..], second);
    }
  }

  lemma CopyTracksView(env: Env, before: Values, after: Values, source: Source)
    ensures Copied(env, View(env, before), ConfigChange(after, ChangedKeys(env, before, after), source)) ==
            View(env, after)
    ensures ChangedKeys(env, before, after) == {} ==> View(env, before) == View(env, after)
  {
    forall setting | setting in env.registry && Lookup(before, setting) != Lookup(after, setting)
      ensures setting.key in ChangedKeys(env, before, after)
    {
    }
  }

  lemma StepDelivers(env: Env, s: System, step: Step)
    requires s.history != [] && (s.phase.Idle? || s.phase.Reading?)
    ensures var t := Next(env, s, step);
            && s.delivered <= t.delivered
            && t.history != [] && (t.phase.Idle? || t.phase.Reading?)
            && Replay(env, View(env, s.watcher.values), t.delivered[|s.delivered|..]) == View(env, t.watcher.values)
  {
    var t := Next(env, s, step);
    var news := t.delivered[|s.delivered|..];
    CopyTracksView(env, s.watcher.values, t.watcher.values, if s.phase.Reading? then s.phase.source else Disk);
    if |t.delivered| == |s.delivered| {
      assert news == [];
    } else {
      assert |news| == 1 && news[1..] == [];
    }
  }

  /**
   Deliveries telescope. A subscriber that starts from the view at its subscription, at any point of
   any run, and copies only the keys each later change names agrees with `values` on every registry
   setting after every step, whichever of the poll and `notify_local` caused the tick.
   */
  lemma {:induction false} DeliveriesTelescope(env: Env, s: System, steps: seq<Step>)
    requires s.history != [] && (s.phase.Idle? || s.phase.Reading?)
    ensures var t := Run(env, s, steps);
            && s.delivered <= t.delivered
            && Replay(env, View(env, s.watcher.values), t.delivered[|s.delivered|..]) == View(env, t.watcher.values)
    decreases |steps|
  {
    hide Next, View, Copied;
    if steps == [] {
      assert s.delivered[|s.delivered|..] == [];
    } else {
      var m := Next(env, s, steps[0]);
      var t := Run(env, s, steps);
      StepDelivers(env, s, steps[0]);
      DeliveriesTelescope(env, m, steps[1..]);
      assert t.delivered[|s.delivered|..] == m.delivered[|s.delivered|..] + t.delivered[|m.delivered|..];
      ReplayAppend(env, View(env, s.watcher.values), m.delivered[|s.delivered|..], t.delivered[|m.delivered|..]);
    }
  }
}
