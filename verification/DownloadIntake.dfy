/**
 The download intake of `local_operator/browser_files.py`: one pass over the items a browser host
 reports, one decision per item, acting on a filesystem.

 The filesystem is keyed by physical path, so that two spellings of one place (a symbolic link among
 the parents) meet in the same entry. A move is atomic.
 */
module DownloadIntake {
  import opened Prelude
  import opened Stocktaking

  // ----- paths and the filesystem -----

  /** The components of an absolute, normalised path. */
  type Path = seq<string>

  datatype Entry =
    | Regular(data: seq<int>, mtime: real)
    | Symlink(target: Path)
    | Directory
    | Special

  type Filesystem = map<Path, Entry>

  /** How many links resolving a path goes through before the model stops. */
  const MAX_LINKS: nat := 40

  predicate IsWithin(path: Path, root: Path) {
    root <= path
  }

  /** `os.path.realpath`. */
  function Real(fs: Filesystem, path: Path, links: nat): Path
    decreases links, |path|
  {
    if path == [] then []
    else
      var here := Real(fs, path[..|path| - 1], links) + [path[|path| - 1]];
      if here in fs && fs[here].Symlink? && links > 0 then Real(fs, fs[here].target, links - 1) else here
  }

  /** Where the entry a path names lies: every parent is resolved, the last component is not. */
  function Spot(fs: Filesystem, path: Path): Path {
    if path == [] then [] else Real(fs, path[..|path| - 1], MAX_LINKS) + [path[|path| - 1]]
  }

  /** `Path.exists`, which follows links. */
  predicate Exists(fs: Filesystem, path: Path) {
    var at := Real(fs, path, MAX_LINKS);
    at in fs && !fs[at].Symlink?
  }

  // ----- items and verdicts -----

  datatype Reported = NoPath | Relative | Absolute(path: Path)

  datatype Item =
    | NotAMapping
    | Item(name: string, reported: Reported, state: string, cancelled: string, referrer: string, bytes: int)

  datatype Disposition = Deleted | Kept | Failed | Absent

  datatype Reason =
    | NotAbsolute
    | InsideConfig
    | ResolvesInsideConfig
    | OriginUnknown
    | ForeignOrigin
    | StoppedAndGone
    | NotThere
    | NotRegular
    | SizeDiffers(onDisk: int, reported: int)
    | NotThisCall
    | TransferCancelled
    | StateUnknown
    | NameTaken
    | MoveFailed

  datatype Refusal = Refusal(name: string, reason: Reason, disposition: Disposition)

  datatype Verdict = Skipped | Moved(name: string) | Refused(refusal: Refusal)

  /** The arguments of one call, with the name and origin rules as functions. */
  datatype Call = Call(
    directory: Path, root: Path, realRoot: Path, now: real, window: real, pageOrigin: string,
    safeName: string -> string, originOf: string -> string)

  /** What the operating system lets this item's lstat, unlink and move do. */
  datatype Luck = Luck(stats: bool, unlinks: bool, moves: bool)

  predicate HasPath(item: Item) {
    item.Item? && !item.reported.NoPath?
  }

  predicate Stopped(item: Item)
    requires item.Item?
  {
    item.cancelled != "" || (item.state != "" && item.state != "complete")
  }

  /** `os.unlink` takes any entry but a directory, when it is allowed to. */
  predicate CanUnlink(fs: Filesystem, at: Path, luck: Luck) {
    at in fs && !fs[at].Directory? && luck.unlinks
  }

  function Unlinked(fs: Filesystem, at: Path, luck: Luck): (Disposition, Filesystem) {
    if CanUnlink(fs, at, luck) then (Deleted, (fs - {at})) else (Failed, fs)
  }

  function Relocated(fs: Filesystem, from: Path, to: Path): Filesystem
    requires from in fs
  {
    (fs - {from})[to := fs[from]]
  }

  function Keep(name: string, reason: Reason): Verdict {
    Refused(Refusal(name, reason, Kept))
  }

  /** Why an item is refused before the disk is looked at. */
  function Forbidden(call: Call, fs: Filesystem, item: Item): Option<Reason>
    requires item.Item? && item.reported.Absolute?
  {
    var resolved := Real(fs, item.reported.path, MAX_LINKS);
    if IsWithin(item.reported.path, call.root) || IsWithin(item.reported.path, call.realRoot) then Some(InsideConfig)
    else if IsWithin(resolved, call.root) || IsWithin(resolved, call.realRoot) then Some(ResolvesInsideConfig)
    else if call.originOf(call.pageOrigin) == "" then Some(OriginUnknown)
    else if item.referrer != "" && call.originOf(item.referrer) != call.originOf(call.pageOrigin)
    then Some(ForeignOrigin)
    else None
  }

  /** Why a regular file of ours is left where it is. */
  function Uncorroborated(call: Call, entry: Entry, item: Item): Option<Reason>
    requires entry.Regular? && item.Item?
  {
    if item.bytes != 0 && |entry.data| != item.bytes then Some(SizeDiffers(|entry.data|, item.bytes))
    else if !(call.now - call.window <= entry.mtime <= call.now + 5.0) then Some(NotThisCall)
    else None
  }

  /** Why a corroborated file of ours is refused and removed. */
  function Unusable(call: Call, fs: Filesystem, item: Item): Option<Reason>
    requires item.Item?
  {
    if Stopped(item) then Some(TransferCancelled)
    else if item.state == "" then Some(StateUnknown)
    else if Exists(fs, call.directory + [call.safeName(item.name)]) then Some(NameTaken)
    else None
  }

  /** The decision for one item: its row and the filesystem it leaves. */
  function Decide(call: Call, fs: Filesystem, item: Item, luck: Luck): (Verdict, Filesystem) {
    if !HasPath(item) then (Skipped, fs)
    else
      var name := call.safeName(item.name);
      if item.reported.Relative? then (Keep(name, NotAbsolute), fs)
      else
        var source := item.reported.path;
        if IsWithin(source, call.directory)
        then (Moved(if source == [] then "" else source[|source| - 1]), fs)
        else
          var forbidden := Forbidden(call, fs, item);
          if forbidden.Some? then (Keep(name, forbidden.value), fs)
          else DecideEntry(call, fs, item, luck)
  }

  /** The decision for an item that is ours to act on. */
  function DecideEntry(call: Call, fs: Filesystem, item: Item, luck: Luck): (Verdict, Filesystem)
    requires item.Item? && item.reported.Absolute?
  {
    var name, at := call.safeName(item.name), Spot(fs, item.reported.path);
    if !luck.stats || at !in fs
    then (Refused(Refusal(name, if Stopped(item) then StoppedAndGone else NotThere, Absent)), fs)
    else if !fs[at].Regular? then
      var (disposition, fs') := Unlinked(fs, at, luck);
      (Refused(Refusal(name, NotRegular, disposition)), fs')
    else
      var doubt, fault := Uncorroborated(call, fs[at], item), Unusable(call, fs, item);
      if doubt.Some? then (Keep(name, doubt.value), fs)
      else if fault.Some? then
        var (disposition, fs') := Unlinked(fs, at, luck);
        (Refused(Refusal(name, fault.value, disposition)), fs')
      else if !luck.moves then (Keep(name, MoveFailed), fs)
      else (Moved(name), Relocated(fs, at, Spot(fs, call.directory + [name])))
  }

  // ----- what one verdict means -----

  /** The source entry an item names. */
  function SourceSpot(fs: Filesystem, item: Item): Path
    requires HasPath(item)
  {
    if item.reported.Absolute? then Spot(fs, item.reported.path) else []
  }

  /** A row's word is a fact about the filesystem before and after it. */
  ghost predicate Truthful(call: Call, fs: Filesystem, item: Item, verdict: Verdict, fs': Filesystem) {
    match verdict
    case Skipped => !HasPath(item) && fs' == fs
    case Refused(refusal) =>
      HasPath(item) &&
      (match refusal.disposition
       case Kept =>
         fs' == fs && (item.reported.Absolute? && IsOurs(call, fs, item) ==> SourceSpot(fs, item) in fs)
       case Absent => fs' == fs
       case Failed => SourceSpot(fs, item) in fs && fs' == fs
       case Deleted => SourceSpot(fs, item) in fs && fs' == fs - {SourceSpot(fs, item)})
    case Moved(name) =>
      HasPath(item) && item.reported.Absolute? &&
      if IsWithin(item.reported.path, call.directory) then fs' == fs
      else
        var from, to := SourceSpot(fs, item), Spot(fs, call.directory + [name]);
        && from in fs && fs[from].Regular? && from != to
        && (to in fs ==> fs[to].Symlink? && !Exists(fs, call.directory + [name]))
        && fs' == Relocated(fs, from, to)
        && fs'[to] == fs[from]
  }

  /** An entry that is not a link is found where its path resolves to. */
  lemma SpotIsReal(fs: Filesystem, path: Path)
    requires Spot(fs, path) in fs && !fs[Spot(fs, path)].Symlink?
    ensures Real(fs, path, MAX_LINKS) == Spot(fs, path)
  {
  }

  lemma DecisionIsTruthful(call: Call, fs: Filesystem, item: Item, luck: Luck)
    ensures var (verdict, fs') := Decide(call, fs, item, luck); Truthful(call, fs, item, verdict, fs')
  {
    var (verdict, fs') := Decide(call, fs, item, luck);
    if verdict.Moved? {
      var target := call.directory + [verdict.name];
      if Spot(fs, target) in fs && !fs[Spot(fs, target)].Symlink? {
        SpotIsReal(fs, target);
      }
    }
  }

  /**
   A `moved` row says the name is now in the session directory. For a file that was moved it is; for a
   path that lay inside the directory already, the disk is not looked at, and the name is there exactly
   when something lay directly in the directory under the last part of that path.
   */
  lemma MovedNameIsThere(call: Call, fs: Filesystem, item: Item, luck: Luck)
    requires Decide(call, fs, item, luck).0.Moved? && item.reported.path != []
    ensures var (verdict, fs') := Decide(call, fs, item, luck);
            var source := item.reported.path;
            Spot(fs, call.directory + [verdict.name]) in fs' <==>
              || !IsWithin(source, call.directory)
              || Spot(fs, call.directory + [source[|source| - 1]]) in fs
  {
    DecisionIsTruthful(call, fs, item, luck);
  }

  /** An input where it is not: a file in a subdirectory of the session directory, whose name is reported alone. */
  lemma SubdirectoryNameIsNotThere(call: Call, fs: Filesystem, luck: Luck, state: string, data: seq<int>)
    requires call.directory == ["s"]
    requires fs == map[["s"] := Directory, ["s", "sub"] := Directory, ["s", "sub", "x"] := Regular(data, call.now)]
    ensures var item := Item("x", Absolute(["s", "sub", "x"]), state, "", "", 0);
            && Decide(call, fs, item, luck) == (Moved("x"), fs)
            && SourceSpot(fs, item) in fs && Spot(fs, call.directory + ["x"]) !in fs
  {
    assert [] + ["s"] == ["s"] && ["s"] + ["sub"] == ["s", "sub"] && ["s", "sub"] + ["x"] == ["s", "sub", "x"];
    RealStep(fs, [], "s", MAX_LINKS);
    RealStep(fs, ["s"], "sub", MAX_LINKS);
    RealStep(fs, ["s", "sub"], "x", MAX_LINKS);
    RealStep(fs, ["s"], "x", MAX_LINKS);
  }

  /** An item from a page this session is not driving, or of unknown ownership, changes nothing. */
  lemma UnownedItemChangesNothing(call: Call, fs: Filesystem, item: Item, luck: Luck)
    requires HasPath(item)
    requires call.originOf(call.pageOrigin) == "" ||
             (item.referrer != "" && call.originOf(item.referrer) != call.originOf(call.pageOrigin))
    ensures Decide(call, fs, item, luck).1 == fs
    ensures Decide(call, fs, item, luck).0.Moved? ==>
              item.reported.Absolute? && IsWithin(item.reported.path, call.directory)
  {
  }

  /** Outside our own store by either spelling, resolved or not, and not known to be somebody else's. */
  predicate IsOurs(call: Call, fs: Filesystem, item: Item)
    requires item.Item? && item.reported.Absolute?
  {
    var resolved := Real(fs, item.reported.path, MAX_LINKS);
    && (forall path, root :: path in {item.reported.path, resolved} && root in {call.root, call.realRoot} ==>
          !IsWithin(path, root))
    && call.originOf(call.pageOrigin) != ""
    && (item.referrer == "" || call.originOf(item.referrer) == call.originOf(call.pageOrigin))
  }

  /** A regular file of the reported size, if one was reported, written during the call. */
  predicate IsCorroborated(call: Call, entry: Entry, item: Item)
    requires item.Item?
  {
    entry.Regular? && (item.bytes == 0 || item.bytes == |entry.data|) &&
    call.now - call.window <= entry.mtime <= call.now + 5.0
  }

  /** A file is moved exactly when it is ours, corroborated, complete, never cancelled, and its name is free. */
  lemma MovesExactlyWhen(call: Call, fs: Filesystem, item: Item, luck: Luck)
    requires item.Item? && item.reported.Absolute? && !IsWithin(item.reported.path, call.directory)
    ensures Decide(call, fs, item, luck).0.Moved? <==>
              var at := SourceSpot(fs, item);
              && IsOurs(call, fs, item) && luck.stats && at in fs && IsCorroborated(call, fs[at], item)
              && item.state == "complete" && item.cancelled == ""
              && !Exists(fs, call.directory + [call.safeName(item.name)]) && luck.moves
  {
    assert Forbidden(call, fs, item).None? <==> IsOurs(call, fs, item);
  }

  /**
   An entry is deleted exactly when it is ours, can be unlinked, and is either no regular file or a
   corroborated one that is incomplete, cancelled or left without a free name.
   */
  lemma DeletesExactlyWhen(call: Call, fs: Filesystem, item: Item, luck: Luck)
    requires item.Item? && item.reported.Absolute? && !IsWithin(item.reported.path, call.directory)
    ensures var verdict := Decide(call, fs, item, luck).0;
            (verdict.Refused? && verdict.refusal.disposition.Deleted?) <==>
              var at := SourceSpot(fs, item);
              && IsOurs(call, fs, item) && luck.stats && at in fs && !fs[at].Directory? && luck.unlinks
              && (fs[at].Regular? ==>
                    && IsCorroborated(call, fs[at], item)
                    && (item.state != "complete" || item.cancelled != "" ||
                        Exists(fs, call.directory + [call.safeName(item.name)])))
  {
    assert Forbidden(call, fs, item).None? <==> IsOurs(call, fs, item);
  }

  /**
   An absent row is given to exactly the items of ours that the lstat finds nothing for; and it is false,
   the entry being there, exactly when the lstat failed on it.
   */
  lemma AbsentExactlyWhen(call: Call, fs: Filesystem, item: Item, luck: Luck)
    requires item.Item? && item.reported.Absolute? && !IsWithin(item.reported.path, call.directory)
    ensures var verdict, at := Decide(call, fs, item, luck).0, SourceSpot(fs, item);
            var absent := verdict.Refused? && verdict.refusal.disposition.Absent?;
            && (absent <==> IsOurs(call, fs, item) && (!luck.stats || at !in fs))
            && (absent && at in fs <==> IsOurs(call, fs, item) && !luck.stats && at in fs)
  {
    assert Forbidden(call, fs, item).None? <==> IsOurs(call, fs, item);
  }

  /** An input for it: a complete download in a directory that may not be searched is reported absent. */
  lemma UnsearchableIsReportedAbsent(call: Call, fs: Filesystem, data: seq<int>)
    requires call.directory == ["c", "s"] && call.root == call.realRoot == ["c"] && call.originOf(call.pageOrigin) != ""
    requires fs == map[["d"] := Directory, ["d", "f"] := Regular(data, call.now)]
    ensures var item := Item("f", Absolute(["d", "f"]), "complete", "", "", |data|);
            var (verdict, fs') := Decide(call, fs, item, Luck(false, true, true));
            && SourceSpot(fs, item) == ["d", "f"]
            && verdict == Refused(Refusal(call.safeName("f"), NotThere, Absent)) && fs' == fs
  {
    assert [] + ["d"] == ["d"] && ["d"] + ["f"] == ["d", "f"];
    RealStep(fs, [], "d", MAX_LINKS);
    RealStep(fs, ["d"], "f", MAX_LINKS);
  }

  /**
   A kept row says that an entry is there and was left. It is false exactly of an item that is not ours
   and names nothing: whose it is, is asked before whether it is there.
   */
  lemma KeptIsFalseExactlyWhen(call: Call, fs: Filesystem, item: Item, luck: Luck)
    requires item.Item? && item.reported.Absolute? && !IsWithin(item.reported.path, call.directory)
    ensures var verdict, at := Decide(call, fs, item, luck).0, SourceSpot(fs, item);
            var kept := verdict.Refused? && verdict.refusal.disposition.Kept?;
            kept && at !in fs <==> !IsOurs(call, fs, item) && at !in fs
  {
    assert Forbidden(call, fs, item).None? <==> IsOurs(call, fs, item);
  }

  /** An input for it: on an empty disk, a file that another page's download is said to have left is reported kept. */
  lemma NothingIsReportedKept(call: Call, item: Item, luck: Luck)
    requires call.directory == ["c", "s"] && call.root == call.realRoot == ["c"] && call.originOf(call.pageOrigin) != ""
    requires item.Item? && item.reported == Absolute(["f"])
    requires item.referrer != "" && call.originOf(item.referrer) != call.originOf(call.pageOrigin)
    ensures Decide(call, map[], item, luck) ==
            (Refused(Refusal(call.safeName(item.name), ForeignOrigin, Kept)), map[])
  {
    RealWithoutLinks(map[], ["f"]);
    hide Real;
    assert !IsWithin(["f"], ["c"]) && !IsWithin(["f"], ["c", "s"]);
  }

  lemma {:induction false} RealWithoutLinks(fs: Filesystem, path: Path)
    requires forall at :: at in fs ==> !fs[at].Symlink?
    ensures Real(fs, path, MAX_LINKS) == path
    decreases |path|
  {
    if path != [] {
      RealWithoutLinks(fs, path[..|path| - 1]);
    }
  }

  /** Whatever lies physically under the configuration root and is not a link stays as it is. */
  ghost predicate RootUntouched(call: Call, fs: Filesystem, fs': Filesystem) {
    forall at :: at in fs && IsWithin(at, call.realRoot) && !fs[at].Symlink? ==> at in fs' && fs'[at] == fs[at]
  }

  lemma DecisionLeavesRoot(call: Call, fs: Filesystem, item: Item, luck: Luck)
    ensures RootUntouched(call, fs, Decide(call, fs, item, luck).1)
  {
    var (verdict, fs') := Decide(call, fs, item, luck);
    DecisionIsTruthful(call, fs, item, luck);
    forall at | at in fs && IsWithin(at, call.realRoot) && !fs[at].Symlink?
      ensures at in fs' && fs'[at] == fs[at]
    {
      if fs' != fs && SourceSpot(fs, item) == at {
        SpotIsReal(fs, item.reported.path);
      }
    }
  }

  lemma RealStep(fs: Filesystem, parent: Path, name: string, links: nat)
    ensures var here := Real(fs, parent, links) + [name];
            Real(fs, parent + [name], links) ==
            (if here in fs && fs[here].Symlink? && links > 0 then Real(fs, fs[here].target, links - 1) else here)
    ensures Spot(fs, parent + [name]) == Real(fs, parent, MAX_LINKS) + [name]
  {
  }

  /** A directory that links to another, and a link inside that other. */
  lemma ThroughTwoLinks(fs: Filesystem, dl: string, inner: Path, x: string, away: Path)
    requires [dl] in fs && fs[[dl]] == Symlink(inner)
    requires inner + [x] in fs && fs[inner + [x]] == Symlink(away)
    requires Real(fs, inner, MAX_LINKS - 1) == inner && Real(fs, away, MAX_LINKS - 1) == away
    ensures Spot(fs, [dl, x]) == inner + [x] && Real(fs, [dl, x], MAX_LINKS) == away
  {
    assert [] + [dl] == [dl] && [dl] + [x] == [dl, x];
    RealStep(fs, [], dl, MAX_LINKS);
    RealStep(fs, [dl], x, MAX_LINKS);
  }

  /** Why links are excepted: reached through a linked parent, a link of the session directory is removed. */
  lemma LinkInSessionDirectoryCanGo(fs: Filesystem, call: Call, item: Item, dl: string, x: string, away: Path)
    requires HasPath(item) && item.reported == Absolute([dl, x])
    requires call.root == call.realRoot && |call.realRoot| > 0 && dl != call.root[0]
    requires IsWithin(call.directory, call.root) && !IsWithin(away, call.root)
    requires call.originOf(call.pageOrigin) != "" && item.referrer == ""
    requires [dl] in fs && fs[[dl]] == Symlink(call.directory)
    requires call.directory + [x] in fs && fs[call.directory + [x]] == Symlink(away)
    requires Real(fs, call.directory, MAX_LINKS - 1) == call.directory && Real(fs, away, MAX_LINKS - 1) == away
    ensures call.directory + [x] !in Decide(call, fs, item, Luck(true, true, true)).1
  {
    ThroughTwoLinks(fs, dl, call.directory, x, away);
    assert !IsWithin([dl, x], call.root) && !IsWithin([dl, x], call.directory);
  }

  /** The item takes the symbolic link at `at` off the disk, as its source or under its destination. */
  predicate TakesLink(call: Call, fs: Filesystem, item: Item, luck: Luck, at: Path) {
    && item.Item? && item.reported.Absolute? && !IsWithin(item.reported.path, call.directory)
    && IsOurs(call, fs, item) && luck.stats
    && var from, destination := SourceSpot(fs, item), call.directory + [call.safeName(item.name)];
       || (at == from && luck.unlinks)
       || (at == Spot(fs, destination) && from in fs && IsCorroborated(call, fs[from], item)
           && item.state == "complete" && item.cancelled == "" && !Exists(fs, destination) && luck.moves)
  }

  /**
   A symbolic link, in the session directory or anywhere else, is changed by an item exactly when it is
   the source, which is unlinked as no regular file, or dangles where a move puts its file.
   */
  lemma LinkGoesExactlyWhen(call: Call, fs: Filesystem, item: Item, luck: Luck, at: Path)
    requires at in fs && fs[at].Symlink?
    ensures var fs' := Decide(call, fs, item, luck).1;
            !(at in fs' && fs'[at] == fs[at]) <==> TakesLink(call, fs, item, luck, at)
  {
    var (verdict, fs') := Decide(call, fs, item, luck);
    DecisionIsTruthful(call, fs, item, luck);
    if item.Item? && item.reported.Absolute? && !IsWithin(item.reported.path, call.directory) {
      MovesExactlyWhen(call, fs, item, luck);
      DeletesExactlyWhen(call, fs, item, luck);
    }
  }

  /** No item ever makes a symbolic link. */
  lemma LinksAreNotMade(call: Call, fs: Filesystem, item: Item, luck: Luck, at: Path)
    ensures var fs' := Decide(call, fs, item, luck).1;
            at in fs' && fs'[at].Symlink? ==> at in fs && fs[at] == fs'[at]
  {
    DecisionIsTruthful(call, fs, item, luck);
  }

  /** `Stopped`, as the reported fields say it. */
  predicate WasStopped(item: Item)
    requires item.Item?
  {
    item.cancelled != "" || item.state !in {"", "complete"}
  }

  /** The path or what it resolves to lies in our own store, by either spelling of its root. */
  predicate InStore(call: Call, path: Path) {
    call.root <= path || call.realRoot <= path
  }

  /** When a refusal may give this reason: no two of these ever hold of one item. */
  predicate IsReason(call: Call, fs: Filesystem, item: Item, luck: Luck, reason: Reason) {
    && HasPath(item)
    && if item.reported.Relative? then reason == NotAbsolute
       else
         && !(call.directory <= item.reported.path)
         && var resolved := Real(fs, item.reported.path, MAX_LINKS);
            if InStore(call, item.reported.path) then reason == InsideConfig
            else if InStore(call, resolved) then reason == ResolvesInsideConfig
            else if call.originOf(call.pageOrigin) == "" then reason == OriginUnknown
            else if !IsOurs(call, fs, item) then reason == ForeignOrigin
            else IsReasonAboutEntry(call, fs, item, luck, reason)
  }

  predicate IsReasonAboutEntry(call: Call, fs: Filesystem, item: Item, luck: Luck, reason: Reason)
    requires item.Item? && item.reported.Absolute?
  {
    var at := Spot(fs, item.reported.path);
    if !luck.stats || at !in fs then reason == if WasStopped(item) then StoppedAndGone else NotThere
    else
      match reason
      case NotRegular => !fs[at].Regular?
      case SizeDiffers(onDisk, reported) =>
        fs[at].Regular? && onDisk == |fs[at].data| && reported == item.bytes != 0 && onDisk != reported
      case NotThisCall =>
        fs[at].Regular? && item.bytes in {0, |fs[at].data|} &&
        (fs[at].mtime < call.now - call.window || fs[at].mtime > call.now + 5.0)
      case TransferCancelled => IsCorroborated(call, fs[at], item) && WasStopped(item)
      case StateUnknown => IsCorroborated(call, fs[at], item) && item.state == "" && item.cancelled == ""
      case NameTaken =>
        IsCorroborated(call, fs[at], item) && item.state == "complete" && item.cancelled == "" &&
        Exists(fs, call.directory + [call.safeName(item.name)])
      case MoveFailed =>
        IsCorroborated(call, fs[at], item) && item.state == "complete" && item.cancelled == "" &&
        !Exists(fs, call.directory + [call.safeName(item.name)]) && !luck.moves
      case _ => false
  }

  lemma EntryReasonExactly(call: Call, fs: Filesystem, item: Item, luck: Luck, reason: Reason)
    requires item.Item? && item.reported.Absolute?
    ensures var verdict := DecideEntry(call, fs, item, luck).0;
            verdict.Refused? && verdict.refusal.reason == reason <==> IsReasonAboutEntry(call, fs, item, luck, reason)
  {
    hide Spot, Exists;
  }

  lemma ReasonExactly(call: Call, fs: Filesystem, item: Item, luck: Luck, reason: Reason)
    ensures var verdict := Decide(call, fs, item, luck).0;
            verdict.Refused? && verdict.refusal.reason == reason <==> IsReason(call, fs, item, luck, reason)
  {
    hide DecideEntry, IsReasonAboutEntry, Real;
    if item.Item? && item.reported.Absolute? {
      assert Forbidden(call, fs, item).None? <==> IsOurs(call, fs, item);
      EntryReasonExactly(call, fs, item, luck, reason);
    }
  }

  /**
   What a row says of its item: a refused row gives the sanitised name and the one reason that holds, a moved row
   the sanitised name, or the last part of a path that lay in the session directory; no row means no path.
   */
  lemma RowSaysExactly(call: Call, fs: Filesystem, item: Item, luck: Luck, reason: Reason)
    ensures var verdict := Decide(call, fs, item, luck).0;
            && (verdict.Refused? && verdict.refusal.reason == reason <==> IsReason(call, fs, item, luck, reason))
            && (verdict.Refused? ==> verdict.refusal.name == call.safeName(item.name))
            && (verdict.Skipped? <==> !HasPath(item))
            && (verdict.Moved? ==>
                  var source := item.reported.path;
                  verdict.name == if !(call.directory <= source) then call.safeName(item.name)
                                  else if source == [] then "" else source[|source| - 1])
  {
    hide Forbidden, IsReason, Uncorroborated, Unusable, Spot;
    ReasonExactly(call, fs, item, luck, reason);
  }

  // ----- conservation -----

  lemma StockRelocate(fs: Filesystem, from: Path, to: Path)
    requires from in fs && from != to
    ensures Stock(Relocated(fs, from, to)) + (if to in fs then multiset{fs[to]} else multiset{}) == Stock(fs)
  {
    StockRemove(fs, from);
    StockInsert((fs - {from}), to, fs[from]);
  }

  /** What an item takes off the disk: the entry it deletes, or the dangling link its move lands on. */
  function Lost(call: Call, fs: Filesystem, item: Item, verdict: Verdict): multiset<Entry> {
    if !HasPath(item) then multiset{}
    else if verdict.Refused? && verdict.refusal.disposition.Deleted? then
      (if SourceSpot(fs, item) in fs then multiset{fs[SourceSpot(fs, item)]} else multiset{})
    else if verdict.Moved? && item.reported.Absolute? && !IsWithin(item.reported.path, call.directory) then
      var to := Spot(fs, call.directory + [verdict.name]);
      if to in fs then multiset{fs[to]} else multiset{}
    else multiset{}
  }

  lemma DecisionConserves(call: Call, fs: Filesystem, item: Item, luck: Luck)
    ensures var (verdict, fs') := Decide(call, fs, item, luck);
            Stock(fs) == Stock(fs') + Lost(call, fs, item, verdict)
  {
    var (verdict, fs') := Decide(call, fs, item, luck);
    DecisionIsTruthful(call, fs, item, luck);
    if verdict.Refused? && verdict.refusal.disposition.Deleted? {
      StockRemove(fs, SourceSpot(fs, item));
    } else if verdict.Moved? && !IsWithin(item.reported.path, call.directory) {
      StockRelocate(fs, SourceSpot(fs, item), Spot(fs, call.directory + [verdict.name]));
    }
  }

  // ----- the whole pass -----

  /** The disk before each item, and after the last. */
  function Disks(call: Call, fs: Filesystem, items: seq<Item>, lucks: seq<Luck>): (disks: seq<Filesystem>)
    requires |lucks| == |items|
    ensures |disks| == |items| + 1
    decreases |items|
  {
    if items == [] then [fs]
    else [fs] + Disks(call, Decide(call, fs, items[0], lucks[0]).1, items[1..], lucks[1..])
  }

  function VerdictAt(call: Call, fs: Filesystem, items: seq<Item>, lucks: seq<Luck>, i: nat): Verdict
    requires |lucks| == |items| && i < |items|
  {
    Decide(call, Disks(call, fs, items, lucks)[i], items[i], lucks[i]).0
  }

  function Verdicts(call: Call, fs: Filesystem, items: seq<Item>, lucks: seq<Luck>): (verdicts: seq<Verdict>)
    requires |lucks| == |items|
    ensures |verdicts| == |items|
  {
    seq(|items|, i requires 0 <= i < |items| => VerdictAt(call, fs, items, lucks, i))
  }

  function MovedNames(verdicts: seq<Verdict>): seq<string> {
    if verdicts == [] then []
    else
      var last := verdicts[|verdicts| - 1];
      MovedNames(verdicts[..|verdicts| - 1]) + (if last.Moved? then [last.name] else [])
  }

  function Refusals(verdicts: seq<Verdict>): seq<Refusal> {
    if verdicts == [] then []
    else
      var last := verdicts[|verdicts| - 1];
      Refusals(verdicts[..|verdicts| - 1]) + (if last.Refused? then [last.refusal] else [])
  }

  function PathBearing(items: seq<Item>): nat {
    if items == [] then 0
    else PathBearing(items[..|items| - 1]) + (if HasPath(items[|items| - 1]) then 1 else 0)
  }

  lemma {:induction false} DisksStep(call: Call, fs: Filesystem, items: seq<Item>, lucks: seq<Luck>, i: nat)
    requires |lucks| == |items| && i < |items|
    ensures var disks := Disks(call, fs, items, lucks);
            disks[0] == fs && disks[i + 1] == Decide(call, disks[i], items[i], lucks[i]).1
    decreases |items|
  {
    if i > 0 {
      DisksStep(call, Decide(call, fs, items[0], lucks[0]).1, items[1..], lucks[1..], i - 1);
    }
  }

  class Disk {
    var fs: Filesystem

    constructor (fs: Filesystem)
      ensures this.fs == fs
    {
      this.fs := fs;
    }

    /** `_unlink_entry`. */
    method UnlinkEntry(at: Path, luck: Luck) returns (disposition: Disposition)
      modifies this
      ensures (disposition, fs) == Unlinked(old(fs), at, luck)
    {
      if at in fs && !fs[at].Directory? && luck.unlinks {
        fs := (fs - {at});
        return Deleted;
      }
      return Failed;
    }

    /** The loop body of `intake_landed`, branch by branch. */
    method IntakeItem(call: Call, item: Item, luck: Luck) returns (verdict: Verdict)
      modifies this
      ensures (verdict, fs) == Decide(call, old(fs), item, luck)
    {
      if item.NotAMapping? || item.reported.NoPath? {
        return Skipped;
      }
      var name := call.safeName(item.name);
      var stopped := item.cancelled != "" || (item.state != "" && item.state != "complete");
      if item.reported.Relative? {
        return Keep(name, NotAbsolute);
      }
      var source := item.reported.path;
      if IsWithin(source, call.directory) {
        return Moved(if source == [] then "" else source[|source| - 1]);
      }
      if IsWithin(source, call.root) || IsWithin(source, call.realRoot) {
        return Keep(name, InsideConfig);
      }
      var resolved := Real(fs, source, MAX_LINKS);
      if IsWithin(resolved, call.root) || IsWithin(resolved, call.realRoot) {
        return Keep(name, ResolvesInsideConfig);
      }
      var sessionOrigin := call.originOf(call.pageOrigin);
      if sessionOrigin == "" {
        return Keep(name, OriginUnknown);
      }
      if item.referrer != "" && call.originOf(item.referrer) != sessionOrigin {
        return Keep(name, ForeignOrigin);
      }
      var at := Spot(fs, source);
      if !luck.stats || at !in fs {
        return Refused(Refusal(name, if stopped then StoppedAndGone else NotThere, Absent));
      }
      var entry := fs[at];
      var reason := NotRegular;
      if entry.Regular? {
        if item.bytes != 0 && |entry.data| != item.bytes {
          return Keep(name, SizeDiffers(|entry.data|, item.bytes));
        }
        if !(call.now - call.window <= entry.mtime <= call.now + 5.0) {
          return Keep(name, NotThisCall);
        }
        var destination := call.directory + [name];
        if stopped {
          reason := TransferCancelled;
        } else if item.state == "" {
          reason := StateUnknown;
        } else if Exists(fs, destination) {
          reason := NameTaken;
        } else if !luck.moves {
          return Keep(name, MoveFailed);
        } else {
          var to := Spot(fs, destination);
          fs := (fs - {at})[to := entry];
          return Moved(name);
        }
      }
      var disposition := UnlinkEntry(at, luck);
      return Refused(Refusal(name, reason, disposition));
    }

    /** `intake_landed`. */
    method IntakeLanded(call: Call, items: seq<Item>, lucks: seq<Luck>)
      returns (moved: seq<string>, refused: seq<Refusal>)
      requires |lucks| == |items|
      modifies this
      ensures fs == Disks(call, old(fs), items, lucks)[|items|]
      ensures moved == MovedNames(Verdicts(call, old(fs), items, lucks))
      ensures refused == Refusals(Verdicts(call, old(fs), items, lucks))
    {
      moved, refused := [], [];
      ghost var disks := Disks(call, fs, items, lucks);
      ghost var verdicts := Verdicts(call, fs, items, lucks);
      for i := 0 to |items|
        invariant fs == disks[i]
        invariant moved == MovedNames(verdicts[..i])
        invariant refused == Refusals(verdicts[..i])
      {
        DisksStep(call, old(fs), items, lucks, i);
        var verdict := IntakeItem(call, items[i], lucks[i]);
        assert verdicts[i] == verdict;
        assert verdicts[..i + 1][..i] == verdicts[..i];
        if verdict.Moved? {
          moved := moved + [verdict.name];
        } else if verdict.Refused? {
          refused := refused + [verdict.refusal];
        }
      }
      assert verdicts[..|items|] == verdicts;
    }
  }

  /** Everything the pass takes off the disk. */
  function LostBy(call: Call, fs: Filesystem, items: seq<Item>, lucks: seq<Luck>, n: nat): multiset<Entry>
    requires |lucks| == |items| && n <= |items|
  {
    if n == 0 then multiset{}
    else
      LostBy(call, fs, items, lucks, n - 1) +
      Lost(call, Disks(call, fs, items, lucks)[n - 1], items[n - 1], VerdictAt(call, fs, items, lucks, n - 1))
  }

  /** Conservation over the whole pass: what was there is what is there and what was taken off. */
  lemma {:induction false} PassConserves(call: Call, fs: Filesystem, items: seq<Item>, lucks: seq<Luck>, n: nat)
    requires |lucks| == |items| && n <= |items|
    ensures Stock(fs) == Stock(Disks(call, fs, items, lucks)[n]) + LostBy(call, fs, items, lucks, n)
    decreases n
  {
    if n > 0 {
      PassConserves(call, fs, items, lucks, n - 1);
      DisksStep(call, fs, items, lucks, n - 1);
      DecisionConserves(call, Disks(call, fs, items, lucks)[n - 1], items[n - 1], lucks[n - 1]);
    }
  }

  /** Only a `deleted` row ever takes a file's bytes off the disk. */
  lemma OnlyDeletedRowsLoseFiles(call: Call, fs: Filesystem, item: Item, luck: Luck, entry: Entry)
    requires entry.Regular? && entry in Lost(call, fs, item, Decide(call, fs, item, luck).0)
    ensures var (verdict, fs') := Decide(call, fs, item, luck);
            && verdict.Refused? && verdict.refusal.disposition.Deleted?
            && verdict.refusal.reason in {TransferCancelled, StateUnknown, NameTaken}
            && Uncorroborated(call, entry, item).None?
  {
    DecisionIsTruthful(call, fs, item, luck);
  }

  /** Nothing under the configuration root but links is changed, over the whole pass. */
  lemma {:induction false} PassLeavesRoot(call: Call, fs: Filesystem, items: seq<Item>, lucks: seq<Luck>, n: nat)
    requires |lucks| == |items| && n <= |items|
    ensures RootUntouched(call, fs, Disks(call, fs, items, lucks)[n])
    decreases n
  {
    if n > 0 {
      PassLeavesRoot(call, fs, items, lucks, n - 1);
      DisksStep(call, fs, items, lucks, n - 1);
      DecisionLeavesRoot(call, Disks(call, fs, items, lucks)[n - 1], items[n - 1], lucks[n - 1]);
    }
  }

  /** Over the whole pass a symbolic link stays as it is exactly when no item takes it from the disk it meets. */
  lemma {:induction false} LinkStaysExactlyWhen(
    call: Call, fs: Filesystem, items: seq<Item>, lucks: seq<Luck>, n: nat, at: Path)
    requires |lucks| == |items| && n <= |items| && at in fs && fs[at].Symlink?
    ensures var disks := Disks(call, fs, items, lucks);
            at in disks[n] && disks[n][at] == fs[at] <==>
            forall i :: 0 <= i < n ==> !TakesLink(call, disks[i], items[i], lucks[i], at)
    decreases n
  {
    if n > 0 {
      var disks := Disks(call, fs, items, lucks);
      LinkStaysExactlyWhen(call, fs, items, lucks, n - 1, at);
      DisksStep(call, fs, items, lucks, n - 1);
      hide TakesLink, Decide;
      LinksAreNotMade(call, disks[n - 1], items[n - 1], lucks[n - 1], at);
      if at in disks[n - 1] && disks[n - 1][at] == fs[at] {
        LinkGoesExactlyWhen(call, disks[n - 1], items[n - 1], lucks[n - 1], at);
      }
    } else {
      DisksStart(call, fs, items, lucks);
    }
  }

  lemma DisksStart(call: Call, fs: Filesystem, items: seq<Item>, lucks: seq<Luck>)
    requires |lucks| == |items|
    ensures Disks(call, fs, items, lucks)[0] == fs
  {
  }

  function RefusedAmong(verdicts: seq<Verdict>): nat {
    if verdicts == [] then 0
    else RefusedAmong(verdicts[..|verdicts| - 1]) + (if verdicts[|verdicts| - 1].Refused? then 1 else 0)
  }

  function MovedAmong(verdicts: seq<Verdict>): nat {
    if verdicts == [] then 0
    else MovedAmong(verdicts[..|verdicts| - 1]) + (if verdicts[|verdicts| - 1].Moved? then 1 else 0)
  }

  /** In the lists that are returned each verdict's row stands where the verdicts of its kind before it put it. */
  lemma {:induction false} RefusalsInOrder(verdicts: seq<Verdict>)
    ensures |Refusals(verdicts)| == RefusedAmong(verdicts)
    ensures forall i :: 0 <= i < |verdicts| && verdicts[i].Refused? ==>
              var k := RefusedAmong(verdicts[..i]);
              k < |Refusals(verdicts)| && Refusals(verdicts)[k] == verdicts[i].refusal
  {
    if verdicts != [] {
      var last := |verdicts| - 1;
      var before := verdicts[..last];
      RefusalsInOrder(before);
      forall i | 0 <= i < last && verdicts[i].Refused?
        ensures RefusedAmong(verdicts[..i]) < |Refusals(before)|
        ensures Refusals(before)[RefusedAmong(verdicts[..i])] == verdicts[i].refusal
      {
        assert verdicts[..i] == before[..i] && verdicts[i] == before[i];
      }
    }
  }

  lemma {:induction false} MovedInOrder(verdicts: seq<Verdict>)
    ensures |MovedNames(verdicts)| == MovedAmong(verdicts)
    ensures forall i :: 0 <= i < |verdicts| && verdicts[i].Moved? ==>
              var k := MovedAmong(verdicts[..i]);
              k < |MovedNames(verdicts)| && MovedNames(verdicts)[k] == verdicts[i].name
  {
    if verdicts != [] {
      var last := |verdicts| - 1;
      var before := verdicts[..last];
      MovedInOrder(before);
      forall i | 0 <= i < last && verdicts[i].Moved?
        ensures MovedAmong(verdicts[..i]) < |MovedNames(before)|
        ensures MovedNames(before)[MovedAmong(verdicts[..i])] == verdicts[i].name
      {
        assert verdicts[..i] == before[..i] && verdicts[i] == before[i];
      }
    }
  }

  /** The row of the `i`-th item: the refusal or the name that the lists hold for it, or none. */
  function RowOf(verdicts: seq<Verdict>, moved: seq<string>, refused: seq<Refusal>, i: nat): Option<Verdict>
    requires i < |verdicts|
  {
    var m, r := MovedAmong(verdicts[..i]), RefusedAmong(verdicts[..i]);
    match verdicts[i]
    case Skipped => Some(Skipped)
    case Moved(_) => if m < |moved| then Some(Moved(moved[m])) else None
    case Refused(_) => if r < |refused| then Some(Refused(refused[r])) else None
  }

  lemma RowIsThere(verdicts: seq<Verdict>, i: nat)
    requires i < |verdicts|
    ensures RowOf(verdicts, MovedNames(verdicts), Refusals(verdicts), i) == Some(verdicts[i])
  {
    hide MovedNames, Refusals, MovedAmong, RefusedAmong;
    match verdicts[i]
    case Skipped =>
    case Moved(_) => MovedInOrder(verdicts);
    case Refused(_) => RefusalsInOrder(verdicts);
  }

  /** The item's row is a fact about the disks around it, and says of the item what it should. */
  ghost predicate IsRow(call: Call, fs: Filesystem, item: Item, luck: Luck, row: Verdict, fs': Filesystem) {
    && Truthful(call, fs, item, row, fs')
    && (row.Refused? ==>
          row.refusal.name == call.safeName(item.name) && IsReason(call, fs, item, luck, row.refusal.reason))
  }

  lemma DecisionIsARow(call: Call, fs: Filesystem, item: Item, luck: Luck)
    ensures IsRow(call, fs, item, luck, Decide(call, fs, item, luck).0, Decide(call, fs, item, luck).1)
  {
    DecisionIsTruthful(call, fs, item, luck);
    var verdict := Decide(call, fs, item, luck).0;
    if verdict.Refused? {
      RowSaysExactly(call, fs, item, luck, verdict.refusal.reason);
    }
  }

  lemma {:induction false} VerdictsAreRows(call: Call, fs: Filesystem, items: seq<Item>, lucks: seq<Luck>, n: nat)
    requires |lucks| == |items| && n <= |items|
    ensures var verdicts, disks := Verdicts(call, fs, items, lucks), Disks(call, fs, items, lucks);
            && RefusedAmong(verdicts[..n]) + MovedAmong(verdicts[..n]) == PathBearing(items[..n])
            && forall i :: 0 <= i < n ==> IsRow(call, disks[i], items[i], lucks[i], verdicts[i], disks[i + 1])
    decreases n
  {
    if n > 0 {
      hide IsRow;
      var verdicts, disks := Verdicts(call, fs, items, lucks), Disks(call, fs, items, lucks);
      VerdictsAreRows(call, fs, items, lucks, n - 1);
      DisksStep(call, fs, items, lucks, n - 1);
      DecisionIsARow(call, disks[n - 1], items[n - 1], lucks[n - 1]);
      assert verdicts[..n][..n - 1] == verdicts[..n - 1];
      assert items[..n][..n - 1] == items[..n - 1];
    }
  }

  /**
   Each path-bearing item yields exactly one row in the two lists that the pass returns, in the order of the items,
   and each row is true of the disks around its item, gives its sanitised name and the one reason that holds.
   */
  lemma OneTruthfulRowEach(call: Call, fs: Filesystem, items: seq<Item>, lucks: seq<Luck>)
    requires |lucks| == |items|
    ensures var verdicts, disks := Verdicts(call, fs, items, lucks), Disks(call, fs, items, lucks);
            var moved, refused := MovedNames(verdicts), Refusals(verdicts);
            && |moved| + |refused| == PathBearing(items)
            && forall i :: 0 <= i < |items| ==>
                 var row := RowOf(verdicts, moved, refused, i);
                 row.Some? && IsRow(call, disks[i], items[i], lucks[i], row.value, disks[i + 1])
  {
    var verdicts := Verdicts(call, fs, items, lucks);
    VerdictsAreRows(call, fs, items, lucks, |items|);
    RefusalsInOrder(verdicts);
    MovedInOrder(verdicts);
    assert verdicts[..|items|] == verdicts && items[..|items|] == items;
    hide IsRow, MovedNames, Refusals, MovedAmong, RefusedAmong, Verdicts, Disks, PathBearing, RowOf;
    forall i: nat | i < |items|
      ensures RowOf(verdicts, MovedNames(verdicts), Refusals(verdicts), i) == Some(verdicts[i])
    {
      RowIsThere(verdicts, i);
    }
  }
}
