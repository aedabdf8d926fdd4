/**
 The update window's heartbeat lock (`local_operator/buildwatch.py`). The lock is the object of that file;
 what is proved is about whole traces of calls: a held lock is lost to another holder exactly when its beats
 stop for the bound.
 */
module UpdateWindow {
  /** What a fresh or released lock holds is `Lock(false, "", "", beat)`. */
  datatype Lock = Lock(held: bool, handler: string, pair: string, beat: real)

  /** One call on the lock, with the clock's reading at that call. */
  datatype Call =
    | Acquire(pair: string, handler: string, at: real)
    | Heartbeat(at: real)
    | Release(at: real)

  const NEW_LOCK := Lock(false, "", "", 0.0)

  predicate Expired(lock: Lock, at: real, bound: real) {
    lock.held && at - lock.beat >= bound
  }

  predicate Admits(lock: Lock, at: real, bound: real) {
    !lock.held || Expired(lock, at, bound)
  }

  function TimeLeft(lock: Lock, at: real, bound: real): real {
    if !lock.held then 0.0
    else if lock.beat + bound - at > 0.0 then lock.beat + bound - at
    else 0.0
  }

  function Apply(lock: Lock, call: Call, bound: real): Lock {
    match call
    case Acquire(pair, handler, at) => if Admits(lock, at, bound) then Lock(true, handler, pair, at) else lock
    case Heartbeat(at) => if lock.held then lock.(beat := at) else lock
    case Release(_) => Lock(false, "", "", lock.beat)
  }

  /** The lock after the first `n` calls. */
  function After(calls: seq<Call>, n: nat, bound: real): Lock
    requires n <= |calls|
  {
    if n == 0 then NEW_LOCK else Apply(After(calls, n - 1, bound), calls[n - 1], bound)
  }

  class UpdateLock {
    var held: bool
    var handler: string
    var pair: string
    var beat: real

    function State(): Lock
      reads this
    {
      Lock(held, handler, pair, beat)
    }

    constructor ()
      ensures State() == NEW_LOCK
    {
      held := false;
      handler := "";
      pair := "";
      beat := 0.0;
    }

    method Acquire(forPair: string, byHandler: string, at: real, bound: real) returns (taken: bool)
      modifies this
      ensures taken == old(Admits(State(), at, bound))
      ensures State() == Apply(old(State()), Call.Acquire(forPair, byHandler, at), bound)
      ensures taken <==> !old(held) || at - old(beat) >= bound
      ensures State() == if taken then Lock(true, byHandler, forPair, at) else old(State())
    {
      if held && at - beat < bound {
        return false;
      }
      held := true;
      handler := byHandler;
      pair := forPair;
      beat := at;
      return true;
    }

    method Heartbeat(at: real)
      modifies this
      ensures forall bound :: State() == Apply(old(State()), Call.Heartbeat(at), bound)
      ensures State() == old(State()).(beat := if old(held) then at else old(beat))
    {
      if !held {
        return;
      }
      beat := at;
    }

    method Release() returns (wasHeld: bool)
      modifies this
      ensures wasHeld == old(held)
      ensures forall at, bound :: State() == Apply(old(State()), Call.Release(at), bound)
      ensures State() == Lock(false, "", "", old(beat))
    {
      wasHeld := held;
      held := false;
      handler := "";
      pair := "";
    }

    method Remaining(at: real, bound: real) returns (left: real)
      ensures left == TimeLeft(State(), at, bound)
      ensures held ==> (left == 0.0 <==> Expired(State(), at, bound))
      ensures forall later :: at <= later ==> (Admits(State(), later, bound) <==> later - at >= left)
      ensures held ==> left >= 0.0 && (left > 0.0 ==> left == beat + bound - at)
    {
      if !held {
        return 0.0;
      }
      left := beat + bound - at;
      if left < 0.0 {
        left := 0.0;
      }
    }
  }

  // ----- traces -----

  ghost predicate ClockRuns(calls: seq<Call>) {
    forall i, j :: 0 <= i < j < |calls| ==> calls[i].at <= calls[j].at
  }

  ghost predicate Succeeds(calls: seq<Call>, i: nat, bound: real)
    requires i < |calls|
  {
    calls[i].Acquire? && Admits(After(calls, i, bound), calls[i].at, bound)
  }

  /** A call that restarts the deadline: an acquire that succeeds, or a heartbeat on a held lock. */
  ghost predicate Lands(calls: seq<Call>, i: nat, bound: real)
    requires i < |calls|
  {
    Succeeds(calls, i, bound) || (calls[i].Heartbeat? && After(calls, i, bound).held)
  }

  ghost predicate Unreleased(calls: seq<Call>, i: nat, n: nat)
    requires n <= |calls|
  {
    forall k :: i < k < n ==> !calls[k].Release?
  }

  /** The last beat before call `n`, with no release since. */
  ghost predicate IsLastBeat(calls: seq<Call>, i: nat, n: nat, bound: real)
    requires n <= |calls|
  {
    i < n && Lands(calls, i, bound) && Unreleased(calls, i, n) &&
    forall k :: i < k < n ==> !Lands(calls, k, bound)
  }

  /** The lock is held exactly when some beat has not been released, and it remembers the last one. */
  lemma {:induction false} LockRemembersItsLastBeat(calls: seq<Call>, n: nat, bound: real)
    requires n <= |calls|
    ensures After(calls, n, bound).held ==>
              exists i: nat :: IsLastBeat(calls, i, n, bound) && After(calls, n, bound).beat == calls[i].at
    ensures !After(calls, n, bound).held ==>
              forall i :: 0 <= i < n && Lands(calls, i, bound) ==> !Unreleased(calls, i, n)
  {
    if n > 0 {
      var m := n - 1;
      LockRemembersItsLastBeat(calls, m, bound);
      var before, after := After(calls, m, bound), After(calls, n, bound);
      if Lands(calls, m, bound) {
        assert IsLastBeat(calls, m, n, bound);
      } else if after.held {
        var i: nat :| IsLastBeat(calls, i, m, bound) && before.beat == calls[i].at;
        assert IsLastBeat(calls, i, n, bound);
      } else {
        forall i | 0 <= i < n && Lands(calls, i, bound) ensures !Unreleased(calls, i, n) {
          if !calls[m].Release? {
            assert !before.held;
          }
        }
      }
    }
  }

  /** A beat within the bound before call `n`, with no release between. */
  ghost predicate IsAlive(calls: seq<Call>, i: nat, n: nat, bound: real)
    requires n < |calls|
  {
    i < n && Lands(calls, i, bound) && Unreleased(calls, i, n) && calls[n].at - calls[i].at < bound
  }

  /**
   Over any trace whose clock never goes back, an acquire is refused exactly when the lock has been beaten,
   and not released since, less than the bound ago.
   */
  lemma RefusedExactlyWhenAlive(calls: seq<Call>, n: nat, bound: real)
    requires n < |calls| && calls[n].Acquire? && ClockRuns(calls)
    ensures !Succeeds(calls, n, bound) <==> exists i: nat :: IsAlive(calls, i, n, bound)
  {
    LockRemembersItsLastBeat(calls, n, bound);
    var lock := After(calls, n, bound);
    if !Succeeds(calls, n, bound) {
      var i: nat :| IsLastBeat(calls, i, n, bound) && lock.beat == calls[i].at;
      assert IsAlive(calls, i, n, bound);
    }
    if i: nat :| IsAlive(calls, i, n, bound) {
      assert lock.held;
      var j: nat :| IsLastBeat(calls, j, n, bound) && lock.beat == calls[j].at;
      assert i <= j;
      assert calls[i].at <= calls[j].at;
    }
  }

  /** A held lock changes hands without a release only after a silence of at least the bound. */
  lemma TakeoverNeedsSilence(calls: seq<Call>, i: nat, n: nat, bound: real)
    requires i < n < |calls| && ClockRuns(calls)
    requires Lands(calls, i, bound) && Unreleased(calls, i, n) && Succeeds(calls, n, bound)
    ensures calls[n].at - calls[i].at >= bound
    ensures exists j: nat :: i <= j && IsLastBeat(calls, j, n, bound) && calls[n].at - calls[j].at >= bound
  {
    RefusedExactlyWhenAlive(calls, n, bound);
    LockRemembersItsLastBeat(calls, n, bound);
    assert !IsAlive(calls, i, n, bound);
    var j: nat :| IsLastBeat(calls, j, n, bound) && After(calls, n, bound).beat == calls[j].at;
    assert !IsAlive(calls, j, n, bound);
  }

  /** The holder of call `i` has beaten less than the bound before call `k`. */
  ghost predicate BeatsBefore(calls: seq<Call>, i: nat, k: nat, bound: real)
    requires k < |calls|
  {
    exists b: nat :: i <= b < k && (b == i || calls[b].Heartbeat?) && calls[k].at - calls[b].at < bound
  }

  /**
   A holder that beats often enough keeps the window: no other acquire succeeds, and the lock still names it,
   for as long as nothing is released.
   */
  lemma {:induction false} BeatingHolderKeepsTheWindow(calls: seq<Call>, i: nat, n: nat, bound: real)
    requires i < n <= |calls| && ClockRuns(calls) && Succeeds(calls, i, bound) && Unreleased(calls, i, n)
    requires forall k :: i < k < n && calls[k].Acquire? ==> BeatsBefore(calls, i, k, bound)
    ensures forall k :: i < k < n ==> !Succeeds(calls, k, bound)
    ensures var lock := After(calls, n, bound);
            lock.held && lock.pair == calls[i].pair && lock.handler == calls[i].handler
  {
    var m := n - 1;
    if i < m {
      BeatingHolderKeepsTheWindow(calls, i, m, bound);
      if calls[m].Acquire? {
        var b: nat :| i <= b < m && (b == i || calls[b].Heartbeat?) && calls[m].at - calls[b].at < bound;
        if i < b {
          BeatingHolderKeepsTheWindow(calls, i, b, bound);
        }
        assert IsAlive(calls, b, m, bound);
        RefusedExactlyWhenAlive(calls, m, bound);
      }
    }
  }

  /** No call between takes the window from the holder of call `i`: neither a release nor another acquire. */
  ghost predicate KeepsTheWindow(calls: seq<Call>, i: nat, n: nat, bound: real)
    requires n <= |calls|
  {
    forall k :: i < k < n ==> !calls[k].Release? && !Succeeds(calls, k, bound)
  }

  /**
   A holder keeps its window exactly as long as nobody at all calls release, and every other acquire comes
   less than the bound after one of the beats since the holder's own acquire.
   */
  lemma HolderKeepsExactlyWhen(calls: seq<Call>, i: nat, n: nat, bound: real)
    requires i < n <= |calls| && ClockRuns(calls) && Succeeds(calls, i, bound)
    ensures KeepsTheWindow(calls, i, n, bound) <==>
            Unreleased(calls, i, n) && forall k :: i < k < n && calls[k].Acquire? ==> BeatsBefore(calls, i, k, bound)
  {
    if KeepsTheWindow(calls, i, n, bound) {
      forall k | i < k < n && calls[k].Acquire?
        ensures BeatsBefore(calls, i, k, bound)
      {
        RefusedExactlyWhenAlive(calls, k, bound);
        var b: nat :| IsAlive(calls, b, k, bound);
        if b < i {
          assert calls[b].at <= calls[i].at;
          assert calls[k].at - calls[i].at < bound;
        }
      }
    } else if Unreleased(calls, i, n) {
      if forall k :: i < k < n && calls[k].Acquire? ==> BeatsBefore(calls, i, k, bound) {
        BeatingHolderKeepsTheWindow(calls, i, n, bound);
      }
    }
  }

  /**
   An input where a window is lost in spite of its beats. A release asks nobody who owns the window: after a
   takeover, the abandoned holder's release ends the window of the one that took over, and a third acquire
   gets in at once, however recent the second one's beat.
   */
    lemma ReleaseHasNoOwner(first: Call, second: Call, third: Call, bound: real)
    requires first.Acquire? && second.Acquire? && third.Acquire? && bound > 0.0
    requires first.at + bound <= second.at == third.at
    ensures var calls := [first, second, Release(second.at), third];
            ClockRuns(calls) && Succeeds(calls, 1, bound) && Succeeds(calls, 3, bound)
    ensures !Succeeds([first, second, third], 2, bound)
  {
  }
}

/**
 Which build a process may leave for (`local_operator/buildwatch.py`, `local_operator/update.py`), and why
 no run of handovers walks back to an older version.
 */
module BuildOrder {
  import opened Prelude
  import opened PyStrings

  datatype Stamp = Stamp(version: string, sourceRef: string)

  datatype Version = Version(major: int, minor: int, patch: int)

  /** Python's `int` of a text, when it has one. */
  type ReadInt = string -> Option<int>

  function ParseVersion(value: string, readInt: ReadInt): Option<Version> {
    var parts := SplitOn(Strip(value), '.');
    if |parts| != 3 then None
    else
      match (readInt(parts[0]), readInt(parts[1]), readInt(parts[2]))
      case (Some(major), Some(minor), Some(patch)) => Some(Version(major, minor, patch))
      case _ => None
  }

  predicate Less(a: Version, b: Version) {
    a.major < b.major || (a.major == b.major && (a.minor < b.minor || (a.minor == b.minor && a.patch < b.patch)))
  }

  /** The order of versions is total, and the first number that differs decides. */
  lemma LessIsLexicographic(a: Version, b: Version, c: Version)
    ensures (Less(a, b) || Less(b, a) <==> a != b) && !(Less(a, b) && Less(b, a))
    ensures Less(a, b) && Less(b, c) ==> Less(a, c)
    ensures a.major < b.major ==> Less(a, b)
    ensures a.major == b.major && a.minor < b.minor ==> Less(a, b)
    ensures a.major == b.major && a.minor == b.minor && a.patch < b.patch ==> Less(a, b)
  {
  }

  predicate IsOlder(candidate: Stamp, than: Stamp, readInt: ReadInt) {
    match (ParseVersion(candidate.version, readInt), ParseVersion(than.version, readInt))
    case (Some(a), Some(b)) => Less(a, b)
    case _ => false
  }

  predicate ProvesAMove(boot: Stamp, onDisk: Stamp, readInt: ReadInt) {
    if onDisk.version == "" && onDisk.sourceRef == "" then false
    else if IsOlder(onDisk, boot, readInt) then false
    else if onDisk.sourceRef != "" then true
    else onDisk.version != boot.version
  }

  /** What a process reads: the stamp of the install, and the age of its marker. */
  datatype Disk = Disk(stamp: Option<Stamp>, markerAge: Option<real>)

  function HandoverBuild(boot: Option<Stamp>, disk: Disk, readInt: ReadInt): Option<Stamp> {
    match (boot, disk.stamp)
    case (Some(b), Some(d)) => if d == b || !ProvesAMove(b, d, readInt) then None else Some(d)
    case _ => None
  }

  predicate SettleElapsed(disk: Disk, settle: real) {
    disk.markerAge.Some? && disk.markerAge.value >= settle
  }

  function BuildChanged(boot: Option<Stamp>, disk: Disk, settle: real, readInt: ReadInt): Option<Stamp> {
    match HandoverBuild(boot, disk, readInt)
    case None => None
    case Some(onDisk) => if !SettleElapsed(disk, settle) then None else Some(onDisk)
  }

  function PendingBuild(boot: Option<Stamp>, disk: Disk, settle: real, readInt: ReadInt): Option<Stamp> {
    var onDisk := HandoverBuild(boot, disk, readInt);
    if onDisk.None? || SettleElapsed(disk, settle) then None else onDisk
  }

  /** For one reading of the disk, "act now" and "moved but young" split the proven move exactly. */
  lemma ChangedAndPendingSplitTheMove(boot: Option<Stamp>, disk: Disk, settle: real, readInt: ReadInt)
    ensures var changed := BuildChanged(boot, disk, settle, readInt);
            var pending := PendingBuild(boot, disk, settle, readInt);
            var move := HandoverBuild(boot, disk, readInt);
            && !(changed.Some? && pending.Some?)
            && (changed.Some? || pending.Some? <==> move.Some?)
            && (changed.Some? ==> changed == move)
            && (pending.Some? ==> pending == move)
    ensures HandoverBuild(boot, disk, readInt).Some? ==>
              disk.stamp == HandoverBuild(boot, disk, readInt) && boot.Some? && boot != disk.stamp
  {
  }

  // ----- runs of handovers -----

  /** Each process of the run left for the build the next one booted. */
  ghost predicate IsHandoverRun(boots: seq<Stamp>, readInt: ReadInt) {
    forall i :: 0 <= i < |boots| - 1 ==> Follows(boots[i], boots[i + 1], readInt)
  }

  ghost predicate Follows(boot: Stamp, next: Stamp, readInt: ReadInt) {
    exists disk :: HandoverBuild(Some(boot), disk, readInt) == Some(next)
  }

  lemma FollowsExactlyWhen(boot: Stamp, next: Stamp, readInt: ReadInt)
    ensures Follows(boot, next, readInt) <==> next != boot && ProvesAMove(boot, next, readInt)
    ensures Follows(boot, next, readInt) <==>
            && next != boot && (next.version != "" || next.sourceRef != "") && !IsOlder(next, boot, readInt)
            && (next.sourceRef != "" || next.version != boot.version)
  {
    if next != boot && ProvesAMove(boot, next, readInt) {
      assert HandoverBuild(Some(boot), Disk(Some(next), None), readInt) == Some(next);
    }
  }

  predicate Parses(stamp: Stamp, readInt: ReadInt) {
    ParseVersion(stamp.version, readInt).Some?
  }

  /** Between builds whose versions parse, no run of handovers ends on an older version than it began with. */
  lemma {:induction false} RunsNeverGoBack(boots: seq<Stamp>, i: nat, j: nat, readInt: ReadInt)
    requires IsHandoverRun(boots, readInt) && i <= j < |boots|
    requires forall k :: i <= k <= j ==> Parses(boots[k], readInt)
    ensures !IsOlder(boots[j], boots[i], readInt)
  {
    if i < j {
      RunsNeverGoBack(boots, i, j - 1, readInt);
      assert Follows(boots[j - 1], boots[j - 1 + 1], readInt);
      FollowsExactlyWhen(boots[j - 1], boots[j], readInt);
      assert Parses(boots[j - 1], readInt) && Parses(boots[i], readInt) && Parses(boots[j], readInt);
    }
  }

  /** A stop between two parseable builds that can never carry a run backwards. */
  ghost predicate IsSafeStop(stop: Stamp, readInt: ReadInt) {
    forall from, to ::
      Follows(from, stop, readInt) && Follows(stop, to, readInt) ==> !IsOlder(to, from, readInt)
  }

  lemma ParsedVersionsAreReadable(stamp: Stamp, readInt: ReadInt)
    requires Parses(stamp, readInt)
    ensures stamp.version != ""
  {
  }

  lemma UnparseableStopGoesBack(from: Stamp, stop: Stamp, to: Stamp, readInt: ReadInt)
    requires IsOlder(to, from, readInt)
    requires !Parses(stop, readInt) && !(stop.version == "" && stop.sourceRef == "")
    ensures Follows(from, stop, readInt) && Follows(stop, to, readInt)
  {
    ParsedVersionsAreReadable(to, readInt);
    FollowsExactlyWhen(from, stop, readInt);
    FollowsExactlyWhen(stop, to, readInt);
  }

  lemma ThreeParts(major: string, minor: string, patch: string)
    requires '.' !in major && '.' !in minor && '.' !in patch
    ensures SplitOn(major + "." + minor + "." + patch, '.') == [major, minor, patch]
  {
    var rest := minor + "." + patch;
    assert major + "." + minor + "." + patch == major + ['.'] + rest && rest == minor + ['.'] + patch;
    SplitOfCons(major, rest, '.');
    SplitOfCons(minor, patch, '.');
    SplitOfPart(patch, '.');
  }

  /** A version is three dotted texts that read as numbers, in that order, with white space around them at most. */
  lemma ParsesExactlyWhen(major: string, minor: string, patch: string, readInt: ReadInt)
    requires '.' !in major && '.' !in minor && '.' !in patch && IsTrimmed(major + "." + minor + "." + patch)
    ensures ParseVersion(major + "." + minor + "." + patch, readInt) ==
            if readInt(major).Some? && readInt(minor).Some? && readInt(patch).Some?
            then Some(Version(readInt(major).value, readInt(minor).value, readInt(patch).value)) else None
  {
    hide SplitOn, Strip;
    StripIs(major + "." + minor + "." + patch);
    ThreeParts(major, minor, patch);
  }

  lemma OtherTextsDoNotParse(value: string, readInt: ReadInt)
    requires ParseVersion(value, readInt).Some?
    ensures exists major: string, minor: string, patch: string ::
              '.' !in major && '.' !in minor && '.' !in patch && Strip(value) == major + "." + minor + "." + patch
  {
    hide SplitOn, Strip;
    var parts := SplitOn(Strip(value), '.');
    SplitPartsLackSeparator(Strip(value), '.');
    JoinOfSplit(Strip(value), '.');
    assert parts[0] in parts && parts[1] in parts && parts[2] in parts;
    assert JoinWith(parts[1..], '.') == parts[1] + ['.'] + parts[2];
    assert Strip(value) == parts[0] + "." + parts[1] + "." + parts[2];
  }

  /**
   Where the rule fails: a run can go back through a build exactly when that build's version does not parse
   and its stamp is not blank.
   */
  lemma SafeExactlyWhen(stop: Stamp, readInt: ReadInt)
    requires readInt("0") == Some(0) && readInt("1") == Some(1)
    ensures IsSafeStop(stop, readInt) <==> Parses(stop, readInt) || (stop.version == "" && stop.sourceRef == "")
  {
    if !Parses(stop, readInt) && !(stop.version == "" && stop.sourceRef == "") {
      var older, newer := Stamp("0.0.0", ""), Stamp("1.0.0", "");
      assert "0.0.0" == "0" + "." + "0" + "." + "0" && "1.0.0" == "1" + "." + "0" + "." + "0";
      ParsesExactlyWhen("0", "0", "0", readInt);
      ParsesExactlyWhen("1", "0", "0", readInt);
      assert IsOlder(older, newer, readInt);
      UnparseableStopGoesBack(newer, stop, older, readInt);
    } else {
      forall from, to | Follows(from, stop, readInt) && Follows(stop, to, readInt)
        ensures !IsOlder(to, from, readInt)
      {
        FollowsExactlyWhen(from, stop, readInt);
        FollowsExactlyWhen(stop, to, readInt);
      }
    }
  }

  /**
   Two builds can be left for one another exactly when both are readable, neither is older, and either their
   version texts differ or both have a recorded commit.
   */
  lemma SwapsBothWaysExactlyWhen(a: Stamp, b: Stamp, readInt: ReadInt)
    ensures Follows(a, b, readInt) && Follows(b, a, readInt) <==>
            && a != b && (a.version + a.sourceRef != "") && (b.version + b.sourceRef != "")
            && !IsOlder(a, b, readInt) && !IsOlder(b, a, readInt)
            && (a.version != b.version || (a.sourceRef != "" && b.sourceRef != ""))
  {
    FollowsExactlyWhen(a, b, readInt);
    FollowsExactlyWhen(b, a, readInt);
  }

  /** The build a process runs after reading the disk once at each of these moments, restarting when it may. */
  function Running(boot: Stamp, disks: seq<Disk>, settle: real, readInt: ReadInt): Stamp {
    if disks == [] then boot
    else
      var was := Running(boot, disks[..|disks| - 1], settle, readInt);
      var changed := BuildChanged(Some(was), disks[|disks| - 1], settle, readInt);
      if changed.Some? then changed.value else was
  }

  /**
   The fleet converges and then rests: once the disk stops moving on a stamp that some boot could leave for,
   one settled reading puts a process on it, and no later reading moves it again.
   */
  lemma {:induction false} SettledDiskIsReachedOnce(boot: Stamp, disks: seq<Disk>, settled: Stamp, settle: real,
                                                    readInt: ReadInt)
    requires disks != [] && ProvesAMove(boot, settled, readInt)
    requires forall k :: 0 <= k < |disks| ==> disks[k].stamp == Some(settled)
    ensures Running(boot, disks, settle, readInt) ==
            if exists k :: 0 <= k < |disks| && disks[k].markerAge.Some? && disks[k].markerAge.value >= settle
            then settled else boot
  {
    var last := |disks| - 1;
    var before := disks[..last];
    if before != [] {
      SettledDiskIsReachedOnce(boot, before, settled, settle, readInt);
    }
    assert forall k :: 0 <= k < last ==> before[k] == disks[k];
  }
}
