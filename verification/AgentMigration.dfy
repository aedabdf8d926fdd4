/**
 The migration of nested agent directories in `local_operator/agents.py`: each agent found in
 `agents/agents/` is copied out, its `agent.yml` last, then removed there; a failure anywhere rolls the
 copy back.
 */
module AgentMigration {
  import opened Prelude

  type Name = string

  const DEFINITION: Name := "agent.yml"

  /** The name of the nested directory itself, which is therefore taken among the targets. */
  const NESTED: Name := "agents"

  /** The contents of a directory entry: a file, or a subdirectory, which a file copy refuses. */
  datatype Content = File(data: int) | Subdirectory

  type Directory = map<Name, Content>

  /** What lies in the nested directory. */
  datatype Entry = Agent(files: Directory) | PlainFile

  /** The agents directory: agents, other entries, and the nested directory while it exists. */
  datatype Tree = Tree(targets: map<Name, Directory>, others: set<Name>, nested: map<Name, Entry>, nestedExists: bool)

  /** `rmtree`: everything goes, or it fails and leaves some of the files. */
  datatype Removal = Removed | Stuck(left: set<Name>)

  /**
   What goes wrong while one agent is migrated: whether `mkdir` fails; after how many copies one fails
   (never, if there are fewer files) and what that copy leaves; how removing the source goes; and how
   removing the target goes on rollback.
   */
  datatype Faults = Faults(mkdirFails: bool, copies: nat, torn: Option<Content>, removal: Removal, rollback: Removal)

  /** The order the files are listed in, and the faults met. */
  datatype Plan = Plan(order: seq<Name>, faults: Faults)

  predicate TargetExists(t: Tree, name: Name) {
    name in t.targets || name in t.others || name == NESTED
  }

  function Restrict(files: Directory, names: set<Name>): Directory {
    map name | name in files && name in names :: files[name]
  }

  /** A listing of `files` in which the definition, if there, comes last. */
  ghost predicate IsListing(order: seq<Name>, files: Directory) {
    && (forall name :: name in order <==> name in files)
    && (forall i, j :: 0 <= i < j < |order| ==> order[i] != order[j])
    && (forall i :: 0 <= i < |order| - 1 ==> order[i] != DEFINITION)
  }

  predicate CopyFails(files: Directory, order: seq<Name>, faults: Faults, i: nat)
    requires i < |order| && order[i] in files
  {
    i == faults.copies || files[order[i]].Subdirectory?
  }

  /** How many files from `i` on are copied before a copy fails. */
  function Copied(files: Directory, order: seq<Name>, faults: Faults, i: nat): (n: nat)
    requires i <= |order| && forall name :: name in order ==> name in files
    ensures i <= n <= |order|
    ensures forall k :: i <= k < n ==> !CopyFails(files, order, faults, k)
    ensures n < |order| ==> CopyFails(files, order, faults, n)
    decreases |order| - i
  {
    if i == |order| || CopyFails(files, order, faults, i) then i else Copied(files, order, faults, i + 1)
  }

  /** The target after `n` whole copies. */
  function TargetAfter(files: Directory, order: seq<Name>, n: nat): Directory
    requires n <= |order| && forall name :: name in order ==> name in files
  {
    if n == 0 then map[] else TargetAfter(files, order, n - 1)[order[n - 1] := files[order[n - 1]]]
  }

  /** The target when the copying stops: all files, or the first few and what the failed copy left. */
  function TargetMade(files: Directory, plan: Plan): Directory
    requires forall name :: name in plan.order ==> name in files
  {
    var n := Copied(files, plan.order, plan.faults, 0);
    var target := TargetAfter(files, plan.order, n);
    if n < |plan.order| && plan.faults.torn.Some? then target[plan.order[n] := plan.faults.torn.value] else target
  }

  predicate AllCopied(files: Directory, plan: Plan)
    requires forall name :: name in plan.order ==> name in files
  {
    Copied(files, plan.order, plan.faults, 0) == |plan.order|
  }

  function AfterRemoval(files: Directory, removal: Removal): Option<Directory> {
    if removal.Removed? then None else Some(Restrict(files, removal.left))
  }

  /** What is left of one agent in the nested directory, and what stands at its target. */
  datatype Outcome = Outcome(left: Option<Directory>, made: Option<Directory>)

  function OutcomeOf(files: Directory, plan: Plan): Outcome
    requires forall name :: name in plan.order ==> name in files
  {
    var target, faults := TargetMade(files, plan), plan.faults;
    if faults.mkdirFails then Outcome(Some(files), None)
    else if !AllCopied(files, plan) then Outcome(Some(files), AfterRemoval(target, faults.rollback))
    else if faults.removal.Removed? then Outcome(None, Some(target))
    else Outcome(AfterRemoval(files, faults.removal), AfterRemoval(target, faults.rollback))
  }

  function Put(t: Tree, name: Name, outcome: Outcome): Tree {
    t.(nested := if outcome.left.Some? then t.nested[name := Agent(outcome.left.value)] else t.nested - {name},
       targets := if outcome.made.Some? then t.targets[name := outcome.made.value] else t.targets - {name})
  }

  predicate Eligible(t: Tree, name: Name) {
    name in t.nested && t.nested[name].Agent? && !TargetExists(t, name)
  }

  /** One turn of the loop. */
  function MigrateOne(t: Tree, name: Name, plan: Plan): Tree
    requires name in t.nested && t.nested[name].Agent? ==>
               forall file :: file in plan.order ==> file in t.nested[name].files
  {
    if Eligible(t, name) then Put(t, name, OutcomeOf(t.nested[name].files, plan)) else t
  }

  // ----- one agent -----

  lemma {:induction false} TargetAfterIs(files: Directory, order: seq<Name>, n: nat)
    requires n <= |order| && forall name :: name in order ==> name in files
    ensures TargetAfter(files, order, n).Keys == set name | name in order[..n]
    ensures forall name :: name in TargetAfter(files, order, n) ==>
              name in files && TargetAfter(files, order, n)[name] == files[name]
  {
    if n > 0 {
      TargetAfterIs(files, order, n - 1);
      assert order[..n] == order[..n - 1] + [order[n - 1]];
    }
  }

  /** Once every copy has succeeded the target holds exactly the agent's files. */
  lemma WholeTarget(files: Directory, plan: Plan)
    requires IsListing(plan.order, files) && AllCopied(files, plan)
    ensures TargetMade(files, plan) == files
  {
    TargetAfterIs(files, plan.order, |plan.order|);
    assert plan.order[..|plan.order|] == plan.order;
    assert TargetMade(files, plan).Keys == files.Keys;
  }

  /**
   The definition is copied last: wherever the copying stops, a target that has one has every other
   file whole, so a torn copy never looks like an agent with its history missing.
   */
  lemma DefinitionComesLast(files: Directory, plan: Plan, name: Name)
    requires IsListing(plan.order, files)
    requires DEFINITION in TargetMade(files, plan) && name in files && name != DEFINITION
    ensures name in TargetMade(files, plan) && TargetMade(files, plan)[name] == files[name]
  {
    var order, n := plan.order, Copied(files, plan.order, plan.faults, 0);
    TargetAfterIs(files, order, n);
    DefinitionIsLast(files, order, n);
    hide IsListing, Copied, TargetAfter;
    if n == |order| {
      assert order[..n] == order;
    } else {
      assert DEFINITION in order[..n + 1];
      assert order[..n + 1] == order && name in order[..n];
    }
  }

  /** In a listing only the whole of it has the definition. */
  lemma DefinitionIsLast(files: Directory, order: seq<Name>, n: nat)
    requires IsListing(order, files) && n <= |order|
    ensures DEFINITION in order[..n] ==> n == |order|
    ensures n < |order| && DEFINITION in order[..n + 1] ==> n + 1 == |order|
    ensures forall name :: name in files <==> name in order
  {
  }

  /** The agent is where it was, with no target, or whole at its target and gone from the nested directory. */
  predicate Settled(t: Tree, name: Name, files: Directory) {
    || (name in t.nested && t.nested[name] == Agent(files) && name !in t.targets)
    || (name in t.targets && t.targets[name] == files && name !in t.nested)
  }

  /** Tree removal that goes through or leaves everything. */
  predicate Atomic(removal: Removal, files: Directory) {
    removal.Stuck? ==> files.Keys <= removal.left
  }

  lemma RestrictToAll(files: Directory, names: set<Name>)
    ensures Restrict(files, names) == files <==> files.Keys <= names
  {
  }

  /**
   What has to go right for one agent to settle: the target is never made; or it is made whole and the
   source goes; or what was made goes again, and the source is still as it was.
   */
  predicate Settles(files: Directory, plan: Plan)
    requires forall name :: name in plan.order ==> name in files
  {
    var faults := plan.faults;
    || faults.mkdirFails
    || (AllCopied(files, plan) && faults.removal.Removed?)
    || (faults.rollback.Removed? && (!AllCopied(files, plan) || Atomic(faults.removal, files)))
  }

  /** An agent ends whole in exactly one of the two places exactly when it `Settles`. */
  lemma SettlesExactlyWhen(t: Tree, name: Name, plan: Plan)
    requires Eligible(t, name) && IsListing(plan.order, t.nested[name].files)
    ensures Settled(MigrateOne(t, name, plan), name, t.nested[name].files) <==> Settles(t.nested[name].files, plan)
  {
    var files := t.nested[name].files;
    if AllCopied(files, plan) {
      WholeTarget(files, plan);
      if plan.faults.removal.Stuck? {
        RestrictToAll(files, plan.faults.removal.left);
      }
    }
  }

  /** The file is whole in the nested directory or at the target. */
  predicate Kept(t: Tree, name: Name, file: Name, content: Content) {
    || (name in t.nested && t.nested[name].Agent? &&
        file in t.nested[name].files && t.nested[name].files[file] == content)
    || (name in t.targets && file in t.targets[name] && t.targets[name][file] == content)
  }

  /** Every copy succeeded, removing the source then took this file and failed, and the rollback took the copy. */
  predicate Loses(files: Directory, plan: Plan, file: Name)
    requires forall name :: name in plan.order ==> name in files
  {
    var faults := plan.faults;
    && !faults.mkdirFails && AllCopied(files, plan)
    && faults.removal.Stuck? && file !in faults.removal.left
    && (faults.rollback.Removed? || file !in faults.rollback.left)
  }

  /** A file of an agent is lost from both places exactly when its turn `Loses` it. */
  lemma LosesExactlyWhen(t: Tree, name: Name, plan: Plan, file: Name)
    requires Eligible(t, name) && IsListing(plan.order, t.nested[name].files) && file in t.nested[name].files
    ensures var files := t.nested[name].files;
            !Kept(MigrateOne(t, name, plan), name, file, files[file]) <==> Loses(files, plan, file)
  {
    var files := t.nested[name].files;
    if AllCopied(files, plan) {
      WholeTarget(files, plan);
    }
  }

  // ----- the whole run -----

  type Plans = map<Name, Plan>

  ghost predicate PlansFit(t: Tree, names: seq<Name>, plans: Plans) {
    forall name :: name in names ==>
      (name in plans &&
       (name in t.nested && t.nested[name].Agent? ==> IsListing(plans[name].order, t.nested[name].files)))
  }

  /** Each entry of the nested directory, once. */
  ghost predicate IsEveryEntry(t: Tree, names: seq<Name>) {
    && (forall name :: name in names <==> name in t.nested)
    && (forall i, j :: 0 <= i < j < |names| ==> names[i] != names[j])
  }

  /** A step that cannot be planned leaves the tree as it is. */
  ghost function Turn(t: Tree, name: Name, plans: Plans): Tree {
    if Eligible(t, name) && name in plans && IsListing(plans[name].order, t.nested[name].files)
    then MigrateOne(t, name, plans[name])
    else t
  }

  ghost function After(t: Tree, names: seq<Name>, plans: Plans, n: nat): Tree
    requires n <= |names|
  {
    if n == 0 then t else Turn(After(t, names, plans, n - 1), names[n - 1], plans)
  }

  /** `rmdir`: the nested directory goes when it is empty and may be removed. */
  function Drained(t: Tree, removable: bool): Tree {
    if t.nested == map[] && removable then t.(nestedExists := false) else t
  }

  ghost function Migrated(t: Tree, names: seq<Name>, plans: Plans, removable: bool): Tree {
    Drained(After(t, names, plans, |names|), removable)
  }

  ghost predicate SameAt(s: Tree, t: Tree, name: Name) {
    && s.others == t.others
    && (name in s.nested <==> name in t.nested) && (name in s.nested ==> s.nested[name] == t.nested[name])
    && (name in s.targets <==> name in t.targets) && (name in s.targets ==> s.targets[name] == t.targets[name])
  }

  lemma TurnIsLocal(t: Tree, name: Name, plans: Plans, other: Name)
    requires other != name
    ensures SameAt(Turn(t, name, plans), t, other)
  {
  }

  lemma TurnDependsOnItsOwn(s: Tree, t: Tree, name: Name, plans: Plans)
    requires SameAt(s, t, name)
    ensures SameAt(Turn(s, name, plans), Turn(t, name, plans), name)
  {
  }

  /** The run treats each entry as if it were alone. */
  lemma {:induction false} RunIsOneTurnEach(t: Tree, names: seq<Name>, plans: Plans, n: nat, name: Name)
    requires n <= |names| && forall i, j :: 0 <= i < j < |names| ==> names[i] != names[j]
    ensures SameAt(After(t, names, plans, n), if name in names[..n] then Turn(t, name, plans) else t, name)
  {
    if n > 0 {
      var before, last := After(t, names, plans, n - 1), names[n - 1];
      RunIsOneTurnEach(t, names, plans, n - 1, name);
      assert names[..n] == names[..n - 1] + [last];
      if last == name {
        assert name !in names[..n - 1];
        TurnDependsOnItsOwn(before, t, name, plans);
      } else {
        TurnIsLocal(before, last, plans, name);
      }
    }
  }

  /**
   A whole run, wherever its copies and removals fail: a nested agent without a target before ends
   settled exactly when its own turn goes as `Settles` says, every other entry and every target that was
   there before is untouched, and the nested directory goes exactly when it is empty and may be removed.
   */
  lemma MigrationSettlesExactlyWhen(t: Tree, names: seq<Name>, plans: Plans, removable: bool, name: Name)
    requires IsEveryEntry(t, names) && PlansFit(t, names, plans)
    ensures var s := Migrated(t, names, plans, removable);
            && (Eligible(t, name) ==>
                  var files := t.nested[name].files;
                  name in names && (Settled(s, name, files) <==> Settles(files, plans[name])))
            && (Eligible(t, name) <==>
                  && name in t.nested && t.nested[name].Agent?
                  && name !in t.targets && name !in t.others && name != NESTED)
            && (!Eligible(t, name) ==> SameAt(s, t, name))
            && s.others == t.others
            && (s.nestedExists <==> t.nestedExists && !(s.nested == map[] && removable))
  {
    RunIsOneTurnEach(t, names, plans, |names|, name);
    assert names[..|names|] == names;
    if Eligible(t, name) {
      assert name in names;
      SettlesExactlyWhen(t, name, plans[name]);
    }
    NestedFlagKept(t, names, plans, |names|);
  }

  /** And a whole run loses exactly the files that the turns of their agents lose. */
  lemma MigrationLosesExactlyWhen(
    t: Tree, names: seq<Name>, plans: Plans, removable: bool, name: Name, file: Name)
    requires IsEveryEntry(t, names) && PlansFit(t, names, plans)
    requires name in t.nested && t.nested[name].Agent? && file in t.nested[name].files
    ensures var s, files := Migrated(t, names, plans, removable), t.nested[name].files;
            !Kept(s, name, file, files[file]) <==> Eligible(t, name) && Loses(files, plans[name], file)
  {
    RunIsOneTurnEach(t, names, plans, |names|, name);
    assert names[..|names|] == names && name in names;
    if Eligible(t, name) {
      LosesExactlyWhen(t, name, plans[name], file);
    }
  }

  /** One start of the program: the entries it lists, what goes wrong, and whether the nested directory may go. */
  datatype Start = Start(names: seq<Name>, plans: Plans, removable: bool)

  ghost function AfterStarts(t: Tree, starts: seq<Start>): Tree
    decreases |starts|
  {
    if starts == [] then t
    else AfterStarts(Migrated(t, starts[0].names, starts[0].plans, starts[0].removable), starts[1..])
  }

  ghost predicate ListsOnce(start: Start) {
    forall i, j :: 0 <= i < j < |start.names| ==> start.names[i] != start.names[j]
  }

  /** What stands at a target is never touched again, and so neither is the nested agent behind it. */
  lemma {:induction false} TargetStaysForever(t: Tree, starts: seq<Start>, name: Name)
    requires TargetExists(t, name) && forall start :: start in starts ==> ListsOnce(start)
    ensures SameAt(AfterStarts(t, starts), t, name)
    decreases |starts|
  {
    if starts != [] {
      var start := starts[0];
      assert start in starts;
      RunIsOneTurnEach(t, start.names, start.plans, |start.names|, name);
      var next := Migrated(t, start.names, start.plans, start.removable);
      assert SameAt(next, t, name);
      TargetStaysForever(next, starts[1..], name);
    }
  }

  /**
   What an attempt leaves at its target is only ever copies of the agent's files, but for what the one failed copy
   left of its file; it leaves a target and a nested agent both only when it rolled back and that failed; and what it
   leaves of the nested agent is always as it was.
   */
  lemma TargetHoldsOnlyCopies(t: Tree, name: Name, plan: Plan, file: Name)
    requires Eligible(t, name) && IsListing(plan.order, t.nested[name].files)
    ensures var s, files := MigrateOne(t, name, plan), t.nested[name].files;
            && (name in s.targets && file in s.targets[name] ==>
                  var n := Copied(files, plan.order, plan.faults, 0);
                  file in files && (s.targets[name][file] == files[file] ||
                    (n < |plan.order| && file == plan.order[n] && Some(s.targets[name][file]) == plan.faults.torn)))
            && (name in s.targets && name in s.nested ==> RollsBackStuck(files, plan))
            && (name in s.nested && s.nested[name] != Agent(files) ==>
                  plan.faults.removal.Stuck? && AllCopied(files, plan))
            && (name in s.nested && s.nested[name].Agent? && file in s.nested[name].files ==>
                  file in files && s.nested[name].files[file] == files[file])
  {
    var order, n := plan.order, Copied(t.nested[name].files, plan.order, plan.faults, 0);
    TargetAfterIs(t.nested[name].files, order, n);
  }

  /** A copy or a source removal that failed, and a rollback that failed too. */
  predicate RollsBackStuck(files: Directory, plan: Plan)
    requires forall name :: name in plan.order ==> name in files
  {
    && !plan.faults.mkdirFails && plan.faults.rollback.Stuck?
    && (!AllCopied(files, plan) || plan.faults.removal.Stuck?)
  }

  /**
   A rollback that fails strands the agent: it lies in the nested directory with a target in its way, and
   no later start, with or without faults, changes either.
   */
  lemma StuckRollbackStrands(
    t: Tree, names: seq<Name>, plans: Plans, removable: bool, name: Name, later: seq<Start>)
    requires IsEveryEntry(t, names) && PlansFit(t, names, plans)
    requires Eligible(t, name) && RollsBackStuck(t.nested[name].files, plans[name])
    requires forall start :: start in later ==> ListsOnce(start)
    ensures var s := Migrated(t, names, plans, removable);
            && name in s.nested && name in s.targets && !Settled(s, name, t.nested[name].files)
            && SameAt(AfterStarts(s, later), s, name)
  {
    var s := Migrated(t, names, plans, removable);
    RunIsOneTurnEach(t, names, plans, |names|, name);
    assert names[..|names|] == names && name in names;
    TargetStaysForever(s, later, name);
  }

  lemma {:induction false} NestedFlagKept(t: Tree, names: seq<Name>, plans: Plans, n: nat)
    requires n <= |names|
    ensures After(t, names, plans, n).nestedExists == t.nestedExists
    ensures After(t, names, plans, n).others == t.others
  {
    if n > 0 {
      NestedFlagKept(t, names, plans, n - 1);
    }
  }

  predicate FaultFree(faults: Faults, files: Directory) {
    !faults.mkdirFails && faults.copies >= |files| && faults.removal.Removed?
  }

  /**
   A run without faults, on whatever an earlier run left, moves an agent exactly when nothing stands at
   its target and it has no subdirectory.
   */
  lemma FaultFreeRunFinishes(t: Tree, names: seq<Name>, plans: Plans, removable: bool, name: Name)
    requires IsEveryEntry(t, names) && PlansFit(t, names, plans)
    requires name in t.nested && t.nested[name].Agent? && FaultFree(plans[name].faults, t.nested[name].files)
    ensures var s := Migrated(t, names, plans, removable);
            var files := t.nested[name].files;
            (name !in s.nested && name in s.targets && s.targets[name] == files) <==>
            !TargetExists(t, name) && forall file :: file in files ==> files[file].File?
  {
    var plan, files := plans[name], t.nested[name].files;
    RunIsOneTurnEach(t, names, plans, |names|, name);
    assert names[..|names|] == names;
    ListingLength(plan.order, files);
    if Eligible(t, name) {
      if file :| file in files && files[file].Subdirectory? {
        var i :| 0 <= i < |plan.order| && plan.order[i] == file;
        assert CopyFails(files, plan.order, plan.faults, i);
      } else {
        assert AllCopied(files, plan);
        WholeTarget(files, plan);
      }
    }
  }

  lemma {:induction false} DistinctLength(names: seq<Name>)
    requires forall i, j :: 0 <= i < j < |names| ==> names[i] != names[j]
    ensures |set name | name in names| == |names|
  {
    if names != [] {
      var before, last := names[..|names| - 1], names[|names| - 1];
      DistinctLength(before);
      assert names == before + [last] && last !in before;
      assert (set name | name in names) == (set name | name in before) + {last};
    }
  }

  lemma ListingLength(order: seq<Name>, files: Directory)
    requires IsListing(order, files)
    ensures |order| == |files|
  {
    DistinctLength(order);
    assert files.Keys == set name | name in order;
  }

  // ----- the directory itself -----

  class AgentsDirectory {
    var targets: map<Name, Directory>
    var others: set<Name>
    var nested: map<Name, Entry>
    var nestedExists: bool

    function State(): Tree
      reads this
    {
      Tree(targets, others, nested, nestedExists)
    }

    constructor (t: Tree)
      ensures State() == t
    {
      targets, others, nested, nestedExists := t.targets, t.others, t.nested, t.nestedExists;
    }

    /** The copy loop, with what a failed copy leaves. */
    method CopyFiles(name: Name, files: Directory, plan: Plan) returns (whole: bool)
      requires forall file :: file in plan.order ==> file in files
      modifies this`targets
      ensures targets == old(targets)[name := TargetMade(files, plan)]
      ensures whole <==> AllCopied(files, plan)
    {
      var target: Directory := map[];
      var i := 0;
      while i < |plan.order| && !CopyFails(files, plan.order, plan.faults, i)
        invariant i <= |plan.order| && target == TargetAfter(files, plan.order, i)
        invariant Copied(files, plan.order, plan.faults, 0) == Copied(files, plan.order, plan.faults, i)
      {
        target := target[plan.order[i] := files[plan.order[i]]];
        i := i + 1;
      }
      whole := i == |plan.order|;
      if !whole && plan.faults.torn.Some? {
        target := target[plan.order[i] := plan.faults.torn.value];
      }
      targets := targets[name := target];
    }

    method RollBack(name: Name, rollback: Removal)
      requires name in targets
      modifies this`targets
      ensures targets == var made := AfterRemoval(old(targets)[name], rollback);
                         if made.Some? then old(targets)[name := made.value] else old(targets) - {name}
    {
      match rollback
      case Removed => targets := targets - {name};
      case Stuck(left) => targets := targets[name := Restrict(targets[name], left)];
    }

    /** The guarded part of the loop body: make, copy, remove, and roll back on failure. */
    method Attempt(name: Name, files: Directory, plan: Plan)
      requires Eligible(State(), name) && nested[name] == Agent(files)
      requires forall file :: file in plan.order ==> file in files
      modifies this
      ensures State() == Put(old(State()), name, OutcomeOf(files, plan))
    {
      hide TargetMade, AllCopied, Restrict;
      assert nested == nested[name := Agent(files)] && targets == targets - {name};
      if plan.faults.mkdirFails {
        return;
      }
      var whole := CopyFiles(name, files, plan);
      if !whole {
        RollBack(name, plan.faults.rollback);
        return;
      }
      match plan.faults.removal
      case Removed =>
        nested := nested - {name};
      case Stuck(left) =>
        nested := nested[name := Agent(Restrict(files, left))];
        RollBack(name, plan.faults.rollback);
    }

    /** The body of the loop of `migrate_agents_dir`. */
    method MigrateAgent(name: Name, plan: Plan)
      requires name in nested && nested[name].Agent? ==>
                 forall file :: file in plan.order ==> file in nested[name].files
      modifies this
      ensures State() == MigrateOne(old(State()), name, plan)
    {
      if name !in nested || nested[name].PlainFile? {
        return;
      }
      if name in targets || name in others || name == NESTED {
        return;
      }
      Attempt(name, nested[name].files, plan);
    }

    /** `migrate_agents_dir`, over the entries in the order they are listed. */
    method MigrateAgentsDir(names: seq<Name>, plans: Plans, removable: bool)
      requires IsEveryEntry(State(), names) && PlansFit(State(), names, plans)
      modifies this
      ensures !old(nestedExists) ==> State() == old(State())
      ensures old(nestedExists) ==> State() == Migrated(old(State()), names, plans, removable)
    {
      if !nestedExists {
        return;
      }
      ghost var t := State();
      for n := 0 to |names|
        invariant State() == After(t, names, plans, n)
      {
        var name := names[n];
        assert name !in names[..n];
        RunIsOneTurnEach(t, names, plans, n, name);
        MigrateAgent(name, plans[name]);
      }
      if nested == map[] && removable {
        nestedExists := false;
      }
    }
  }
}
