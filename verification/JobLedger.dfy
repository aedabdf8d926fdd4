/**
 The job ledger of `local_operator/exec_mode.py`: rows are only ever appended, and a status query folds
 the rows of one job by rank so that a late row cannot take a job back.
 */
module JobLedger {
  import opened Prelude

  datatype Json = Null | Text(text: string) | Number(number: int)

  type Row = map<string, Json>

  function Rank(status: string): nat {
    if status == "running" then 1
    else if status in {"succeeded", "failed", "cancelled", "interrupted"} then 2
    else 0
  }

  /** A row without a status counts as starting, and so does an unknown one. */
  function Level(row: Row): (level: nat)
    ensures level <= 2
  {
    if "status" in row && row["status"].Text? then Rank(row["status"].text) else 0
  }

  datatype Fold = Fold(result: Row, current: int)

  /** A row of lower rank than one already seen only fills gaps. */
  function Apply(fold: Fold, row: Row): Fold {
    if Level(row) < fold.current then fold.(result := row + fold.result)
    else Fold(fold.result + row, Level(row))
  }

  function FoldRows(rows: seq<Row>): Fold {
    if rows == [] then Fold(map[], -1) else Apply(FoldRows(rows[..|rows| - 1]), rows[|rows| - 1])
  }

  predicate IsOf(row: Row, job: string) {
    "id" in row && row["id"] == Text(job)
  }

  function RowsOf(rows: seq<Row>, job: string): seq<Row> {
    if rows == [] then []
    else RowsOf(rows[..|rows| - 1], job) + (if IsOf(rows[|rows| - 1], job) then [rows[|rows| - 1]] else [])
  }

  // ----- what the fold means -----

  /** A row of rank at least that of every row before it. */
  ghost predicate Accepted(rows: seq<Row>, i: nat)
    requires i < |rows|
  {
    forall j :: 0 <= j < i ==> Level(rows[j]) <= Level(rows[i])
  }

  ghost predicate AcceptedHas(rows: seq<Row>, i: nat, key: string) {
    i < |rows| && Accepted(rows, i) && key in rows[i]
  }

  /** The row a key's value comes from: the last accepted row that has it, else the first row that has it. */
  ghost predicate IsSource(rows: seq<Row>, key: string, i: nat) {
    && i < |rows| && key in rows[i]
    && if exists j: nat :: AcceptedHas(rows, j, key)
       then AcceptedHas(rows, i, key) && forall j: nat :: j > i ==> !AcceptedHas(rows, j, key)
       else forall j :: 0 <= j < i ==> key !in rows[j]
  }

  /** The rank reached is the highest seen. */
  lemma {:induction false} CurrentIsHighest(rows: seq<Row>)
    ensures forall j :: 0 <= j < |rows| ==> Level(rows[j]) <= FoldRows(rows).current
    ensures rows == [] ==> FoldRows(rows).current == -1
    ensures rows != [] ==> exists j :: 0 <= j < |rows| && Level(rows[j]) == FoldRows(rows).current
  {
    if rows != [] {
      var before, last := rows[..|rows| - 1], |rows| - 1;
      CurrentIsHighest(before);
      if Level(rows[last]) >= FoldRows(before).current {
        assert Level(rows[last]) == FoldRows(rows).current;
      } else {
        var j :| 0 <= j < |before| && Level(before[j]) == FoldRows(before).current;
        assert Level(rows[j]) == FoldRows(rows).current;
      }
    }
  }

  lemma LastIsAccepted(rows: seq<Row>)
    requires rows != []
    ensures var last := |rows| - 1;
            Accepted(rows, last) <==> Level(rows[last]) >= FoldRows(rows[..last]).current
  {
    var last := |rows| - 1;
    var before := rows[..last];
    CurrentIsHighest(before);
    assert forall j :: 0 <= j < last ==> rows[j] == before[j];
  }

  lemma AcceptedInPrefix(rows: seq<Row>, key: string)
    requires rows != []
    ensures var before := rows[..|rows| - 1];
            forall j: nat :: j < |before| ==> (AcceptedHas(rows, j, key) <==> AcceptedHas(before, j, key))
  {
  }

  /** The fold has a key exactly when some row has it. */
  lemma {:induction false} FoldKeys(rows: seq<Row>, key: string)
    ensures key in FoldRows(rows).result <==> exists i :: 0 <= i < |rows| && key in rows[i]
  {
    if rows != [] {
      var before, last := rows[..|rows| - 1], |rows| - 1;
      FoldKeys(before, key);
      assert forall i :: 0 <= i < last ==> rows[i] == before[i];
    }
  }

  /** With an accepted row that has the key, the last such row gives its value; else the first row that has it. */
  lemma {:induction false} FoldValue(rows: seq<Row>, key: string, i: nat)
    requires IsSource(rows, key, i)
    ensures key in FoldRows(rows).result && FoldRows(rows).result[key] == rows[i][key]
  {
    var before, last := rows[..|rows| - 1], |rows| - 1;
    var inner := FoldRows(before);
    assert forall j :: 0 <= j < last ==> rows[j] == before[j];
    FoldKeys(rows, key);
    FoldKeys(before, key);
    LastIsAccepted(rows);
    AcceptedInPrefix(rows, key);
    if i == last {
      if !AcceptedHas(rows, last, key) {
        assert key !in inner.result;
      }
    } else {
      assert !AcceptedHas(rows, last, key);
      assert IsSource(before, key, i) by {
        if j: nat :| AcceptedHas(rows, j, key) {
          assert AcceptedHas(before, i, key);
        } else {
          assert forall j: nat :: !AcceptedHas(before, j, key);
        }
      }
      FoldValue(before, key, i);
    }
  }

  lemma {:induction false} LastAcceptedWith(rows: seq<Row>, key: string, n: nat) returns (i: nat)
    requires n <= |rows| && exists j: nat :: j < n && AcceptedHas(rows, j, key)
    ensures i < n && AcceptedHas(rows, i, key) && forall j: nat :: i < j < n ==> !AcceptedHas(rows, j, key)
  {
    if AcceptedHas(rows, n - 1, key) {
      i := n - 1;
    } else {
      i := LastAcceptedWith(rows, key, n - 1);
    }
  }

  lemma {:induction false} FirstWith(rows: seq<Row>, key: string, n: nat) returns (i: nat)
    requires n < |rows| && key in rows[n]
    ensures i <= n && key in rows[i] && forall j :: 0 <= j < i ==> key !in rows[j]
  {
    if j :| 0 <= j < n && key in rows[j] {
      i := FirstWith(rows, key, j);
    } else {
      i := n;
    }
  }

  /** Every key of the fold has a source, and its value is that row's. */
  lemma FoldMeaning(rows: seq<Row>, key: string)
    requires key in FoldRows(rows).result
    ensures exists i: nat :: IsSource(rows, key, i) && FoldRows(rows).result[key] == rows[i][key]
  {
    FoldKeys(rows, key);
    var n :| 0 <= n < |rows| && key in rows[n];
    var i: nat;
    if j: nat :| AcceptedHas(rows, j, key) {
      i := LastAcceptedWith(rows, key, |rows|);
    } else {
      i := FirstWith(rows, key, n);
    }
    assert IsSource(rows, key, i);
    FoldValue(rows, key, i);
  }

  // ----- a job never goes back -----

  /** The status of the result is of the rank reached. */
  lemma {:induction false} ResultHasCurrentRank(rows: seq<Row>)
    requires rows != []
    ensures FoldRows(rows).current == Level(FoldRows(rows).result)
  {
    var before := rows[..|rows| - 1];
    if before != [] {
      ResultHasCurrentRank(before);
    }
  }

  lemma {:induction false} CurrentGrows(rows: seq<Row>, n: nat)
    requires n <= |rows|
    ensures FoldRows(rows[..n]).current <= FoldRows(rows).current
  {
    if n < |rows| {
      assert rows[..|rows| - 1][..n] == rows[..n];
      CurrentGrows(rows[..|rows| - 1], n);
    } else {
      assert rows[..n] == rows;
    }
  }

  /** Whatever is appended later, the rank of the reported status never falls: a terminal state is absorbing. */
  lemma RankNeverFalls(rows: seq<Row>, n: nat)
    requires 0 < n <= |rows|
    ensures Level(FoldRows(rows[..n]).result) <= Level(FoldRows(rows).result)
    ensures Level(FoldRows(rows[..n]).result) == 2 ==> Level(FoldRows(rows).result) == 2
  {
    ResultHasCurrentRank(rows[..n]);
    ResultHasCurrentRank(rows);
    CurrentGrows(rows, n);
  }

  /** A row of lower rank changes nothing that is already known. */
  lemma LateRowOnlyFillsGaps(rows: seq<Row>, late: Row)
    requires Level(late) < FoldRows(rows).current
    ensures var before, after := FoldRows(rows), FoldRows(rows + [late]);
            && after.current == before.current
            && forall key :: key in before.result ==> key in after.result && after.result[key] == before.result[key]
  {
    assert (rows + [late])[..|rows|] == rows;
  }

  // ----- one row of each rank, in any order -----

  function FoldThree(a: Row, b: Row, c: Row): Row {
    FoldRows([a, b, c]).result
  }

  lemma FoldSnoc(rows: seq<Row>, row: Row)
    ensures FoldRows(rows + [row]) == Apply(FoldRows(rows), row)
  {
  }

  lemma FoldThreeIs(a: Row, b: Row, c: Row)
    ensures FoldThree(a, b, c) == Apply(Apply(Fold(a, Level(a)), b), c).result
  {
    FoldSnoc([], a);
    FoldSnoc([a], b);
    FoldSnoc([a, b], c);
    assert [] + [a] == [a] && [a] + [b] == [a, b] && [a, b] + [c] == [a, b, c];
    var none: Row := map[];
    assert none + a == a;
  }

  /** All six orders of a spawn, a running and a terminal row fold to one map. */
  predicate OrderFree(spawn: Row, running: Row, terminal: Row) {
    var one := FoldThree(spawn, running, terminal);
    && FoldThree(spawn, terminal, running) == one
    && FoldThree(running, spawn, terminal) == one
    && FoldThree(running, terminal, spawn) == one
    && FoldThree(terminal, spawn, running) == one
    && FoldThree(terminal, running, spawn) == one
  }

  predicate AgreeOutside(spawn: Row, running: Row, terminal: Row) {
    forall key :: key in spawn && key in running && key !in terminal ==> spawn[key] == running[key]
  }

  lemma Overlap(a: Row, b: Row, c: Row)
    ensures a + b + c == b + (a + c) <==> AgreeOutside(a, b, c)
  {
    var one, other := a + b + c, b + (a + c);
    assert one.Keys == other.Keys;
    if one == other {
      forall key | key in a && key in b && key !in c
        ensures a[key] == b[key]
      {
        assert one[key] == b[key] && other[key] == a[key];
      }
    }
  }

  /** The terminal row last: the order of the other two does not matter. */
  lemma TerminalLast(a: Row, b: Row, c: Row)
    requires Level(a) == 0 && Level(b) == 1 && Level(c) == 2
    ensures FoldThree(a, b, c) == a + b + c && FoldThree(b, a, c) == a + b + c
  {
    FoldThreeIs(a, b, c);
    FoldThreeIs(b, a, c);
  }

  /** A row after the terminal one only fills gaps. */
  lemma TerminalEarlier(a: Row, b: Row, c: Row)
    requires Level(a) == 0 && Level(b) == 1 && Level(c) == 2
    ensures FoldThree(a, c, b) == b + (a + c) && FoldThree(c, a, b) == b + (a + c)
    ensures FoldThree(b, c, a) == a + (b + c) && FoldThree(c, b, a) == a + (b + c)
  {
    FoldThreeIs(a, c, b);
    FoldThreeIs(c, a, b);
    FoldThreeIs(b, c, a);
    FoldThreeIs(c, b, a);
  }

  /** Order does not matter exactly when spawn and running rows agree on every key the terminal row lacks. */
  lemma OrderFreeExactlyWhen(spawn: Row, running: Row, terminal: Row)
    requires Level(spawn) == 0 && Level(running) == 1 && Level(terminal) == 2
    ensures OrderFree(spawn, running, terminal) <==> AgreeOutside(spawn, running, terminal)
  {
    hide FoldThree, Level, AgreeOutside;
    TerminalLast(spawn, running, terminal);
    TerminalEarlier(spawn, running, terminal);
    Overlap(spawn, running, terminal);
    assert spawn + (running + terminal) == spawn + running + terminal;
  }

  // ----- the rows that are written -----

  function SpawnRow(job: string, started: string, prompt: string, log: string, pid: int, generation: Json, team: Json)
    : Row
  {
    map["id" := Text(job), "started_at" := Text(started), "prompt" := Text(prompt), "log" := Text(log),
        "pid" := Number(pid), "process_generation" := generation, "status" := Text("starting"),
        "requested_team" := team, "finished_at" := Null, "exit_code" := Null]
  }

  function RunningRow(
    job: string, session: string, pid: int, generation: Json, team: Json, directory: string, runtime: string): Row
  {
    map["id" := Text(job), "session_id" := Text(session), "pid" := Number(pid), "process_generation" := generation,
        "status" := Text("running"), "team" := team, "session_directory" := Text(directory),
        "runtime_path" := Text(runtime)]
  }

  function ExitStatus(code: int): (status: string)
    ensures status in {"succeeded", "cancelled", "failed"}
    ensures (status == "succeeded" <==> code == 0) && (status == "cancelled" <==> code in {130, 143})
  {
    if code == 0 then "succeeded" else if code == 130 || code == 143 then "cancelled" else "failed"
  }

  function ExitRow(job: string, finished: string, code: int, pid: int, generation: Json): Row {
    map["id" := Text(job), "finished_at" := Text(finished), "exit_code" := Number(code), "pid" := Number(pid),
        "process_generation" := generation, "status" := Text(ExitStatus(code))]
  }

  /** The row a status query writes for a job whose owner is dead. */
  function InterruptedRow(job: string, finished: string): Row {
    map["id" := Text(job), "status" := Text("interrupted"), "finished_at" := Text(finished)]
  }

  /** The rows of a run that reports its own exit can reach the ledger in any order. */
  lemma WrittenRowsAreOrderFree(
    job: string, started: string, prompt: string, log: string, pid: int, generation: Json, wanted: Json,
    session: string, pid': int, generation': Json, team: Json, directory: string, runtime: string,
    finished: string, code: int, pid'': int, generation'': Json)
    ensures OrderFree(SpawnRow(job, started, prompt, log, pid, generation, wanted),
                      RunningRow(job, session, pid', generation', team, directory, runtime),
                      ExitRow(job, finished, code, pid'', generation''))
  {
    OrderFreeExactlyWhen(SpawnRow(job, started, prompt, log, pid, generation, wanted),
                         RunningRow(job, session, pid', generation', team, directory, runtime),
                         ExitRow(job, finished, code, pid'', generation''));
  }

  /** With an interruption as the terminal row, order matters unless the other two rows name one process. */
  lemma InterruptedRowsAreOrderFreeExactlyWhen(
    job: string, started: string, prompt: string, log: string, pid: int, generation: Json, wanted: Json,
    session: string, pid': int, generation': Json, team: Json, directory: string, runtime: string, finished: string)
    ensures OrderFree(SpawnRow(job, started, prompt, log, pid, generation, wanted),
                      RunningRow(job, session, pid', generation', team, directory, runtime),
                      InterruptedRow(job, finished)) <==>
            pid == pid' && generation == generation'
  {
    var spawn := SpawnRow(job, started, prompt, log, pid, generation, wanted);
    var running := RunningRow(job, session, pid', generation', team, directory, runtime);
    var terminal := InterruptedRow(job, finished);
    hide OrderFree;
    OrderFreeExactlyWhen(spawn, running, terminal);
    assert spawn["pid"] == Number(pid) && running["pid"] == Number(pid');
    assert spawn["process_generation"] == generation && running["process_generation"] == generation';
  }

  // ----- status queries -----

  function Get(row: Row, key: string): Json {
    if key in row then row[key] else Null
  }

  predicate Truthy(value: Json) {
    match value
    case Null => false
    case Text(text) => text != ""
    case Number(number) => number != 0
  }

  /** Whether a process of this pid and generation is known to be dead. */
  type DeathTest = (Json, Json) -> bool

  predicate MustReconcile(result: Row, dead: DeathTest) {
    && Get(result, "status") in {Text("starting"), Text("running")}
    && Truthy(Get(result, "pid")) && Truthy(Get(result, "process_generation"))
    && dead(Get(result, "pid"), Get(result, "process_generation"))
  }

  function StatusOf(rows: seq<Row>, job: string): Row {
    FoldRows(RowsOf(rows, job)).result
  }

  function Reported(result: Row, pending: Json): Row {
    if Get(result, "status") == Text("running") then result["pending" := pending] else result
  }

  // ----- one job among the rows of many -----

  predicate Owns(rows: seq<Row>, job: string, i: nat) {
    i < |rows| && "id" in rows[i] && rows[i]["id"] == Text(job)
  }

  /** A row of the job of rank at least that of every earlier row of the job, which has the key. */
  ghost predicate OwnAccepted(rows: seq<Row>, job: string, i: nat, key: string) {
    && Owns(rows, job, i) && key in rows[i]
    && forall j: nat :: j < i && Owns(rows, job, j) ==> Level(rows[j]) <= Level(rows[i])
  }

  /** Among the rows of the job: the last accepted one that has the key, else the first that has it. */
  ghost predicate IsOwnSource(rows: seq<Row>, job: string, key: string, i: nat) {
    && Owns(rows, job, i) && key in rows[i]
    && if exists j: nat :: OwnAccepted(rows, job, j, key)
       then OwnAccepted(rows, job, i, key) && forall j: nat :: j > i ==> !OwnAccepted(rows, job, j, key)
       else forall j: nat :: j < i && Owns(rows, job, j) ==> key !in rows[j]
  }

  /** Where the rows of the job lie. */
  function Places(rows: seq<Row>, job: string): seq<nat> {
    if rows == [] then []
    else
      var last := |rows| - 1;
      Places(rows[..last], job) + (if Owns(rows, job, last) then [last] else [])
  }

  lemma {:induction false} PlacesAre(rows: seq<Row>, job: string)
    ensures |Places(rows, job)| == |RowsOf(rows, job)|
    ensures forall k :: 0 <= k < |Places(rows, job)| ==>
              Owns(rows, job, Places(rows, job)[k]) && rows[Places(rows, job)[k]] == RowsOf(rows, job)[k]
    ensures forall i: nat :: i in Places(rows, job) <==> Owns(rows, job, i)
    ensures forall j, k :: 0 <= j < k < |Places(rows, job)| ==> Places(rows, job)[j] < Places(rows, job)[k]
  {
    if rows != [] {
      var last := |rows| - 1;
      var before := rows[..last];
      PlacesAre(before, job);
      assert forall i: nat :: i < last ==> (Owns(before, job, i) <==> Owns(rows, job, i));
      forall k | 0 <= k < |Places(before, job)|
        ensures Places(before, job)[k] < last
      {
        assert Places(before, job)[k] in Places(before, job);
      }
    }
  }

  /** A row accepted among the job's own is accepted in the ledger, and the reverse. */
  lemma AcceptedInPlace(rows: seq<Row>, job: string, k: nat, key: string)
    requires k < |Places(rows, job)|
    ensures AcceptedHas(RowsOf(rows, job), k, key) <==> OwnAccepted(rows, job, Places(rows, job)[k], key)
  {
    PlacesAre(rows, job);
    var own, places := RowsOf(rows, job), Places(rows, job);
    if AcceptedHas(own, k, key) {
      forall j: nat | j < places[k] && Owns(rows, job, j)
        ensures Level(rows[j]) <= Level(rows[places[k]])
      {
        var m :| 0 <= m < |places| && places[m] == j;
        assert m < k && Level(own[m]) <= Level(own[k]);
      }
    }
    if OwnAccepted(rows, job, places[k], key) {
      forall m | 0 <= m < k
        ensures Level(own[m]) <= Level(own[k])
      {
        assert places[m] < places[k] && Owns(rows, job, places[m]);
      }
    }
  }

  lemma SourceInPlace(rows: seq<Row>, job: string, key: string, k: nat)
    requires IsSource(RowsOf(rows, job), key, k) && k < |Places(rows, job)|
    ensures IsOwnSource(rows, job, key, Places(rows, job)[k])
  {
    PlacesAre(rows, job);
    hide Accepted, RowsOf, Places, Level;
    var own, places := RowsOf(rows, job), Places(rows, job);
    forall m: nat | m < |places|
      ensures AcceptedHas(own, m, key) <==> OwnAccepted(rows, job, places[m], key)
    {
      AcceptedInPlace(rows, job, m, key);
    }
    hide AcceptedHas, Owns;
    forall j: nat | OwnAccepted(rows, job, j, key)
      ensures exists m: nat :: m < |places| && places[m] == j && AcceptedHas(own, m, key)
    {
      assert Owns(rows, job, j);
      var m: nat :| m < |places| && places[m] == j;
    }
    hide OwnAccepted;
    if !(exists j: nat :: AcceptedHas(own, j, key)) {
      forall j: nat | j < places[k] && Owns(rows, job, j)
        ensures key !in rows[j]
      {
        var m: nat :| m < |places| && places[m] == j;
        assert m < k && key !in own[m];
      }
    }
  }

  /**
   What a status report says of a job, in terms of the whole ledger: it has exactly the keys that some row
   with this job's id has, each with the value of its source among those rows. Rows of other jobs, and rows
   without an id, count for nothing.
   */
  lemma ReportMeaning(rows: seq<Row>, job: string, key: string)
    ensures key in StatusOf(rows, job) <==> exists i: nat :: Owns(rows, job, i) && key in rows[i]
    ensures key in StatusOf(rows, job) ==>
              exists i: nat :: IsOwnSource(rows, job, key, i) && StatusOf(rows, job)[key] == rows[i][key]
  {
    var own, places := RowsOf(rows, job), Places(rows, job);
    PlacesAre(rows, job);
    FoldKeys(own, key);
    if i: nat :| Owns(rows, job, i) && key in rows[i] {
      var k: nat :| k < |places| && places[k] == i;
      assert key in own[k];
    }
    if key in StatusOf(rows, job) {
      FoldMeaning(own, key);
      var k: nat :| IsSource(own, key, k) && StatusOf(rows, job)[key] == own[k][key];
      SourceInPlace(rows, job, key, k);
      assert Owns(rows, job, places[k]);
    }
  }

  /** So a row of another job, or of none, changes no report, and a report that says anything is the job's own. */
  lemma OtherRowsAreIgnored(rows: seq<Row>, row: Row, job: string)
    requires "id" !in row || row["id"] != Text(job)
    ensures StatusOf(rows + [row], job) == StatusOf(rows, job)
    ensures StatusOf(rows, job) != map[] ==>
              "id" in StatusOf(rows, job) && StatusOf(rows, job)["id"] == Text(job)
  {
    assert (rows + [row])[..|rows|] == rows;
    assert RowsOf(rows + [row], job) == RowsOf(rows, job);
    if key :| key in StatusOf(rows, job) {
      ReportMeaning(rows, job, key);
      ReportMeaning(rows, job, "id");
    }
  }

  class Ledger {
    var rows: seq<Row>

    constructor ()
      ensures rows == []
    {
      rows := [];
    }

    /** Every writer appends one row and touches nothing else. */
    method Append(row: Row)
      modifies this
      ensures rows == old(rows) + [row]
    {
      rows := rows + [row];
    }

    /** The loop of `job_status`. */
    method FoldLedger(job: string) returns (result: Row)
      ensures result == StatusOf(rows, job)
    {
      result := map[];
      var current: int := -1;
      for i := 0 to |rows|
        invariant Fold(result, current) == FoldRows(RowsOf(rows[..i], job))
      {
        var row := rows[i];
        assert rows[..i + 1][..i] == rows[..i];
        ghost var mine := RowsOf(rows[..i], job);
        assert (mine + [row])[..|mine|] == mine;
        if !IsOf(row, job) {
          assert mine + [] == mine;
          continue;
        }
        var level := Level(row);
        if level < current {
          result := row + result;
          continue;
        }
        result := result + row;
        current := level;
      }
      assert rows[..|rows|] == rows;
    }

    /** `job_status`: what it reports is the fold of the ledger it leaves, with the live field added. */
    method JobStatus(job: string, reconcile: bool, dead: DeathTest, now: string, pending: Json) returns (result: Row)
      modifies this
      ensures rows == if reconcile && MustReconcile(StatusOf(old(rows), job), dead)
                      then old(rows) + [InterruptedRow(job, now)] else old(rows)
      ensures result == Reported(StatusOf(rows, job), pending)
      ensures rows == old(rows) <==>
                var was := StatusOf(old(rows), job);
                var pid, generation := Get(was, "pid"), Get(was, "process_generation");
                !(reconcile && Get(was, "status") in {Text("starting"), Text("running")}
                  && Truthy(pid) && Truthy(generation) && dead(pid, generation))
      ensures rows != old(rows) ==>
                rows == old(rows) +
                  [map["id" := Text(job), "status" := Text("interrupted"), "finished_at" := Text(now)]]
      ensures forall key :: key in result <==>
                key in StatusOf(rows, job) ||
                (key == "pending" && Get(StatusOf(rows, job), "status") == Text("running"))
      ensures forall key :: key in result && key != "pending" ==> result[key] == StatusOf(rows, job)[key]
    {
      result := FoldLedger(job);
      if reconcile && Get(result, "status") in {Text("starting"), Text("running")} {
        var generation, pid := Get(result, "process_generation"), Get(result, "pid");
        if Truthy(pid) && Truthy(generation) && dead(pid, generation) {
          var update := InterruptedRow(job, now);
          InterruptionFolds(rows, job, now);
          Append(update);
          result := result + update;
        }
      }
      if Get(result, "status") == Text("running") {
        result := result["pending" := pending];
      }
    }
  }

  /** Updating the result with the interruption is the same as folding the ledger again. */
  lemma InterruptionFolds(rows: seq<Row>, job: string, now: string)
    ensures StatusOf(rows + [InterruptedRow(job, now)], job) == StatusOf(rows, job) + InterruptedRow(job, now)
  {
    var row := InterruptedRow(job, now);
    var mine := RowsOf(rows, job);
    assert (rows + [row])[..|rows|] == rows;
    assert RowsOf(rows + [row], job) == mine + [row];
    CurrentIsHighest(mine);
    assert FoldRows(mine).current <= 2 == Level(row);
    FoldSnoc(mine, row);
  }

  /** Once reconciled, no later query of any kind appends again, whatever else was appended in between. */
  lemma ReconciledOnce(rows: seq<Row>, job: string, now: string, more: seq<Row>, dead: DeathTest)
    ensures !MustReconcile(StatusOf(rows + [InterruptedRow(job, now)] + more, job), dead)
  {
    var row := InterruptedRow(job, now);
    var first := rows + [row];
    var mine := RowsOf(first, job);
    assert first[..|rows|] == rows;
    assert mine != [] && mine[|mine| - 1] == row && Level(row) == 2;
    RowsOfAppend(first, more, job);
    var all := RowsOf(first + more, job);
    assert all[|mine| - 1] == row;
    CurrentIsHighest(all);
    ResultHasCurrentRank(all);
  }

  lemma {:induction false} RowsOfAppend(a: seq<Row>, b: seq<Row>, job: string)
    ensures RowsOf(a + b, job) == RowsOf(a, job) + RowsOf(b, job)
  {
    if b == [] {
      assert a + b == a;
    } else {
      assert (a + b)[..|a + b| - 1] == a + b[..|b| - 1];
      RowsOfAppend(a, b[..|b| - 1], job);
    }
  }
}
