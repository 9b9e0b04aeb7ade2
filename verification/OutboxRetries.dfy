// What whole runs of the outbox processor achieve: rehearsals leave no trace, production runs drain the outbox.
module OutboxRetries {
  import opened Sorting
  import opened OutboxTable
  import opened OutboxRun

  // ---- One run, row by row ----

  /** What a run makes of a row it claimed, when no other row shares its key. */
  function Settle(r: Row, mode: Mode, outcome: LastError, now: int, config: Config): Row {
    if !mode.Production? then Release(r)
    else if outcome.Error? then Fail(r, outcome.message, now, config)
    else Complete(r)
  }

  ghost predicate ClaimedRows(rows: Table, ids: seq<nat>) {
    UniqueKeys(rows) && NoDup(ids) && forall k :: 0 <= k < |ids| ==> ids[k] < |rows| && rows[ids[k]].status == Processing
  }

  /** The row with number i after the first n jobs. */
  ghost predicate RowAfter(rows: Table, r: Table, ids: seq<nat>, n: nat, mode: Mode, outcomes: Outcomes, now: int,
                           config: Config, i: nat)
    requires n <= |ids| && i < |rows| == |r|
  {
    && (i !in ids[..n] ==> r[i] == rows[i])
    && forall k: nat :: k < n && ids[k] == i ==> r[i] == Settle(rows[i], mode, outcomes(k), now, config)
  }

  lemma ProcessOne(rows: Table, id: nat, mode: Mode, outcome: LastError, now: int, config: Config)
    requires UniqueKeys(rows) && id < |rows| && rows[id].status == Processing
    ensures !IsProcessed(rows, rows[id].dedupeKey)
    ensures ProcessRow(rows, id, mode, outcome, now, config) == rows[id := Settle(rows[id], mode, outcome, now, config)]
  {
  }

  /** Claimed rows are settled one by one and every other row stays. */
  lemma {:induction false} RunRowByRow(rows: Table, ids: seq<nat>, n: nat, mode: Mode, outcomes: Outcomes, now: int,
                                       config: Config)
    requires ClaimedRows(rows, ids) && n <= |ids|
    ensures var r := ProcessFirst(rows, ids, n, mode, outcomes, now, config);
            && UniqueKeys(r)
            && forall i: nat {:trigger RowAfter(rows, r, ids, n, mode, outcomes, now, config, i)} :: i < |rows| ==>
                 RowAfter(rows, r, ids, n, mode, outcomes, now, config, i)
  {
    if n > 0 {
      RunRowByRow(rows, ids, n - 1, mode, outcomes, now, config);
      var before, id := ProcessFirst(rows, ids, n - 1, mode, outcomes, now, config), ids[n - 1];
      assert RowAfter(rows, before, ids, n - 1, mode, outcomes, now, config, id);
      ProcessOne(before, id, mode, outcomes(n - 1), now, config);
      var r := before[id := Settle(before[id], mode, outcomes(n - 1), now, config)];
      forall i: nat | i < |rows| ensures RowAfter(rows, r, ids, n, mode, outcomes, now, config, i) {
        assert RowAfter(rows, before, ids, n - 1, mode, outcomes, now, config, i);
        RowAfterOneMore(rows, before, ids, n, mode, outcomes, now, config, i);
      }
    }
  }

  lemma RowAfterOneMore(rows: Table, before: Table, ids: seq<nat>, n: nat, mode: Mode, outcomes: Outcomes, now: int,
                        config: Config, i: nat)
    requires NoDup(ids) && 0 < n <= |ids| && ids[n - 1] < |rows| == |before| && i < |rows|
    requires RowAfter(rows, before, ids, n - 1, mode, outcomes, now, config, i)
    ensures RowAfter(rows, before[ids[n - 1] := Settle(before[ids[n - 1]], mode, outcomes(n - 1), now, config)], ids, n, mode,
                     outcomes, now, config, i)
  {
    assert ids[..n] == ids[..n - 1] + [ids[n - 1]];
  }

  lemma NextIsNoDuplicate(rows: Table, ids: seq<nat>, n: nat, mode: Mode, outcomes: Outcomes, now: int, config: Config)
    requires ClaimedRows(rows, ids) && n < |ids|
    ensures var before := ProcessFirst(rows, ids, n, mode, outcomes, now, config);
            !IsProcessed(before, before[ids[n]].dedupeKey)
  {
    RunRowByRow(rows, ids, n, mode, outcomes, now, config);
    var before := ProcessFirst(rows, ids, n, mode, outcomes, now, config);
    assert RowAfter(rows, before, ids, n, mode, outcomes, now, config, ids[n]);
    ProcessOne(before, ids[n], mode, outcomes(n), now, config);
  }

  /** Every one of n claimed jobs is in one count, and none is skipped. */
  predicate Counted(t: Tally, n: nat, mode: Mode) {
    && t.claimed == n && t.skipped == 0
    && (mode.Production? ==> t.completed + t.failed == n && t.dispatched == t.completed)
    && (mode.Shadow? ==> t.dispatched + t.failed == n && t.completed == 0)
    && (mode.DryRun? ==> t.dispatched == 0 && t.failed == 0 && t.completed == 0)
  }

  lemma CountOneMore(t: Tally, n: nat, rows: Table, id: nat, mode: Mode, outcome: LastError)
    requires Counted(t, n, mode) && id < |rows| && !IsProcessed(rows, rows[id].dedupeKey)
    ensures Counted(Count(t.(claimed := t.claimed + 1), rows, id, mode, outcome), n + 1, mode)
  {
  }

  /** Job k is not taken for a duplicate. */
  ghost predicate NewAt(rows: Table, ids: seq<nat>, k: nat, mode: Mode, outcomes: Outcomes, now: int, config: Config)
    requires InRange(rows, ids) && k < |ids|
  {
    var before := ProcessFirst(rows, ids, k, mode, outcomes, now, config);
    !IsProcessed(before, before[ids[k]].dedupeKey)
  }

  lemma {:induction false} NewJobsAddUp(rows: Table, ids: seq<nat>, n: nat, mode: Mode, outcomes: Outcomes, now: int,
                                        config: Config)
    requires InRange(rows, ids) && n <= |ids|
    requires forall k: nat {:trigger NewAt(rows, ids, k, mode, outcomes, now, config)} :: k < n ==>
               NewAt(rows, ids, k, mode, outcomes, now, config)
    ensures Counted(CountFirst(rows, ids, n, mode, outcomes, now, config), n, mode)
  {
    if n > 0 {
      NewJobsAddUp(rows, ids, n - 1, mode, outcomes, now, config);
      assert NewAt(rows, ids, n - 1, mode, outcomes, now, config);
      CountOneMore(CountFirst(rows, ids, n - 1, mode, outcomes, now, config), n - 1,
                   ProcessFirst(rows, ids, n - 1, mode, outcomes, now, config), ids[n - 1], mode, outcomes(n - 1));
    }
  }

  /** No job is taken for a duplicate, and every claimed job is counted once. */
  lemma CountsAddUp(rows: Table, ids: seq<nat>, n: nat, mode: Mode, outcomes: Outcomes, now: int, config: Config)
    requires ClaimedRows(rows, ids) && n <= |ids|
    ensures Counted(CountFirst(rows, ids, n, mode, outcomes, now, config), n, mode)
  {
    forall k: nat | k < n ensures NewAt(rows, ids, k, mode, outcomes, now, config) {
      NextIsNoDuplicate(rows, ids, k, mode, outcomes, now, config);
    }
    NewJobsAddUp(rows, ids, n, mode, outcomes, now, config);
  }

  // ---- Whole runs ----

  datatype BatchRun = BatchRun(mode: Mode, now: int, limit: nat, ids: seq<nat>, outcomes: Outcomes)

  /** One call of Run takes the first table to the second. */
  ghost predicate RunTakes(config: Config, rows: Table, run: BatchRun, r: Table) {
    && IsBatch(rows, run.limit, run.now, run.ids)
    && InRange(ClaimAll(rows, run.ids), run.ids)
    && r == ProcessFirst(ClaimAll(rows, run.ids), run.ids, |run.ids|, run.mode, run.outcomes, run.now, config)
  }

  lemma RunOnRow(config: Config, rows: Table, run: BatchRun, r: Table, i: nat)
    requires UniqueKeys(rows) && RunTakes(config, rows, run, r) && i < |rows|
    ensures |r| == |rows| && UniqueKeys(r)
    ensures i !in run.ids ==> r[i] == rows[i]
    ensures i in run.ids ==> Claimable(rows[i], run.now)
    ensures forall k: nat :: k < |run.ids| && run.ids[k] == i ==>
              r[i] == Settle(Claimed(rows[i]), run.mode, run.outcomes(k), run.now, config)
  {
    var claimed := ClaimAll(rows, run.ids);
    assert UniqueKeys(claimed) by {
      assert forall j :: 0 <= j < |rows| ==> claimed[j].dedupeKey == rows[j].dedupeKey;
    }
    RunRowByRow(claimed, run.ids, |run.ids|, run.mode, run.outcomes, run.now, config);
    assert RowAfter(claimed, r, run.ids, |run.ids|, run.mode, run.outcomes, run.now, config, i);
    assert run.ids[..|run.ids|] == run.ids;
  }

  /** A dry or shadow run, whatever is dispatched or thrown: at most failed rows become pending ones. */
  lemma RehearsalLeavesNoTrace(config: Config, rows: Table, run: BatchRun, r: Table, i: nat)
    requires UniqueKeys(rows) && RunTakes(config, rows, run, r) && i < |rows| && !run.mode.Production?
    ensures |r| == |rows|
    ensures r[i] == rows[i] || (rows[i].status == Failed && r[i] == rows[i].(status := Pending))
    ensures forall later :: Claimable(r[i], later) <==> Claimable(rows[i], later)
  {
    RunOnRow(config, rows, run, r, i);
    if i in run.ids {
      ReleaseUndoesClaim(rows[i]);
    }
  }

  lemma ProductionAccounts(config: Config, rows: Table, run: BatchRun)
    requires UniqueKeys(rows) && IsBatch(rows, run.limit, run.now, run.ids) && InRange(ClaimAll(rows, run.ids), run.ids)
    ensures var t := CountFirst(ClaimAll(rows, run.ids), run.ids, |run.ids|, run.mode, run.outcomes, run.now, config);
            && t.claimed == |run.ids| && t.skipped == 0
            && (run.mode.Production? ==> t.claimed == t.completed + t.failed && t.dispatched == t.completed)
            && (run.mode.Shadow? ==> t.claimed == t.dispatched + t.failed && t.completed == 0)
  {
    assert UniqueKeys(ClaimAll(rows, run.ids)) by {
      assert forall j :: 0 <= j < |rows| ==> ClaimAll(rows, run.ids)[j].dedupeKey == rows[j].dedupeKey;
    }
    CountsAddUp(ClaimAll(rows, run.ids), run.ids, |run.ids|, run.mode, run.outcomes, run.now, config);
  }

  // ---- Sequences of production runs ----

  predicate Open(r: Row) {
    r.status == Pending || r.status == Failed
  }

  /** The attempts a row has left. */
  function Budget(r: Row, config: Config): nat {
    if Open(r) && r.attempts <= config.maxAttempts then config.maxAttempts - r.attempts else 0
  }

  function Remaining(rows: Table, config: Config): nat {
    if rows == [] then 0 else Budget(rows[0], config) + Remaining(rows[1..], config)
  }

  ghost predicate AllAttemptsOk(rows: Table, config: Config) {
    forall i :: 0 <= i < |rows| ==> AttemptsOk(rows[i], config)
  }

  lemma {:induction false} RemainingBounded(rows: Table, config: Config)
    ensures Remaining(rows, config) <= |rows| * config.maxAttempts
    ensures Remaining(rows, config) == 0 && AllAttemptsOk(rows, config) ==> forall i :: 0 <= i < |rows| ==> !Open(rows[i])
  {
    if rows != [] {
      RemainingBounded(rows[1..], config);
      assert |rows| * config.maxAttempts == config.maxAttempts + (|rows| - 1) * config.maxAttempts;
      if Remaining(rows, config) == 0 && AllAttemptsOk(rows, config) {
        assert AttemptsOk(rows[0], config);
        forall i | 0 < i < |rows| ensures !Open(rows[i]) {
          assert rows[i] == rows[1..][i - 1];
        }
      }
    }
  }

  lemma {:induction false} RemainingFalls(rows: Table, r: Table, config: Config, drop: nat)
    requires |r| == |rows|
    requires forall i :: 0 <= i < |rows| ==> Budget(r[i], config) <= Budget(rows[i], config)
    ensures Remaining(r, config) <= Remaining(rows, config)
    ensures drop < |rows| && Budget(r[drop], config) < Budget(rows[drop], config) ==>
              Remaining(r, config) < Remaining(rows, config)
  {
    if rows != [] {
      RemainingFalls(rows[1..], r[1..], config, if drop == 0 then |rows| else drop - 1);
    }
  }

  /** A production run spends an attempt of each row it claims and leaves it completed, failed or dead-lettered. */
  lemma ProductionOnRow(config: Config, rows: Table, run: BatchRun, r: Table, i: nat)
    requires UniqueKeys(rows) && RunTakes(config, rows, run, r) && i < |rows| && run.mode.Production?
    requires AttemptsOk(rows[i], config)
    ensures |r| == |rows| && AttemptsOk(r[i], config)
    ensures Budget(r[i], config) <= Budget(rows[i], config)
    ensures i in run.ids ==>
              && Budget(r[i], config) < Budget(rows[i], config) && r[i].attempts == rows[i].attempts + 1
              && r[i].status in {Completed, Failed, DeadLetter}
              && (r[i].status == Completed <==> r[i].lastError == NoError)
              && (r[i].status == Failed ==> r[i].availableAt == run.now + config.backoff)
    ensures i !in run.ids ==> r[i] == rows[i]
  {
    RunOnRow(config, rows, run, r, i);
    if i in run.ids {
      var k :| 0 <= k < |run.ids| && run.ids[k] == i;
      assert r[i] == Settle(Claimed(rows[i]), run.mode, run.outcomes(k), run.now, config);
    }
  }

  ghost predicate Available(rows: Table, now: int) {
    forall i :: 0 <= i < |rows| && Open(rows[i]) ==> rows[i].availableAt <= now
  }

  /** Production runs one after another, with nothing published or requeued in between. */
  ghost predicate Follows(config: Config, tables: seq<Table>, runs: seq<BatchRun>, j: nat)
    requires j < |runs| < |tables|
  {
    && RunTakes(config, tables[j], runs[j], tables[j + 1])
    && runs[j].mode.Production? && runs[j].limit >= 1
    && (j > 0 ==> runs[j].now >= runs[j - 1].now && runs[j].now >= runs[j - 1].now + config.backoff)
  }

  ghost predicate IsSchedule(config: Config, tables: seq<Table>, runs: seq<BatchRun>) {
    && |tables| == |runs| + 1
    && UniqueKeys(tables[0]) && AllAttemptsOk(tables[0], config)
    && forall j: nat {:trigger Follows(config, tables, runs, j)} :: j < |runs| ==> Follows(config, tables, runs, j)
  }

  lemma OneRun(config: Config, rows: Table, run: BatchRun, r: Table)
    requires UniqueKeys(rows) && AllAttemptsOk(rows, config) && RunTakes(config, rows, run, r) && run.mode.Production?
    requires Available(rows, run.now) && run.limit >= 1
    ensures |r| == |rows| && UniqueKeys(r) && AllAttemptsOk(r, config)
    ensures forall next :: next >= run.now && next >= run.now + config.backoff ==> Available(r, next)
    ensures Remaining(rows, config) > 0 ==> Remaining(r, config) < Remaining(rows, config)
    ensures Remaining(r, config) <= Remaining(rows, config)
    ensures forall i :: 0 <= i < |rows| && rows[i].status != Processing ==> r[i].status != Processing
  {
    forall i: nat | i < |rows|
      ensures |r| == |rows| && UniqueKeys(r) && AttemptsOk(r[i], config)
      ensures Budget(r[i], config) <= Budget(rows[i], config)
      ensures Open(r[i]) ==> r[i].availableAt <= run.now || r[i].availableAt == run.now + config.backoff
      ensures rows[i].status != Processing ==> r[i].status != Processing
    {
      assert AttemptsOk(rows[i], config);
      ProductionOnRow(config, rows, run, r, i);
      RunOnRow(config, rows, run, r, i);
    }
    if rows == [] {
      assert r == [];
    } else if run.ids != [] {
      ProductionOnRow(config, rows, run, r, run.ids[0]);
      RemainingFalls(rows, r, config, run.ids[0]);
    } else {
      RemainingFalls(rows, r, config, 0);
      NothingOpen(rows, run.limit, run.now, config);
    }
  }

  lemma {:induction false} NoneOpen(rows: Table, config: Config)
    requires forall i :: 0 <= i < |rows| ==> !Open(rows[i])
    ensures Remaining(rows, config) == 0
  {
    if rows != [] {
      NoneOpen(rows[1..], config);
    }
  }

  /** An empty batch means that no row is open. */
  lemma NothingOpen(rows: Table, limit: nat, now: int, config: Config)
    requires IsBatch(rows, limit, now, []) && limit >= 1 && Available(rows, now)
    ensures Remaining(rows, config) == 0
  {
  }

  lemma {:induction false} RunsDrain(config: Config, tables: seq<Table>, runs: seq<BatchRun>, j: nat)
    requires IsSchedule(config, tables, runs) && 0 < j <= |runs|
    requires Available(tables[0], runs[0].now)
    ensures |tables[j]| == |tables[0]| && UniqueKeys(tables[j]) && AllAttemptsOk(tables[j], config)
    ensures forall next :: next >= runs[j - 1].now && next >= runs[j - 1].now + config.backoff ==> Available(tables[j], next)
    ensures Remaining(tables[j], config) == 0 || Remaining(tables[j], config) + j <= Remaining(tables[0], config)
    ensures forall i :: 0 <= i < |tables[0]| && tables[0][i].status != Processing ==> tables[j][i].status != Processing
  {
    if j > 1 {
      RunsDrain(config, tables, runs, j - 1);
      assert Follows(config, tables, runs, j - 1);
    }
    assert Follows(config, tables, runs, j - 1);
    OneRun(config, tables[j - 1], runs[j - 1], tables[j]);
  }

  /**
   * Production runs at least a backoff apart, each claiming at least one job when it can, settle every row that
   * starts pending or failed within one run per remaining attempt, so within N * maxAttempts runs.
   */
  lemma OutboxDrains(config: Config, tables: seq<Table>, runs: seq<BatchRun>, i: nat)
    requires IsSchedule(config, tables, runs) && |runs| > 0
    requires Available(tables[0], runs[0].now)
    requires |runs| >= Remaining(tables[0], config) || |runs| >= |tables[0]| * config.maxAttempts
    requires i < |tables[0]| && Open(tables[0][i])
    ensures |tables[|runs|]| == |tables[0]|
    ensures tables[|runs|][i].status in {Completed, DeadLetter}
  {
    RemainingBounded(tables[0], config);
    RunsDrain(config, tables, runs, |runs|);
    RemainingBounded(tables[|runs|], config);
  }

  // ---- A job that always throws ----

  function Dispatches(runs: seq<BatchRun>, i: nat): nat {
    if runs == [] then 0
    else Dispatches(runs[..|runs| - 1], i) + if i in runs[|runs| - 1].ids then 1 else 0
  }

  lemma DispatchesNext(runs: seq<BatchRun>, i: nat, j: nat)
    requires j < |runs|
    ensures Dispatches(runs[..j + 1], i) == Dispatches(runs[..j], i) + if i in runs[j].ids then 1 else 0
  {
    assert runs[..j + 1][..j] == runs[..j];
  }

  ghost predicate AlwaysThrows(runs: seq<BatchRun>, i: nat) {
    forall j, k: nat :: 0 <= j < |runs| && k < |runs[j].ids| && runs[j].ids[k] == i ==> runs[j].outcomes(k).Error?
  }

  /** A row that has been dispatched n times and always threw. */
  ghost predicate Dying(config: Config, rows: Table, i: nat, n: nat) {
    && i < |rows| && UniqueKeys(rows) && AttemptsOk(rows[i], config)
    && rows[i].status in {Pending, Failed, DeadLetter} && rows[i].attempts == n
    && (rows[i].status == DeadLetter <==> n == config.maxAttempts)
  }

  lemma ThrowingStep(config: Config, rows: Table, run: BatchRun, r: Table, i: nat, n: nat)
    requires Dying(config, rows, i, n) && RunTakes(config, rows, run, r) && run.mode.Production?
    requires forall k: nat :: k < |run.ids| && run.ids[k] == i ==> run.outcomes(k).Error?
    ensures |r| == |rows| && Dying(config, r, i, n + if i in run.ids then 1 else 0)
  {
    RunOnRow(config, rows, run, r, i);
    ProductionOnRow(config, rows, run, r, i);
    if i in run.ids {
      var k :| 0 <= k < |run.ids| && run.ids[k] == i;
      assert r[i] == Settle(Claimed(rows[i]), run.mode, run.outcomes(k), run.now, config);
    }
  }

  lemma {:induction false} ThrowingRow(config: Config, tables: seq<Table>, runs: seq<BatchRun>, i: nat, j: nat)
    requires IsSchedule(config, tables, runs) && j <= |runs| && i < |tables[0]|
    requires tables[0][i].status == Pending && tables[0][i].attempts == 0 && AlwaysThrows(runs, i)
    ensures |tables[j]| == |tables[0]| && Dying(config, tables[j], i, Dispatches(runs[..j], i))
  {
    if j == 0 {
      assert AttemptsOk(tables[0][i], config);
    } else {
      ThrowingRow(config, tables, runs, i, j - 1);
      assert Follows(config, tables, runs, j - 1);
      DispatchesNext(runs, i, j - 1);
      ThrowingStep(config, tables[j - 1], runs[j - 1], tables[j], i, Dispatches(runs[..j - 1], i));
    }
  }

  /** It is dispatched exactly maxAttempts times before it is dead-lettered, and it is dead-lettered in time. */
  lemma ThrowingRowDies(config: Config, tables: seq<Table>, runs: seq<BatchRun>, i: nat)
    requires IsSchedule(config, tables, runs) && i < |tables[0]|
    requires tables[0][i].status == Pending && tables[0][i].attempts == 0 && AlwaysThrows(runs, i)
    ensures |tables[|runs|]| == |tables[0]|
    ensures Dispatches(runs, i) <= config.maxAttempts
    ensures tables[|runs|][i].status == DeadLetter <==> Dispatches(runs, i) == config.maxAttempts
    ensures |runs| > 0 && Available(tables[0], runs[0].now) && |runs| >= |tables[0]| * config.maxAttempts ==>
              tables[|runs|][i].status == DeadLetter
  {
    ThrowingRow(config, tables, runs, i, |runs|);
    assert runs[..|runs|] == runs;
    if |runs| > 0 && Available(tables[0], runs[0].now) && |runs| >= |tables[0]| * config.maxAttempts {
      OutboxDrains(config, tables, runs, i);
    }
  }
}
