// The outbox processor's run over the job store: claim a batch, dispatch each job, settle its row.
module OutboxRun {
  import opened JsText
  import opened Sorting
  import opened OutboxTable
  import OutboxProtocol

  type Mode = OutboxProtocol.Mode

  datatype Tally = Tally(claimed: nat, dispatched: nat, completed: nat, failed: nat, skipped: nat)

  /** What dispatching the k-th job of a batch gives: NoError, or the message of what was thrown. */
  type Outcomes = nat -> LastError

  // ---- Specification ----

  /** A batch the claim statement may return: oldest claimable rows first, ties in any order, up to the limit. */
  ghost predicate IsBatch(rows: Table, limit: nat, now: int, ids: seq<nat>) {
    && NoDup(ids) && |ids| <= limit
    && (forall k :: 0 <= k < |ids| ==> ids[k] < |rows| && Claimable(rows[ids[k]], now))
    && forall i :: 0 <= i < |rows| && Claimable(rows[i], now) && i !in ids ==>
         |ids| == limit && forall k :: 0 <= k < |ids| ==> rows[ids[k]].createdAt <= rows[i].createdAt
  }

  /** jobs.ts, lines 173-224, for one job. */
  function ProcessRow(rows: Table, id: nat, mode: Mode, outcome: LastError, now: int, config: Config): (r: Table)
    requires id < |rows|
    ensures |r| == |rows|
  {
    var key := rows[id].dedupeKey;
    if IsProcessed(rows, key) then
      rows[id := if mode.Production? then Complete(rows[id]) else Release(rows[id])]
    else if mode.DryRun? then
      rows[id := Release(rows[id])]
    else if mode.Shadow? then
      rows[id := Release(rows[id])]
    else if outcome.Error? then
      rows[id := Fail(rows[id], outcome.message, now, config)]
    else
      var marked := MarkProcessed(rows, key);
      marked[id := Complete(marked[id])]
  }

  function Count(t: Tally, rows: Table, id: nat, mode: Mode, outcome: LastError): Tally
    requires id < |rows|
  {
    if IsProcessed(rows, rows[id].dedupeKey) then
      t.(skipped := t.skipped + 1, completed := t.completed + if mode.Production? then 1 else 0)
    else if mode.DryRun? then t
    else if outcome.Error? then t.(failed := t.failed + 1)
    else t.(dispatched := t.dispatched + 1, completed := t.completed + if mode.Production? then 1 else 0)
  }

  predicate InRange(rows: Table, ids: seq<nat>) {
    forall k :: 0 <= k < |ids| ==> ids[k] < |rows|
  }

  /** The table after the first n jobs of a batch. */
  function ProcessFirst(rows: Table, ids: seq<nat>, n: nat, mode: Mode, outcomes: Outcomes, now: int,
                        config: Config): (r: Table)
    requires InRange(rows, ids) && n <= |ids|
    ensures |r| == |rows|
  {
    if n == 0 then rows
    else ProcessRow(ProcessFirst(rows, ids, n - 1, mode, outcomes, now, config), ids[n - 1], mode, outcomes(n - 1), now, config)
  }

  function CountFirst(rows: Table, ids: seq<nat>, n: nat, mode: Mode, outcomes: Outcomes, now: int,
                      config: Config): Tally
    requires InRange(rows, ids) && n <= |ids|
  {
    if n == 0 then Tally(0, 0, 0, 0, 0)
    else
      var t := CountFirst(rows, ids, n - 1, mode, outcomes, now, config);
      Count(t.(claimed := t.claimed + 1), ProcessFirst(rows, ids, n - 1, mode, outcomes, now, config),
            ids[n - 1], mode, outcomes(n - 1))
  }

  function OlderRow(rows: Table): (nat, nat) -> bool {
    (a: nat, b: nat) =>
      if a < |rows| && b < |rows| then rows[a].createdAt <= rows[b].createdAt else a < |rows| || b >= |rows|
  }

  ghost predicate AreCandidates(rows: Table, now: int, ids: seq<nat>, n: nat) {
    && NoDup(ids)
    && (forall k :: 0 <= k < |ids| ==> ids[k] < n && ids[k] < |rows| && Claimable(rows[ids[k]], now))
    && forall i: nat :: i < n && i < |rows| && Claimable(rows[i], now) ==> i in ids
  }

  method Candidates(rows: Table, now: int) returns (ids: seq<nat>)
    ensures AreCandidates(rows, now, ids, |rows|)
  {
    ids := [];
    for i := 0 to |rows|
      invariant AreCandidates(rows, now, ids, i)
    {
      if Claimable(rows[i], now) {
        ids := ids + [i];
      }
    }
  }

  lemma SortedCandidates(rows: Table, now: int, candidates: seq<nat>)
    requires AreCandidates(rows, now, candidates, |rows|)
    ensures AreCandidates(rows, now, Sort(OlderRow(rows), candidates), |rows|)
    ensures SortedBy(OlderRow(rows), Sort(OlderRow(rows), candidates))
  {
    var sorted := Sort(OlderRow(rows), candidates);
    SortSorts(OlderRow(rows), candidates);
    SortPermutes(OlderRow(rows), candidates);
    NoDupMultiset(candidates, sorted);
    forall k | 0 <= k < |sorted| ensures sorted[k] < |rows| && Claimable(rows[sorted[k]], now) {
      assert sorted[k] in candidates;
    }
  }

  lemma OldestFirst(rows: Table, limit: nat, now: int, sorted: seq<nat>)
    requires AreCandidates(rows, now, sorted, |rows|) && SortedBy(OlderRow(rows), sorted)
    ensures IsBatch(rows, limit, now, if |sorted| <= limit then sorted else sorted[..limit])
  {
  }

  // ---- The store and the processor ----

  /** The table behind the store, every method being one SQL statement. */
  class JobStore {
    const config: Config
    var rows: Table

    constructor (config: Config)
      ensures rows == [] && this.config == config
    {
      this.config := config;
      rows := [];
    }

    method ClaimPending(limit: nat, now: int) returns (ids: seq<nat>)
      modifies this
      ensures IsBatch(old(rows), limit, now, ids)
      ensures rows == ClaimAll(old(rows), ids)
    {
      var candidates := Candidates(rows, now);
      var sorted := Sort(OlderRow(rows), candidates);
      ids := if |sorted| <= limit then sorted else sorted[..limit];
      SortedCandidates(rows, now, candidates);
      OldestFirst(rows, limit, now, sorted);
      rows := ClaimAll(rows, ids);
    }

    method MarkCompleted(id: nat)
      requires id < |rows|
      modifies this
      ensures rows == old(rows)[id := Complete(old(rows)[id])]
    {
      rows := rows[id := Complete(rows[id])];
    }

    method MarkFailed(id: nat, message: Text, now: int)
      requires id < |rows|
      modifies this
      ensures rows == old(rows)[id := Fail(old(rows)[id], message, now, config)]
    {
      rows := rows[id := Fail(rows[id], message, now, config)];
    }

    method ReleaseClaim(id: nat)
      requires id < |rows|
      modifies this
      ensures rows == old(rows)[id := Release(old(rows)[id])]
    {
      rows := rows[id := Release(rows[id])];
    }

    method MarkProcessed(key: Text)
      modifies this
      ensures rows == OutboxTable.MarkProcessed(old(rows), key)
    {
      rows := OutboxTable.MarkProcessed(rows, key);
    }

    method IsProcessed(key: Text) returns (processed: bool)
      ensures processed == OutboxTable.IsProcessed(rows, key)
    {
      processed := OutboxTable.IsProcessed(rows, key);
    }
  }

  /** The body of the loop over claimed jobs. */
  method ProcessJob(store: JobStore, id: nat, mode: Mode, now: int, outcome: LastError,
                    before: Tally) returns (tally: Tally)
    requires id < |store.rows|
    modifies store
    ensures store.rows == ProcessRow(old(store.rows), id, mode, outcome, now, store.config)
    ensures tally == Count(before, old(store.rows), id, mode, outcome)
  {
    tally := before;
    var key := store.rows[id].dedupeKey;
    var processed := store.IsProcessed(key);
    if processed {
      tally := tally.(skipped := tally.skipped + 1);
      if mode.Production? {
        store.MarkCompleted(id);
        tally := tally.(completed := tally.completed + 1);
      } else {
        store.ReleaseClaim(id);
      }
      return;
    }
    if mode.DryRun? {
      store.ReleaseClaim(id);
      return;
    }
    if outcome.NoError? {
      tally := tally.(dispatched := tally.dispatched + 1);
      if mode.Production? {
        store.MarkProcessed(key);
        store.MarkCompleted(id);
        tally := tally.(completed := tally.completed + 1);
      }
    } else {
      tally := tally.(failed := tally.failed + 1);
      if mode.Production? {
        store.MarkFailed(id, outcome.message, now);
      }
    }
    if mode.Shadow? {
      store.ReleaseClaim(id);
    }
  }

  /** Dispatch is the caller's; the counts and the table are those of processing the claimed batch in order. */
  method Run(store: JobStore, mode: Mode, now: int, limit: nat, outcomes: Outcomes) returns (tally: Tally,
             ids: seq<nat>)
    modifies store
    ensures IsBatch(old(store.rows), limit, now, ids)
    ensures var claimed := ClaimAll(old(store.rows), ids);
            && InRange(claimed, ids)
            && store.rows == ProcessFirst(claimed, ids, |ids|, mode, outcomes, now, store.config)
            && tally == CountFirst(claimed, ids, |ids|, mode, outcomes, now, store.config)
  {
    ids := store.ClaimPending(limit, now);
    tally := ProcessBatch(store, ids, mode, now, outcomes);
  }

  method ProcessBatch(store: JobStore, ids: seq<nat>, mode: Mode, now: int, outcomes: Outcomes) returns (tally: Tally)
    requires InRange(store.rows, ids)
    modifies store
    ensures store.rows == ProcessFirst(old(store.rows), ids, |ids|, mode, outcomes, now, store.config)
    ensures tally == CountFirst(old(store.rows), ids, |ids|, mode, outcomes, now, store.config)
  {
    tally := Tally(0, 0, 0, 0, 0);
    for k := 0 to |ids|
      invariant |store.rows| == |old(store.rows)|
      invariant store.rows == ProcessFirst(old(store.rows), ids, k, mode, outcomes, now, store.config)
      invariant tally == CountFirst(old(store.rows), ids, k, mode, outcomes, now, store.config)
    {
      tally := ProcessJob(store, ids[k], mode, now, outcomes(k), tally.(claimed := tally.claimed + 1));
    }
  }

  // ---- One job and one batch, column by column ----

  /** Some row with the key is completed or dead-lettered. */
  ghost predicate KeyDone(rows: Table, key: Text) {
    exists i :: 0 <= i < |rows| && rows[i].dedupeKey == key && rows[i].status in {Completed, DeadLetter}
  }

  /** A row that is being processed goes back to pending and gets its attempt back; any other stays as it is. */
  ghost predicate GivenBack(a: Row, b: Row) {
    if a.status != Processing then b == a
    else
      && b.status == Pending && b.attempts == (if a.attempts == 0 then 0 else a.attempts - 1)
      && b.dedupeKey == a.dedupeKey && b.availableAt == a.availableAt && b.createdAt == a.createdAt && b.lastError == a.lastError
  }

  ghost predicate Settled(a: Row, b: Row) {
    && b.status == Completed && b.lastError == NoError
    && b.dedupeKey == a.dedupeKey && b.attempts == a.attempts && b.availableAt == a.availableAt && b.createdAt == a.createdAt
  }

  /**
   * What becomes of a job: with a key that is done it is completed in production and given back in a rehearsal, whatever
   * dispatching would have given; a rehearsal gives back any other job too; in production one that was dispatched settles
   * every row of its key, and one that threw fails, with the backoff, or for good once its attempts are used up.
   */
  lemma JobFromFields(rows: Table, id: nat, mode: Mode, outcome: LastError, now: int, config: Config)
    requires id < |rows|
    ensures var a, r := rows[id], ProcessRow(rows, id, mode, outcome, now, config);
            var done := KeyDone(rows, a.dedupeKey);
            && |r| == |rows|
            && (forall i :: 0 <= i < |rows| && i != id ==>
                  if mode.Production? && !done && outcome == NoError && rows[i].dedupeKey == a.dedupeKey then Settled(rows[i], r[i])
                  else r[i] == rows[i])
            && (if !mode.Production? then GivenBack(a, r[id])
                else if done || outcome == NoError then Settled(a, r[id])
                else
                  && r[id].lastError == outcome && r[id].attempts == a.attempts
                  && r[id].dedupeKey == a.dedupeKey && r[id].createdAt == a.createdAt
                  && (if a.attempts < config.maxAttempts then r[id].status == Failed && r[id].availableAt == now + config.backoff
                      else r[id].status == DeadLetter && r[id].availableAt == a.availableAt))
  {
  }

  /** What is counted for it: a key that is done is a duplicate; otherwise a dispatch or a failure, but not on a dry run. */
  lemma TallyFromFields(t: Tally, rows: Table, id: nat, mode: Mode, outcome: LastError)
    requires id < |rows|
    ensures var c, done := Count(t, rows, id, mode, outcome), KeyDone(rows, rows[id].dedupeKey);
            && c.claimed == t.claimed
            && c.skipped == t.skipped + (if done then 1 else 0)
            && c.dispatched == t.dispatched + (if !done && !mode.DryRun? && outcome == NoError then 1 else 0)
            && c.failed == t.failed + (if !done && !mode.DryRun? && outcome != NoError then 1 else 0)
            && c.completed == t.completed + (if mode.Production? && (done || outcome == NoError) then 1 else 0)
  {
  }

  /** A batch: due rows that are pending or failed, oldest first, and as many as there are up to the limit. */
  lemma BatchFromFields(rows: Table, limit: nat, now: int, ids: seq<nat>, i: nat)
    requires IsBatch(rows, limit, now, ids) && i < |rows|
    ensures |ids| <= limit
    ensures i in ids ==> rows[i].status in {Pending, Failed} && rows[i].availableAt <= now
    ensures rows[i].status in {Pending, Failed} && rows[i].availableAt <= now && i !in ids ==>
              |ids| == limit && forall k :: 0 <= k < |ids| ==> ids[k] < |rows| && rows[ids[k]].createdAt <= rows[i].createdAt
  {
  }
}
