// The rows of ingestion_outbox and what each SQL statement of the job store does to one of them.
module OutboxTable {
  import opened JsText

  datatype Status = Pending | Processing | Completed | Failed | DeadLetter

  datatype LastError = NoError | Error(message: Text)

  datatype Row = Row(dedupeKey: Text, status: Status, attempts: nat, availableAt: int, createdAt: int, lastError: LastError)

  /** A row's id is its position; rows are never deleted. */
  type Table = seq<Row>

  datatype Config = Config(maxAttempts: nat, backoff: int)

  /** postgres-job-store.ts, lines 69-70. */
  predicate Claimable(r: Row, now: int) {
    (r.status == Pending || r.status == Failed) && r.availableAt <= now
  }

  function Claimed(r: Row): Row {
    r.(status := Processing, attempts := r.attempts + 1)
  }

  function ClaimAll(rows: Table, ids: seq<nat>): (r: Table)
    ensures |r| == |rows|
    ensures forall i :: 0 <= i < |rows| ==> r[i] == if i in ids then Claimed(rows[i]) else rows[i]
  {
    seq(|rows|, i requires 0 <= i < |rows| => if i in ids then Claimed(rows[i]) else rows[i])
  }

  function Complete(r: Row): Row {
    r.(status := Completed, lastError := NoError)
  }

  function Fail(r: Row, message: Text, now: int, config: Config): Row {
    if r.attempts >= config.maxAttempts then r.(status := DeadLetter, lastError := Error(message))
    else r.(status := Failed, lastError := Error(message), availableAt := now + config.backoff)
  }

  function Release(r: Row): Row {
    if r.status == Processing then r.(status := Pending, attempts := if r.attempts == 0 then 0 else r.attempts - 1)
    else r
  }

  /** dead-letter-requeue.ts, lines 185-192. */
  function Requeue(r: Row, now: int): Row {
    if r.status == DeadLetter then Row(r.dedupeKey, Pending, 0, now, r.createdAt, NoError) else r
  }

  ghost predicate UniqueKeys(t: Table) {
    forall i, j :: 0 <= i < j < |t| ==> t[i].dedupeKey != t[j].dedupeKey
  }

  /** The status isProcessed reads: that of the row with the key, if there is one. */
  predicate IsProcessed(t: Table, key: Text) {
    exists i :: 0 <= i < |t| && t[i].dedupeKey == key && (t[i].status == Completed || t[i].status == DeadLetter)
  }

  function MarkProcessed(t: Table, key: Text): (r: Table)
    ensures |r| == |t|
    ensures forall i :: 0 <= i < |t| ==> r[i] == if t[i].dedupeKey == key then Complete(t[i]) else t[i]
  {
    seq(|t|, i requires 0 <= i < |t| => if t[i].dedupeKey == key then Complete(t[i]) else t[i])
  }

  /** With unique keys, marking by key is marking the one row that has it. */
  lemma MarkProcessedOne(t: Table, i: nat)
    requires UniqueKeys(t) && i < |t|
    ensures MarkProcessed(t, t[i].dedupeKey) == t[i := Complete(t[i])]
  {
  }

  /** How many attempts a row may have used, by status. */
  predicate AttemptsOk(r: Row, config: Config) {
    && r.attempts <= config.maxAttempts
    && (r.status == Pending || r.status == Failed ==> r.attempts < config.maxAttempts)
    && (r.status == Processing ==> r.attempts >= 1)
  }

  lemma StatementsKeepAttempts(r: Row, message: Text, now: int, config: Config)
    requires AttemptsOk(r, config) && config.maxAttempts >= 1
    ensures r.status == Pending || r.status == Failed ==> AttemptsOk(Claimed(r), config)
    ensures AttemptsOk(Complete(r), config)
    ensures AttemptsOk(Fail(r, message, now, config), config)
    ensures AttemptsOk(Release(r), config)
    ensures AttemptsOk(Requeue(r, now), config)
  {
  }

  /** Giving a claim back undoes it, except that a failed row becomes a pending one. */
  lemma ReleaseUndoesClaim(r: Row)
    requires r.status == Pending || r.status == Failed
    ensures Release(Claimed(r)) == r.(status := Pending)
  {
  }
}
