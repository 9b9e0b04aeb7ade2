// What happens to the rows of the outbox, column by column, over every run.
module OutboxRows {
  import opened OutboxTable
  import opened OutboxProtocol

  /** The step is one of the worker that has the row as its current job. */
  ghost predicate ByHolder(s: State, step: Step, id: nat) {
    !step.Publish? && !step.Requeue? && !step.Claim? && Busy(s, step.w) && Current(s, step.w) == id
  }

  /** What a step that gives an error message and a time makes of a row that failed. */
  ghost predicate FailedBy(step: Step, a: Row, b: Row, config: Config) {
    && (step.MarkFailed? || step.StoreFails?)
    && b.lastError == Error(step.message) && b.attempts == a.attempts
    && (if a.attempts < config.maxAttempts then b.status == Failed && b.availableAt == step.now + config.backoff
        else b.status == DeadLetter && b.availableAt == a.availableAt)
  }

  /**
   * Every change of a row: a claim, once it is due, starts an attempt; its holder completes it, fails it, with the backoff
   * or for good when the attempts are used up, or gives it back with its attempt; a replay revives a dead letter.
   */
  ghost predicate Changes(s: State, step: Step, id: nat, a: Row, b: Row, config: Config) {
    && b.dedupeKey == a.dedupeKey && b.createdAt == a.createdAt
    && match b.status
       case Processing =>
         && step.Claim? && id in step.ids && (a.status == Pending || a.status == Failed) && a.availableAt <= step.now
         && b.attempts == a.attempts + 1 && b.availableAt == a.availableAt && b.lastError == a.lastError
       case Completed =>
         ByHolder(s, step, id) && b.attempts == a.attempts && b.availableAt == a.availableAt && b.lastError == NoError
       case Pending =>
         || (step.Requeue? && id in step.targets && a.status == DeadLetter
             && b.attempts == 0 && b.availableAt == step.now && b.lastError == NoError)
         || (ByHolder(s, step, id) && a.status == Processing
             && b.attempts == a.attempts - 1 && b.availableAt == a.availableAt && b.lastError == a.lastError)
       case _ => ByHolder(s, step, id) && FailedBy(step, a, b, config)
  }

  lemma RowChanges(config: Config, run: seq<State>, steps: seq<Step>, i: nat, id: nat)
    requires config.maxAttempts >= 1 && IsRun(config, run, steps) && i < |steps| && id < |run[i].rows|
    ensures id < |run[i + 1].rows|
    ensures run[i + 1].rows[id] == run[i].rows[id] || Changes(run[i], steps[i], id, run[i].rows[id], run[i + 1].rows[id], config)
  {
    var s, step := run[i], steps[i];
    RunKeepsInv(config, run, steps, i);
    assert IsStep(config, run, steps, i);
    if !step.Publish? && !step.Requeue? && !step.Claim? {
      HolderChanges(s, step, config, id);
    } else if step.Claim? && id in step.ids {
      var k :| 0 <= k < |step.ids| && step.ids[k] == id;
      assert Claimable(s.rows[step.ids[k]], step.now);
    }
  }

  lemma HolderChanges(s: State, step: Step, config: Config, id: nat)
    requires config.maxAttempts >= 1 && Inv(s, config) && Enabled(s, step) && id < |s.rows|
    requires !step.Publish? && !step.Requeue? && !step.Claim?
    ensures var t := Apply(s, step, config);
            id < |t.rows| && (t.rows[id] == s.rows[id] || Changes(s, step, id, s.rows[id], t.rows[id], config))
  {
    if Busy(s, step.w) {
      AtWork(s, step.w, config);
      MarkProcessedOne(s.rows, Current(s, step.w));
      assert AttemptsOk(s.rows[Current(s, step.w)], config);
    }
  }

  /** What a claim, a replay and the holder's statements do happen: none of them passes a row over. */
  lemma StatementsTakeEffect(config: Config, run: seq<State>, steps: seq<Step>, i: nat, id: nat)
    requires config.maxAttempts >= 1 && IsRun(config, run, steps) && i < |steps| && id < |run[i].rows|
    ensures id < |run[i + 1].rows|
    ensures steps[i].Claim? && id in steps[i].ids ==> run[i + 1].rows[id].status == Processing
    ensures steps[i].Requeue? && id in steps[i].targets && run[i].rows[id].status == DeadLetter ==>
              run[i + 1].rows[id].status == Pending && run[i + 1].rows[id].attempts == 0
    ensures ByHolder(run[i], steps[i], id) ==>
              && (steps[i].MarkProcessed? || steps[i].MarkCompleted? ==> run[i + 1].rows[id].status == Completed)
              && (steps[i].MarkFailed? ==> FailedBy(steps[i], run[i].rows[id], run[i + 1].rows[id], config))
              && (steps[i].ReleaseClaim? ==> run[i + 1].rows[id].status == Pending)
  {
    RunKeepsInv(config, run, steps, i);
    assert IsStep(config, run, steps, i);
    if ByHolder(run[i], steps[i], id) {
      AtWork(run[i], steps[i].w, config);
      MarkProcessedOne(run[i].rows, id);
    }
  }

  /** A job found to be a duplicate, were there one, is completed in production and given back otherwise, and left behind. */
  lemma DuplicateSettles(s: State, step: Step, config: Config)
    requires |s.kinds| == |s.ledger| == |s.rows| && Enabled(s, step) && step.Duplicate?
    ensures var t, id := Apply(s, step, config), Current(s, step.w);
            && (if s.workers[step.w].mode == Production then t.rows[id].status == Completed && t.rows[id].lastError == NoError
                else s.rows[id].status == Processing ==> t.rows[id].status == Pending)
            && t.workers[step.w].todo == s.workers[step.w].todo[1..] && t.ledger == s.ledger
  {
  }

  /** A failed row stays as it is until it is claimed. */
  lemma {:induction false} FailedRowWaits(config: Config, run: seq<State>, steps: seq<Step>, i: nat, j: nat, id: nat)
    requires config.maxAttempts >= 1 && IsRun(config, run, steps) && i <= j <= |steps|
    requires id < |run[i].rows| && run[i].rows[id].status == Failed
    requires forall n: nat :: i <= n < j && steps[n].Claim? ==> id !in steps[n].ids
    ensures id < |run[j].rows| && run[j].rows[id] == run[i].rows[id]
  {
    if i < j {
      FailedRowWaits(config, run, steps, i, j - 1, id);
      RowChanges(config, run, steps, j - 1, id);
      RunKeepsInv(config, run, steps, j - 1);
      if ByHolder(run[j - 1], steps[j - 1], id) {
        AtWork(run[j - 1], steps[j - 1].w, config);
      }
    }
  }

  /** The attempt after a failed one starts no earlier than the backoff allows. */
  lemma RetryWaits(config: Config, run: seq<State>, steps: seq<Step>, i: nat, j: nat, id: nat)
    requires config.maxAttempts >= 1 && IsRun(config, run, steps) && i < j < |steps|
    requires steps[i].MarkFailed? && ByHolder(run[i], steps[i], id)
    requires run[i].rows[id].attempts < config.maxAttempts
    requires steps[j].Claim? && id in steps[j].ids
    requires forall n: nat :: i < n < j && steps[n].Claim? ==> id !in steps[n].ids
    ensures steps[j].now >= steps[i].now + config.backoff
  {
    StatementsTakeEffect(config, run, steps, i, id);
    FailedRowWaits(config, run, steps, i + 1, j, id);
    StatementsTakeEffect(config, run, steps, j, id);
    RowChanges(config, run, steps, j, id);
  }

  // ---- Rehearsals ----

  /** A worker settles rows only in production, and dispatches only when it is not on a dry run. */
  ghost predicate ModeOk(s: State, w: nat) {
    w < |s.workers| && s.workers[w].todo != [] ==>
      && (s.workers[w].phase in {AtMarkProcessed, AtMarkCompleted, AtMarkFailed} ==> s.workers[w].mode == Production)
      && (s.workers[w].phase.InHandler? ==> s.workers[w].mode != DryRun)
  }

  lemma StepKeepsModes(s: State, step: Step, config: Config, w: nat)
    requires Inv(s, config) && Enabled(s, step) && ModeOk(s, w)
    ensures ModeOk(Apply(s, step, config), w)
  {
  }

  lemma {:induction false} RunKeepsModes(config: Config, run: seq<State>, steps: seq<Step>, i: nat, w: nat)
    requires config.maxAttempts >= 1 && IsRun(config, run, steps) && i <= |steps|
    ensures ModeOk(run[i], w)
  {
    if i > 0 {
      RunKeepsModes(config, run, steps, i - 1, w);
      RunKeepsInv(config, run, steps, i - 1);
      assert IsStep(config, run, steps, i - 1);
      StepKeepsModes(run[i - 1], steps[i - 1], config, w);
    }
  }

  /** A rehearsing worker only gives rows back, and one on a dry run leaves the ledgers of effects alone. */
  lemma RehearsalsSettleNothing(config: Config, run: seq<State>, steps: seq<Step>, i: nat, id: nat)
    requires config.maxAttempts >= 1 && IsRun(config, run, steps) && i < |steps| && id < |run[i].rows|
    requires ByHolder(run[i], steps[i], id) && run[i].workers[steps[i].w].mode != Production
    ensures id < |run[i + 1].rows| && (run[i + 1].rows[id] == run[i].rows[id] || run[i + 1].rows[id].status == Pending)
    ensures run[i].workers[steps[i].w].mode == DryRun ==> run[i + 1].ledger == run[i].ledger
  {
    var s, w := run[i], steps[i].w;
    RunKeepsInv(config, run, steps, i);
    RunKeepsModes(config, run, steps, i, w);
    assert IsStep(config, run, steps, i);
    AtWork(s, w, config);
  }
}
