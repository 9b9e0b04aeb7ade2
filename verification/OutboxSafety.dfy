// What the outbox protocol guarantees over every run, whatever the interleaving.
module OutboxSafety {
  import opened OutboxTable
  import opened OutboxProtocol

  lemma NoRowHeldTwice(config: Config, run: seq<State>, steps: seq<Step>, i: nat, w: nat, k: nat, v: nat, m: nat,
                       id: nat)
    requires config.maxAttempts >= 1 && IsRun(config, run, steps) && i <= |steps|
    requires Holds(run[i], w, k, id) && Holds(run[i], v, m, id)
    ensures w == v && k == m
  {
    RunKeepsInv(config, run, steps, i);
  }

  lemma AttemptsNeverExceed(config: Config, run: seq<State>, steps: seq<Step>, i: nat, id: nat)
    requires config.maxAttempts >= 1 && IsRun(config, run, steps) && i <= |steps| && id < |run[i].rows|
    ensures run[i].rows[id].attempts <= config.maxAttempts
    ensures run[i].rows[id].status in {Pending, Failed} ==> run[i].rows[id].attempts < config.maxAttempts
  {
    RunKeepsInv(config, run, steps, i);
    assert AttemptsOk(run[i].rows[id], config);
  }

  /** isProcessed answers false for every job a worker asks about, and the duplicate branch is never entered. */
  lemma NeverADuplicate(config: Config, run: seq<State>, steps: seq<Step>, i: nat)
    requires config.maxAttempts >= 1 && IsRun(config, run, steps) && i < |steps|
    ensures !steps[i].Duplicate?
    ensures steps[i].Check? ==>
              Busy(run[i], steps[i].w) && !IsProcessed(run[i].rows, run[i].rows[Current(run[i], steps[i].w)].dedupeKey)
  {
    RunKeepsInv(config, run, steps, i);
    assert IsStep(config, run, steps, i);
    if steps[i].Duplicate? || steps[i].Check? {
      AtWork(run[i], steps[i].w, config);
    }
  }

  // ---- Completed rows ----

  /** markFailed takes effect on the row, as a step of its holder or before it throws. */
  ghost predicate MarksFailed(s: State, step: Step, id: nat) {
    && (step.MarkFailed? || (step.StoreFails? && step.landed))
    && Busy(s, step.w) && Current(s, step.w) == id && s.workers[step.w].phase == AtMarkFailed
  }

  /** A completed row stays completed in a step exactly when the step does not mark it failed. */
  lemma CompletedLostIff(s: State, step: Step, config: Config, id: nat)
    requires Inv(s, config) && Enabled(s, step) && id < |s.rows| && s.rows[id].status == Completed
    ensures id < |Apply(s, step, config).rows|
    ensures Apply(s, step, config).rows[id].status == Completed <==> !MarksFailed(s, step, id)
  {
    match step
    case Claim(_, _, ids, now) =>
      forall k | 0 <= k < |ids| ensures ids[k] != id {
        assert Claimable(s.rows[ids[k]], now);
      }
    case ReleaseClaim(w) => AtWork(s, w, config);
    case StoreFails(w, _, _, _) => AtWork(s, w, config);
    case Duplicate(w) => AtWork(s, w, config);
    case _ =>
  }

  /** markProcessed or markCompleted throws while the row is the worker's current job. */
  ghost predicate CompletionThrows(s: State, step: Step, id: nat) {
    && step.StoreFails? && Busy(s, step.w) && Current(s, step.w) == id
    && s.workers[step.w].phase in {AtMarkProcessed, AtMarkCompleted}
  }

  ghost predicate AboutToFail(s: State, w: nat, id: nat) {
    && Busy(s, w) && Current(s, w) == id && s.workers[w].phase == AtMarkFailed && s.rows[id].status == Completed
  }

  predicate IsBy(step: Step, w: nat) {
    !step.Publish? && !step.Requeue? && step.w == w
  }

  lemma AboutToFailBefore(s: State, step: Step, config: Config, w: nat, id: nat)
    requires Inv(s, config) && Enabled(s, step) && AboutToFail(Apply(s, step, config), w, id)
    ensures if IsBy(step, w) then CompletionThrows(s, step, id) else AboutToFail(s, w, id)
  {
    if IsBy(step, w) {
      OwnStepFailsIt(s, step, config, id);
    } else {
      OthersDoNotFailIt(s, step, config, w, id);
    }
  }

  lemma OthersDoNotFailIt(s: State, step: Step, config: Config, w: nat, id: nat)
    requires Inv(s, config) && Enabled(s, step) && AboutToFail(Apply(s, step, config), w, id) && !IsBy(step, w)
    ensures AboutToFail(s, w, id)
  {
    assert Holds(s, w, 0, id) && HeldOk(s, w, 0, id);
    if !step.Publish? && !step.Requeue? && !step.Claim? && Busy(s, step.w) {
      assert Holds(s, step.w, 0, Current(s, step.w));
    }
  }

  lemma OwnStepFailsIt(s: State, step: Step, config: Config, id: nat)
    requires Inv(s, config) && Enabled(s, step) && !step.Publish? && !step.Requeue?
    requires AboutToFail(Apply(s, step, config), step.w, id)
    ensures CompletionThrows(s, step, id)
  {
    assert Busy(s, step.w);
    AtWork(s, step.w, config);
  }

  lemma OthersLeaveItAboutToFail(s: State, step: Step, config: Config, w: nat, id: nat)
    requires Inv(s, config) && Enabled(s, step) && AboutToFail(s, w, id) && !IsBy(step, w)
    ensures AboutToFail(Apply(s, step, config), w, id)
  {
    CompletedLostIff(s, step, config, id);
    assert Holds(s, w, 0, id);
    if !step.Publish? && !step.Requeue? && Busy(s, step.w) {
      assert Holds(s, step.w, 0, Current(s, step.w));
    }
  }

  /** The n-th step is such a throw, it leaves the row completed, and the worker does nothing else before the i-th. */
  ghost predicate ThrewFor(run: seq<State>, steps: seq<Step>, n: nat, i: nat, w: nat, id: nat)
    requires i <= |steps| < |run|
  {
    && n < i && CompletionThrows(run[n], steps[n], id) && steps[n].w == w
    && id < |run[n + 1].rows| && run[n + 1].rows[id].status == Completed
    && forall m: nat :: n < m < i ==> !IsBy(steps[m], w)
  }

  /** Only after such a throw of its own is a worker about to mark a completed row failed. */
  lemma {:induction false} LostAfterThrow(config: Config, run: seq<State>, steps: seq<Step>, i: nat, w: nat, id: nat)
    returns (n: nat)
    requires config.maxAttempts >= 1 && IsRun(config, run, steps) && i <= |steps| && AboutToFail(run[i], w, id)
    ensures ThrewFor(run, steps, n, i, w, id)
  {
    assert i > 0;
    RunKeepsInv(config, run, steps, i - 1);
    assert IsStep(config, run, steps, i - 1);
    AboutToFailBefore(run[i - 1], steps[i - 1], config, w, id);
    n := i - 1;
    if !IsBy(steps[n], w) {
      n := LostAfterThrow(config, run, steps, i - 1, w, id);
    }
  }

  lemma {:induction false} ThrowStaysPending(config: Config, run: seq<State>, steps: seq<Step>, n: nat, i: nat, w: nat, id: nat)
    requires config.maxAttempts >= 1 && IsRun(config, run, steps) && i <= |steps| && ThrewFor(run, steps, n, i, w, id)
    ensures AboutToFail(run[i], w, id)
  {
    RunKeepsInv(config, run, steps, i - 1);
    assert IsStep(config, run, steps, i - 1);
    if n < i - 1 {
      ThrowStaysPending(config, run, steps, n, i - 1, w, id);
      OthersLeaveItAboutToFail(run[i - 1], steps[i - 1], config, w, id);
    }
  }

  ghost predicate LosesCompletion(run: seq<State>, i: nat, id: nat)
    requires i + 1 < |run|
  {
    && id < |run[i].rows| && run[i].rows[id].status == Completed
    && id < |run[i + 1].rows| && run[i + 1].rows[id].status != Completed
  }

  /**
   * A completed row loses its status exactly when a worker's markFailed takes effect on it after the same worker's
   * markProcessed or markCompleted threw and left it completed.
   */
  lemma CompletionLostIff(config: Config, run: seq<State>, steps: seq<Step>, i: nat, id: nat)
    requires config.maxAttempts >= 1 && IsRun(config, run, steps) && i < |steps|
    ensures LosesCompletion(run, i, id) <==>
              MarksFailed(run[i], steps[i], id) && exists n: nat :: ThrewFor(run, steps, n, i, steps[i].w, id)
  {
    RunKeepsInv(config, run, steps, i);
    assert IsStep(config, run, steps, i);
    if MarksFailed(run[i], steps[i], id) {
      if n: nat :| ThrewFor(run, steps, n, i, steps[i].w, id) {
        ThrowStaysPending(config, run, steps, n, i, steps[i].w, id);
        CompletedLostIff(run[i], steps[i], config, id);
      } else if LosesCompletion(run, i, id) {
        var m := LostAfterThrow(config, run, steps, i, steps[i].w, id);
      }
    } else if id < |run[i].rows| && run[i].rows[id].status == Completed {
      CompletedLostIff(run[i], steps[i], config, id);
    }
  }

  /** As long as neither markProcessed nor markCompleted throws for it, a completed row stays completed for ever. */
  lemma {:induction false} CompletedIsFinal(config: Config, run: seq<State>, steps: seq<Step>, i: nat, j: nat, id: nat)
    requires config.maxAttempts >= 1 && IsRun(config, run, steps) && i <= j <= |steps|
    requires id < |run[i].rows| && run[i].rows[id].status == Completed
    requires forall n: nat {:trigger CompletionThrows(run[n], steps[n], id)} :: n < j ==> !CompletionThrows(run[n], steps[n], id)
    ensures id < |run[j].rows| && run[j].rows[id].status == Completed
  {
    if i < j {
      CompletedIsFinal(config, run, steps, i, j - 1, id);
      RunKeepsInv(config, run, steps, j - 1);
      assert IsStep(config, run, steps, j - 1);
      CompletedLostIff(run[j - 1], steps[j - 1], config, id);
      CompletionLostIff(config, run, steps, j - 1, id);
    }
  }

  function OneJob(row: Row, ledger: Ledger, todo: seq<nat>, phase: Phase): State {
    State([row], [Recording(row.dedupeKey)], [ledger], [Worker(Production, todo, phase)])
  }

  lemma Extend(config: Config, run: seq<State>, steps: seq<Step>, step: Step, t: State)
    returns (longer: seq<State>, more: seq<Step>)
    requires IsRun(config, run, steps)
    requires var s := run[|steps|]; |s.kinds| == |s.ledger| == |s.rows| && Enabled(s, step) && t == Apply(s, step, config)
    ensures longer == run + [t] && more == steps + [step] && IsRun(config, longer, more)
  {
    longer, more := run + [t], steps + [step];
    forall i: nat | i < |more| ensures IsStep(config, longer, more, i) {
      assert i < |steps| ==> IsStep(config, run, steps, i);
    }
  }

  lemma ClaimedAndBegun(config: Config, row: Row) returns (run: seq<State>, steps: seq<Step>)
    requires row.status == Pending && row.attempts == 0 && row.lastError == NoError
    ensures IsRun(config, run, steps) && |steps| == 3
    ensures run[3] == OneJob(Claimed(row), Ledger(map[], false, 0, 0), [0], InHandler(Begin))
  {
    var none := Ledger(map[], false, 0, 0);
    run, steps := [State([], [], [], [Worker(Production, [], AtCheck)])], [];
    run, steps := Extend(config, run, steps, Publish(row, Recording(row.dedupeKey)), OneJob(row, none, [], AtCheck));
    run, steps := Extend(config, run, steps, Claim(0, Production, [0], row.availableAt),
                         OneJob(Claimed(row), none, [0], AtCheck));
    run, steps := Extend(config, run, steps, Check(0), OneJob(Claimed(row), none, [0], InHandler(Begin)));
  }

  lemma Handled(config: Config, row: Row) returns (run: seq<State>, steps: seq<Step>, done: Ledger)
    requires row.status == Pending && row.attempts == 0 && row.lastError == NoError
    ensures IsRun(config, run, steps) && |steps| == 6
    ensures run[6] == OneJob(Claimed(row), done, [0], AtMarkProcessed)
  {
    var code, step := Recorded(row.dedupeKey), Handle(0, true, true, []);
    var none, stored := Ledger(map[], false, 0, 0), Ledger(map[code := []], false, 0, 0);
    done := stored.(dispatched := true);
    run, steps := ClaimedAndBegun(config, row);
    run, steps := Extend(config, run, steps, step, OneJob(Claimed(row), none, [0], InHandler(StoreEffect(code, []))));
    run, steps := Extend(config, run, steps, step, OneJob(Claimed(row), stored, [0], InHandler(StoreDispatch)));
    run, steps := Extend(config, run, steps, step, OneJob(Claimed(row), done, [0], AtMarkProcessed));
  }

  /** It does happen: the effect is recorded, the row is completed, markCompleted throws, and the row is up for a retry. */
  lemma ThrowRetriesCompleted(config: Config, row: Row) returns (run: seq<State>, steps: seq<Step>)
    requires config.maxAttempts >= 2 && row.status == Pending && row.attempts == 0 && row.lastError == NoError
    ensures IsRun(config, run, steps) && |steps| == 9
    ensures |run[7].rows| == 1 && run[7].rows[0].status == Completed
    ensures |run[9].rows| == 1 && Claimable(run[9].rows[0], config.backoff)
  {
    var done;
    run, steps, done := Handled(config, row);
    var completed := Complete(Claimed(row));
    run, steps := Extend(config, run, steps, MarkProcessed(0), OneJob(completed, done, [0], AtMarkCompleted));
    run, steps := Extend(config, run, steps, StoreFails(0, false, [], 0), OneJob(completed, done, [0], AtMarkFailed));
    var todo: seq<nat> := [0];
    assert todo[1..] == [];
    run, steps := Extend(config, run, steps, MarkFailed(0, [], 0),
                         OneJob(Fail(completed, [], 0, config), done, [], AtCheck));
  }

  // ---- Rows nobody holds ----

  ghost predicate Orphaned(s: State, id: nat) {
    id < |s.rows| && s.rows[id].status == Processing && forall w: nat, k: nat :: !Holds(s, w, k, id)
  }

  lemma StepKeepsUnheld(s: State, step: Step, config: Config, id: nat, w: nat, k: nat)
    requires Inv(s, config) && Enabled(s, step) && Orphaned(s, id)
    ensures !Holds(Apply(s, step, config), w, k, id)
  {
    assert !Holds(s, w, k, id) && !Holds(s, w, k + 1, id);
    if step.Claim? && step.w == w && k < |step.ids| {
      assert Claimable(s.rows[step.ids[k]], step.now);
    }
  }

  lemma StepKeepsOrphan(s: State, step: Step, config: Config, id: nat)
    requires Inv(s, config) && Enabled(s, step) && Orphaned(s, id)
    ensures Orphaned(Apply(s, step, config), id) && Apply(s, step, config).rows[id] == s.rows[id]
  {
    forall w: nat, k: nat ensures !Holds(Apply(s, step, config), w, k, id) {
      StepKeepsUnheld(s, step, config, id, w, k);
    }
    if step.Claim? {
      forall k | 0 <= k < |step.ids| ensures step.ids[k] != id {
        assert Claimable(s.rows[step.ids[k]], step.now);
      }
    } else if !step.Publish? && !step.Requeue? && Busy(s, step.w) {
      assert Holds(s, step.w, 0, Current(s, step.w));
    }
  }

  /** A row left in processing by a worker that is gone is never taken up again: no step changes it, replays included. */
  lemma {:induction false} OrphanedForever(config: Config, run: seq<State>, steps: seq<Step>, i: nat, j: nat, id: nat)
    requires config.maxAttempts >= 1 && IsRun(config, run, steps) && i <= j <= |steps| && Orphaned(run[i], id)
    ensures Orphaned(run[j], id) && run[j].rows[id] == run[i].rows[id]
  {
    if i < j {
      OrphanedForever(config, run, steps, i, j - 1, id);
      RunKeepsInv(config, run, steps, j - 1);
      assert IsStep(config, run, steps, j - 1);
      StepKeepsOrphan(run[j - 1], steps[j - 1], config, id);
    }
  }

  /** A crash orphans every job of the worker but one that is already completed. */
  lemma CrashOrphans(config: Config, run: seq<State>, steps: seq<Step>, i: nat, k: nat, id: nat)
    requires config.maxAttempts >= 1 && IsRun(config, run, steps) && i < |steps| && steps[i].Crash?
    requires Holds(run[i], steps[i].w, k, id)
    ensures id < |run[i + 1].rows| && run[i + 1].rows[id].status != Completed ==> Orphaned(run[i + 1], id)
  {
    var s, t, w := run[i], run[i + 1], steps[i].w;
    RunKeepsInv(config, run, steps, i);
    assert IsStep(config, run, steps, i);
    assert HeldOk(s, w, k, id);
    forall v: nat, m: nat ensures !Holds(t, v, m, id) {
      assert v != w ==> (Holds(t, v, m, id) <==> Holds(s, v, m, id));
    }
  }

  /** A completed row's event was supported, and its effect and dispatch are on record. */
  lemma CompletedIsRecorded(config: Config, run: seq<State>, steps: seq<Step>, i: nat, id: nat)
    requires config.maxAttempts >= 1 && IsRun(config, run, steps) && i <= |steps|
    requires id < |run[i].rows| && run[i].rows[id].status == Completed
    ensures id < |run[i].ledger| && id < |run[i].kinds|
    ensures !run[i].kinds[id].Unsupported?
    ensures run[i].ledger[id].dispatched && HasEffect(run[i].ledger[id])
  {
    RunKeepsInv(config, run, steps, i);
    assert SyncAccounted(run[i], id);
  }

  // ---- The ledger ----

  /** Later means: the same effect rows and perhaps more, and the dispatch row is kept. */
  ghost predicate Extends(l: Ledger, m: Ledger) {
    && (forall code :: code in l.effects ==> code in m.effects && m.effects[code] == l.effects[code])
    && (l.dispatched ==> m.dispatched)
    && l.syncCalls <= m.syncCalls
    && (SyncExecuted in l.effects ==> m.syncCalls == l.syncCalls)
  }

  lemma StepExtendsLedger(s: State, step: Step, config: Config, id: nat)
    requires Inv(s, config) && Enabled(s, step) && id < |s.ledger|
    ensures id < |Apply(s, step, config).ledger|
    ensures Extends(s.ledger[id], Apply(s, step, config).ledger[id])
    ensures Apply(s, step, config).kinds[..|s.kinds|] == s.kinds
  {
    if step.Handle? || step.Throw? {
      HandlerExtendsLedger(s, step, config, id);
    }
  }

  lemma HandlerExtendsLedger(s: State, step: Step, config: Config, id: nat)
    requires Inv(s, config) && Enabled(s, step) && id < |s.ledger| && (step.Handle? || step.Throw?)
    ensures var t := Apply(s, step, config);
            t.kinds == s.kinds && |t.ledger| == |s.ledger| && Extends(s.ledger[id], t.ledger[id])
  {
    AtWork(s, step.w, config);
    if id == Current(s, step.w) && SyncExecuted in s.ledger[id].effects {
      assert !InSync(s.workers[step.w].phase);
    }
  }

  lemma ExtendsTransitive(l: Ledger, m: Ledger, n: Ledger)
    requires Extends(l, m) && Extends(m, n)
    ensures Extends(l, n)
  {
  }

  lemma RunExtendsLedger(config: Config, run: seq<State>, steps: seq<Step>, i: nat, id: nat)
    requires config.maxAttempts >= 1 && IsRun(config, run, steps) && i < |steps| && id < |run[i].ledger|
    ensures id < |run[i + 1].ledger| && Extends(run[i].ledger[id], run[i + 1].ledger[id])
  {
    RunKeepsInv(config, run, steps, i);
    assert IsStep(config, run, steps, i);
    StepExtendsLedger(run[i], steps[i], config, id);
  }

  /**
   * Once an effect is recorded it stays with its first payload, whatever is retried, crashes or is replayed;
   * and once the sync's effect is recorded the sync is never called for that job again.
   */
  lemma {:induction false} EffectsAreFinal(config: Config, run: seq<State>, steps: seq<Step>, i: nat, j: nat, id: nat)
    requires config.maxAttempts >= 1 && IsRun(config, run, steps) && i <= j <= |steps| && id < |run[i].ledger|
    ensures id < |run[j].ledger| && Extends(run[i].ledger[id], run[j].ledger[id])
  {
    if i < j {
      EffectsAreFinal(config, run, steps, i, j - 1, id);
      RunExtendsLedger(config, run, steps, j - 1, id);
      ExtendsTransitive(run[i].ledger[id], run[j - 1].ledger[id], run[j].ledger[id]);
    }
  }

  /** The sync runs at most once more than the number of times its result was lost before being stored. */
  lemma SyncCallsBounded(config: Config, run: seq<State>, steps: seq<Step>, i: nat, id: nat)
    requires config.maxAttempts >= 1 && IsRun(config, run, steps) && i <= |steps| && id < |run[i].ledger|
    ensures run[i].ledger[id].syncCalls <= run[i].ledger[id].lostSyncs + 1
    ensures SyncExecuted in run[i].ledger[id].effects ==> run[i].ledger[id].syncCalls == run[i].ledger[id].lostSyncs + 1
  {
    var s := run[i];
    RunKeepsInv(config, run, steps, i);
    assert SyncAccounted(s, id);
    if SyncExecuted in s.ledger[id].effects {
      forall w: nat ensures !InHand(s, w, id) {
        assert PhaseOk(s, w);
      }
    }
  }

  // ---- Events without a dispatch handler ----

  /** A run that publishes an unsupported event, and retries, replays or crashes as it likes, never completes it. */
  lemma {:induction false} UnsupportedNeverCompletes(config: Config, run: seq<State>, steps: seq<Step>, i: nat,
                                                     j: nat, id: nat)
    requires config.maxAttempts >= 1 && IsRun(config, run, steps) && i <= j <= |steps|
    requires id < |run[i].kinds| && run[i].kinds[id].Unsupported?
    ensures id < |run[j].kinds| == |run[j].rows| && run[j].kinds[id].Unsupported?
    ensures run[j].rows[id].status != Completed
  {
    RunKeepsInv(config, run, steps, j);
    if i < j {
      UnsupportedNeverCompletes(config, run, steps, i, j - 1, id);
      RunKeepsInv(config, run, steps, j - 1);
      assert IsStep(config, run, steps, j - 1);
      StepExtendsLedger(run[j - 1], steps[j - 1], config, id);
      assert run[j].kinds[id] == run[j].kinds[..|run[j - 1].kinds|][id];
    }
    assert SyncAccounted(run[j], id);
  }
}
