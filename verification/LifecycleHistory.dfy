// What the callers of one plan see: every reply, status, attempt row and event of a run, told from the calls before it.
module LifecycleHistory {
  import opened ScopeFiles
  import opened InstallActions
  import opened InstallLifecycle
  import opened LifecycleSafety

  // ---- One call ----

  /** The operation a call is for. */
  predicate IsFor(call: Call, operation: Operation) {
    match operation
    case Apply => call.DoApply?
    case Update => call.DoUpdate?
    case Remove => call.DoRemove?
    case Rollback => call.DoRollback?
    case Verify => call.DoVerify?
  }

  /** The status of a plan after an operation with that outcome. */
  ghost predicate StatusSays(status: PlanStatus, operation: Operation, succeeded: bool) {
    && status != Planned
    && (status == ApplySucceeded <==> (operation == Apply || operation == Update) && succeeded)
    && (status == ApplyFailed <==> (operation == Apply || operation == Update) && !succeeded)
    && (status == RemoveSucceeded <==> operation == Operation.Remove && succeeded)
    && (status == RemoveFailed <==> operation == Operation.Remove && !succeeded)
    && (status == RollbackSucceeded <==> operation == Rollback && succeeded)
    && (status == RollbackFailed <==> operation == Rollback && !succeeded)
    && (status == VerifySucceeded <==> operation == Verify && succeeded)
    && (status == VerifyFailed <==> operation == Verify && !succeeded)
  }

  /** A call that throws leaves everything as it was. */
  lemma ThrownChangesNothing(s: State, call: Call)
    requires Next(s, call).1.Thrown?
    ensures Next(s, call).0 == s
  {
  }

  /**
   * A call that is carried out replies with the next number of its own attempt table, and leaves an attempt row, an event
   * and a status that say the same as the reply. A verify says whether the runtime was ready, and touches no action or file.
   */
  lemma ReplyIsOnRecord(s: State, call: Call)
    requires Inv(s) && Next(s, call).1.Done?
    ensures var (t, reply) := Next(s, call);
            && IsFor(call, reply.operation)
            && t.plan == s.plan && |t.actions| == |s.actions|
            && t.events == s.events + [Finished(reply.operation, reply.attempt, reply.succeeded)]
            && (if call.DoVerify? then
                  && reply.succeeded == call.ready && reply.attempt == |s.verifyAttempts| + 1
                  && t.verifyAttempts == s.verifyAttempts + [Attempt(reply.attempt, call.ready, Verify)]
                  && t.applyAttempts == s.applyAttempts && t.actions == s.actions && t.files == s.files
                else
                  && reply.attempt == |s.applyAttempts| + 1
                  && t.applyAttempts == s.applyAttempts + [Attempt(reply.attempt, reply.succeeded, reply.operation)]
                  && t.verifyAttempts == s.verifyAttempts)
            && StatusSays(t.status, reply.operation, reply.succeeded)
  {
    NumberedFacts(s.applyAttempts);
    NumberedFacts(s.verifyAttempts);
  }

  // ---- Replies, from the replies before ----

  function ReplyAt(run: seq<State>, calls: seq<Call>, i: nat): Reply
    requires i < |calls| < |run|
  {
    Next(run[i], calls[i]).1
  }

  /** Call m was carried out, and none since. */
  ghost predicate LastDone(run: seq<State>, calls: seq<Call>, i: nat, m: nat)
    requires i <= |calls| < |run|
  {
    m < i && ReplyAt(run, calls, m).Done? && forall n: nat :: m < n < i ==> ReplyAt(run, calls, n).Thrown?
  }

  ghost predicate NoneDone(run: seq<State>, calls: seq<Call>, i: nat)
    requires i <= |calls| < |run|
  {
    forall n: nat :: n < i ==> ReplyAt(run, calls, n).Thrown?
  }

  lemma OneMoreThrown(run: seq<State>, calls: seq<Call>, i: nat, m: nat)
    requires i < |calls| < |run| && ReplyAt(run, calls, i).Thrown?
    ensures NoneDone(run, calls, i + 1) <==> NoneDone(run, calls, i)
    ensures LastDone(run, calls, i, m) ==> LastDone(run, calls, i + 1, m)
  {
    if NoneDone(run, calls, i + 1) {
      forall n: nat | n < i ensures ReplyAt(run, calls, n).Thrown? {
        assert n < i + 1;
      }
    }
  }

  /** The state is that of creation when no call was carried out, and otherwise that after the last one that was. */
  lemma {:induction false} StateAfterLastDone(run: seq<State>, calls: seq<Call>, i: nat) returns (m: nat)
    requires IsRun(run, calls) && i <= |calls|
    ensures NoneDone(run, calls, i) ==> run[i] == run[0]
    ensures NoneDone(run, calls, i) || (LastDone(run, calls, i, m) && run[i] == run[m + 1])
  {
    m := 0;
    if i > 0 {
      var reply := ReplyAt(run, calls, i - 1);
      if reply.Done? {
        m := i - 1;
        assert !NoneDone(run, calls, i);
      } else {
        ThrownStep(run, calls, i - 1);
        m := StateAfterLastDone(run, calls, i - 1);
        OneMoreThrown(run, calls, i - 1, m);
      }
    }
  }

  lemma ThrownStep(run: seq<State>, calls: seq<Call>, i: nat)
    requires IsRun(run, calls) && i < |calls| && ReplyAt(run, calls, i).Thrown?
    ensures run[i + 1] == run[i]
  {
    assert IsStep(run, calls, i);
    ThrownChangesNothing(run[i], calls[i]);
  }

  lemma LastDoneUnique(run: seq<State>, calls: seq<Call>, i: nat, m: nat, n: nat)
    requires i <= |calls| < |run| && LastDone(run, calls, i, m) && LastDone(run, calls, i, n)
    ensures m == n
  {
  }

  /** The last call that was carried out has some outcome. */
  ghost predicate LastWas(run: seq<State>, calls: seq<Call>, i: nat, operations: set<Operation>, outcomes: set<bool>)
    requires i <= |calls| < |run|
  {
    exists m: nat {:trigger LastDone(run, calls, i, m)} ::
      && LastDone(run, calls, i, m)
      && ReplyAt(run, calls, m).operation in operations && ReplyAt(run, calls, m).succeeded in outcomes
  }

  lemma LastWasIs(run: seq<State>, calls: seq<Call>, i: nat, m: nat)
    requires i <= |calls| < |run| && LastDone(run, calls, i, m)
    ensures !NoneDone(run, calls, i)
    ensures forall operations, outcomes :: LastWas(run, calls, i, operations, outcomes)
              <==> ReplyAt(run, calls, m).operation in operations && ReplyAt(run, calls, m).succeeded in outcomes
  {
    forall k: nat | LastDone(run, calls, i, k) ensures k == m {
      LastDoneUnique(run, calls, i, k, m);
    }
  }

  lemma StatusAfterLastDone(run: seq<State>, calls: seq<Call>, i: nat) returns (m: nat)
    requires IsRun(run, calls) && i <= |calls| && !NoneDone(run, calls, i)
    ensures LastDone(run, calls, i, m)
    ensures StatusSays(run[i].status, ReplyAt(run, calls, m).operation, ReplyAt(run, calls, m).succeeded)
  {
    m := StateAfterLastDone(run, calls, i);
    RunKeepsInv(run, calls, m);
    assert IsStep(run, calls, m);
    ReplyIsOnRecord(run[m], calls[m]);
  }

  lemma LastCallSays(run: seq<State>, calls: seq<Call>, i: nat, m: nat, status: PlanStatus)
    requires i <= |calls| < |run| && LastDone(run, calls, i, m)
    requires StatusSays(status, ReplyAt(run, calls, m).operation, ReplyAt(run, calls, m).succeeded)
    ensures status != Planned && !NoneDone(run, calls, i)
    ensures status == ApplySucceeded <==> LastWas(run, calls, i, {Apply, Update}, {true})
    ensures status == ApplyFailed <==> LastWas(run, calls, i, {Apply, Update}, {false})
    ensures status == VerifySucceeded <==> LastWas(run, calls, i, {Verify}, {true})
    ensures status == VerifyFailed <==> LastWas(run, calls, i, {Verify}, {false})
    ensures status == RemoveSucceeded <==> LastWas(run, calls, i, {Operation.Remove}, {true})
    ensures status == RemoveFailed <==> LastWas(run, calls, i, {Operation.Remove}, {false})
    ensures status == RollbackSucceeded <==> LastWas(run, calls, i, {Rollback}, {true})
    ensures status == RollbackFailed <==> LastWas(run, calls, i, {Rollback}, {false})
  {
    LastWasIs(run, calls, i, m);
  }

  /** The status tells the operation and the outcome of the last call that was carried out, an update counting as an apply. */
  lemma StatusTellsLastCall(run: seq<State>, calls: seq<Call>, i: nat)
    requires IsRun(run, calls) && i <= |calls|
    ensures run[i].status == Planned <==> NoneDone(run, calls, i)
    ensures run[i].status == ApplySucceeded <==> LastWas(run, calls, i, {Apply, Update}, {true})
    ensures run[i].status == ApplyFailed <==> LastWas(run, calls, i, {Apply, Update}, {false})
    ensures run[i].status == VerifySucceeded <==> LastWas(run, calls, i, {Verify}, {true})
    ensures run[i].status == VerifyFailed <==> LastWas(run, calls, i, {Verify}, {false})
    ensures run[i].status == RemoveSucceeded <==> LastWas(run, calls, i, {Operation.Remove}, {true})
    ensures run[i].status == RemoveFailed <==> LastWas(run, calls, i, {Operation.Remove}, {false})
    ensures run[i].status == RollbackSucceeded <==> LastWas(run, calls, i, {Rollback}, {true})
    ensures run[i].status == RollbackFailed <==> LastWas(run, calls, i, {Rollback}, {false})
  {
    if NoneDone(run, calls, i) {
      var _ := StateAfterLastDone(run, calls, i);
      assert forall k: nat :: !LastDone(run, calls, i, k);
    } else {
      var m := StatusAfterLastDone(run, calls, i);
      LastCallSays(run, calls, i, m, run[i].status);
    }
  }

  /**
   * What a call replies, from the calls before it: apply and verify are always carried out; an update is after a successful
   * apply or update or after any verify; a removal also after a successful rollback, and only without required references;
   * a rollback after any failure but that of a verify. Each refusal has its own error, and no other error is thrown.
   */
  lemma RepliesFollowHistory(run: seq<State>, calls: seq<Call>, i: nat)
    requires IsRun(run, calls) && i < |calls|
    ensures var reply := ReplyAt(run, calls, i);
            match calls[i]
            case DoApply(_, _) => reply.Done?
            case DoVerify(_) => reply.Done?
            case DoUpdate(_, _) =>
              if LastWas(run, calls, i, {Apply, Update}, {true}) || LastWas(run, calls, i, {Verify}, {true, false}) then reply.Done?
              else reply == Thrown(UpdateInvalidPlanState)
            case DoRemove(_, _, requiredReferences) =>
              if !LastWas(run, calls, i, {Apply, Update, Rollback}, {true}) && !LastWas(run, calls, i, {Verify}, {true, false})
              then reply == Thrown(RemoveInvalidPlanState)
              else if requiredReferences > 0 then reply == Thrown(RemoveDependencyBlocked)
              else reply.Done?
            case DoRollback(_, _) =>
              if LastWas(run, calls, i, {Apply, Update, Operation.Remove, Rollback}, {false}) then reply.Done?
              else reply == Thrown(RollbackInvalidPlanState)
  {
    StatusTellsLastCall(run, calls, i);
    SourceAttemptNeverMissing(run, calls, i);
    MergedOutcomes(run, calls, i);
  }

  /** Outcomes that some guards do not tell apart. */
  lemma MergedOutcomes(run: seq<State>, calls: seq<Call>, i: nat)
    requires i <= |calls| < |run|
    ensures LastWas(run, calls, i, {Verify}, {true, false})
       <==> LastWas(run, calls, i, {Verify}, {true}) || LastWas(run, calls, i, {Verify}, {false})
    ensures LastWas(run, calls, i, {Apply, Update, Rollback}, {true})
       <==> LastWas(run, calls, i, {Apply, Update}, {true}) || LastWas(run, calls, i, {Rollback}, {true})
    ensures LastWas(run, calls, i, {Apply, Update, Operation.Remove, Rollback}, {false})
       <==> || LastWas(run, calls, i, {Apply, Update}, {false}) || LastWas(run, calls, i, {Operation.Remove}, {false})
            || LastWas(run, calls, i, {Rollback}, {false})
  {
  }

  // ---- What a call asks of the adapter ----

  /** What has become of action row b, before and after a run that stopped at number `stop`. */
  ghost predicate RowTells(b: Action, a: Action, i: nat, r: Ran, okReason: Reason) {
    && a.kind == b.kind && a.scope == b.scope && a.path == b.path
    && (i < r.stop && b.kind == SkipScope ==> a.status == Skipped && a.reason == b.reason)
    && (i < r.stop && b.kind == WriteScope ==> a.status == Applied && a.reason == okReason)
    && (i == r.stop ==> a.status == ActionStatus.Failed && FailedWith(a.reason) == r.failure)
    && (i > r.stop ==> a == b)
  }

  lemma RowsTell(actions: seq<Action>, r: Ran, okReason: Reason)
    requires r.stop <= |actions| && (r.failure == NoFailure <==> r.stop == |actions|)
    ensures forall i :: 0 <= i < |actions| ==> RowTells(actions[i], RowsAfter(actions, r, okReason)[i], i, r, okReason)
  {
  }

  lemma CarriedOutBy(s: State, call: Call) returns (okReason: Reason)
    requires Inv(s) && Next(s, call).1.Done? && !call.DoVerify? && !(call.DoApply? && s.plan.blocked)
    ensures var (t, reply) := Next(s, call);
            var write := call.DoApply? || call.DoUpdate? || (call.DoRollback? && s.status == RemoveFailed);
            var r := RunFrom(s.files, s.actions, 0, ScopeMap(call.discovered),
                             if write then Request.Write(s.plan.entry) else Request.Remove(s.plan.entry.packageId), call.faults);
            && t.files == r.files && (reply.succeeded <==> r.failure == NoFailure) && t.actions == RowsAfter(s.actions, r, okReason)
            && okReason == if call.DoApply? then ApplyOk else if call.DoUpdate? then UpdateOk else if call.DoRemove? then RemoveOk
                           else if write then RollbackRestoreOk else RollbackCleanupOk
  {
    NumberedFacts(s.applyAttempts);
    var source := LatestOf(s.applyAttempts);
    var mode := if call.DoRollback? then ModeAfter(source.attempt) else CleanupPartialInstall;
    okReason := Asked(s.plan, Next(s, call).1.operation, mode).1;
  }

  /**
   * A call that is carried out runs the actions in order, from the first one, over the scopes as discovered: it writes the
   * plan's entry for apply and update and after a failed removal, and removes the package otherwise. It goes well exactly
   * when the run is not stopped, and every row tells what happened to its action.
   */
  lemma CallRunsActions(s: State, call: Call)
    requires Inv(s) && Next(s, call).1.Done? && !call.DoVerify? && !(call.DoApply? && s.plan.blocked)
    ensures var (t, reply) := Next(s, call);
            var write := call.DoApply? || call.DoUpdate? || (call.DoRollback? && s.status == RemoveFailed);
            var okReason := if call.DoApply? then ApplyOk else if call.DoUpdate? then UpdateOk else if call.DoRemove? then RemoveOk
                            else if write then RollbackRestoreOk else RollbackCleanupOk;
            var r := RunFrom(s.files, s.actions, 0, ScopeMap(call.discovered),
                             if write then Request.Write(s.plan.entry) else Request.Remove(s.plan.entry.packageId), call.faults);
            && t.files == r.files && (reply.succeeded <==> r.stop == |s.actions|)
            && |t.actions| == |s.actions|
            && forall i :: 0 <= i < |s.actions| ==> RowTells(s.actions[i], t.actions[i], i, r, okReason)
  {
    var write := call.DoApply? || call.DoUpdate? || (call.DoRollback? && s.status == RemoveFailed);
    var okReason := CarriedOutBy(s, call);
    RowsTell(s.actions, RunFrom(s.files, s.actions, 0, ScopeMap(call.discovered),
                                if write then Request.Write(s.plan.entry) else Request.Remove(s.plan.entry.packageId), call.faults),
             okReason);
  }

  /** The apply of a blocked plan fails, changes no file and settles every action: its plan has none that writes. */
  lemma BlockedApplyRefuses(s: State, call: Call)
    requires Inv(s) && call.DoApply? && s.plan.blocked
    ensures var (t, reply) := Next(s, call);
            && reply.Done? && !reply.succeeded && t.files == s.files && |t.actions| == |s.actions|
            && forall i :: 0 <= i < |s.actions| ==>
                 t.actions[i] == s.actions[i].(status := Skipped, reason := PolicyPreflightBlocked)
  {
  }

  /** So a rollback restores the package exactly when the last call that was carried out is a removal, and else removes it. */
  lemma RollbackModeFollowsHistory(run: seq<State>, calls: seq<Call>, i: nat)
    requires IsRun(run, calls) && i < |calls| && calls[i].DoRollback? && ReplyAt(run, calls, i).Done?
    ensures var removed := LastWas(run, calls, i, {Operation.Remove}, {true, false});
            var entry := run[i].plan.entry;
            run[i + 1].files
            == RunFrom(run[i].files, run[i].actions, 0, ScopeMap(calls[i].discovered),
                       if removed then Request.Write(entry) else Request.Remove(entry.packageId), calls[i].faults).files
  {
    RunKeepsInv(run, calls, i);
    assert IsStep(run, calls, i);
    CallRunsActions(run[i], calls[i]);
    RepliesFollowHistory(run, calls, i);
    StatusTellsLastCall(run, calls, i);
    if LastWas(run, calls, i, {Operation.Remove}, {true, false}) {
      assert LastWas(run, calls, i, {Operation.Remove}, {true}) || LastWas(run, calls, i, {Operation.Remove}, {false});
    }
  }
}
