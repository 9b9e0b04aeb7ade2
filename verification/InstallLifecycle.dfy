// The install lifecycle of one plan: apply, update, remove, rollback and verify over its action rows,
// its attempt tables, its published events and the scope files behind the adapter.
module InstallLifecycle {
  import opened JsText
  import opened ScopeFiles
  import opened InstallActions

  datatype PlanStatus =
    | Planned
    | ApplySucceeded | ApplyFailed
    | VerifySucceeded | VerifyFailed
    | RemoveSucceeded | RemoveFailed
    | RollbackSucceeded | RollbackFailed

  datatype Operation = Apply | Update | Remove | Rollback | Verify

  /** A row of install_apply_attempts or install_verify_attempts. */
  datatype Attempt = Attempt(number: nat, succeeded: bool, operation: Operation)

  datatype Event = PlanCreated | Finished(operation: Operation, attempt: nat, succeeded: bool)

  /** The columns of the plan that no operation changes. */
  datatype Plan = Plan(planId: Text, entry: Entry, blocked: bool)

  datatype State = State(plan: Plan, status: PlanStatus, actions: seq<Action>, applyAttempts: seq<Attempt>,
                         verifyAttempts: seq<Attempt>, events: seq<Event>, files: Files)

  datatype RollbackMode = RestoreRemovedEntries | CleanupPartialInstall

  /** One request, with what the adapter and the runtime do during it. */
  datatype Call =
    | DoApply(discovered: seq<Descriptor>, faults: Faults)
    | DoUpdate(discovered: seq<Descriptor>, faults: Faults)
    | DoRemove(discovered: seq<Descriptor>, faults: Faults, requiredReferences: nat)
    | DoRollback(discovered: seq<Descriptor>, faults: Faults)
    | DoVerify(ready: bool)

  datatype Error =
    | UpdateInvalidPlanState
    | RemoveInvalidPlanState
    | RemoveDependencyBlocked
    | RollbackInvalidPlanState
    | RollbackSourceAttemptMissing

  /** The response's status and attempt number, or the error thrown before anything was changed. */
  datatype Reply = Done(operation: Operation, attempt: nat, succeeded: bool) | Thrown(error: Error)

  // ---- Specification of one call ----

  /** SELECT COALESCE(MAX(attempt_number), 0). */
  function MaxNumber(attempts: seq<Attempt>): nat {
    if attempts == [] then 0
    else
      var rest, last := MaxNumber(attempts[..|attempts| - 1]), attempts[|attempts| - 1].number;
      if last > rest then last else rest
  }

  datatype LatestAttempt = NoAttempt | Latest(attempt: Attempt)

  /** ORDER BY attempt_number DESC LIMIT 1. */
  function LatestOf(attempts: seq<Attempt>): LatestAttempt {
    if attempts == [] then NoAttempt
    else
      var rest, last := LatestOf(attempts[..|attempts| - 1]), attempts[|attempts| - 1];
      if rest.NoAttempt? || last.number > rest.attempt.number then Latest(last) else rest
  }

  predicate UpdateAllowed(status: PlanStatus) {
    status.ApplySucceeded? || status.VerifySucceeded? || status.VerifyFailed?
  }

  predicate RemoveAllowed(status: PlanStatus) {
    UpdateAllowed(status) || status.RollbackSucceeded?
  }

  predicate RollbackAllowed(status: PlanStatus) {
    status.ApplyFailed? || status.RemoveFailed? || status.RollbackFailed?
  }

  /** install-lifecycle.ts, lines 2460-2471. */
  function ModeAfter(source: Attempt): RollbackMode {
    if source.operation.Remove? then RestoreRemovedEntries else CleanupPartialInstall
  }

  function StatusAfter(operation: Operation, succeeded: bool): PlanStatus {
    match operation
    case Apply => if succeeded then ApplySucceeded else ApplyFailed
    case Update => if succeeded then ApplySucceeded else ApplyFailed
    case Remove => if succeeded then RemoveSucceeded else RemoveFailed
    case Rollback => if succeeded then RollbackSucceeded else RollbackFailed
    case Verify => if succeeded then VerifySucceeded else VerifyFailed
  }

  /** A blocked plan's actions are settled without the adapter (install-lifecycle.ts, lines 1630-1659). */
  function RefuseAction(a: Action): Action {
    if a.kind == SkipScope then a.(status := Skipped, reason := PolicyPreflightBlocked)
    else a.(status := Failed, reason := TrustGateBlocked)
  }

  function RefuseAll(actions: seq<Action>): (r: seq<Action>)
    ensures |r| == |actions| && forall i :: 0 <= i < |r| ==> r[i] == RefuseAction(actions[i])
  {
    seq(|actions|, i requires 0 <= i < |actions| => RefuseAction(actions[i]))
  }

  /** What the adapter is asked for, and the reason code of an action that went well. */
  function Asked(plan: Plan, operation: Operation, mode: RollbackMode): (Request, Reason) {
    match operation
    case Update => (Write(plan.entry), UpdateOk)
    case Remove => (Request.Remove(plan.entry.packageId), RemoveOk)
    case Rollback =>
      if mode.RestoreRemovedEntries? then (Write(plan.entry), RollbackRestoreOk)
      else (Request.Remove(plan.entry.packageId), RollbackCleanupOk)
    case _ => (Write(plan.entry), ApplyOk)
  }

  /** What an operation's actions leave: the files, the action rows and why it failed. */
  datatype Worked = Worked(files: Files, actions: seq<Action>, failure: Failure)

  /** The run of an operation's actions; applying a blocked plan refuses them all. */
  function Work(s: State, operation: Operation, mode: RollbackMode, discovered: seq<Descriptor>, faults: Faults): Worked {
    if operation.Apply? && s.plan.blocked then Worked(s.files, RefuseAll(s.actions), FailedWith(TrustGateBlocked))
    else
      var (request, okReason) := Asked(s.plan, operation, mode);
      var r := RunFrom(s.files, s.actions, 0, ScopeMap(discovered), request, faults);
      Worked(r.files, RowsAfter(s.actions, r, okReason), r.failure)
  }

  /** Attempt row, plan status and event of an operation that ran its actions. */
  function Record(s: State, operation: Operation, worked: Worked): State {
    var number, ok := MaxNumber(s.applyAttempts) + 1, worked.failure.NoFailure?;
    s.(status := StatusAfter(operation, ok), actions := worked.actions, files := worked.files,
       applyAttempts := s.applyAttempts + [Attempt(number, ok, operation)],
       events := s.events + [Finished(operation, number, ok)])
  }

  function Perform(s: State, operation: Operation, mode: RollbackMode, discovered: seq<Descriptor>,
                   faults: Faults): (State, Reply) {
    var worked := Work(s, operation, mode, discovered, faults);
    (Record(s, operation, worked), Done(operation, MaxNumber(s.applyAttempts) + 1, worked.failure.NoFailure?))
  }

  function Next(s: State, call: Call): (State, Reply) {
    match call
    case DoApply(discovered, faults) => Perform(s, Apply, CleanupPartialInstall, discovered, faults)
    case DoUpdate(discovered, faults) =>
      if !UpdateAllowed(s.status) then (s, Thrown(UpdateInvalidPlanState))
      else Perform(s, Update, CleanupPartialInstall, discovered, faults)
    case DoRemove(discovered, faults, requiredReferences) =>
      if !RemoveAllowed(s.status) then (s, Thrown(RemoveInvalidPlanState))
      else if requiredReferences > 0 then (s, Thrown(RemoveDependencyBlocked))
      else Perform(s, Operation.Remove, CleanupPartialInstall, discovered, faults)
    case DoRollback(discovered, faults) =>
      if !RollbackAllowed(s.status) then (s, Thrown(RollbackInvalidPlanState))
      else
        var source := LatestOf(s.applyAttempts);
        if source.NoAttempt? || source.attempt.succeeded then (s, Thrown(RollbackSourceAttemptMissing))
        else Perform(s, Rollback, ModeAfter(source.attempt), discovered, faults)
    case DoVerify(ready) =>
      var number := MaxNumber(s.verifyAttempts) + 1;
      (s.(status := StatusAfter(Verify, ready),
          verifyAttempts := s.verifyAttempts + [Attempt(number, ready, Verify)],
          events := s.events + [Finished(Verify, number, ready)]),
       Done(Verify, number, ready))
  }

  function Created(plan: Plan, discovered: seq<Descriptor>, files: Files): State {
    State(plan, Planned, PlanActions(discovered, plan.blocked), [], [], [PlanCreated], files)
  }

  // ---- The service ----

  /** One plan's rows and the disk behind the adapter. */
  class InstallPlan {
    const plan: Plan
    var status: PlanStatus
    var actions: seq<Action>
    var applyAttempts: seq<Attempt>
    var verifyAttempts: seq<Attempt>
    var events: seq<Event>
    var files: Files

    ghost function Snapshot(): State
      reads this
    {
      State(plan, status, actions, applyAttempts, verifyAttempts, events, files)
    }

    /** createPlan. */
    constructor (plan: Plan, discovered: seq<Descriptor>, files: Files)
      ensures Snapshot() == Created(plan, discovered, files)
    {
      this.plan := plan;
      status := Planned;
      actions := PlanActions(discovered, plan.blocked);
      applyAttempts, verifyAttempts, events := [], [], [PlanCreated];
      this.files := files;
    }

    /** One adapter call of an action loop. */
    method CallAdapter(d: Descriptor, request: Request, fault: Fault) returns (ok: bool)
      modifies this`files
      ensures (files, ok) == AdapterCall(old(files), d, request, fault)
    {
      if !d.daemonOwned || fault.breaks == BeforeEffect {
        return false;
      }
      var result := SeenEffect(FileAt(files, d.path), request, fault.misled);
      if result.Err? {
        return false;
      }
      files := files[d.path := result.value];
      return fault.breaks == Never;
    }

    /** The loop that applyPlan, updatePlan, removePlan and rollbackPlan share. */
    method RunActions(scopes: map<Scope, Descriptor>, request: Request, okReason: Reason, faults: Faults)
      returns (failure: Failure)
      modifies this`files, this`actions
      ensures var r := RunFrom(old(files), old(actions), 0, scopes, request, faults);
              files == r.files && failure == r.failure && actions == RowsAfter(old(actions), r, okReason)
    {
      failure := NoFailure;
      var k := 0;
      while k < |actions|
        invariant k <= |actions| == |old(actions)|
        invariant forall i :: 0 <= i < k ==> actions[i] == Passed(old(actions)[i], okReason)
        invariant forall i :: k <= i < |actions| ==> actions[i] == old(actions)[i]
        invariant RunFrom(old(files), old(actions), 0, scopes, request, faults)
                  == RunFrom(files, old(actions), k, scopes, request, faults)
      {
        var a := actions[k];
        if a.kind == SkipScope {
          actions := actions[k := a.(status := Skipped)];
        } else if a.scope !in scopes {
          actions := actions[k := a.(status := Failed, reason := ScopeNotFound)];
          return FailedWith(ScopeNotFound);
        } else {
          var ok := CallAdapter(scopes[a.scope], request, faults(k));
          if !ok {
            actions := actions[k := a.(status := Failed, reason := AdapterFailed)];
            return FailedWith(AdapterFailed);
          }
          actions := actions[k := a.(status := Applied, reason := okReason)];
        }
        k := k + 1;
      }
    }

    method RefuseActions()
      modifies this`actions
      ensures actions == RefuseAll(old(actions))
    {
      for k := 0 to |actions|
        invariant |actions| == |old(actions)|
        invariant forall i :: 0 <= i < k ==> actions[i] == RefuseAction(old(actions)[i])
        invariant forall i :: k <= i < |actions| ==> actions[i] == old(actions)[i]
      {
        actions := actions[k := RefuseAction(actions[k])];
      }
    }

    method RecordAttempt(operation: Operation, number: nat, failure: Failure) returns (reply: Reply)
      modifies this`status, this`applyAttempts, this`events
      ensures status == StatusAfter(operation, failure.NoFailure?)
      ensures applyAttempts == old(applyAttempts) + [Attempt(number, failure.NoFailure?, operation)]
      ensures events == old(events) + [Finished(operation, number, failure.NoFailure?)]
      ensures reply == Done(operation, number, failure.NoFailure?)
    {
      status := StatusAfter(operation, failure.NoFailure?);
      applyAttempts := applyAttempts + [Attempt(number, failure.NoFailure?, operation)];
      events := events + [Finished(operation, number, failure.NoFailure?)];
      reply := Done(operation, number, failure.NoFailure?);
    }

    method ApplyPlan(discovered: seq<Descriptor>, faults: Faults) returns (reply: Reply)
      modifies this
      ensures (Snapshot(), reply) == Next(old(Snapshot()), DoApply(discovered, faults))
    {
      var number := MaxNumber(applyAttempts) + 1;
      var scopes := CreateScopeMap(discovered);
      var failure := if plan.blocked then FailedWith(TrustGateBlocked) else NoFailure;
      if failure.FailedWith? {
        RefuseActions();
      } else {
        failure := RunActions(scopes, Write(plan.entry), ApplyOk, faults);
      }
      reply := RecordAttempt(Apply, number, failure);
    }

    method UpdatePlan(discovered: seq<Descriptor>, faults: Faults) returns (reply: Reply)
      modifies this
      ensures (Snapshot(), reply) == Next(old(Snapshot()), DoUpdate(discovered, faults))
    {
      if !UpdateAllowed(status) {
        return Thrown(UpdateInvalidPlanState);
      }
      var number := MaxNumber(applyAttempts) + 1;
      var scopes := CreateScopeMap(discovered);
      var failure := RunActions(scopes, Write(plan.entry), UpdateOk, faults);
      reply := RecordAttempt(Update, number, failure);
    }

    method RemovePlan(discovered: seq<Descriptor>, faults: Faults, requiredReferences: nat) returns (reply: Reply)
      modifies this
      ensures (Snapshot(), reply) == Next(old(Snapshot()), DoRemove(discovered, faults, requiredReferences))
    {
      if !RemoveAllowed(status) {
        return Thrown(RemoveInvalidPlanState);
      }
      if requiredReferences > 0 {
        return Thrown(RemoveDependencyBlocked);
      }
      var number := MaxNumber(applyAttempts) + 1;
      var scopes := CreateScopeMap(discovered);
      var failure := RunActions(scopes, Request.Remove(plan.entry.packageId), RemoveOk, faults);
      reply := RecordAttempt(Operation.Remove, number, failure);
    }

    method RollbackPlan(discovered: seq<Descriptor>, faults: Faults) returns (reply: Reply)
      modifies this
      ensures (Snapshot(), reply) == Next(old(Snapshot()), DoRollback(discovered, faults))
    {
      if !RollbackAllowed(status) {
        return Thrown(RollbackInvalidPlanState);
      }
      var source := LatestOf(applyAttempts);
      if source.NoAttempt? || source.attempt.succeeded {
        return Thrown(RollbackSourceAttemptMissing);
      }
      var mode := ModeAfter(source.attempt);
      var number := MaxNumber(applyAttempts) + 1;
      var scopes := CreateScopeMap(discovered);
      var (request, okReason) := Asked(plan, Rollback, mode);
      var failure := RunActions(scopes, request, okReason, faults);
      reply := RecordAttempt(Rollback, number, failure);
    }

    method VerifyPlan(ready: bool) returns (reply: Reply)
      modifies this
      ensures (Snapshot(), reply) == Next(old(Snapshot()), DoVerify(ready))
    {
      var number := MaxNumber(verifyAttempts) + 1;
      verifyAttempts := verifyAttempts + [Attempt(number, ready, Verify)];
      status := StatusAfter(Verify, ready);
      events := events + [Finished(Verify, number, ready)];
      reply := Done(Verify, number, ready);
    }
  }

  // ---- Runs ----

  ghost predicate IsStep(run: seq<State>, calls: seq<Call>, i: nat)
    requires i < |calls| < |run|
  {
    run[i + 1] == Next(run[i], calls[i]).0
  }

  /** A plan is created and then called any number of times, one call after another. */
  ghost predicate IsRun(run: seq<State>, calls: seq<Call>) {
    && |run| == |calls| + 1
    && (exists plan, discovered, files :: run[0] == Created(plan, discovered, files))
    && forall i: nat {:trigger IsStep(run, calls, i)} :: i < |calls| ==> IsStep(run, calls, i)
  }

  ghost predicate Numbered(attempts: seq<Attempt>) {
    forall i :: 0 <= i < |attempts| ==> attempts[i].number == i + 1
  }

  /** Which attempt rows and events belong together. */
  ghost predicate Published(events: seq<Event>, applyAttempts: seq<Attempt>, verifyAttempts: seq<Attempt>) {
    && events != [] && events[0] == PlanCreated
    && (forall i :: 0 < i < |events| ==> events[i].Finished?)
    && (forall i :: 0 < i < |events| ==>
          var table := if events[i].operation.Verify? then verifyAttempts else applyAttempts;
          Attempt(events[i].attempt, events[i].succeeded, events[i].operation) in table)
    && forall i, j :: 0 < i < j < |events| ==>
         events[i].operation.Verify? != events[j].operation.Verify? || events[i].attempt != events[j].attempt
  }

  ghost predicate StatusOk(s: State) {
    var n := |s.applyAttempts|;
    RollbackAllowed(s.status) ==>
      && n > 0 && !s.applyAttempts[n - 1].succeeded
      && s.status == StatusAfter(s.applyAttempts[n - 1].operation, false)
  }

  ghost predicate Inv(s: State) {
    && Numbered(s.applyAttempts) && Numbered(s.verifyAttempts)
    && (forall i :: 0 <= i < |s.applyAttempts| ==> !s.applyAttempts[i].operation.Verify?)
    && Published(s.events, s.applyAttempts, s.verifyAttempts)
    && StatusOk(s)
    && (s.plan.blocked ==> forall i :: 0 <= i < |s.actions| ==> s.actions[i].kind == SkipScope)
  }

  lemma {:induction false} NumberedFacts(attempts: seq<Attempt>)
    requires Numbered(attempts)
    ensures MaxNumber(attempts) == |attempts|
    ensures LatestOf(attempts) == if attempts == [] then NoAttempt else Latest(attempts[|attempts| - 1])
  {
    if attempts != [] {
      NumberedFacts(attempts[..|attempts| - 1]);
    }
  }

  lemma AppendPublished(events: seq<Event>, apply: seq<Attempt>, verify: seq<Attempt>, a: Attempt)
    requires Published(events, apply, verify) && Numbered(apply) && Numbered(verify)
    requires a.number == (if a.operation.Verify? then |verify| else |apply|) + 1
    ensures Published(events + [Finished(a.operation, a.number, a.succeeded)],
                      if a.operation.Verify? then apply else apply + [a], if a.operation.Verify? then verify + [a] else verify)
  {
  }

  lemma PerformKeepsInv(s: State, operation: Operation, mode: RollbackMode, discovered: seq<Descriptor>, faults: Faults)
    requires Inv(s) && !operation.Verify?
    ensures Inv(Perform(s, operation, mode, discovered, faults).0)
  {
    var worked := Work(s, operation, mode, discovered, faults);
    NumberedFacts(s.applyAttempts);
    AppendPublished(s.events, s.applyAttempts, s.verifyAttempts,
                    Attempt(|s.applyAttempts| + 1, worked.failure.NoFailure?, operation));
  }

  lemma StepKeepsInv(s: State, call: Call)
    requires Inv(s)
    ensures Inv(Next(s, call).0)
  {
    match call
    case DoApply(discovered, faults) => PerformKeepsInv(s, Apply, CleanupPartialInstall, discovered, faults);
    case DoUpdate(discovered, faults) => PerformKeepsInv(s, Update, CleanupPartialInstall, discovered, faults);
    case DoRemove(discovered, faults, _) => PerformKeepsInv(s, Operation.Remove, CleanupPartialInstall, discovered, faults);
    case DoRollback(discovered, faults) =>
      var source := LatestOf(s.applyAttempts);
      PerformKeepsInv(s, Rollback, if source.NoAttempt? then CleanupPartialInstall else ModeAfter(source.attempt), discovered, faults);
    case DoVerify(ready) =>
      NumberedFacts(s.verifyAttempts);
      AppendPublished(s.events, s.applyAttempts, s.verifyAttempts, Attempt(|s.verifyAttempts| + 1, ready, Verify));
  }

  lemma {:induction false} RunKeepsInv(run: seq<State>, calls: seq<Call>, i: nat)
    requires IsRun(run, calls) && i <= |calls|
    ensures Inv(run[i])
    ensures run[i].plan == run[0].plan
  {
    if i > 0 {
      RunKeepsInv(run, calls, i - 1);
      assert IsStep(run, calls, i - 1);
      StepKeepsInv(run[i - 1], calls[i - 1]);
    }
  }
}
