// What holds over every run of the install lifecycle, and where its guards can be walked around.
module LifecycleSafety {
  import opened JsText
  import opened JsNumbers
  import opened ScopeFiles
  import opened InstallActions
  import opened InstallLifecycle

  // ---- Rollback ----

  /** In every reachable state a permitted rollback finds a failed latest attempt, and restores iff removal failed. */
  lemma RollbackFindsItsSource(run: seq<State>, calls: seq<Call>, i: nat)
    requires IsRun(run, calls) && i <= |calls| && RollbackAllowed(run[i].status)
    ensures var source := LatestOf(run[i].applyAttempts);
            && source.Latest? && !source.attempt.succeeded
            && (ModeAfter(source.attempt) == RestoreRemovedEntries <==> run[i].status == RemoveFailed)
  {
    RunKeepsInv(run, calls, i);
    NumberedFacts(run[i].applyAttempts);
  }

  lemma SourceAttemptNeverMissing(run: seq<State>, calls: seq<Call>, i: nat)
    requires IsRun(run, calls) && i < |calls|
    ensures Next(run[i], calls[i]).1 != Thrown(RollbackSourceAttemptMissing)
  {
    if RollbackAllowed(run[i].status) {
      RollbackFindsItsSource(run, calls, i);
    }
  }

  /** A restoring rollback that fails leaves a state whose next rollback removes the entries instead. */
  lemma FailedRestoreTurnsIntoCleanup(s: State, discovered: seq<Descriptor>, faults: Faults)
    requires Inv(s) && s.status == RemoveFailed
    requires var reply := Next(s, DoRollback(discovered, faults)).1; reply.Done? && !reply.succeeded
    ensures var t := Next(s, DoRollback(discovered, faults)).0;
            && t.status == RollbackFailed
            && LatestOf(t.applyAttempts).Latest?
            && ModeAfter(LatestOf(t.applyAttempts).attempt) == CleanupPartialInstall
  {
    var t := Next(s, DoRollback(discovered, faults)).0;
    StepKeepsInv(s, DoRollback(discovered, faults));
    NumberedFacts(t.applyAttempts);
  }

  // ---- Attempts and events ----

  lemma AttemptsAreNumbered(run: seq<State>, calls: seq<Call>, i: nat, k: nat)
    requires IsRun(run, calls) && i <= |calls|
    ensures k < |run[i].applyAttempts| ==> run[i].applyAttempts[k].number == k + 1
    ensures k < |run[i].verifyAttempts| ==> run[i].verifyAttempts[k].number == k + 1
  {
    RunKeepsInv(run, calls, i);
  }

  function Word(operation: Operation): Text {
    match operation
    case Apply => Ascii("apply")
    case Update => Ascii("update")
    case Remove => Ascii("remove")
    case Rollback => Ascii("rollback")
    case Verify => Ascii("verify")
  }

  function StatusText(operation: Operation, succeeded: bool): Text {
    Word(operation) + if succeeded then Ascii("_succeeded") else Ascii("_failed")
  }

  function EventText(e: Event): Text {
    match e
    case PlanCreated => Ascii("install.plan.created")
    case Finished(operation, attempt, succeeded) =>
      Word(operation) + [COLON] + (DecimalText(attempt) + [COLON] + StatusText(operation, succeeded))
  }

  /** The key an event is published under. */
  function DedupeKey(planId: Text, e: Event): Text {
    planId + [COLON] + EventText(e)
  }

  lemma WordsDiffer(a: Operation, b: Operation)
    ensures COLON !in Word(a)
    ensures Word(a) == Word(b) <==> a == b
  {
    assert Word(Apply)[0] == 97 && Word(Update)[0] == 117 && Word(Operation.Remove)[2] == 109
           && Word(Verify)[0] == 118 && Word(Update)[2] == 100;
    assert |Word(a)| == |Word(b)| && a != b ==> Word(a)[0] != Word(b)[0];
  }

  lemma StatusTextsDiffer(operation: Operation)
    ensures StatusText(operation, true) != StatusText(operation, false)
  {
  }

  lemma EventTextInjective(e: Event, f: Event)
    requires EventText(e) == EventText(f)
    ensures e == f
  {
    HasColon(e);
    HasColon(f);
    if e.Finished? && f.Finished? {
      FinishedTextInjective(e, f);
    }
  }

  lemma HasColon(e: Event)
    ensures COLON in EventText(e) <==> e.Finished?
  {
  }

  lemma FinishedTextInjective(e: Event, f: Event)
    requires e.Finished? && f.Finished? && EventText(e) == EventText(f)
    ensures e == f
  {
    var x, y := StatusText(e.operation, e.succeeded), StatusText(f.operation, f.succeeded);
    WordsDiffer(e.operation, f.operation);
    WordsDiffer(f.operation, e.operation);
    CutAtMark(Word(e.operation), DecimalText(e.attempt) + [COLON] + x, Word(f.operation), DecimalText(f.attempt) + [COLON] + y, COLON);
    CutAtMark(DecimalText(e.attempt), x, DecimalText(f.attempt), y, COLON);
    DecimalTextInjective(e.attempt, f.attempt);
    StatusTextsDiffer(e.operation);
  }

  /** For plan ids without a colon a key names one event of one plan. */
  lemma DedupeKeyInjective(p: Text, e: Event, q: Text, f: Event)
    requires COLON !in p && COLON !in q
    ensures DedupeKey(p, e) == DedupeKey(q, f) <==> p == q && e == f
  {
    if DedupeKey(p, e) == DedupeKey(q, f) {
      CutAtMark(p, EventText(e), q, EventText(f), COLON);
      EventTextInjective(e, f);
    }
  }

  lemma Spelled(a: string, b: string)
    ensures Ascii(a) + Ascii(b) == Ascii(a + b)
  {
  }

  /** The statuses that end the keys, spelled out. */
  lemma StatusTextsAre()
    ensures StatusText(Apply, true) == Ascii("apply_succeeded") && StatusText(Apply, false) == Ascii("apply_failed")
    ensures StatusText(Update, true) == Ascii("update_succeeded") && StatusText(Update, false) == Ascii("update_failed")
    ensures StatusText(Operation.Remove, true) == Ascii("remove_succeeded")
    ensures StatusText(Operation.Remove, false) == Ascii("remove_failed")
    ensures StatusText(Rollback, true) == Ascii("rollback_succeeded") && StatusText(Rollback, false) == Ascii("rollback_failed")
    ensures StatusText(Verify, true) == Ascii("verify_succeeded") && StatusText(Verify, false) == Ascii("verify_failed")
  {
    var yes, no := "_succeeded", "_failed";
    Spelled("apply", yes);
    Spelled("apply", no);
    Spelled("update", yes);
    Spelled("update", no);
    Spelled("remove", yes);
    Spelled("remove", no);
    Spelled("rollback", yes);
    Spelled("rollback", no);
    Spelled("verify", yes);
    Spelled("verify", no);
    assert "apply" + yes == "apply_succeeded" && "update" + yes == "update_succeeded" && "remove" + yes == "remove_succeeded";
    assert "rollback" + yes == "rollback_succeeded" && "verify" + yes == "verify_succeeded";
    assert "apply" + no == "apply_failed" && "update" + no == "update_failed" && "remove" + no == "remove_failed";
    assert "rollback" + no == "rollback_failed" && "verify" + no == "verify_failed";
  }

  /** No two events published in a run share a key, so the outbox never drops one. */
  lemma EventsHaveTheirOwnKeys(run: seq<State>, calls: seq<Call>, i: nat, j: nat, k: nat)
    requires IsRun(run, calls) && i <= |calls| && j < k < |run[i].events|
    requires COLON !in run[i].plan.planId
    ensures DedupeKey(run[i].plan.planId, run[i].events[j]) != DedupeKey(run[i].plan.planId, run[i].events[k])
  {
    RunKeepsInv(run, calls, i);
    DedupeKeyInjective(run[i].plan.planId, run[i].events[j], run[i].plan.planId, run[i].events[k]);
  }

  // ---- What a call does to the files ----

  /** Whether a call that is carried out installs the package or removes it. */
  predicate Installs(s: State, call: Call) {
    call.DoApply? || call.DoUpdate? || (call.DoRollback? && s.status == RemoveFailed)
  }

  function RequestOf(s: State, call: Call): Request {
    if Installs(s, call) then Write(s.plan.entry) else Request.Remove(s.plan.entry.packageId)
  }

  /** The run of a call's actions. */
  function RanBy(s: State, call: Call): Ran
    requires !call.DoVerify?
  {
    RunFrom(s.files, s.actions, 0, ScopeMap(call.discovered), RequestOf(s, call), call.faults)
  }

  /** The call is carried out, it is not verify, and not the apply of a blocked plan. */
  predicate CarriedOut(s: State, call: Call) {
    !call.DoVerify? && Next(s, call).1.Done? && !(call.DoApply? && s.plan.blocked)
  }

  lemma CarriedOutRuns(s: State, call: Call) returns (okReason: Reason)
    requires Inv(s) && CarriedOut(s, call)
    ensures var r, t := RanBy(s, call), Next(s, call).0;
            && t.files == r.files && t.actions == RowsAfter(s.actions, r, okReason)
            && (Next(s, call).1.succeeded <==> r.failure.NoFailure?)
  {
    NumberedFacts(s.applyAttempts);
    var source := LatestOf(s.applyAttempts);
    var mode := if call.DoRollback? then ModeAfter(source.attempt) else CleanupPartialInstall;
    okReason := Asked(s.plan, Next(s, call).1.operation, mode).1;
  }

  /** Some write the call makes in the file at p, up to the action it stops at, has its read misled. */
  ghost predicate MisledWriteIn(s: State, call: Call, p: Text) {
    && CarriedOut(s, call) && Installs(s, call)
    && SomeMisled(s.actions, 0, RanBy(s, call).stop, ScopeMap(call.discovered), call.faults, p)
  }

  lemma StepFate(s: State, call: Call, p: Text)
    requires Inv(s)
    ensures Fate(FileAt(s.files, p), FileAt(Next(s, call).0.files, p), s.plan.entry.packageId, MisledWriteIn(s, call, p))
  {
    if CarriedOut(s, call) {
      var _ := CarriedOutRuns(s, call);
      RunFate(s.files, s.actions, 0, ScopeMap(call.discovered), RequestOf(s, call), call.faults, p);
    }
  }

  /** The first i calls hold a misled write of the file at p. */
  ghost predicate MisledSoFar(run: seq<State>, calls: seq<Call>, i: nat, p: Text)
    requires i <= |calls| < |run|
  {
    i > 0 && (MisledSoFar(run, calls, i - 1, p) || MisledWriteIn(run[i - 1], calls[i - 1], p))
  }

  lemma RunStepFate(run: seq<State>, calls: seq<Call>, i: nat, p: Text)
    requires IsRun(run, calls) && i < |calls|
    ensures Fate(FileAt(run[i].files, p), FileAt(run[i + 1].files, p), run[0].plan.entry.packageId,
                 MisledWriteIn(run[i], calls[i], p))
  {
    RunKeepsInv(run, calls, i);
    assert IsStep(run, calls, i);
    StepFate(run[i], calls[i], p);
  }

  lemma {:induction false} RunsFate(run: seq<State>, calls: seq<Call>, i: nat, p: Text)
    requires IsRun(run, calls) && i <= |calls|
    ensures Fate(FileAt(run[0].files, p), FileAt(run[i].files, p), run[0].plan.entry.packageId, MisledSoFar(run, calls, i, p))
  {
    if i > 0 {
      RunsFate(run, calls, i - 1, p);
      RunStepFate(run, calls, i - 1, p);
      FateComposes(FileAt(run[0].files, p), FileAt(run[i - 1].files, p), FileAt(run[i].files, p),
                   run[0].plan.entry.packageId, MisledSoFar(run, calls, i - 1, p), MisledWriteIn(run[i - 1], calls[i - 1], p));
    }
  }

  /**
   * Whatever is called and whatever fails: a foreign file and other packages' entries are as they were exactly when
   * there were none, or no write of that file so far had its read misled.
   */
  lemma RunRespectsOthers(run: seq<State>, calls: seq<Call>, i: nat, p: Text)
    requires IsRun(run, calls) && i <= |calls|
    ensures var packageId := run[0].plan.entry.packageId;
            && (Respects(FileAt(run[0].files, p), FileAt(run[i].files, p), packageId) <==>
                  !(Precious(FileAt(run[0].files, p), packageId) && MisledSoFar(run, calls, i, p)))
  {
    RunsFate(run, calls, i, p);
    FateDecides(FileAt(run[0].files, p), FileAt(run[i].files, p), run[0].plan.entry.packageId, MisledSoFar(run, calls, i, p));
  }

  /** A plan that policy blocked never changes any file. */
  lemma {:induction false} BlockedPlanWritesNothing(run: seq<State>, calls: seq<Call>, i: nat, p: Text)
    requires IsRun(run, calls) && i <= |calls| && run[0].plan.blocked
    ensures FileAt(run[i].files, p) == FileAt(run[0].files, p)
  {
    if i > 0 {
      BlockedPlanWritesNothing(run, calls, i - 1, p);
      RunKeepsInv(run, calls, i - 1);
      assert IsStep(run, calls, i - 1);
      var s, call := run[i - 1], calls[i - 1];
      if CarriedOut(s, call) {
        var _ := CarriedOutRuns(s, call);
        SkippingRun(s.files, s.actions, ScopeMap(call.discovered), RequestOf(s, call), call.faults);
      }
    }
  }

  /** Action i is marked applied; unless it is a removal whose read was misled, its file holds what was asked. */
  ghost predicate Reached(s: State, t: State, call: Call, i: nat)
    requires !call.DoVerify? && i < |s.actions| == |t.actions|
  {
    var scopes := ScopeMap(call.discovered);
    && t.actions[i].status == Applied
    && s.actions[i].scope in scopes
    && (Installs(s, call) || !call.faults(i).misled ==>
          Achieved(FileAt(t.files, scopes[s.actions[i].scope].path), RequestOf(s, call)))
  }

  lemma PassedIsReached(s: State, call: Call, i: nat)
    requires Inv(s) && CarriedOut(s, call) && i < |s.actions| && s.actions[i].kind == WriteScope
    requires i < RanBy(s, call).stop
    ensures |Next(s, call).0.actions| == |s.actions| && Reached(s, Next(s, call).0, call, i)
  {
    var _ := CarriedOutRuns(s, call);
    var scopes, request := ScopeMap(call.discovered), RequestOf(s, call);
    RunStopsAt(s.files, s.actions, 0, scopes, request, call.faults);
    assert GoesThrough(s.files, s.actions, 0, i, scopes, request, call.faults);
    var p := scopes[s.actions[i].scope].path;
    RunAchieves(s.files, s.actions, 0, scopes, request, call.faults, p);
    assert Installs(s, call) || !call.faults(i).misled ==> Works(s.actions, scopes, request, call.faults, i, p);
  }

  /** A run that is not stopped does the work in a file exactly when it was done before or some action works there. */
  lemma WholeRunAchievesIff(files: Files, actions: seq<Action>, scopes: map<Scope, Descriptor>, request: Request,
                            faults: Faults, p: Text)
    requires RunFrom(files, actions, 0, scopes, request, faults).stop == |actions|
    ensures Achieved(FileAt(RunFrom(files, actions, 0, scopes, request, faults).files, p), request)
       <==> Achieved(FileAt(files, p), request) || SomeWorks(actions, 0, |actions|, scopes, request, faults, p)
  {
    RunAchieves(files, actions, 0, scopes, request, faults, p);
    RunAchievesOnly(files, actions, 0, scopes, request, faults, p);
    assert SomeWorks(actions, 0, |actions| + 1, scopes, request, faults, p)
      <==> SomeWorks(actions, 0, |actions|, scopes, request, faults, p);
  }

  /**
   * After a successful apply, update or restoring rollback every write_entry scope holds the package, exactly once
   * and with the plan's entry. After a successful remove or cleanup rollback a write_entry scope holds it no more
   * exactly when it did not before, or some removal in its file had a truthful read.
   */
  lemma SuccessReachesEveryScope(s: State, call: Call, i: nat)
    requires Inv(s) && !call.DoVerify? && Next(s, call).1.Done? && Next(s, call).1.succeeded
    requires i < |s.actions| && s.actions[i].kind == WriteScope
    ensures var t, scopes, pkg := Next(s, call).0, ScopeMap(call.discovered), s.plan.entry.packageId;
            && |t.actions| == |s.actions| && t.actions[i].status == Applied && s.actions[i].scope in scopes
            && var p := scopes[s.actions[i].scope].path;
               if Installs(s, call) then EntriesFor(FileAt(t.files, p), pkg) == [s.plan.entry]
               else EntriesFor(FileAt(t.files, p), pkg) == []
                    <==> EntriesFor(FileAt(s.files, p), pkg) == []
                         || SomeWorks(s.actions, 0, |s.actions|, scopes, RequestOf(s, call), call.faults, p)
  {
    var _ := CarriedOutRuns(s, call);
    PassedIsReached(s, call, i);
    var scopes, request := ScopeMap(call.discovered), RequestOf(s, call);
    var p := scopes[s.actions[i].scope].path;
    WholeRunAchievesIff(s.files, s.actions, scopes, request, call.faults, p);
  }

  /** An operation goes well exactly when each of its actions can. */
  lemma SucceedsIff(s: State, call: Call)
    requires Inv(s) && !call.DoVerify? && Next(s, call).1.Done?
    ensures Next(s, call).1.succeeded <==>
              && !(call.DoApply? && s.plan.blocked)
              && forall i: nat :: i < |s.actions| ==> CanPass(s, call, i)
  {
    if !(call.DoApply? && s.plan.blocked) {
      var _ := CarriedOutRuns(s, call);
      RunStopsAt(s.files, s.actions, 0, ScopeMap(call.discovered), RequestOf(s, call), call.faults);
      var stop := RanBy(s, call).stop;
      assert stop < |s.actions| ==> !CanPass(s, call, stop);
    }
  }

  /** Action i of a call goes through. */
  ghost predicate CanPass(s: State, call: Call, i: nat)
    requires !call.DoVerify? && i < |s.actions|
  {
    GoesThrough(s.files, s.actions, 0, i, ScopeMap(call.discovered), RequestOf(s, call), call.faults)
  }

  /**
   * A failed operation took effect on every action before the failing one, misled removals aside, and on none after
   * it: later actions keep their rows, and a file that no action up to the failing one is about keeps its content.
   */
  lemma FailureIsAPrefix(s: State, call: Call) returns (stop: nat)
    requires Inv(s) && CarriedOut(s, call) && !Next(s, call).1.succeeded
    ensures var t, scopes := Next(s, call).0, ScopeMap(call.discovered);
            && |t.actions| == |s.actions| && stop < |s.actions|
            && s.actions[stop].kind == WriteScope && t.actions[stop].status == Failed
            && (forall i :: 0 <= i < stop && s.actions[i].kind == WriteScope ==> Reached(s, t, call, i))
            && (forall i :: stop < i < |s.actions| ==> t.actions[i] == s.actions[i])
            && forall p :: !Visited(s.actions, 0, stop, scopes, p) ==> FileAt(t.files, p) == FileAt(s.files, p)
  {
    var _ := CarriedOutRuns(s, call);
    var scopes, request := ScopeMap(call.discovered), RequestOf(s, call);
    stop := RanBy(s, call).stop;
    RunStopsAt(s.files, s.actions, 0, scopes, request, call.faults);
    forall i | 0 <= i < stop && s.actions[i].kind == WriteScope ensures Reached(s, Next(s, call).0, call, i) {
      PassedIsReached(s, call, i);
    }
    forall p | !Visited(s.actions, 0, stop, scopes, p) ensures FileAt(Next(s, call).0.files, p) == FileAt(s.files, p) {
      RunLeavesAlone(s.files, s.actions, 0, scopes, request, call.faults, p);
    }
  }

  /**
   * A remove that succeeds right after a successful apply leaves no entry of the package exactly when some removal in
   * the file had a truthful read; all else in the file is back exactly when no write of the apply was misled on it.
   */
  lemma RemoveUndoesApply(s: State, apply: Call, remove: Call, i: nat, p: Text)
    requires Inv(s) && apply.DoApply? && Next(s, apply).1.Done? && Next(s, apply).1.succeeded
    requires remove.DoRemove? && remove.discovered == apply.discovered
    requires Next(Next(s, apply).0, remove).1.Done? && Next(Next(s, apply).0, remove).1.succeeded
    requires i < |s.actions| && s.actions[i].kind == WriteScope && s.actions[i].scope in ScopeMap(apply.discovered)
    requires p == ScopeMap(apply.discovered)[s.actions[i].scope].path
    ensures var m, t, pkg := Next(s, apply).0, Next(Next(s, apply).0, remove).0, s.plan.entry.packageId;
            && (EntriesFor(FileAt(t.files, p), pkg) == [] <==>
                  SomeWorks(m.actions, 0, |m.actions|, ScopeMap(remove.discovered), RequestOf(m, remove), remove.faults, p))
            && (Respects(FileAt(s.files, p), FileAt(t.files, p), pkg) <==>
                  !(Precious(FileAt(s.files, p), pkg) && MisledWriteIn(s, apply, p)))
  {
    var m := Next(s, apply).0;
    StepKeepsInv(s, apply);
    StepFate(s, apply, p);
    StepFate(m, remove, p);
    var a, b, c, pkg := FileAt(s.files, p), FileAt(m.files, p), FileAt(Next(m, remove).0.files, p), s.plan.entry.packageId;
    FateComposes(a, b, c, pkg, MisledWriteIn(s, apply, p), false);
    FateDecides(a, c, pkg, MisledWriteIn(s, apply, p));
    var _ := CarriedOutRuns(s, apply);
    SuccessReachesEveryScope(s, apply, i);
    SuccessReachesEveryScope(m, remove, i);
  }

  // ---- What one failing access check does ----

  /** A plan with one action on a foreign file: with its read misled, apply succeeds and the file is taken over. */
  lemma MisledApplyTakesOver(s: State, d: Descriptor, faults: Faults)
    requires Inv(s) && !s.plan.blocked && |s.actions| == 1 && s.actions[0].kind == WriteScope && s.actions[0].scope == d.scope
    requires d.daemonOwned && faults(0) == Fault(Never, true) && !Mutable(FileAt(s.files, d.path))
    ensures var (t, reply) := Next(s, DoApply([d], faults));
            && reply.succeeded
            && Damaged(FileAt(s.files, d.path), FileAt(t.files, d.path), s.plan.entry.packageId)
  {
    var call := DoApply([d], faults);
    assert [d][..0] == [];
    assert ScopeMap([d]) == map[d.scope := d];
    SucceedsIff(s, call);
    StepFate(s, call, d.path);
    var _ := CarriedOutRuns(s, call);
    assert Misled(s.actions, ScopeMap([d]), faults, 0, d.path);
  }

  /** The same plan with the package in the file: with its read misled, remove succeeds and the package is still there. */
  lemma MisledRemoveLeavesPackage(s: State, d: Descriptor, faults: Faults)
    requires Inv(s) && RemoveAllowed(s.status)
    requires |s.actions| == 1 && s.actions[0].kind == WriteScope && s.actions[0].scope == d.scope
    requires d.daemonOwned && faults(0) == Fault(Never, true)
    requires EntriesFor(FileAt(s.files, d.path), s.plan.entry.packageId) != []
    ensures var (t, reply) := Next(s, DoRemove([d], faults, 0));
            && reply.succeeded
            && EntriesFor(FileAt(t.files, d.path), s.plan.entry.packageId) != []
  {
    var call := DoRemove([d], faults, 0);
    assert [d][..0] == [];
    assert ScopeMap([d]) == map[d.scope := d];
    SucceedsIff(s, call);
    SuccessReachesEveryScope(s, call, 0);
  }

  // ---- The unguarded operations ----

  /**
   * What a finished call permits next: every failed change can be rolled back and nothing else can; update needs an
   * installed or verified plan; after a rollback only remove is left, after a removal none of the guarded operations.
   */
  lemma PermittedAfter(s: State, call: Call)
    requires Next(s, call).1.Done?
    ensures var t, reply := Next(s, call).0, Next(s, call).1;
            && (RollbackAllowed(t.status) <==> !reply.succeeded && reply.operation != Verify)
            && (UpdateAllowed(t.status) <==> reply.operation == Verify || (reply.succeeded && reply.operation in {Apply, Update}))
            && (RemoveAllowed(t.status) && !UpdateAllowed(t.status) <==> reply.succeeded && reply.operation == Rollback)
  {
  }

  /** Verify is allowed in every state and afterwards update and remove are, while rollback is not. */
  lemma VerifyLiftsGuards(s: State, ready: bool)
    ensures var t := Next(s, DoVerify(ready)).0;
            && UpdateAllowed(t.status) && RemoveAllowed(t.status) && !RollbackAllowed(t.status)
            && t.actions == s.actions && t.applyAttempts == s.applyAttempts && t.files == s.files
  {
  }

  /**
   * Exactly when a blocked plan is in apply_succeeded after a call of any run: the call is an update that its guard lets
   * through, or the plan was already there and the call threw.
   */
  lemma BlockedSucceedsIff(run: seq<State>, calls: seq<Call>, i: nat)
    requires IsRun(run, calls) && i < |calls| && run[0].plan.blocked
    ensures run[i + 1].status == ApplySucceeded <==>
              || (calls[i].DoUpdate? && UpdateAllowed(run[i].status))
              || (run[i].status == ApplySucceeded && Next(run[i], calls[i]).1.Thrown?)
  {
    RunKeepsInv(run, calls, i);
    assert IsStep(run, calls, i);
    if calls[i].DoUpdate? && UpdateAllowed(run[i].status) {
      SkippingRun(run[i].files, run[i].actions, ScopeMap(calls[i].discovered), Write(run[i].plan.entry), calls[i].faults);
    }
  }

  /** The guard lets an update of a blocked plan through only after some verify: its applies always fail. */
  lemma {:induction false} BlockedUpdateNeedsVerify(run: seq<State>, calls: seq<Call>, i: nat) returns (m: nat)
    requires IsRun(run, calls) && i <= |calls| && run[0].plan.blocked && UpdateAllowed(run[i].status)
    ensures m < i && calls[m].DoVerify?
  {
    assert i > 0;
    RunKeepsInv(run, calls, i - 1);
    assert IsStep(run, calls, i - 1);
    m := i - 1;
    if !calls[m].DoVerify? {
      if run[i].status == ApplySucceeded {
        BlockedSucceedsIff(run, calls, m);
      }
      m := BlockedUpdateNeedsVerify(run, calls, m);
    }
  }

  /** A blocked plan refuses to be applied, yet verify and then update always end in apply_succeeded, with no file changed. */
  lemma BlockedPlanReportsSuccess(s: State, ready: bool, discovered: seq<Descriptor>, faults: Faults)
    requires Inv(s) && s.plan.blocked
    ensures Next(s, DoApply(discovered, faults)).0.status == ApplyFailed
    ensures var t := Next(Next(s, DoVerify(ready)).0, DoUpdate(discovered, faults)).0;
            t.status == ApplySucceeded && forall p :: FileAt(t.files, p) == FileAt(s.files, p)
  {
    var m := Next(s, DoVerify(ready)).0;
    SkippingRun(m.files, m.actions, ScopeMap(discovered), Write(m.plan.entry), faults);
  }
}
