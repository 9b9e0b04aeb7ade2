// The per-path promise-chain lock of the Copilot adapter, as a protocol: calls register, wait for
// their predecessor's promise, run a read-modify-write and release, interleaved in any order.
module ScopeLock {
  import opened JsText
  import opened ScopeFiles

  /**
   * Where a call stands. A running call has not read yet, has read, has committed its write, or has
   * put the old content back after committing. Done(committed) covers both a return and a throw.
   * Committing is AtomicWrite's rename of the temporary file, restoring its rename of the backup.
   */
  datatype Phase =
    | Waiting
    | Reading
    | Loaded(seen: Content)
    | Stored(before: Content)
    | Restored
    | Done(committed: bool)

  /**
   * prev is the call whose promise was found in the lock map; settled says this call's promise is settled;
   * misled says that the call's read took an existing file for a missing one.
   */
  datatype Call = Call(path: Text, request: Request, prev: Option, phase: Phase, settled: bool, misled: bool)

  datatype Option = None | Some(id: nat)

  /** Calls in registration order, the lock map (path to the last registered call) and the files. */
  datatype State = State(calls: seq<Call>, locks: map<Text, nat>, files: Files)

  datatype Step =
    | Register(path: Text, request: Request)
    | Start(c: nat)
    | Read(c: nat, misled: bool)
    | Commit(c: nat)
    | Restore(c: nat)
    | Finish(c: nat)
    | Settle(c: nat)

  predicate PrevSettled(s: State, c: nat)
    requires c < |s.calls|
  {
    match s.calls[c].prev
    case None => true
    case Some(b) => b < |s.calls| && s.calls[b].settled
  }

  predicate Running(phase: Phase) {
    !phase.Waiting? && !phase.Done?
  }

  predicate Enabled(s: State, step: Step) {
    if step.Register? then true else
    && step.c < |s.calls|
    && var call := s.calls[step.c];
    match step
    case Start(c) => call.phase.Waiting? && PrevSettled(s, c)
    case Read(c, _) => call.phase.Reading?
    case Commit(c) => call.phase.Loaded? && Effect(call.phase.seen, call.request).Ok?
    case Restore(c) => call.phase.Stored?
    case Finish(c) => Running(call.phase)
    case Settle(c) => call.phase.Done? && !call.settled && PrevSettled(s, c)
    case Register(_, _) => true
  }

  function SetPhase(s: State, c: nat, phase: Phase): State
    requires c < |s.calls|
  {
    s.(calls := s.calls[c := s.calls[c].(phase := phase)])
  }

  /** The content a call leaves: a removal that sees nothing to remove does not write, any other writes what it computed. */
  function Rewritten(before: Content, seen: Content, request: Request): Content
    requires Effect(seen, request).Ok?
  {
    if request.Remove? && Effect(seen, request).value == seen then before else Effect(seen, request).value
  }

  /** copilot-vscode-adapter/src/index.ts, lines 445-464 and the file accesses of the operations run under the lock. */
  function Apply(s: State, step: Step): State
    requires Enabled(s, step)
  {
    match step
    case Register(path, request) =>
      var prev := if path in s.locks then Some(s.locks[path]) else None;
      State(s.calls + [Call(path, request, prev, Waiting, false, false)], s.locks[path := |s.calls|], s.files)
    case Start(c) =>
      SetPhase(s, c, Reading)
    case Read(c, misled) =>
      var seen := if misled then Absent else FileAt(s.files, s.calls[c].path);
      s.(calls := s.calls[c := s.calls[c].(phase := Loaded(seen), misled := misled)])
    case Commit(c) =>
      var call, before := s.calls[c], FileAt(s.files, s.calls[c].path);
      SetPhase(s, c, Stored(before)).(files := s.files[call.path := Rewritten(before, call.phase.seen, call.request)])
    case Restore(c) =>
      SetPhase(s, c, Restored).(files := s.files[s.calls[c].path := s.calls[c].phase.before])
    case Finish(c) =>
      var path := s.calls[c].path;
      SetPhase(s, c, Done(s.calls[c].phase.Stored?))
        .(locks := if path in s.locks && s.locks[path] == c then s.locks - {path} else s.locks)
    case Settle(c) =>
      s.(calls := s.calls[c := s.calls[c].(settled := true)])
  }

  ghost predicate IsRun(files: Files, run: seq<State>, steps: seq<Step>) {
    && |run| == |steps| + 1
    && run[0] == State([], map[], files)
    && forall i :: 0 <= i < |steps| ==> Enabled(run[i], steps[i]) && run[i + 1] == Apply(run[i], steps[i])
  }

  /** The content a path would have if its committed calls had run one after another in registration order. */
  function Serial(start: Content, calls: seq<Call>, path: Text): Content {
    if calls == [] then start
    else AfterCall(Serial(start, calls[..|calls| - 1], path), calls[|calls| - 1], path)
  }

  function AfterCall(before: Content, call: Call, path: Text): Content {
    if call.path == path && call.phase == Done(true) && SeenEffect(before, call.request, call.misled).Ok?
    then SeenEffect(before, call.request, call.misled).value
    else before
  }

  // ---- The invariant ----

  ghost predicate DoneBefore(s: State, c: nat)
    requires c < |s.calls|
  {
    forall d :: 0 <= d < c && s.calls[d].path == s.calls[c].path ==> s.calls[d].phase.Done?
  }

  /** A call's predecessor is the last earlier call on its path; it only starts when those are all done. */
  ghost predicate LinkOk(s: State, c: nat)
    requires c < |s.calls|
  {
    var call := s.calls[c];
    && (call.prev.Some? ==>
          && call.prev.id < c && s.calls[call.prev.id].path == call.path
          && forall d :: call.prev.id < d < c ==> s.calls[d].path != call.path)
    && (call.prev.None? || !call.phase.Waiting? || call.settled ==> DoneBefore(s, c))
    && (call.settled ==> call.phase.Done?)
  }

  ghost predicate LinksOk(s: State) {
    forall c {:trigger LinkOk(s, c)} :: 0 <= c < |s.calls| ==> LinkOk(s, c)
  }

  /** The lock entry of a path is the last call on it, and that call is not done. */
  ghost predicate LockOk(s: State, p: Text) {
    p in s.locks ==>
      var c := s.locks[p];
      && c < |s.calls| && s.calls[c].path == p && !s.calls[c].phase.Done?
      && forall d :: c < d < |s.calls| ==> s.calls[d].path != p
  }

  ghost predicate LocksOk(s: State) {
    && (forall p {:trigger LockOk(s, p)} :: LockOk(s, p))
    && (forall c :: 0 <= c < |s.calls| && !s.calls[c].phase.Done? ==> s.calls[c].path in s.locks)
  }

  /** What the file of a running call holds, relative to the serial content of the calls done so far. */
  ghost predicate HoldsFor(s: State, call: Call, base: Content) {
    match call.phase
    case Loaded(seen) => seen == (if call.misled then Absent else base) && FileAt(s.files, call.path) == base
    case Stored(before) =>
      && before == base && SeenEffect(base, call.request, call.misled).Ok?
      && FileAt(s.files, call.path) == SeenEffect(base, call.request, call.misled).value
    case _ => FileAt(s.files, call.path) == base
  }

  ghost predicate IsIdle(s: State, p: Text) {
    forall c :: 0 <= c < |s.calls| && s.calls[c].path == p ==> !Running(s.calls[c].phase)
  }

  ghost predicate FilesOk(files: Files, s: State) {
    && (forall c :: 0 <= c < |s.calls| && Running(s.calls[c].phase) ==>
          HoldsFor(s, s.calls[c], Serial(FileAt(files, s.calls[c].path), s.calls, s.calls[c].path)))
    && (forall p :: IsIdle(s, p) ==> FileAt(s.files, p) == Serial(FileAt(files, p), s.calls, p))
  }

  ghost predicate Inv(files: Files, s: State) {
    LinksOk(s) && LocksOk(s) && FilesOk(files, s)
  }

  // ---- Preservation ----

  lemma {:induction false} SerialIgnores(start: Content, calls: seq<Call>, c: nat, call: Call, p: Text)
    requires c < |calls|
    requires call.path == calls[c].path && call.request == calls[c].request
    requires p == call.path ==> (call.phase == Done(true) <==> calls[c].phase == Done(true))
    requires call.phase == Done(true) ==> call.misled == calls[c].misled
    ensures Serial(start, calls[c := call], p) == Serial(start, calls, p)
  {
    var n := |calls| - 1;
    var init, next := calls[..n], calls[c := call];
    if c < n {
      SerialIgnores(start, init, c, call, p);
      assert next[..n] == init[c := call];
    } else {
      assert next[..n] == init;
      assert AfterCall(Serial(start, init, p), call, p) == AfterCall(Serial(start, init, p), calls[c], p);
    }
  }

  /** Finishing a committed call appends its effect, because no later call on the path is done. */
  lemma {:induction false} SerialFinish(start: Content, calls: seq<Call>, c: nat)
    requires c < |calls| && !calls[c].phase.Done?
    requires forall d :: c < d < |calls| && calls[d].path == calls[c].path ==> !calls[d].phase.Done?
    ensures var p := calls[c].path;
            var base := Serial(start, calls, p);
            Serial(start, calls[c := calls[c].(phase := Done(true))], p)
            == if SeenEffect(base, calls[c].request, calls[c].misled).Ok?
               then SeenEffect(base, calls[c].request, calls[c].misled).value else base
  {
    var init := calls[..|calls| - 1];
    var next := calls[c := calls[c].(phase := Done(true))];
    if c < |calls| - 1 {
      SerialFinish(start, init, c);
      assert next[..|calls| - 1] == init[c := calls[c].(phase := Done(true))];
    } else {
      assert next[..|calls| - 1] == init;
    }
  }

  lemma RegisterLinks(s: State, step: Step)
    requires LinksOk(s) && LocksOk(s) && step.Register?
    ensures LinksOk(Apply(s, step))
  {
    var t, n := Apply(s, step), |s.calls|;
    forall i | 0 <= i < |t.calls| ensures LinkOk(t, i) {
      if i < n {
        assert LinkOk(s, i);
      } else if step.path in s.locks {
        assert LockOk(s, step.path);
      } else {
        forall d | 0 <= d < n && s.calls[d].path == step.path ensures s.calls[d].phase.Done? {
        }
        assert DoneBefore(t, n);
      }
    }
  }

  lemma CallLinks(s: State, step: Step)
    requires LinksOk(s) && Enabled(s, step) && !step.Register?
    ensures LinksOk(Apply(s, step))
  {
    var t := Apply(s, step);
    assert LinkOk(s, step.c);
    if step.Start? || step.Settle? {
      PrevSettledMeansDone(s, step.c);
    }
    assert DoneBefore(s, step.c);
    forall i | 0 <= i < |t.calls| ensures LinkOk(t, i) {
      assert LinkOk(s, i);
      assert DoneBefore(s, i) ==> DoneBefore(t, i);
    }
  }

  lemma PrevSettledMeansDone(s: State, c: nat)
    requires LinksOk(s) && c < |s.calls| && PrevSettled(s, c)
    ensures DoneBefore(s, c)
  {
    assert LinkOk(s, c);
    if s.calls[c].prev.Some? {
      var b := s.calls[c].prev.id;
      assert LinkOk(s, c) && LinkOk(s, b);
    }
  }

  lemma LocksKept(s: State, step: Step)
    requires LinksOk(s) && LocksOk(s) && Enabled(s, step)
    ensures LocksOk(Apply(s, step))
  {
    var t := Apply(s, step);
    forall p ensures LockOk(t, p) {
      assert LockOk(s, p);
    }
    forall c | 0 <= c < |t.calls| && !t.calls[c].phase.Done? ensures t.calls[c].path in t.locks {
      if step.Finish? && t.calls[c].path == s.calls[step.c].path {
        assert LockOk(s, t.calls[c].path) && LinkOk(s, step.c);
      }
    }
  }

  lemma RunningIsUnique(s: State, c: nat, d: nat)
    requires LinksOk(s) && c < |s.calls| && d < |s.calls|
    requires s.calls[c].path == s.calls[d].path
    requires Running(s.calls[c].phase) && !s.calls[d].phase.Waiting? && !s.calls[d].phase.Done?
    ensures c == d
  {
    assert LinkOk(s, c) && LinkOk(s, d);
  }

  lemma FilesKept(files: Files, s: State, step: Step)
    requires Inv(files, s) && Enabled(s, step)
    ensures FilesOk(files, Apply(s, step))
  {
    var t := Apply(s, step);
    if step.Register? {
      assert t.calls[..|s.calls|] == s.calls;
      forall p ensures Serial(FileAt(files, p), t.calls, p) == Serial(FileAt(files, p), s.calls, p) {
      }
      forall p | IsIdle(t, p) ensures IsIdle(s, p) {
        forall c | 0 <= c < |s.calls| && s.calls[c].path == p ensures !Running(s.calls[c].phase) {
          assert t.calls[c] == s.calls[c];
        }
      }
    } else {
      FilesKeptByCall(files, s, step);
    }
  }

  lemma FilesKeptByCall(files: Files, s: State, step: Step)
    requires Inv(files, s) && Enabled(s, step) && !step.Register?
    ensures FilesOk(files, Apply(s, step))
  {
    var t := Apply(s, step);
    forall d | 0 <= d < |t.calls| && Running(t.calls[d].phase)
      ensures HoldsFor(t, t.calls[d], Serial(FileAt(files, t.calls[d].path), t.calls, t.calls[d].path))
    {
      RunningHolds(files, s, step, d);
    }
    forall p | IsIdle(t, p) ensures FileAt(t.files, p) == Serial(FileAt(files, p), t.calls, p) {
      IdleHolds(files, s, step, p);
    }
  }

  lemma RunningHolds(files: Files, s: State, step: Step, d: nat)
    requires Inv(files, s) && Enabled(s, step) && !step.Register?
    requires d < |s.calls| && Running(Apply(s, step).calls[d].phase)
    ensures var t := Apply(s, step);
            HoldsFor(t, t.calls[d], Serial(FileAt(files, t.calls[d].path), t.calls, t.calls[d].path))
  {
    var path := s.calls[d].path;
    if step.Settle? || path != s.calls[step.c].path {
      SerialIgnores(FileAt(files, path), s.calls, step.c, Apply(s, step).calls[step.c], path);
    } else if d != step.c {
      OthersWait(s, step, d);
    } else {
      StepContent(files, s, step);
    }
  }

  lemma IdleHolds(files: Files, s: State, step: Step, p: Text)
    requires Inv(files, s) && Enabled(s, step) && !step.Register? && IsIdle(Apply(s, step), p)
    ensures FileAt(Apply(s, step).files, p) == Serial(FileAt(files, p), Apply(s, step).calls, p)
  {
    var t := Apply(s, step);
    if step.Settle? || p != s.calls[step.c].path {
      SerialIgnores(FileAt(files, p), s.calls, step.c, t.calls[step.c], p);
      forall d | 0 <= d < |s.calls| && s.calls[d].path == p ensures !Running(s.calls[d].phase) {
        assert !Running(t.calls[d].phase);
      }
    } else {
      assert !Running(t.calls[step.c].phase);
      StepContent(files, s, step);
    }
  }

  /** While a call starts or runs, no other call on its path is running. */
  lemma OthersWait(s: State, step: Step, d: nat)
    requires LinksOk(s) && Enabled(s, step) && !step.Register? && !step.Settle?
    requires d < |s.calls| && d != step.c && s.calls[d].path == s.calls[step.c].path
    ensures !Running(s.calls[d].phase)
  {
    assert LinkOk(s, step.c) && LinkOk(s, d);
    if step.Start? {
      PrevSettledMeansDone(s, step.c);
    } else if Running(s.calls[d].phase) {
      RunningIsUnique(s, step.c, d);
    }
  }

  /** How a step changes the serial content of its own path. */
  lemma SerialAfter(files: Files, s: State, step: Step)
    requires Inv(files, s) && Enabled(s, step) && !step.Register?
    ensures var path := s.calls[step.c].path;
            var base := Serial(FileAt(files, path), s.calls, path);
            Serial(FileAt(files, path), Apply(s, step).calls, path)
            == if step.Finish? && s.calls[step.c].phase.Stored?
               then SeenEffect(base, s.calls[step.c].request, s.calls[step.c].misled).value else base
  {
    var t := Apply(s, step);
    var c, path := step.c, s.calls[step.c].path;
    if step.Finish? && s.calls[c].phase.Stored? {
      forall d | c < d < |s.calls| && s.calls[d].path == path ensures !s.calls[d].phase.Done? {
        assert LinkOk(s, d);
      }
      SerialFinish(FileAt(files, path), s.calls, c);
    } else {
      SerialIgnores(FileAt(files, path), s.calls, c, t.calls[c], path);
    }
  }

  /** The file of the stepping call's path, before and after. */
  lemma StepContent(files: Files, s: State, step: Step)
    requires Inv(files, s) && Enabled(s, step) && !step.Register? && !step.Settle?
    ensures var t, path := Apply(s, step), s.calls[step.c].path;
            var after := Serial(FileAt(files, path), t.calls, path);
            if step.Finish? then FileAt(t.files, path) == after else HoldsFor(t, t.calls[step.c], after)
  {
    SerialAfter(files, s, step);
    if step.Start? {
      PrevSettledMeansDone(s, step.c);
      forall d | 0 <= d < |s.calls| && s.calls[d].path == s.calls[step.c].path ensures !Running(s.calls[d].phase) {
        if d != step.c {
          OthersWait(s, step, d);
        }
      }
      assert IsIdle(s, s.calls[step.c].path);
    }
  }

  lemma {:induction false} RunKeepsInv(files: Files, run: seq<State>, steps: seq<Step>, i: nat)
    requires IsRun(files, run, steps) && i <= |steps|
    ensures Inv(files, run[i])
  {
    if i > 0 {
      RunKeepsInv(files, run, steps, i - 1);
      if steps[i - 1].Register? {
        RegisterLinks(run[i - 1], steps[i - 1]);
      } else {
        CallLinks(run[i - 1], steps[i - 1]);
      }
      LocksKept(run[i - 1], steps[i - 1]);
      FilesKept(files, run[i - 1], steps[i - 1]);
    }
  }

  // ---- What holds in every state of every run ----

  ghost predicate AllDone(s: State, p: Text) {
    forall c :: 0 <= c < |s.calls| && s.calls[c].path == p ==> s.calls[c].phase.Done?
  }

  /** At most one operation per path runs, and only after every call registered earlier on it is done. */
  lemma MutualExclusionInOrder(files: Files, run: seq<State>, steps: seq<Step>, i: nat, c: nat, d: nat)
    requires IsRun(files, run, steps) && i <= |steps|
    requires c < d < |run[i].calls| && run[i].calls[c].path == run[i].calls[d].path
    requires !run[i].calls[d].phase.Waiting?
    ensures run[i].calls[c].phase.Done?
  {
    RunKeepsInv(files, run, steps, i);
    assert LinkOk(run[i], d);
  }

  /** Once every call on a path is done, its lock entry is gone and its file is the serial result. */
  lemma DonePathIsSerial(files: Files, run: seq<State>, steps: seq<Step>, i: nat, p: Text)
    requires IsRun(files, run, steps) && i <= |steps|
    requires AllDone(run[i], p)
    ensures p !in run[i].locks
    ensures FileAt(run[i].files, p) == Serial(FileAt(files, p), run[i].calls, p)
  {
    RunKeepsInv(files, run, steps, i);
    assert LockOk(run[i], p);
    assert IsIdle(run[i], p);
  }

  /** In any state a file holds the serial content of the finished calls, or that with one more effect. */
  lemma FileAlwaysSerial(files: Files, run: seq<State>, steps: seq<Step>, i: nat, p: Text)
    requires IsRun(files, run, steps) && i <= |steps|
    ensures var s := run[i];
            var base := Serial(FileAt(files, p), s.calls, p);
            || FileAt(s.files, p) == base
            || exists c :: 0 <= c < |s.calls| && s.calls[c].path == p && Running(s.calls[c].phase)
                 && SeenEffect(base, s.calls[c].request, s.calls[c].misled) == Ok(FileAt(s.files, p))
  {
    RunKeepsInv(files, run, steps, i);
    var s := run[i];
    if !IsIdle(s, p) {
      var c :| 0 <= c < |s.calls| && s.calls[c].path == p && Running(s.calls[c].phase);
      assert HoldsFor(s, s.calls[c], Serial(FileAt(files, p), s.calls, p));
    }
  }

  /** The entries of package q that the committed calls leave: those of the last committed request for q. */
  function Expected(start: Content, calls: seq<Call>, p: Text, q: Text): seq<Entry> {
    if calls == [] then EntriesFor(start, q) else
    var last := calls[|calls| - 1];
    if last.path == p && last.phase == Done(true) && last.request.Target() == q
    then if last.request.Write? then [last.request.entry] else []
    else Expected(start, calls[..|calls| - 1], p, q)
  }

  /** The file is as the committed calls ask: theirs and the start's entries, or untouched when it is not Forge's. */
  ghost predicate AsAsked(start: Content, calls: seq<Call>, p: Text) {
    if Mutable(start) then
      Mutable(Serial(start, calls, p)) && forall q :: EntriesFor(Serial(start, calls, p), q) == Expected(start, calls, p, q)
    else
      Serial(start, calls, p) == start
  }

  /** A committed call's read was truthful, or had nothing to miss. */
  ghost predicate Harmless(before: Content, call: Call, p: Text) {
    call.path == p && call.phase == Done(true) ==> HarmlessRead(before, call.request, call.misled)
  }

  /** The file after the first n calls. */
  ghost predicate Stage(start: Content, calls: seq<Call>, n: nat, p: Text)
    requires n <= |calls|
  {
    AsAsked(start, calls[..n], p)
  }

  ghost predicate HarmlessAt(start: Content, calls: seq<Call>, n: nat, p: Text)
    requires n < |calls|
  {
    Harmless(Serial(start, calls[..n], p), calls[n], p)
  }

  lemma OneMoreCall(start: Content, calls: seq<Call>, last: Call, p: Text)
    requires AsAsked(start, calls, p)
    ensures AsAsked(start, calls + [last], p) <==> Harmless(Serial(start, calls, p), last, p)
  {
    var before, all := Serial(start, calls, p), calls + [last];
    assert all[..|all| - 1] == calls;
    assert Serial(start, all, p) == AfterCall(before, last, p);
    if last.path == p && last.phase == Done(true) {
      if Mutable(start) {
        OneMoreOwned(start, calls, last, p);
      } else {
        SucceedsIff(before, last.request, last.misled);
        if last.misled {
          RespectsIff(before, last.request, true);
        }
      }
    } else {
      assert forall q :: Expected(start, all, p, q) == Expected(start, calls, p, q);
    }
  }

  lemma OneMoreOwned(start: Content, calls: seq<Call>, last: Call, p: Text)
    requires AsAsked(start, calls, p) && Mutable(start) && last.path == p && last.phase == Done(true)
    ensures AsAsked(start, calls + [last], p) <==> HarmlessRead(Serial(start, calls, p), last.request, last.misled)
  {
    var before, all := Serial(start, calls, p), calls + [last];
    assert all[..|all| - 1] == calls;
    DoneAsWantedIff(before, last.request, last.misled);
    forall q ensures Expected(start, all, p, q) == Wanted(before, last.request, q) {
    }
  }

  lemma {:induction false} NeverHarmedIff(start: Content, calls: seq<Call>, p: Text)
    ensures (forall n: nat {:trigger Stage(start, calls, n, p)} :: n <= |calls| ==> Stage(start, calls, n, p))
       <==> forall n: nat {:trigger HarmlessAt(start, calls, n, p)} :: n < |calls| ==> HarmlessAt(start, calls, n, p)
  {
    if calls == [] {
      assert forall n: nat :: n <= |calls| ==> calls[..n] == [];
    } else {
      var k := |calls| - 1;
      var init := calls[..k];
      NeverHarmedIff(start, init, p);
      forall n: nat | n <= k ensures Stage(start, calls, n, p) == Stage(start, init, n, p) {
        assert init[..n] == calls[..n];
      }
      forall n: nat | n < k ensures HarmlessAt(start, calls, n, p) == HarmlessAt(start, init, n, p) {
        assert init[..n] == calls[..n];
      }
      assert calls[..k + 1] == init + [calls[k]];
      if Stage(start, calls, k, p) {
        OneMoreCall(start, init, calls[k], p);
        assert Stage(start, calls, k + 1, p) <==> HarmlessAt(start, calls, k, p);
      }
      AllUpTo(start, calls, p);
    }
  }

  /** The two conditions up to the last call, split off the last one. */
  lemma AllUpTo(start: Content, calls: seq<Call>, p: Text)
    requires calls != []
    ensures (forall n: nat {:trigger Stage(start, calls, n, p)} :: n <= |calls| ==> Stage(start, calls, n, p))
       <==> (forall n: nat {:trigger Stage(start, calls, n, p)} :: n <= |calls| - 1 ==> Stage(start, calls, n, p))
            && Stage(start, calls, |calls|, p)
  {
  }

  /**
   * When a path is done, its file has been as the committed requests ask at every stage, with each package's entries
   * those of the last committed request for it and foreign files untouched, exactly when no committed call was misled
   * on a file where it had something to miss.
   */
  lemma UpdatesKeptIff(files: Files, run: seq<State>, steps: seq<Step>, i: nat, p: Text)
    requires IsRun(files, run, steps) && i <= |steps|
    requires AllDone(run[i], p)
    ensures var start, calls := FileAt(files, p), run[i].calls;
            && ((forall n: nat {:trigger Stage(start, calls, n, p)} :: n <= |calls| ==> Stage(start, calls, n, p))
                <==> forall n: nat {:trigger HarmlessAt(start, calls, n, p)} :: n < |calls| ==> HarmlessAt(start, calls, n, p))
    ensures FileAt(run[i].files, p) == Serial(FileAt(files, p), run[i].calls, p)
  {
    NeverHarmedIff(FileAt(files, p), run[i].calls, p);
    DonePathIsSerial(files, run, steps, i, p);
  }

  /**
   * So with reads that are not misled to their harm no update is lost: each package's entries are finally those of
   * the last committed request for it, and packages nobody asked for and files Forge does not own are as they were.
   */
  lemma NoLostUpdate(files: Files, run: seq<State>, steps: seq<Step>, i: nat, p: Text, q: Text)
    requires IsRun(files, run, steps) && i <= |steps|
    requires AllDone(run[i], p)
    requires forall n: nat {:trigger HarmlessAt(FileAt(files, p), run[i].calls, n, p)} :: n < |run[i].calls| ==>
               HarmlessAt(FileAt(files, p), run[i].calls, n, p)
    ensures Mutable(FileAt(files, p)) ==>
              EntriesFor(FileAt(run[i].files, p), q) == Expected(FileAt(files, p), run[i].calls, p, q)
    ensures !Mutable(FileAt(files, p)) ==> FileAt(run[i].files, p) == FileAt(files, p)
  {
    UpdatesKeptIff(files, run, steps, i, p);
    assert Stage(FileAt(files, p), run[i].calls, |run[i].calls|, p);
    assert run[i].calls[..|run[i].calls|] == run[i].calls;
  }

  /** One failing access check is enough: a write then replaces any file, foreign ones included, by its own entry. */
  lemma MisledReadLosesFile(files: Files, p: Text, entry: Entry) returns (run: seq<State>, steps: seq<Step>)
    ensures IsRun(files, run, steps) && |steps| == 5 && AllDone(run[5], p)
    ensures forall q :: EntriesFor(FileAt(run[5].files, p), q) == if q == entry.packageId then [entry] else []
    ensures Precious(FileAt(files, p), entry.packageId) ==>
              !Respects(FileAt(files, p), FileAt(run[5].files, p), entry.packageId)
  {
    steps := [Register(p, Write(entry)), Start(0), Read(0, true), Commit(0), Finish(0)];
    var s0 := State([], map[], files);
    var s1 := Apply(s0, steps[0]);
    var s2 := Apply(s1, steps[1]);
    var s3 := Apply(s2, steps[2]);
    WriteEffect(Absent, entry);
    var s4 := Apply(s3, steps[3]);
    var s5 := Apply(s4, steps[4]);
    run := [s0, s1, s2, s3, s4, s5];
    MisledWrite(FileAt(files, p), entry);
  }

  // ---- Progress ----

  ghost predicate Quiescent(s: State) {
    forall c :: 0 <= c < |s.calls| ==> s.calls[c].phase.Done? && s.calls[c].settled
  }

  lemma {:induction false} FirstUnsettled(s: State, c: nat) returns (b: nat)
    requires c < |s.calls| && !s.calls[c].settled
    ensures b <= c && !s.calls[b].settled && forall d :: 0 <= d < b ==> s.calls[d].settled
  {
    if d :| 0 <= d < c && !s.calls[d].settled {
      b := FirstUnsettled(s, d);
    } else {
      b := c;
    }
  }

  /** No call is ever stuck: unless all calls are done and settled, one of them can take a step. */
  lemma NeverStuck(files: Files, run: seq<State>, steps: seq<Step>, i: nat) returns (step: Step)
    requires IsRun(files, run, steps) && i <= |steps|
    requires !Quiescent(run[i])
    ensures !step.Register? && Enabled(run[i], step)
  {
    RunKeepsInv(files, run, steps, i);
    var s := run[i];
    var c :| 0 <= c < |s.calls| && !(s.calls[c].phase.Done? && s.calls[c].settled);
    assert LinkOk(s, c);
    var b := FirstUnsettled(s, c);
    assert LinkOk(s, b);
    step := if s.calls[b].phase.Waiting? then Start(b) else if s.calls[b].phase.Done? then Settle(b) else Finish(b);
  }

  function PhaseWork(call: Call): nat {
    (match call.phase
     case Waiting => 5
     case Reading => 4
     case Loaded(_) => 3
     case Stored(_) => 2
     case Restored => 1
     case Done(_) => 0) + if call.settled then 0 else 1
  }

  function Work(calls: seq<Call>): nat {
    if calls == [] then 0 else Work(calls[..|calls| - 1]) + PhaseWork(calls[|calls| - 1])
  }

  lemma {:induction false} WorkUpdate(calls: seq<Call>, c: nat, call: Call)
    requires c < |calls|
    ensures Work(calls[c := call]) == Work(calls) - PhaseWork(calls[c]) + PhaseWork(call)
  {
    var init := calls[..|calls| - 1];
    if c < |calls| - 1 {
      WorkUpdate(init, c, call);
      assert calls[c := call][..|calls| - 1] == init[c := call];
    } else {
      assert calls[c := call][..|calls| - 1] == init;
    }
  }

  lemma StepUsesWork(s: State, step: Step)
    requires Enabled(s, step) && !step.Register?
    ensures Work(Apply(s, step).calls) < Work(s.calls)
  {
    WorkUpdate(s.calls, step.c, Apply(s, step).calls[step.c]);
  }

  /**
   * Once no call registers any more, the run takes at most Work further steps, whatever the order;
   * so, with NeverStuck, every registered call is done after finitely many steps.
   */
  lemma {:induction false} FinitelyManySteps(files: Files, run: seq<State>, steps: seq<Step>, from: nat)
    requires IsRun(files, run, steps) && from <= |steps|
    requires forall i :: from <= i < |steps| ==> !steps[i].Register?
    ensures |steps| - from <= Work(run[from].calls)
    decreases |steps| - from
  {
    if from < |steps| {
      StepUsesWork(run[from], steps[from]);
      FinitelyManySteps(files, run, steps, from + 1);
    }
  }
}
