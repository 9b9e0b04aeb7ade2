// What the dispatch handlers record: over every run, which effects a job has, what they were computed from, and which
// attempt completed the job.
module OutboxEffects {
  import opened JsText
  import opened OutboxTable
  import opened OutboxProtocol
  import opened OutboxSafety

  /** Step m is one of a handler at work on the job. */
  ghost predicate HandlesAt(run: seq<State>, steps: seq<Step>, m: nat, id: nat) {
    && m < |steps| < |run| && steps[m].Handle?
    && Busy(run[m], steps[m].w) && Current(run[m], steps[m].w) == id && run[m].workers[steps[m].w].phase.InHandler?
  }

  /** Step m starts a handler on the job, which looks up the package and the executor. */
  ghost predicate BeginsAt(run: seq<State>, steps: seq<Step>, m: nat, id: nat) {
    HandlesAt(run, steps, m, id) && run[m].workers[steps[m].w].phase.h.Begin?
  }

  /** Step m calls the sync for the job, and its payload is the result. */
  ghost predicate CallsSyncAt(run: seq<State>, steps: seq<Step>, m: nat, id: nat) {
    HandlesAt(run, steps, m, id) && run[m].workers[steps[m].w].phase.h.CallSync?
  }

  /** Before step i some handler of the job started with a package and an executor, or started without a package. */
  ghost predicate BegunWith(run: seq<State>, steps: seq<Step>, i: nat, id: nat, package: bool) {
    exists m: nat {:trigger BeginsAt(run, steps, m, id)} ::
      m < i && BeginsAt(run, steps, m, id) && steps[m].package == package && (package ==> steps[m].configured)
  }

  /** Before step i the payload came out of the sync, or out of a handler's start. */
  ghost predicate PayloadFrom(run: seq<State>, steps: seq<Step>, i: nat, id: nat, synced: bool, payload: Text) {
    exists m: nat {:trigger HandlesAt(run, steps, m, id)} ::
      && m < i && HandlesAt(run, steps, m, id) && steps[m].payload == payload
      && (if synced then CallsSyncAt(run, steps, m, id) else BeginsAt(run, steps, m, id))
  }

  /** The effect an event's handler may record. */
  predicate Fits(kind: Kind, code: EffectCode) {
    match kind
    case Recording(name) => code == Recorded(name)
    case Ranking => code == SyncExecuted || code == SyncSkippedNoPackage
    case Unsupported => false
  }

  /** An effect fits its event, some start of a handler led to it, and its payload comes from where it should. */
  ghost predicate CodeOk(run: seq<State>, steps: seq<Step>, i: nat, id: nat, code: EffectCode, payload: Text)
    requires i < |run| && id < |run[i].kinds|
  {
    && Fits(run[i].kinds[id], code)
    && (code == SyncExecuted ==> BegunWith(run, steps, i, id, true))
    && (code == SyncSkippedNoPackage ==> BegunWith(run, steps, i, id, false))
    && PayloadFrom(run, steps, i, id, code == SyncExecuted, payload)
  }

  ghost predicate EffectsOk(run: seq<State>, steps: seq<Step>, i: nat, id: nat)
    requires i < |run|
  {
    id < |run[i].ledger| && id < |run[i].kinds| ==>
      var l := run[i].ledger[id];
      && (forall code :: code in l.effects ==> CodeOk(run, steps, i, id, code, l.effects[code]))
      && (l.syncCalls > 0 ==> run[i].kinds[id].Ranking? && BegunWith(run, steps, i, id, true))
  }

  // ---- The last start of a worker's handler ----

  datatype LastBegin = NotBegun | BegunAt(m: nat)

  /** The worker's last start of a handler before step i. */
  ghost function LastBeginOf(run: seq<State>, steps: seq<Step>, i: nat, w: nat): (b: LastBegin)
    requires i <= |steps| < |run|
    ensures b.BegunAt? ==> b.m < i
  {
    if i == 0 then NotBegun
    else if IsBy(steps[i - 1], w) && Busy(run[i - 1], w) && BeginsAt(run, steps, i - 1, Current(run[i - 1], w)) then BegunAt(i - 1)
    else LastBeginOf(run, steps, i - 1, w)
  }

  /** What the start at step m has to record for the job. */
  function Due(kind: Kind, package: bool): EffectCode {
    match kind
    case Recording(name) => Recorded(name)
    case _ => if package then SyncExecuted else SyncSkippedNoPackage
  }

  predicate PastBegin(phase: Phase) {
    (phase.InHandler? && !phase.h.Begin?) || phase == AtMarkProcessed || phase == AtMarkCompleted
  }

  /** A worker past the start of its handler records, or has recorded, what that start had to. */
  ghost predicate PointOk(run: seq<State>, steps: seq<Step>, i: nat, w: nat)
    requires i <= |steps| < |run|
  {
    Busy(run[i], w) && Current(run[i], w) < |run[i].ledger| && Current(run[i], w) < |run[i].kinds|
    && PastBegin(run[i].workers[w].phase) ==>
      var id, phase, b := Current(run[i], w), run[i].workers[w].phase, LastBeginOf(run, steps, i, w);
      && b.BegunAt? && BeginsAt(run, steps, b.m, id) && steps[b.m].w == w
      && var due := Due(run[i].kinds[id], steps[b.m].package);
      && !run[i].kinds[id].Unsupported?
      && (due == SyncExecuted ==> steps[b.m].configured)
      && (if phase.InHandler? && phase.h.StoreEffect? then
            phase.h.code == due && PayloadFrom(run, steps, i, id, due == SyncExecuted, phase.h.payload)
          else if phase.InHandler? && !phase.h.StoreDispatch? then due == SyncExecuted
          else due in run[i].ledger[id].effects)
  }

  /** A completed row has what some start of its handler had to record. */
  ghost predicate DoneOk(run: seq<State>, steps: seq<Step>, i: nat, id: nat)
    requires i < |run|
  {
    id < |run[i].rows| && id < |run[i].ledger| && id < |run[i].kinds| && run[i].rows[id].status == Completed ==>
      exists m: nat {:trigger BeginsAt(run, steps, m, id)} ::
        && m < i && BeginsAt(run, steps, m, id)
        && (Due(run[i].kinds[id], steps[m].package) == SyncExecuted ==> steps[m].configured)
        && Due(run[i].kinds[id], steps[m].package) in run[i].ledger[id].effects
  }

  ghost predicate Story(run: seq<State>, steps: seq<Step>, i: nat)
    requires i <= |steps| < |run|
  {
    && (forall id: nat {:trigger EffectsOk(run, steps, i, id)} :: EffectsOk(run, steps, i, id))
    && (forall w: nat {:trigger PointOk(run, steps, i, w)} :: PointOk(run, steps, i, w))
    && (forall id: nat {:trigger DoneOk(run, steps, i, id)} :: DoneOk(run, steps, i, id))
  }

  // ---- Every step keeps the story ----

  /** What is known about one step of a run. */
  ghost predicate StepOfRun(config: Config, run: seq<State>, steps: seq<Step>, i: nat)
  {
    && i < |steps| < |run| && Inv(run[i], config) && Enabled(run[i], steps[i])
    && run[i + 1] == Apply(run[i], steps[i], config)
  }

  lemma PastStays(run: seq<State>, steps: seq<Step>, i: nat, id: nat)
    ensures forall package :: BegunWith(run, steps, i, id, package) ==> BegunWith(run, steps, i + 1, id, package)
    ensures forall synced, payload :: PayloadFrom(run, steps, i, id, synced, payload) ==>
              PayloadFrom(run, steps, i + 1, id, synced, payload)
  {
    forall package | BegunWith(run, steps, i, id, package) ensures BegunWith(run, steps, i + 1, id, package) {
      var m: nat :| m < i && BeginsAt(run, steps, m, id) && steps[m].package == package && (package ==> steps[m].configured);
      assert BeginsAt(run, steps, m, id);
    }
    forall synced, payload | PayloadFrom(run, steps, i, id, synced, payload)
      ensures PayloadFrom(run, steps, i + 1, id, synced, payload)
    {
      var m: nat :| m < i && HandlesAt(run, steps, m, id) && steps[m].payload == payload
                    && (if synced then CallsSyncAt(run, steps, m, id) else BeginsAt(run, steps, m, id));
      assert HandlesAt(run, steps, m, id);
    }
  }

  /** The ledger of a job changes only by a handler step, or a throw, of the worker that holds it. */
  lemma LedgerChanges(config: Config, run: seq<State>, steps: seq<Step>, i: nat, id: nat)
    requires StepOfRun(config, run, steps, i) && id < |run[i].ledger|
    ensures id < |run[i + 1].ledger| && id < |run[i + 1].kinds| && run[i + 1].kinds[id] == run[i].kinds[id]
    ensures var l, m := run[i].ledger[id], run[i + 1].ledger[id];
            (m.effects != l.effects || m.syncCalls > l.syncCalls) ==>
              && (steps[i].Handle? || steps[i].Throw?) && Busy(run[i], steps[i].w) && Current(run[i], steps[i].w) == id
              && run[i].workers[steps[i].w].phase.InHandler?
              && var h := run[i].workers[steps[i].w].phase.h;
              && (m.effects != l.effects ==> h.StoreEffect? && m.effects == l.effects[h.code := h.payload])
              && (m.syncCalls > l.syncCalls ==> h.CallSync?)
  {
  }

  lemma EffectsStayOk(config: Config, run: seq<State>, steps: seq<Step>, i: nat, id: nat)
    requires StepOfRun(config, run, steps, i) && Story(run, steps, i)
    ensures EffectsOk(run, steps, i + 1, id)
  {
    PastStays(run, steps, i, id);
    if id < |run[i].ledger| {
      assert EffectsOk(run, steps, i, id);
      LedgerChanges(config, run, steps, i, id);
      var l, m := run[i].ledger[id], run[i + 1].ledger[id];
      if m.effects != l.effects || m.syncCalls > l.syncCalls {
        PointLeadsTo(config, run, steps, i, steps[i].w);
      }
    }
  }

  /** What a worker that stores an effect, or calls the sync, has behind it. */
  lemma PointLeadsTo(config: Config, run: seq<State>, steps: seq<Step>, i: nat, w: nat)
    requires StepOfRun(config, run, steps, i) && Story(run, steps, i)
    requires Busy(run[i], w) && run[i].workers[w].phase.InHandler?
    ensures var id, h := Current(run[i], w), run[i].workers[w].phase.h;
            && id < |run[i].kinds|
            && (h.StoreEffect? ==> CodeOk(run, steps, i, id, h.code, h.payload))
            && (h.CallSync? ==> run[i].kinds[id].Ranking? && BegunWith(run, steps, i, id, true))
  {
    assert PointOk(run, steps, i, w);
    var id, h := Current(run[i], w), run[i].workers[w].phase.h;
    if h.StoreEffect? || h.CallSync? {
      var m := LastBeginOf(run, steps, i, w).m;
      assert BeginsAt(run, steps, m, id);
    }
  }

  lemma OthersLeaveWorker(config: Config, run: seq<State>, steps: seq<Step>, i: nat, w: nat)
    requires StepOfRun(config, run, steps, i) && !IsBy(steps[i], w) && Busy(run[i + 1], w)
    ensures Busy(run[i], w) && run[i + 1].workers[w] == run[i].workers[w]
    ensures Current(run[i], w) < |run[i].ledger| == |run[i].kinds|
  {
    assert Holds(run[i], w, 0, Current(run[i + 1], w)) && HeldOk(run[i], w, 0, Current(run[i + 1], w));
  }

  lemma OthersKeepPoint(config: Config, run: seq<State>, steps: seq<Step>, i: nat, w: nat)
    requires StepOfRun(config, run, steps, i) && PointOk(run, steps, i, w) && !IsBy(steps[i], w)
    ensures PointOk(run, steps, i + 1, w)
  {
    if Busy(run[i + 1], w) {
      OthersLeaveWorker(config, run, steps, i, w);
      var id := Current(run[i], w);
      PastStays(run, steps, i, id);
      LedgerChanges(config, run, steps, i, id);
      StepExtendsLedger(run[i], steps[i], config, id);
    }
  }

  lemma OwnStepKeepsPoint(config: Config, run: seq<State>, steps: seq<Step>, i: nat)
    requires StepOfRun(config, run, steps, i) && Story(run, steps, i) && !steps[i].Publish? && !steps[i].Requeue?
    ensures PointOk(run, steps, i + 1, steps[i].w)
  {
    var s, t, w := run[i], run[i + 1], steps[i].w;
    assert PointOk(run, steps, i, w);
    if Busy(t, w) && PastBegin(t.workers[w].phase) {
      OnlyHandlersGoPast(config, run, steps, i);
      PastStays(run, steps, i, Current(s, w));
      if steps[i].Handle? {
        HandlerGoesOn(config, run, steps, i);
      }
    }
  }

  /** A worker is past a start after its own step only by a step of its handler, or from markProcessed to markCompleted. */
  lemma OnlyHandlersGoPast(config: Config, run: seq<State>, steps: seq<Step>, i: nat)
    requires StepOfRun(config, run, steps, i) && !steps[i].Publish? && !steps[i].Requeue?
    requires Busy(run[i + 1], steps[i].w) && PastBegin(run[i + 1].workers[steps[i].w].phase)
    ensures steps[i].Handle? || steps[i].MarkProcessed?
    ensures Busy(run[i], steps[i].w) && Current(run[i + 1], steps[i].w) == Current(run[i], steps[i].w)
    ensures steps[i].MarkProcessed? ==>
              run[i].workers[steps[i].w].phase == AtMarkProcessed && run[i + 1].ledger == run[i].ledger && run[i + 1].kinds == run[i].kinds
  {
  }

  lemma HandlerGoesOn(config: Config, run: seq<State>, steps: seq<Step>, i: nat)
    requires StepOfRun(config, run, steps, i) && steps[i].Handle? && PointOk(run, steps, i, steps[i].w)
    requires Busy(run[i + 1], steps[i].w) && PastBegin(run[i + 1].workers[steps[i].w].phase)
    ensures PointOk(run, steps, i + 1, steps[i].w)
  {
    var s, w := run[i], steps[i].w;
    var id := Current(s, w);
    PastStays(run, steps, i, id);
    assert HandlesAt(run, steps, i, id);
    if s.workers[w].phase.h.Begin? {
      assert BeginsAt(run, steps, i, id);
      assert LastBeginOf(run, steps, i + 1, w) == BegunAt(i);
    } else {
      assert LastBeginOf(run, steps, i + 1, w) == LastBeginOf(run, steps, i, w);
      if s.workers[w].phase.h.CallSync? {
        assert CallsSyncAt(run, steps, i, id);
      }
    }
  }

  /** A row becomes completed only by its holder, at markProcessed or markCompleted. */
  lemma CompletedByHolder(config: Config, run: seq<State>, steps: seq<Step>, i: nat, id: nat)
    requires StepOfRun(config, run, steps, i) && id < |run[i + 1].rows| && run[i + 1].rows[id].status == Completed
    requires id >= |run[i].rows| || run[i].rows[id].status != Completed
    ensures !steps[i].Publish? && !steps[i].Requeue? && Busy(run[i], steps[i].w) && Current(run[i], steps[i].w) == id
    ensures run[i].workers[steps[i].w].phase in {AtMarkProcessed, AtMarkCompleted}
  {
    var s, step := run[i], steps[i];
    if step.Claim? || step.Requeue? || step.Publish? {
    } else if Busy(s, step.w) {
      AtWork(s, step.w, config);
      MarkProcessedOne(s.rows, Current(s, step.w));
    }
  }

  lemma DoneStaysOk(config: Config, run: seq<State>, steps: seq<Step>, i: nat, id: nat)
    requires StepOfRun(config, run, steps, i) && Story(run, steps, i)
    ensures DoneOk(run, steps, i + 1, id)
  {
    if id < |run[i + 1].rows| && run[i + 1].rows[id].status == Completed {
      if id >= |run[i].rows| || run[i].rows[id].status != Completed {
        CompletedByHolder(config, run, steps, i, id);
        var w := steps[i].w;
        assert PointOk(run, steps, i, w);
        var m := LastBeginOf(run, steps, i, w).m;
        assert BeginsAt(run, steps, m, id);
        StepExtendsLedger(run[i], steps[i], config, id);
        LedgerChanges(config, run, steps, i, id);
      } else {
        assert DoneOk(run, steps, i, id);
        var m: nat :| m < i && BeginsAt(run, steps, m, id)
                      && (Due(run[i].kinds[id], steps[m].package) == SyncExecuted ==> steps[m].configured)
                      && Due(run[i].kinds[id], steps[m].package) in run[i].ledger[id].effects;
        StepExtendsLedger(run[i], steps[i], config, id);
        LedgerChanges(config, run, steps, i, id);
        assert BeginsAt(run, steps, m, id);
      }
    }
  }

  lemma {:induction false} RunKeepsStory(config: Config, run: seq<State>, steps: seq<Step>, i: nat)
    requires config.maxAttempts >= 1 && IsRun(config, run, steps) && i <= |steps|
    ensures Story(run, steps, i)
  {
    if i > 0 {
      RunKeepsStory(config, run, steps, i - 1);
      RunKeepsInv(config, run, steps, i - 1);
      assert IsStep(config, run, steps, i - 1);
      assert StepOfRun(config, run, steps, i - 1);
      forall id: nat ensures EffectsOk(run, steps, i, id) && DoneOk(run, steps, i, id) {
        EffectsStayOk(config, run, steps, i - 1, id);
        DoneStaysOk(config, run, steps, i - 1, id);
      }
      forall w: nat ensures PointOk(run, steps, i, w) {
        if IsBy(steps[i - 1], w) {
          OwnStepKeepsPoint(config, run, steps, i - 1);
        } else {
          assert PointOk(run, steps, i - 1, w);
          OthersKeepPoint(config, run, steps, i - 1, w);
        }
      }
    }
  }

  // ---- What is on record ----

  /**
   * Whatever is retried, replayed or crashes, an effect is one of its event's handler: the one code of a recording
   * handler; of the ranking handler, executed only after a start with a package and an executor, and skipped only after
   * a start without a package. Its payload is a result of the sync, or what the handler was started with.
   */
  lemma EffectsFitTheEvent(config: Config, run: seq<State>, steps: seq<Step>, i: nat, id: nat, code: EffectCode)
    requires config.maxAttempts >= 1 && IsRun(config, run, steps) && i <= |steps|
    requires id < |run[i].ledger| && code in run[i].ledger[id].effects
    ensures id < |run[i].kinds| && !run[i].kinds[id].Unsupported?
    ensures run[i].kinds[id].Recording? ==> code == Recorded(run[i].kinds[id].name)
    ensures run[i].kinds[id].Ranking? ==>
              || (code == SyncExecuted && BegunWith(run, steps, i, id, true))
              || (code == SyncSkippedNoPackage && BegunWith(run, steps, i, id, false))
    ensures PayloadFrom(run, steps, i, id, code == SyncExecuted, run[i].ledger[id].effects[code])
  {
    RunKeepsInv(config, run, steps, i);
    RunKeepsStory(config, run, steps, i);
    assert EffectsOk(run, steps, i, id);
  }

  /** The sync is called only for ranking events, and only once a handler has found a package and an executor. */
  lemma SyncNeedsPackage(config: Config, run: seq<State>, steps: seq<Step>, i: nat, id: nat)
    requires config.maxAttempts >= 1 && IsRun(config, run, steps) && i <= |steps|
    requires id < |run[i].ledger| && run[i].ledger[id].syncCalls > 0
    ensures id < |run[i].kinds| && run[i].kinds[id].Ranking? && BegunWith(run, steps, i, id, true)
  {
    RunKeepsInv(config, run, steps, i);
    RunKeepsStory(config, run, steps, i);
    assert EffectsOk(run, steps, i, id);
  }

  /**
   * A completed recording event has exactly its own effect. A completed ranking event was synced, with the result on
   * record, or its handler was once started without a package and that is on record.
   */
  lemma CompletedHasItsEffect(config: Config, run: seq<State>, steps: seq<Step>, i: nat, id: nat)
    requires config.maxAttempts >= 1 && IsRun(config, run, steps) && i <= |steps|
    requires id < |run[i].rows| && run[i].rows[id].status == Completed
    ensures id < |run[i].ledger| && id < |run[i].kinds|
    ensures var kind, l := run[i].kinds[id], run[i].ledger[id];
            && (kind.Recording? ==> l.effects.Keys == {Recorded(kind.name)})
            && (kind.Ranking? ==>
                  || (SyncExecuted in l.effects && l.syncCalls >= 1 && BegunWith(run, steps, i, id, true))
                  || (SyncSkippedNoPackage in l.effects && BegunWith(run, steps, i, id, false)))
  {
    CompletedIsRecorded(config, run, steps, i, id);
    var kind, l := run[i].kinds[id], run[i].ledger[id];
    forall code | code in l.effects ensures Fits(kind, code) {
      EffectsFitTheEvent(config, run, steps, i, id, code);
    }
    var code :| code in l.effects;
    EffectsFitTheEvent(config, run, steps, i, id, code);
    SyncCallsBounded(config, run, steps, i, id);
  }

  /** A completed ranking event whose handler always found a package was synced, and a result of the sync is on record. */
  lemma PackageMeansSynced(config: Config, run: seq<State>, steps: seq<Step>, i: nat, id: nat)
    requires config.maxAttempts >= 1 && IsRun(config, run, steps) && i <= |steps|
    requires id < |run[i].rows| && id < |run[i].kinds| && run[i].rows[id].status == Completed && run[i].kinds[id].Ranking?
    requires forall m: nat {:trigger BeginsAt(run, steps, m, id)} :: m < i && BeginsAt(run, steps, m, id) ==> steps[m].package
    ensures id < |run[i].ledger| && run[i].ledger[id].syncCalls >= 1 && run[i].ledger[id].effects.Keys == {SyncExecuted}
    ensures PayloadFrom(run, steps, i, id, true, run[i].ledger[id].effects[SyncExecuted])
  {
    CompletedHasItsEffect(config, run, steps, i, id);
    forall code | code in run[i].ledger[id].effects ensures code == SyncExecuted {
      EffectsFitTheEvent(config, run, steps, i, id, code);
    }
    EffectsFitTheEvent(config, run, steps, i, id, SyncExecuted);
  }

  /** The attempt that completes a row has recorded what its own start of the handler asks for, whatever others left. */
  lemma CompletingAttemptRecorded(config: Config, run: seq<State>, steps: seq<Step>, i: nat, id: nat) returns (m: nat)
    requires config.maxAttempts >= 1 && IsRun(config, run, steps) && i < |steps|
    requires id < |run[i + 1].rows| && run[i + 1].rows[id].status == Completed
    requires id < |run[i].rows| && run[i].rows[id].status != Completed
    ensures m < i && BeginsAt(run, steps, m, id) && IsBy(steps[i], steps[m].w)
    ensures id < |run[i].kinds| && id < |run[i].ledger|
    ensures match run[i].kinds[id]
            case Recording(name) => Recorded(name) in run[i].ledger[id].effects
            case Ranking =>
              if steps[m].package then steps[m].configured && SyncExecuted in run[i].ledger[id].effects
              else SyncSkippedNoPackage in run[i].ledger[id].effects
            case Unsupported => false
  {
    RunKeepsInv(config, run, steps, i);
    RunKeepsStory(config, run, steps, i);
    assert IsStep(config, run, steps, i);
    CompletedByHolder(config, run, steps, i, id);
    assert PointOk(run, steps, i, steps[i].w);
    m := LastBeginOf(run, steps, i, steps[i].w).m;
  }

  // ---- One handler by itself ----

  /** Up to n steps of the worker's handler with nothing in between. */
  function HandleOn(s: State, w: nat, package: bool, configured: bool, payload: Text, n: nat): State
    requires |s.kinds| == |s.ledger| == |s.rows|
    decreases n
  {
    if n == 0 || !Busy(s, w) || !s.workers[w].phase.InHandler? then s
    else HandleOn(HandlerStep(s, w, package, configured, payload), w, package, configured, payload, n - 1)
  }

  /** The handler is over, well or not, and the job's ledger is m; nothing else has changed. */
  function Ended(s: State, w: nat, m: Ledger, ok: bool): State
    requires Busy(s, w) && Current(s, w) < |s.ledger|
  {
    var phase := if s.workers[w].mode != Production then AtRelease else if ok then AtMarkProcessed else AtMarkFailed;
    s.(ledger := s.ledger[Current(s, w) := m], workers := s.workers[w := s.workers[w].(phase := phase)])
  }

  /** With the effect and the dispatch row; an effect that is there keeps its payload. */
  function Dispatched(l: Ledger, code: EffectCode, payload: Text): Ledger {
    l.(effects := if code in l.effects then l.effects else l.effects[code := payload], dispatched := true)
  }

  ghost predicate HandlesNow(s: State, w: nat, h: Handler) {
    |s.kinds| == |s.ledger| == |s.rows| && Busy(s, w) && s.workers[w].phase == InHandler(h)
  }

  lemma DispatchAlone(s: State, w: nat, package: bool, configured: bool, payload: Text, n: nat)
    requires HandlesNow(s, w, StoreDispatch) && n >= 1
    ensures HandleOn(s, w, package, configured, payload, n) == Ended(s, w, s.ledger[Current(s, w)].(dispatched := true), true)
  {
    var t := HandlerStep(s, w, package, configured, payload);
    assert HandleOn(t, w, package, configured, payload, n - 1) == t;
  }

  lemma StoreAlone(s: State, w: nat, code: EffectCode, p: Text, package: bool, configured: bool, payload: Text, n: nat)
    requires HandlesNow(s, w, StoreEffect(code, p)) && n >= 2
    ensures HandleOn(s, w, package, configured, payload, n) == Ended(s, w, Dispatched(s.ledger[Current(s, w)], code, p), true)
  {
    DispatchAlone(HandlerStep(s, w, package, configured, payload), w, package, configured, payload, n - 1);
  }

  lemma SyncAlone(s: State, w: nat, package: bool, configured: bool, payload: Text, n: nat)
    requires HandlesNow(s, w, CheckEffect) && n >= 4
    ensures var l := s.ledger[Current(s, w)];
            HandleOn(s, w, package, configured, payload, n)
            == Ended(s, w, if SyncExecuted in l.effects then l.(dispatched := true)
                           else Dispatched(l.(syncCalls := l.syncCalls + 1), SyncExecuted, payload), true)
  {
    var t := HandlerStep(s, w, package, configured, payload);
    if SyncExecuted in s.ledger[Current(s, w)].effects {
      DispatchAlone(t, w, package, configured, payload, n - 1);
    } else {
      var u := HandlerStep(t, w, package, configured, payload);
      assert HandleOn(t, w, package, configured, payload, n - 1) == HandleOn(u, w, package, configured, payload, n - 2);
      StoreAlone(u, w, SyncExecuted, payload, package, configured, payload, n - 2);
    }
  }

  /**
   * Started on a job, a handler that nothing interrupts throws for an event without a handler, and for a ranking event
   * with a package and no executor. Otherwise it leaves its effect and the dispatch row, and calls the sync exactly when
   * there is a package and no result of the sync yet.
   */
  lemma HandlerAlone(s: State, w: nat, package: bool, configured: bool, payload: Text)
    requires HandlesNow(s, w, Begin)
    ensures var kind, l := s.kinds[Current(s, w)], s.ledger[Current(s, w)];
            HandleOn(s, w, package, configured, payload, 5)
            == match kind
               case Recording(name) => Ended(s, w, Dispatched(l, Recorded(name), payload), true)
               case Unsupported => Ended(s, w, l, false)
               case Ranking =>
                 if !package then Ended(s, w, Dispatched(l, SyncSkippedNoPackage, payload), true)
                 else if !configured then Ended(s, w, l, false)
                 else if SyncExecuted in l.effects then Ended(s, w, l.(dispatched := true), true)
                 else Ended(s, w, Dispatched(l.(syncCalls := l.syncCalls + 1), SyncExecuted, payload), true)
  {
    var t, kind := HandlerStep(s, w, package, configured, payload), s.kinds[Current(s, w)];
    if t.workers[w].phase.InHandler? {
      if t.workers[w].phase.h.StoreEffect? {
        StoreAlone(t, w, t.workers[w].phase.h.code, payload, package, configured, payload, 4);
      } else {
        SyncAlone(t, w, package, configured, payload, 4);
      }
    } else {
      assert HandleOn(t, w, package, configured, payload, 4) == t;
    }
  }

  /** A throw leaves the ledger as it was, or, when its call took effect first, as the handler's own step would have. */
  lemma ThrowLandsLikeStep(s: State, w: nat, landed: bool, package: bool, configured: bool, payload: Text, config: Config)
    requires |s.kinds| == |s.ledger| == |s.rows| && Enabled(s, Throw(w, landed))
    ensures var t, u, id := Apply(s, Throw(w, landed), config), HandlerStep(s, w, package, configured, payload), Current(s, w);
            && t.rows == s.rows
            && t.workers[w].phase == (if s.workers[w].mode == Production then AtMarkFailed else AtRelease)
            && t.ledger[id].(lostSyncs := 0) == (if landed then u.ledger[id] else s.ledger[id]).(lostSyncs := 0)
  {
  }
}
