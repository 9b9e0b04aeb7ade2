// The outbox as a protocol: any number of workers claim, dispatch, complete, fail, release or crash,
// interleaved with publishers and dead-letter requeues. Every SQL statement is one atomic step, and may throw.
// The dispatch handlers record their effects in a ledger; the ranking handler calls an external sync.
module OutboxProtocol {
  import opened JsText
  import opened Sorting
  import opened OutboxTable

  datatype Mode = DryRun | Shadow | Production

  /** The effect codes: the two of the ranking handler, and the one of each other handler. */
  datatype EffectCode = SyncExecuted | SyncSkippedNoPackage | Recorded(name: Text)

  /** What dispatching an event does: record one effect, run the ranking sync, or throw. */
  datatype Kind = Recording(name: Text) | Ranking | Unsupported

  /** Where a handler stands; StoreEffect after a sync carries the sync's result. */
  datatype Handler = Begin | CheckEffect | CallSync | StoreEffect(code: EffectCode, payload: Text) | StoreDispatch

  datatype Phase =
    | AtCheck
    | AtDuplicate
    | InHandler(h: Handler)
    | AtMarkProcessed
    | AtMarkCompleted
    | AtMarkFailed
    | AtRelease

  /** A worker's claimed jobs, the first being the current one. */
  datatype Worker = Worker(mode: Mode, todo: seq<nat>, phase: Phase)

  /** Per job: its effect rows (unique per code), its dispatch row, calls of the sync and results lost. */
  datatype Ledger = Ledger(effects: map<EffectCode, Text>, dispatched: bool, syncCalls: nat, lostSyncs: nat)

  datatype State = State(rows: Table, kinds: seq<Kind>, ledger: seq<Ledger>, workers: seq<Worker>)

  datatype Step =
    | Publish(row: Row, kind: Kind)
    | Requeue(targets: set<nat>, now: int)
    | Claim(w: nat, mode: Mode, ids: seq<nat>, now: int)
    | Check(w: nat)
    | Duplicate(w: nat)
    | Handle(w: nat, package: bool, configured: bool, payload: Text)
    | Throw(w: nat, landed: bool)
    | MarkProcessed(w: nat)
    | MarkCompleted(w: nat)
    | MarkFailed(w: nat, message: Text, now: int)
    | ReleaseClaim(w: nat)
    | StoreFails(w: nat, landed: bool, message: Text, now: int)
    | Crash(w: nat)

  predicate Busy(s: State, w: nat) {
    w < |s.workers| && s.workers[w].todo != [] && s.workers[w].todo[0] < |s.rows|
  }

  function Current(s: State, w: nat): nat
    requires Busy(s, w)
  {
    s.workers[w].todo[0]
  }

  ghost predicate Enabled(s: State, step: Step) {
    match step
    case Publish(row, kind) =>
      && row.status == Pending && row.attempts == 0 && row.lastError == NoError
      && forall i :: 0 <= i < |s.rows| ==> s.rows[i].dedupeKey != row.dedupeKey
    case Requeue(_, _) => true
    case Claim(w, _, ids, now) =>
      && w < |s.workers| && s.workers[w].todo == [] && NoDup(ids)
      && forall k :: 0 <= k < |ids| ==> ids[k] < |s.rows| && Claimable(s.rows[ids[k]], now)
    case Crash(w) => w < |s.workers|
    case Check(w) => Busy(s, w) && s.workers[w].phase == AtCheck
    case Duplicate(w) => Busy(s, w) && s.workers[w].phase == AtDuplicate
    case Handle(w, _, _, _) => Busy(s, w) && s.workers[w].phase.InHandler?
    case Throw(w, _) => Busy(s, w) && s.workers[w].phase.InHandler?
    case MarkProcessed(w) => Busy(s, w) && s.workers[w].phase == AtMarkProcessed
    case MarkCompleted(w) => Busy(s, w) && s.workers[w].phase == AtMarkCompleted
    case MarkFailed(w, _, _) => Busy(s, w) && s.workers[w].phase == AtMarkFailed
    case ReleaseClaim(w) => Busy(s, w) && s.workers[w].phase == AtRelease
    case StoreFails(w, _, _, _) => Busy(s, w) && !s.workers[w].phase.InHandler?
  }

  function GoTo(s: State, w: nat, phase: Phase): State
    requires w < |s.workers|
  {
    s.(workers := s.workers[w := s.workers[w].(phase := phase)])
  }

  /** The worker moves on to its next job. */
  function NextJob(s: State, w: nat): State
    requires Busy(s, w)
  {
    s.(workers := s.workers[w := s.workers[w].(todo := s.workers[w].todo[1..], phase := AtCheck)])
  }

  function SetRow(s: State, i: nat, r: Row): State
    requires i < |s.rows|
  {
    s.(rows := s.rows[i := r])
  }

  function SetLedger(s: State, i: nat, l: Ledger): State
    requires i < |s.ledger|
  {
    s.(ledger := s.ledger[i := l])
  }

  /** INSERT ... ON CONFLICT (outbox_job_id, effect_code) DO NOTHING. */
  function InsertEffect(l: Ledger, code: EffectCode, payload: Text): Ledger {
    if code in l.effects then l else l.(effects := l.effects[code := payload])
  }

  function AfterSuccess(mode: Mode): Phase {
    if mode == Production then AtMarkProcessed else AtRelease
  }

  function AfterFailure(mode: Mode): Phase {
    if mode == Production then AtMarkFailed else AtRelease
  }

  function LoseSync(l: Ledger, phase: Phase): Ledger {
    if phase.InHandler? && phase.h.StoreEffect? && phase.h.code == SyncExecuted then l.(lostSyncs := l.lostSyncs + 1) else l
  }

  /** What a handler's call leaves behind when it takes effect and then reports an error. */
  function Landed(l: Ledger, h: Handler): Ledger {
    match h
    case CallSync => l.(syncCalls := l.syncCalls + 1, lostSyncs := l.lostSyncs + 1)
    case StoreEffect(code, payload) => InsertEffect(l, code, payload)
    case StoreDispatch => l.(dispatched := true)
    case _ => l
  }

  /** One step of a dispatch handler. */
  function HandlerStep(s: State, w: nat, package: bool, configured: bool, payload: Text): State
    requires Busy(s, w) && s.workers[w].phase.InHandler? && |s.kinds| == |s.ledger| == |s.rows|
  {
    var id, mode := Current(s, w), s.workers[w].mode;
    var l := s.ledger[id];
    match s.workers[w].phase.h
    case Begin =>
      (match s.kinds[id]
       case Recording(name) => GoTo(s, w, InHandler(StoreEffect(Recorded(name), payload)))
       case Unsupported => GoTo(s, w, AfterFailure(mode))
       case Ranking =>
         if !package then GoTo(s, w, InHandler(StoreEffect(SyncSkippedNoPackage, payload)))
         else if !configured then GoTo(s, w, AfterFailure(mode))
         else GoTo(s, w, InHandler(CheckEffect)))
    case CheckEffect => GoTo(s, w, InHandler(if SyncExecuted in l.effects then StoreDispatch else CallSync))
    case CallSync =>
      GoTo(SetLedger(s, id, l.(syncCalls := l.syncCalls + 1)), w, InHandler(StoreEffect(SyncExecuted, payload)))
    case StoreEffect(code, p) => GoTo(SetLedger(s, id, InsertEffect(l, code, p)), w, InHandler(StoreDispatch))
    case StoreDispatch => GoTo(SetLedger(s, id, l.(dispatched := true)), w, AfterSuccess(mode))
  }

  function RequeueAll(rows: Table, ids: set<nat>, now: int): (r: Table)
    ensures |r| == |rows|
    ensures forall i :: 0 <= i < |rows| ==> r[i] == if i in ids then OutboxTable.Requeue(rows[i], now) else rows[i]
  {
    seq(|rows|, i requires 0 <= i < |rows| => if i in ids then OutboxTable.Requeue(rows[i], now) else rows[i])
  }

  /** The rows after the store statement that is next in the worker's phase. */
  ghost function Statement(s: State, w: nat, message: Text, now: int, config: Config): Table
    requires Busy(s, w)
  {
    var id := Current(s, w);
    match s.workers[w].phase
    case AtDuplicate => s.rows[id := if s.workers[w].mode == Production then Complete(s.rows[id]) else Release(s.rows[id])]
    case AtMarkProcessed => OutboxTable.MarkProcessed(s.rows, s.rows[id].dedupeKey)
    case AtMarkCompleted => s.rows[id := Complete(s.rows[id])]
    case AtMarkFailed => s.rows[id := Fail(s.rows[id], message, now, config)]
    case AtRelease => s.rows[id := Release(s.rows[id])]
    case _ => s.rows
  }

  /** A throw of markProcessed or markCompleted is caught and leads to markFailed; any other ends the worker's run. */
  ghost function AfterStoreFailure(s: State, w: nat, landed: bool, message: Text, now: int, config: Config): State
    requires Busy(s, w)
  {
    var worker := s.workers[w];
    var next := if worker.phase == AtMarkProcessed || worker.phase == AtMarkCompleted then worker.(phase := AtMarkFailed)
                else worker.(todo := []);
    s.(rows := if landed then Statement(s, w, message, now, config) else s.rows, workers := s.workers[w := next])
  }

  ghost function Apply(s: State, step: Step, config: Config): State
    requires Enabled(s, step) && |s.kinds| == |s.ledger| == |s.rows|
  {
    match step
    case Publish(row, kind) =>
      State(s.rows + [row], s.kinds + [kind], s.ledger + [Ledger(map[], false, 0, 0)], s.workers)
    case Requeue(ids, now) => s.(rows := RequeueAll(s.rows, ids, now))
    case Claim(w, mode, ids, now) =>
      s.(rows := ClaimAll(s.rows, ids), workers := s.workers[w := Worker(mode, ids, AtCheck)])
    case Check(w) =>
      if IsProcessed(s.rows, s.rows[Current(s, w)].dedupeKey) then GoTo(s, w, AtDuplicate)
      else GoTo(s, w, if s.workers[w].mode == DryRun then AtRelease else InHandler(Begin))
    case Duplicate(w) =>
      var id := Current(s, w);
      NextJob(SetRow(s, id, if s.workers[w].mode == Production then Complete(s.rows[id]) else Release(s.rows[id])), w)
    case Handle(w, package, configured, payload) => HandlerStep(s, w, package, configured, payload)
    case Throw(w, landed) =>
      var id, phase := Current(s, w), s.workers[w].phase;
      var l := if landed then Landed(s.ledger[id], phase.h) else LoseSync(s.ledger[id], phase);
      GoTo(SetLedger(s, id, l), w, AfterFailure(s.workers[w].mode))
    case MarkProcessed(w) =>
      GoTo(s.(rows := OutboxTable.MarkProcessed(s.rows, s.rows[Current(s, w)].dedupeKey)), w, AtMarkCompleted)
    case MarkCompleted(w) => NextJob(SetRow(s, Current(s, w), Complete(s.rows[Current(s, w)])), w)
    case MarkFailed(w, message, now) =>
      NextJob(SetRow(s, Current(s, w), Fail(s.rows[Current(s, w)], message, now, config)), w)
    case ReleaseClaim(w) => NextJob(SetRow(s, Current(s, w), Release(s.rows[Current(s, w)])), w)
    case StoreFails(w, landed, message, now) => AfterStoreFailure(s, w, landed, message, now, config)
    case Crash(w) =>
      var s' := if Busy(s, w) then SetLedger(s, Current(s, w), LoseSync(s.ledger[Current(s, w)], s.workers[w].phase)) else s;
      s'.(workers := s.workers[w := s.workers[w].(todo := [])])
  }

  ghost predicate Init(s: State) {
    s.rows == [] && s.kinds == [] && s.ledger == [] && forall w :: 0 <= w < |s.workers| ==> s.workers[w].todo == []
  }

  ghost predicate IsStep(config: Config, run: seq<State>, steps: seq<Step>, i: nat)
    requires i < |steps| < |run|
  {
    var s := run[i];
    |s.kinds| == |s.ledger| == |s.rows| && Enabled(s, steps[i]) && run[i + 1] == Apply(s, steps[i], config)
  }

  ghost predicate IsRun(config: Config, run: seq<State>, steps: seq<Step>) {
    && |run| == |steps| + 1 && Init(run[0])
    && forall i: nat {:trigger IsStep(config, run, steps, i)} :: i < |steps| ==> IsStep(config, run, steps, i)
  }

  // ---- The invariant ----

  /** Job number k of worker w. */
  ghost predicate Holds(s: State, w: nat, k: nat, id: nat) {
    w < |s.workers| && k < |s.workers[w].todo| && s.workers[w].todo[k] == id
  }

  ghost predicate Disjoint(s: State) {
    forall w: nat, k: nat, v: nat, m: nat, id: nat {:trigger Holds(s, w, k, id), Holds(s, v, m, id)} ::
      Holds(s, w, k, id) && Holds(s, v, m, id) ==> w == v && k == m
  }

  /** The phases in which the row of the current job may already be completed. */
  predicate MayBeCompleted(phase: Phase) {
    phase == AtMarkCompleted || phase == AtMarkFailed
  }

  /** A held row is being processed, or was just completed by its holder. */
  ghost predicate HeldOk(s: State, w: nat, k: nat, id: nat) {
    Holds(s, w, k, id) ==>
      && id < |s.rows|
      && (s.rows[id].status == Processing
          || (k == 0 && MayBeCompleted(s.workers[w].phase) && s.rows[id].status == Completed))
  }

  ghost predicate InSync(phase: Phase) {
    phase.InHandler? && (phase.h.CallSync? || (phase.h.StoreEffect? && phase.h.code == SyncExecuted))
  }

  /** What the ledger holds when a worker is at a given point of its current job. */
  ghost predicate PhaseOk(s: State, w: nat) {
    w < |s.workers| && s.workers[w].todo != [] ==>
      var id, phase := s.workers[w].todo[0], s.workers[w].phase;
      && id < |s.ledger| && id < |s.kinds|
      && phase != AtDuplicate
      && (phase == InHandler(StoreDispatch) ==> HasEffect(s.ledger[id]))
      && (phase == AtMarkProcessed || phase == AtMarkCompleted ==>
            HasEffect(s.ledger[id]) && s.ledger[id].dispatched && !s.kinds[id].Unsupported?)
      && (phase.InHandler? && !phase.h.Begin? ==> !s.kinds[id].Unsupported?)
      && (InSync(phase) ==> s.kinds[id].Ranking? && SyncExecuted !in s.ledger[id].effects)
      && (phase.InHandler? && phase.h.CheckEffect? ==> s.kinds[id].Ranking?)
  }

  /** The worker holds a sync result that is not stored yet. */
  ghost predicate InHand(s: State, w: nat, id: nat) {
    Holds(s, w, 0, id) && s.workers[w].phase.InHandler? && s.workers[w].phase.h.StoreEffect?
    && s.workers[w].phase.h.code == SyncExecuted
  }

  ghost predicate HoldsSyncResult(s: State, id: nat) {
    exists w: nat :: InHand(s, w, id)
  }

  ghost predicate HasEffect(l: Ledger) {
    exists code :: code in l.effects
  }

  /** Every call of the sync is accounted for: lost, in hand, or recorded in the one effect row. */
  ghost predicate SyncAccounted(s: State, id: nat) {
    id < |s.rows| && id < |s.ledger| && id < |s.kinds| ==>
      var l := s.ledger[id];
      && l.syncCalls == l.lostSyncs + (if SyncExecuted in l.effects then 1 else 0) + (if HoldsSyncResult(s, id) then 1 else 0)
      && (s.rows[id].status == Completed ==> HasEffect(l) && l.dispatched && !s.kinds[id].Unsupported?)
  }

  ghost predicate Inv(s: State, config: Config) {
    && |s.kinds| == |s.ledger| == |s.rows|
    && UniqueKeys(s.rows)
    && (forall i :: 0 <= i < |s.rows| ==> AttemptsOk(s.rows[i], config))
    && Disjoint(s)
    && (forall w: nat, k: nat, id: nat {:trigger HeldOk(s, w, k, id)} :: HeldOk(s, w, k, id))
    && (forall w: nat {:trigger PhaseOk(s, w)} :: PhaseOk(s, w))
    && (forall id: nat {:trigger SyncAccounted(s, id)} :: SyncAccounted(s, id))
  }

  // ---- Steps that concern one worker and its current job ----

  ghost predicate Local(s: State, t: State, w: nat) {
    && Busy(s, w)
    && |t.rows| == |s.rows| && |t.ledger| == |s.ledger| && t.kinds == s.kinds && |t.workers| == |s.workers|
    && (forall i :: 0 <= i < |s.rows| && i != Current(s, w) ==> t.rows[i] == s.rows[i])
    && (forall i :: 0 <= i < |s.ledger| && i != Current(s, w) ==> t.ledger[i] == s.ledger[i])
    && (forall v :: 0 <= v < |s.workers| && v != w ==> t.workers[v] == s.workers[v])
    && (t.workers[w].todo == s.workers[w].todo
        || (t.workers[w].todo == s.workers[w].todo[1..] && t.workers[w].phase == AtCheck)
        || t.workers[w].todo == [])
  }

  ghost predicate Keeps(s: State, t: State, w: nat)
    requires Local(s, t, w)
  {
    t.workers[w].todo == s.workers[w].todo
  }

  /** A holder after a local step was a holder before it. */
  lemma LocalHolds(s: State, t: State, w: nat, v: nat, k: nat, id: nat)
    requires Local(s, t, w) && Holds(t, v, k, id)
    ensures v != w || Keeps(s, t, w) ==> Holds(s, v, k, id)
    ensures v == w && !Keeps(s, t, w) ==> Holds(s, v, k + 1, id)
  {
  }

  lemma LocalDisjoint(s: State, t: State, w: nat)
    requires Local(s, t, w) && Disjoint(s)
    ensures Disjoint(t)
    ensures forall v: nat, k: nat :: Holds(t, v, k, Current(s, w)) ==> v == w && k == 0 && Keeps(s, t, w)
  {
    assert Holds(s, w, 0, Current(s, w));
    forall v: nat, k: nat, u: nat, m: nat, id: nat | Holds(t, v, k, id) && Holds(t, u, m, id) ensures v == u && k == m {
      LocalHolds(s, t, w, v, k, id);
      LocalHolds(s, t, w, u, m, id);
    }
    forall v: nat, k: nat | Holds(t, v, k, Current(s, w)) ensures v == w && k == 0 && Keeps(s, t, w) {
      LocalHolds(s, t, w, v, k, Current(s, w));
    }
  }

  lemma LocalHeld(s: State, t: State, w: nat, config: Config)
    requires Inv(s, config) && Local(s, t, w)
    requires Keeps(s, t, w) ==> HeldOk(t, w, 0, Current(s, w))
    ensures forall v: nat, k: nat, id: nat {:trigger HeldOk(t, v, k, id)} :: HeldOk(t, v, k, id)
  {
    LocalDisjoint(s, t, w);
    forall v: nat, k: nat, id: nat ensures HeldOk(t, v, k, id) {
      if Holds(t, v, k, id) && id != Current(s, w) {
        LocalHolds(s, t, w, v, k, id);
        assert Holds(s, w, 0, Current(s, w));
        assert HeldOk(s, v, k, id) && HeldOk(s, v, k + 1, id);
      }
    }
  }

  lemma LocalPhases(s: State, t: State, w: nat, config: Config)
    requires Inv(s, config) && Local(s, t, w)
    requires Keeps(s, t, w) ==> PhaseOk(t, w)
    ensures forall v: nat {:trigger PhaseOk(t, v)} :: PhaseOk(t, v)
  {
    forall v: nat ensures PhaseOk(t, v) {
      if v != w && v < |s.workers| && s.workers[v].todo != [] {
        assert PhaseOk(s, v);
        assert Holds(s, w, 0, Current(s, w)) && Holds(s, v, 0, s.workers[v].todo[0]);
      } else if v == w && !Keeps(s, t, w) && t.workers[w].todo != [] {
        assert HeldOk(s, w, 1, t.workers[w].todo[0]) && Holds(s, w, 1, t.workers[w].todo[0]);
      }
    }
  }

  lemma LocalSyncHolder(s: State, t: State, w: nat, config: Config)
    requires Inv(s, config) && Local(s, t, w)
    ensures HoldsSyncResult(s, Current(s, w)) <==> InHand(s, w, Current(s, w))
    ensures HoldsSyncResult(t, Current(s, w)) <==> Keeps(s, t, w) && InHand(t, w, Current(s, w))
    ensures forall id: nat :: id != Current(s, w) ==> (HoldsSyncResult(t, id) <==> HoldsSyncResult(s, id))
  {
    LocalDisjoint(s, t, w);
    assert Holds(s, w, 0, Current(s, w));
    assert InHand(s, w, Current(s, w)) ==> HoldsSyncResult(s, Current(s, w));
    assert Keeps(s, t, w) && InHand(t, w, Current(s, w)) ==> HoldsSyncResult(t, Current(s, w));
    forall id: nat | id != Current(s, w) ensures HoldsSyncResult(t, id) <==> HoldsSyncResult(s, id) {
      if v: nat :| InHand(t, v, id) {
        LocalHolds(s, t, w, v, 0, id);
        assert InHand(s, v, id);
      }
      if v: nat :| InHand(s, v, id) {
        assert InHand(t, v, id);
      }
    }
  }

  lemma LocalInv(s: State, t: State, w: nat, config: Config)
    requires Inv(s, config) && Local(s, t, w)
    requires var id := Current(s, w);
             && t.rows[id].dedupeKey == s.rows[id].dedupeKey && AttemptsOk(t.rows[id], config)
             && SyncAccounted(t, id)
             && (Keeps(s, t, w) ==> HeldOk(t, w, 0, id) && PhaseOk(t, w))
    ensures Inv(t, config)
  {
    LocalDisjoint(s, t, w);
    LocalHeld(s, t, w, config);
    LocalPhases(s, t, w, config);
    LocalSyncHolder(s, t, w, config);
    forall id: nat ensures SyncAccounted(t, id) {
      assert SyncAccounted(s, id);
    }
    forall i, j | 0 <= i < j < |t.rows| ensures t.rows[i].dedupeKey != t.rows[j].dedupeKey {
      assert t.rows[i].dedupeKey == s.rows[i].dedupeKey && t.rows[j].dedupeKey == s.rows[j].dedupeKey;
    }
    forall i | 0 <= i < |t.rows| ensures AttemptsOk(t.rows[i], config) {
      assert AttemptsOk(s.rows[i], config);
    }
  }

  /** Facts about a busy worker's current job. */
  lemma AtWork(s: State, w: nat, config: Config)
    requires Inv(s, config) && Busy(s, w)
    ensures var id := Current(s, w);
            && Holds(s, w, 0, id) && HeldOk(s, w, 0, id) && PhaseOk(s, w) && SyncAccounted(s, id)
            && AttemptsOk(s.rows[id], config)
            && (!MayBeCompleted(s.workers[w].phase) ==> s.rows[id].status == Processing)
            && !(IsProcessed(s.rows, s.rows[id].dedupeKey) && !MayBeCompleted(s.workers[w].phase))
  {
  }

  lemma CheckKeepsInv(s: State, step: Step, config: Config)
    requires Inv(s, config) && Enabled(s, step) && step.Check?
    ensures Inv(Apply(s, step, config), config)
  {
    AtWork(s, step.w, config);
    var t := Apply(s, step, config);
    assert Local(s, t, step.w);
    LocalSyncHolder(s, t, step.w, config);
    LocalInv(s, t, step.w, config);
  }

  lemma ThrowKeepsInv(s: State, step: Step, config: Config)
    requires Inv(s, config) && Enabled(s, step) && step.Throw?
    ensures Inv(Apply(s, step, config), config)
  {
    AtWork(s, step.w, config);
    var t, id, h := Apply(s, step, config), Current(s, step.w), s.workers[step.w].phase.h;
    assert Local(s, t, step.w);
    LocalSyncHolder(s, t, step.w, config);
    if h.StoreEffect? && step.landed {
      assert h.code in t.ledger[id].effects;
    }
    LocalInv(s, t, step.w, config);
  }

  /** What one handler step leaves in the ledger and the worker's phase. */
  lemma HandlePoint(s: State, step: Step, config: Config)
    requires Inv(s, config) && Enabled(s, step) && step.Handle?
    ensures var t, id := Apply(s, step, config), Current(s, step.w);
            Local(s, t, step.w) && Keeps(s, t, step.w) && t.rows == s.rows
            && HeldOk(t, step.w, 0, id) && PhaseOk(t, step.w)
  {
    AtWork(s, step.w, config);
    var t, id, h := Apply(s, step, config), Current(s, step.w), s.workers[step.w].phase.h;
    if h.StoreEffect? {
      assert h.code in t.ledger[id].effects;
    }
  }

  lemma HandleAccounted(s: State, step: Step, config: Config)
    requires Inv(s, config) && Enabled(s, step) && step.Handle?
    requires Local(s, Apply(s, step, config), step.w) && Keeps(s, Apply(s, step, config), step.w)
    ensures SyncAccounted(Apply(s, step, config), Current(s, step.w))
  {
    AtWork(s, step.w, config);
    LocalSyncHolder(s, Apply(s, step, config), step.w, config);
  }

  lemma HandleKeepsInv(s: State, step: Step, config: Config)
    requires Inv(s, config) && Enabled(s, step) && step.Handle?
    ensures Inv(Apply(s, step, config), config)
  {
    AtWork(s, step.w, config);
    HandlePoint(s, step, config);
    HandleAccounted(s, step, config);
    LocalInv(s, Apply(s, step, config), step.w, config);
  }

  lemma RowStepKeepsInv(s: State, step: Step, config: Config)
    requires config.maxAttempts >= 1
    requires Inv(s, config) && Enabled(s, step)
    requires step.MarkProcessed? || step.MarkCompleted? || step.MarkFailed? || step.ReleaseClaim? || step.Duplicate?
    ensures Inv(Apply(s, step, config), config)
  {
    AtWork(s, step.w, config);
    var t, id := Apply(s, step, config), Current(s, step.w);
    if step.MarkProcessed? {
      MarkProcessedOne(s.rows, id);
    }
    StatementsKeepAttempts(s.rows[id], if step.MarkFailed? then step.message else [],
                           if step.MarkFailed? then step.now else 0, config);
    assert Local(s, t, step.w);
    LocalSyncHolder(s, t, step.w, config);
    LocalInv(s, t, step.w, config);
  }

  /** A store call may throw anywhere, before or after its statement took effect. */
  lemma StoreFailureKeepsInv(s: State, step: Step, config: Config)
    requires config.maxAttempts >= 1
    requires Inv(s, config) && Enabled(s, step) && step.StoreFails?
    ensures Inv(Apply(s, step, config), config)
  {
    AtWork(s, step.w, config);
    var t, id := Apply(s, step, config), Current(s, step.w);
    MarkProcessedOne(s.rows, id);
    StatementsKeepAttempts(s.rows[id], step.message, step.now, config);
    assert Local(s, t, step.w);
    LocalSyncHolder(s, t, step.w, config);
    LocalInv(s, t, step.w, config);
  }

  lemma CrashKeepsInv(s: State, step: Step, config: Config)
    requires Inv(s, config) && Enabled(s, step) && step.Crash?
    ensures Inv(Apply(s, step, config), config)
  {
    var t := Apply(s, step, config);
    if Busy(s, step.w) {
      AtWork(s, step.w, config);
      assert Local(s, t, step.w);
      LocalSyncHolder(s, t, step.w, config);
      LocalInv(s, t, step.w, config);
    } else {
      assert PhaseOk(s, step.w);
      assert t == s;
    }
  }

  lemma PublishKeepsInv(s: State, step: Step, config: Config)
    requires config.maxAttempts >= 1
    requires Inv(s, config) && Enabled(s, step) && step.Publish?
    ensures Inv(Apply(s, step, config), config)
  {
    var t, n := Apply(s, step, config), |s.rows|;
    forall w: nat, k: nat, id: nat | Holds(t, w, k, id) ensures Holds(s, w, k, id) && id < n {
      assert HeldOk(s, w, k, id);
    }
    forall w: nat, k: nat, id: nat ensures HeldOk(t, w, k, id) {
      assert HeldOk(s, w, k, id);
    }
    forall w: nat ensures PhaseOk(t, w) {
      assert PhaseOk(s, w);
    }
    forall id: nat ensures SyncAccounted(t, id) {
      assert SyncAccounted(s, id);
      assert HoldsSyncResult(t, id) <==> HoldsSyncResult(s, id) by {
        if w: nat :| InHand(t, w, id) {
          assert InHand(s, w, id);
        }
        if w: nat :| InHand(s, w, id) {
          assert InHand(t, w, id);
        }
      }
    }
  }

  lemma RequeueKeepsInv(s: State, step: Step, config: Config)
    requires config.maxAttempts >= 1
    requires Inv(s, config) && Enabled(s, step) && step.Requeue?
    ensures Inv(Apply(s, step, config), config)
  {
    var t := Apply(s, step, config);
    forall w: nat, k: nat, id: nat ensures Holds(t, w, k, id) <==> Holds(s, w, k, id) {
    }
    forall w: nat, k: nat, id: nat ensures HeldOk(t, w, k, id) {
      assert HeldOk(s, w, k, id);
    }
    forall w: nat ensures PhaseOk(t, w) {
      assert PhaseOk(s, w);
    }
    forall id: nat ensures SyncAccounted(t, id) {
      assert SyncAccounted(s, id);
      assert HoldsSyncResult(t, id) <==> HoldsSyncResult(s, id) by {
        if w: nat :| InHand(t, w, id) {
          assert InHand(s, w, id);
        }
        if w: nat :| InHand(s, w, id) {
          assert InHand(t, w, id);
        }
      }
    }
  }

  /** A claimed row is held by nobody before the claim. */
  lemma ClaimTakesFree(s: State, step: Step, config: Config, w: nat, k: nat, id: nat)
    requires Inv(s, config) && Enabled(s, step) && step.Claim?
    requires Holds(s, w, k, id)
    ensures id !in step.ids
  {
    assert HeldOk(s, w, k, id);
    forall j | 0 <= j < |step.ids| ensures step.ids[j] != id {
      assert Claimable(s.rows[step.ids[j]], step.now);
    }
  }

  lemma ClaimHolders(s: State, step: Step, config: Config)
    requires Inv(s, config) && Enabled(s, step) && step.Claim?
    ensures var t := Apply(s, step, config);
            && Disjoint(t)
            && (forall w: nat, k: nat, id: nat {:trigger HeldOk(t, w, k, id)} :: HeldOk(t, w, k, id))
            && forall id: nat :: HoldsSyncResult(t, id) <==> HoldsSyncResult(s, id)
  {
    var t := Apply(s, step, config);
    forall w: nat, k: nat, id: nat | Holds(t, w, k, id)
      ensures if w == step.w then k < |step.ids| && step.ids[k] == id else Holds(s, w, k, id) && id !in step.ids
    {
      if w != step.w {
        assert Holds(s, w, k, id);
        ClaimTakesFree(s, step, config, w, k, id);
      }
    }
    forall w: nat, k: nat, id: nat ensures HeldOk(t, w, k, id) {
      assert HeldOk(s, w, k, id);
    }
    forall id: nat ensures HoldsSyncResult(t, id) <==> HoldsSyncResult(s, id) {
      if w: nat :| InHand(t, w, id) {
        assert InHand(s, w, id);
      }
      if w: nat :| InHand(s, w, id) {
        assert InHand(t, w, id);
      }
    }
  }

  lemma ClaimKeepsInv(s: State, step: Step, config: Config)
    requires Inv(s, config) && Enabled(s, step) && step.Claim?
    ensures Inv(Apply(s, step, config), config)
  {
    var t := Apply(s, step, config);
    ClaimHolders(s, step, config);
    forall w: nat ensures PhaseOk(t, w) {
      assert PhaseOk(s, w);
    }
    forall id: nat ensures SyncAccounted(t, id) {
      assert SyncAccounted(s, id);
    }
    forall i | 0 <= i < |t.rows| ensures AttemptsOk(t.rows[i], config) {
      assert AttemptsOk(s.rows[i], config);
      if j :| 0 <= j < |step.ids| && step.ids[j] == i {
        assert Claimable(s.rows[step.ids[j]], step.now);
      }
    }
  }

  lemma {:induction false} RunKeepsInv(config: Config, run: seq<State>, steps: seq<Step>, i: nat)
    requires config.maxAttempts >= 1 && IsRun(config, run, steps) && i <= |steps|
    ensures Inv(run[i], config)
  {
    if i > 0 {
      RunKeepsInv(config, run, steps, i - 1);
      var s, step := run[i - 1], steps[i - 1];
      assert IsStep(config, run, steps, i - 1);
      match step
      case Publish(_, _) => PublishKeepsInv(s, step, config);
      case Requeue(_, _) => RequeueKeepsInv(s, step, config);
      case Claim(_, _, _, _) => ClaimKeepsInv(s, step, config);
      case Crash(_) => CrashKeepsInv(s, step, config);
      case Check(_) => CheckKeepsInv(s, step, config);
      case Handle(_, _, _, _) => HandleKeepsInv(s, step, config);
      case Throw(_, _) => ThrowKeepsInv(s, step, config);
      case StoreFails(_, _, _, _) => StoreFailureKeepsInv(s, step, config);
      case _ => RowStepKeepsInv(s, step, config);
    }
  }
}
