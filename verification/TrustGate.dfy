// The trust-gate rollout machine: promotion needs a streak of passing windows, regression falls back to raw-only.
module TrustGate {
  import opened Sorting

  datatype Mode = RawOnly | FlaggedFirst | FullCatalog

  datatype Rate = NoRate | Rate(value: real)

  datatype Snapshot = Snapshot(falsePositiveRate: Rate, appealsSlaRate: Rate, backlogBreaches: int)

  datatype Config = Config(falsePositiveThreshold: real, appealsThreshold: real, requiredWindows: int)

  datatype DecisionType = Hold | Promote | Revert | Freeze

  datatype Decision = Decision(kind: DecisionType, previousMode: Mode, decidedMode: Mode, freezeActive: bool,
                               falsePositivePass: bool, appealsPass: bool, backlogPass: bool, windowTo: int, createdAt: int)

  datatype Rollout = Rollout(mode: Mode, freezeActive: bool)

  datatype Gate = FalsePositive | AppealsSla

  /** The rollout state and the decision log, oldest decision first. */
  datatype State = State(rollout: Rollout, log: seq<Decision>)

  const RECENT: nat := 12

  predicate Passed(d: Decision, gate: Gate) {
    if gate.FalsePositive? then d.falsePositivePass else d.appealsPass
  }

  predicate FalsePositivePasses(s: Snapshot, config: Config) {
    s.falsePositiveRate.Rate? && s.falsePositiveRate.value <= config.falsePositiveThreshold
  }

  predicate AppealsPasses(s: Snapshot, config: Config) {
    s.appealsSlaRate.Rate? && s.appealsSlaRate.value >= config.appealsThreshold
  }

  /** ORDER BY window_to DESC, created_at DESC. */
  predicate NewerFirst(a: Decision, b: Decision) {
    a.windowTo > b.windowTo || (a.windowTo == b.windowTo && a.createdAt >= b.createdAt)
  }

  function ListRecent(log: seq<Decision>, limit: nat): (r: seq<Decision>)
    ensures |r| == if |log| <= limit then |log| else limit
  {
    var sorted := Sort(NewerFirst, log);
    if |sorted| <= limit then sorted else sorted[..limit]
  }

  /** The passes at the head of a list of decisions. */
  function Streak(decisions: seq<Decision>, gate: Gate): nat {
    if decisions == [] || !Passed(decisions[0], gate) then 0 else 1 + Streak(decisions[1..], gate)
  }

  function NewStreak(log: seq<Decision>, gate: Gate, pass: bool): nat {
    if pass then Streak(ListRecent(log, RECENT), gate) + 1 else 0
  }

  predicate PromotionReady(log: seq<Decision>, snapshot: Snapshot, config: Config) {
    && NewStreak(log, FalsePositive, FalsePositivePasses(snapshot, config)) >= config.requiredWindows
    && NewStreak(log, AppealsSla, AppealsPasses(snapshot, config)) >= config.requiredWindows
    && snapshot.backlogBreaches == 0
  }

  /** security-governance/src/index.ts, lines 1509-1541. */
  function Decide(previous: Rollout, ready: bool): (Rollout, DecisionType) {
    if !ready then
      (Rollout(RawOnly, true),
       if previous.mode.FullCatalog? then Revert
       else if previous.mode.FlaggedFirst? then Freeze
       else if !previous.freezeActive then Freeze else Hold)
    else
      match previous.mode
      case RawOnly => (Rollout(FlaggedFirst, false), Promote)
      case FlaggedFirst => (Rollout(FullCatalog, false), Promote)
      case FullCatalog => (Rollout(FullCatalog, false), Hold)
  }

  function Evaluate(s: State, snapshot: Snapshot, windowTo: int, createdAt: int, config: Config): State {
    var (rollout, kind) := Decide(s.rollout, PromotionReady(s.log, snapshot, config));
    State(rollout,
          s.log + [Decision(kind, s.rollout.mode, rollout.mode, rollout.freezeActive, FalsePositivePasses(snapshot, config),
                            AppealsPasses(snapshot, config), snapshot.backlogBreaches == 0, windowTo, createdAt)])
  }

  /** The rollout state row and the promotion decision table. */
  class DecisionService {
    const config: Config
    var rollout: Rollout
    var log: seq<Decision>

    ghost function Current(): State
      reads this
    {
      State(rollout, log)
    }

    constructor (config: Config, rollout: Rollout)
      ensures this.config == config && Current() == State(rollout, [])
    {
      this.config, this.rollout, log := config, rollout, [];
    }

    method CountConsecutivePasses(decisions: seq<Decision>, gate: Gate) returns (streak: nat)
      ensures streak == Streak(decisions, gate)
    {
      streak := 0;
      while streak < |decisions| && Passed(decisions[streak], gate)
        invariant streak <= |decisions|
        invariant Streak(decisions, gate) == streak + Streak(decisions[streak..], gate)
      {
        assert decisions[streak..][1..] == decisions[streak + 1..];
        streak := streak + 1;
      }
    }

    method Run(snapshot: Snapshot, windowTo: int, createdAt: int) returns (kind: DecisionType)
      modifies this
      ensures Current() == Evaluate(old(Current()), snapshot, windowTo, createdAt, config)
      ensures kind == Decide(old(rollout), PromotionReady(old(log), snapshot, config)).1
    {
      var previous := rollout;
      var recent := ListRecent(log, RECENT);
      var falsePositivePass, appealsPass := FalsePositivePasses(snapshot, config), AppealsPasses(snapshot, config);
      var backlogPass := snapshot.backlogBreaches == 0;
      var falsePositiveStreak := CountConsecutivePasses(recent, FalsePositive);
      var appealsStreak := CountConsecutivePasses(recent, AppealsSla);
      falsePositiveStreak := if falsePositivePass then falsePositiveStreak + 1 else 0;
      appealsStreak := if appealsPass then appealsStreak + 1 else 0;
      var ready := falsePositiveStreak >= config.requiredWindows && appealsStreak >= config.requiredWindows && backlogPass;
      kind := Hold;
      if !ready {
        rollout := Rollout(RawOnly, true);
        if previous.mode.FullCatalog? {
          kind := Revert;
        } else if previous.mode.FlaggedFirst? {
          kind := Freeze;
        } else if !previous.freezeActive {
          kind := Freeze;
        }
      } else if previous.mode.RawOnly? {
        rollout := Rollout(FlaggedFirst, false);
        kind := Promote;
      } else if previous.mode.FlaggedFirst? {
        rollout := Rollout(FullCatalog, false);
        kind := Promote;
      } else {
        rollout := Rollout(FullCatalog, false);
      }
      log := log + [Decision(kind, previous.mode, rollout.mode, rollout.freezeActive, falsePositivePass, appealsPass,
                             backlogPass, windowTo, createdAt)];
    }
  }

  // ---- The true streak ----

  /** The passes at the end of the whole log, however long. */
  function TrueStreak(log: seq<Decision>, gate: Gate): nat {
    if log == [] || !Passed(log[|log| - 1], gate) then 0 else 1 + TrueStreak(log[..|log| - 1], gate)
  }

  function Reversed(log: seq<Decision>): (r: seq<Decision>)
    ensures |r| == |log| && forall i :: 0 <= i < |r| ==> r[i] == log[|log| - 1 - i]
  {
    seq(|log|, i requires 0 <= i < |log| => log[|log| - 1 - i])
  }

  ghost predicate Chronological(log: seq<Decision>) {
    forall i, j :: 0 <= i < j < |log| ==> log[i].windowTo < log[j].windowTo
  }

  lemma {:induction false} ReversedPermutes(log: seq<Decision>)
    ensures multiset(Reversed(log)) == multiset(log)
  {
    if log != [] {
      var n := |log| - 1;
      ReversedPermutes(log[..n]);
      assert Reversed(log) == [log[n]] + Reversed(log[..n]);
      assert log == log[..n] + [log[n]];
    }
  }

  /** With windows in increasing order the query returns the end of the log, newest first. */
  lemma RecentIsTail(log: seq<Decision>)
    requires Chronological(log)
    ensures Sort(NewerFirst, log) == Reversed(log)
  {
    SortSorts(NewerFirst, log);
    SortPermutes(NewerFirst, log);
    ReversedPermutes(log);
    assert Separates(NewerFirst, Sort(NewerFirst, log)) by {
      forall x, y | x in Sort(NewerFirst, log) && y in Sort(NewerFirst, log) && NewerFirst(x, y) && NewerFirst(y, x)
        ensures x == y
      {
        var i :| 0 <= i < |log| && log[i] == x;
        var j :| 0 <= j < |log| && log[j] == y;
      }
    }
    SortedUnique(NewerFirst, Sort(NewerFirst, log), Reversed(log));
  }

  /** In any log the query lists the latest windows first, and of one window the latest decisions. */
  lemma RecentIsSorted(log: seq<Decision>, i: nat, j: nat)
    requires i < j < |ListRecent(log, RECENT)|
    ensures var a, b := ListRecent(log, RECENT)[i], ListRecent(log, RECENT)[j];
            a.windowTo > b.windowTo || (a.windowTo == b.windowTo && a.createdAt >= b.createdAt)
  {
    SortSorts(NewerFirst, log);
  }

  lemma {:induction false} CappedStreak(log: seq<Decision>, gate: Gate, limit: nat)
    ensures Streak(if |log| <= limit then Reversed(log) else Reversed(log)[..limit], gate)
         == if TrueStreak(log, gate) <= limit then TrueStreak(log, gate) else limit
  {
    var shown := if |log| <= limit then Reversed(log) else Reversed(log)[..limit];
    if log != [] && limit > 0 && Passed(log[|log| - 1], gate) {
      var rest := log[..|log| - 1];
      CappedStreak(rest, gate, limit - 1);
      assert shown[1..] == if |rest| <= limit - 1 then Reversed(rest) else Reversed(rest)[..limit - 1];
    }
    TrueStreakBounded(log, gate);
  }

  lemma {:induction false} TrueStreakBounded(log: seq<Decision>, gate: Gate)
    ensures TrueStreak(log, gate) <= |log|
    ensures forall i :: |log| - TrueStreak(log, gate) <= i < |log| ==> Passed(log[i], gate)
  {
    if log != [] && Passed(log[|log| - 1], gate) {
      TrueStreakBounded(log[..|log| - 1], gate);
    }
  }

  /** What the service computes as the new streak is the true one, capped at thirteen. */
  lemma NewStreakIsCapped(log: seq<Decision>, d: Decision, gate: Gate)
    requires Chronological(log)
    ensures var streak := TrueStreak(log + [d], gate);
            NewStreak(log, gate, Passed(d, gate)) == if streak <= RECENT + 1 then streak else RECENT + 1
  {
    RecentIsTail(log);
    CappedStreak(log, gate, RECENT);
    assert (log + [d])[..|log|] == log;
  }

  // ---- Runs ----

  datatype Window = Window(snapshot: Snapshot, windowTo: int, createdAt: int)

  function After(initial: Rollout, windows: seq<Window>, n: nat, config: Config): State
    requires n <= |windows|
  {
    if n == 0 then State(initial, [])
    else
      var w := windows[n - 1];
      Evaluate(After(initial, windows, n - 1, config), w.snapshot, w.windowTo, w.createdAt, config)
  }

  ghost predicate Increasing(windows: seq<Window>) {
    forall i, j :: 0 <= i < j < |windows| ==> windows[i].windowTo < windows[j].windowTo
  }

  lemma {:induction false} LogFollowsWindows(initial: Rollout, windows: seq<Window>, n: nat, config: Config)
    requires n <= |windows|
    ensures var log := After(initial, windows, n, config).log;
            && |log| == n
            && forall i :: 0 <= i < n ==>
                 && log[i].windowTo == windows[i].windowTo
                 && log[i].falsePositivePass == FalsePositivePasses(windows[i].snapshot, config)
                 && log[i].appealsPass == AppealsPasses(windows[i].snapshot, config)
  {
    if n > 0 {
      LogFollowsWindows(initial, windows, n - 1, config);
    }
  }

  ghost predicate ReadyAt(initial: Rollout, windows: seq<Window>, n: nat, config: Config)
    requires 0 < n <= |windows|
  {
    PromotionReady(After(initial, windows, n - 1, config).log, windows[n - 1].snapshot, config)
  }

  lemma LogIsChronological(initial: Rollout, windows: seq<Window>, n: nat, config: Config)
    requires Increasing(windows) && n <= |windows|
    ensures Chronological(After(initial, windows, n, config).log)
  {
    LogFollowsWindows(initial, windows, n, config);
  }

  predicate GatePasses(s: Snapshot, gate: Gate, config: Config) {
    if gate.FalsePositive? then FalsePositivePasses(s, config) else AppealsPasses(s, config)
  }

  /** One gate's new streak reaches what is required exactly when its true one does and at most thirteen are required. */
  lemma GateReadiness(initial: Rollout, windows: seq<Window>, n: nat, config: Config, gate: Gate)
    requires Increasing(windows) && 0 < n <= |windows|
    ensures NewStreak(After(initial, windows, n - 1, config).log, gate, GatePasses(windows[n - 1].snapshot, gate, config))
              >= config.requiredWindows
       <==> config.requiredWindows <= RECENT + 1 && TrueStreak(After(initial, windows, n, config).log, gate) >= config.requiredWindows
  {
    var before, log := After(initial, windows, n - 1, config).log, After(initial, windows, n, config).log;
    LogIsChronological(initial, windows, n - 1, config);
    OneMoreDecision(initial, windows, n, config);
    NewStreakIsCapped(before, log[|log| - 1], gate);
    assert before + [log[|log| - 1]] == log;
  }

  /**
   * Although only twelve past decisions are read, readiness is that of the true, unbounded streaks of both gates
   * when at most thirteen windows are required; when more are required nothing is ever ready.
   */
  lemma ReadinessIsExact(initial: Rollout, windows: seq<Window>, n: nat, config: Config)
    requires Increasing(windows) && 0 < n <= |windows|
    ensures var log := After(initial, windows, n, config).log;
            ReadyAt(initial, windows, n, config) <==>
              && config.requiredWindows <= RECENT + 1
              && TrueStreak(log, FalsePositive) >= config.requiredWindows
              && TrueStreak(log, AppealsSla) >= config.requiredWindows
              && windows[n - 1].snapshot.backlogBreaches == 0
  {
    GateReadiness(initial, windows, n, config, FalsePositive);
    GateReadiness(initial, windows, n, config, AppealsSla);
  }

  /** After any evaluation the rollout is frozen exactly in raw-only mode. */
  lemma FrozenIffRawOnly(initial: Rollout, windows: seq<Window>, n: nat, config: Config)
    requires 0 < n <= |windows|
    ensures var r := After(initial, windows, n, config).rollout; r.freezeActive <==> r.mode.RawOnly?
  {
  }

  /** A mode above raw-only needs readiness now, and full-catalog also one evaluation earlier. */
  lemma PromotedWhenReady(initial: Rollout, windows: seq<Window>, n: nat, config: Config)
    requires initial.mode.RawOnly? && n <= |windows|
    ensures var mode := After(initial, windows, n, config).rollout.mode;
            && (!mode.RawOnly? ==> n > 0 && ReadyAt(initial, windows, n, config))
            && (mode.FullCatalog? ==> n > 0 && !After(initial, windows, n - 1, config).rollout.mode.RawOnly?)
  {
  }

  lemma OneMoreDecision(initial: Rollout, windows: seq<Window>, n: nat, config: Config)
    requires 0 < n <= |windows|
    ensures var log := After(initial, windows, n, config).log;
            log != [] && log[..|log| - 1] == After(initial, windows, n - 1, config).log
  {
    var before, log := After(initial, windows, n - 1, config).log, After(initial, windows, n, config).log;
    assert log == before + [log[|log| - 1]];
  }

  /** Ready twice in a row, the true streaks reach one past the required windows. */
  lemma ReadyTwice(initial: Rollout, windows: seq<Window>, n: nat, config: Config)
    requires Increasing(windows) && 1 < n <= |windows| && config.requiredWindows >= 1
    requires ReadyAt(initial, windows, n, config) && ReadyAt(initial, windows, n - 1, config)
    ensures TrueStreak(After(initial, windows, n, config).log, FalsePositive) >= config.requiredWindows + 1
    ensures TrueStreak(After(initial, windows, n, config).log, AppealsSla) >= config.requiredWindows + 1
    ensures windows[n - 1].snapshot.backlogBreaches == 0 && windows[n - 2].snapshot.backlogBreaches == 0
  {
    ReadinessIsExact(initial, windows, n, config);
    ReadinessIsExact(initial, windows, n - 1, config);
    OneMoreDecision(initial, windows, n, config);
  }

  lemma StreakWindowsPassed(initial: Rollout, windows: seq<Window>, n: nat, config: Config, i: nat)
    requires i < n <= |windows|
    requires n - TrueStreak(After(initial, windows, n, config).log, FalsePositive) <= i
    requires n - TrueStreak(After(initial, windows, n, config).log, AppealsSla) <= i
    ensures FalsePositivePasses(windows[i].snapshot, config) && AppealsPasses(windows[i].snapshot, config)
  {
    var log := After(initial, windows, n, config).log;
    LogFollowsWindows(initial, windows, n, config);
    TrueStreakBounded(log, FalsePositive);
    TrueStreakBounded(log, AppealsSla);
    assert Passed(log[i], FalsePositive) && Passed(log[i], AppealsSla);
  }

  /** From raw-only, full-catalog is reached only when the last requiredWindows + 1 windows passed both rate gates. */
  lemma FullCatalogIsEarned(initial: Rollout, windows: seq<Window>, n: nat, config: Config, i: nat)
    requires initial.mode.RawOnly? && Increasing(windows) && n <= |windows| && config.requiredWindows >= 1
    requires After(initial, windows, n, config).rollout.mode.FullCatalog?
    ensures config.requiredWindows + 1 <= n
    ensures n - 1 - config.requiredWindows <= i < n ==> Clean(windows[i].snapshot, config)
    ensures windows[n - 1].snapshot.backlogBreaches == 0 && windows[n - 2].snapshot.backlogBreaches == 0
  {
    PromotedWhenReady(initial, windows, n, config);
    PromotedWhenReady(initial, windows, n - 1, config);
    ReadyTwice(initial, windows, n, config);
    LogFollowsWindows(initial, windows, n, config);
    TrueStreakBounded(After(initial, windows, n, config).log, FalsePositive);
    if n - 1 - config.requiredWindows <= i < n {
      StreakWindowsPassed(initial, windows, n, config, i);
    }
  }

  // ---- The rollout, from the snapshots alone ----

  /** Both rates are there, false positives at most at their threshold and appeals at least at theirs. */
  ghost predicate Clean(s: Snapshot, config: Config) {
    && s.falsePositiveRate.Rate? && s.falsePositiveRate.value <= config.falsePositiveThreshold
    && s.appealsSlaRate.Rate? && s.appealsSlaRate.value >= config.appealsThreshold
  }

  /** The n-th window has no backlog breach, and it and those before it are clean, as many as are required. */
  ghost predicate Open(windows: seq<Window>, n: nat, config: Config)
    requires 0 < n <= |windows|
  {
    && windows[n - 1].snapshot.backlogBreaches == 0
    && config.requiredWindows <= n && config.requiredWindows <= 13
    && forall i :: 0 <= i < n && n - config.requiredWindows <= i ==> Clean(windows[i].snapshot, config)
  }

  /** What each decision records: its window, and whether each gate passed. */
  lemma DecisionsRecordGates(initial: Rollout, windows: seq<Window>, n: nat, config: Config)
    requires n < |windows|
    ensures |After(initial, windows, n + 1, config).log| == n + 1
    ensures After(initial, windows, n + 1, config).log[..n] == After(initial, windows, n, config).log
    ensures var d, r, w := After(initial, windows, n + 1, config).log[n], After(initial, windows, n + 1, config).rollout, windows[n];
            && d.windowTo == w.windowTo && d.createdAt == w.createdAt
            && d.decidedMode == r.mode && d.freezeActive == r.freezeActive
            && (d.falsePositivePass <==>
                  w.snapshot.falsePositiveRate.Rate? && w.snapshot.falsePositiveRate.value <= config.falsePositiveThreshold)
            && (d.appealsPass <==>
                  w.snapshot.appealsSlaRate.Rate? && w.snapshot.appealsSlaRate.value >= config.appealsThreshold)
            && (d.backlogPass <==> w.snapshot.backlogBreaches == 0)
            && Passed(d, FalsePositive) == d.falsePositivePass && Passed(d, AppealsSla) == d.appealsPass
  {
    LogFollowsWindows(initial, windows, n, config);
    OneMoreDecision(initial, windows, n + 1, config);
  }

  lemma {:induction false} StreakIsLongest(log: seq<Decision>, gate: Gate, k: int)
    ensures TrueStreak(log, gate) >= k <==> k <= |log| && forall i :: 0 <= i < |log| && |log| - k <= i ==> Passed(log[i], gate)
  {
    if log != [] {
      var n := |log| - 1;
      if Passed(log[n], gate) {
        StreakIsLongest(log[..n], gate, k - 1);
        assert forall i :: 0 <= i < n ==> log[..n][i] == log[i];
      }
    }
  }

  /** A window is ready exactly when the gate is open by the snapshots. */
  lemma ReadyIffOpen(initial: Rollout, windows: seq<Window>, n: nat, config: Config)
    requires Increasing(windows) && 0 < n <= |windows|
    ensures ReadyAt(initial, windows, n, config) <==> Open(windows, n, config)
  {
    var log, r := After(initial, windows, n, config).log, config.requiredWindows;
    ReadinessIsExact(initial, windows, n, config);
    LogFollowsWindows(initial, windows, n, config);
    StreakIsLongest(log, FalsePositive, r);
    StreakIsLongest(log, AppealsSla, r);
    forall i | 0 <= i < n
      ensures Clean(windows[i].snapshot, config) <==> Passed(log[i], FalsePositive) && Passed(log[i], AppealsSla)
    {
    }
  }

  /**
   * The rollout after any windows, from the snapshots alone: raw-only and frozen exactly when the gate is not open, and
   * full-catalog exactly when it is and was before, or the first window finds it above raw-only.
   */
  lemma RolloutFollowsSnapshots(initial: Rollout, windows: seq<Window>, n: nat, config: Config)
    requires Increasing(windows) && 0 < n <= |windows|
    ensures var r := After(initial, windows, n, config).rollout;
            && (r.mode.RawOnly? <==> !Open(windows, n, config))
            && (r.freezeActive <==> !Open(windows, n, config))
            && (r.mode.FullCatalog? <==>
                  Open(windows, n, config) && if n == 1 then !initial.mode.RawOnly? else Open(windows, n - 1, config))
  {
    ReadyIffOpen(initial, windows, n, config);
    if n > 1 {
      ReadyIffOpen(initial, windows, n - 1, config);
    }
  }

  /** With more than thirteen required windows the mode never leaves raw-only. */
  lemma {:induction false} TooManyWindowsNeverPromote(initial: Rollout, windows: seq<Window>, n: nat, config: Config)
    requires initial.mode.RawOnly? && Increasing(windows) && n <= |windows| && config.requiredWindows > RECENT + 1
    ensures After(initial, windows, n, config).rollout.mode.RawOnly?
  {
    if n > 0 {
      TooManyWindowsNeverPromote(initial, windows, n - 1, config);
      ReadinessIsExact(initial, windows, n, config);
    }
  }

  function Level(mode: Mode): nat {
    match mode
    case RawOnly => 0
    case FlaggedFirst => 1
    case FullCatalog => 2
  }

  /** The mode climbs one level at a time and falls to the bottom at once; the decision type tells which happened. */
  lemma DecisionTypeMeans(initial: Rollout, windows: seq<Window>, n: nat, config: Config)
    requires 0 < n <= |windows|
    ensures |After(initial, windows, n, config).log| == n
    ensures var d := After(initial, windows, n, config).log[n - 1];
            var before := After(initial, windows, n - 1, config).rollout;
            && d.previousMode == before.mode
            && (d.kind == Promote <==> Level(d.decidedMode) > Level(before.mode))
            && (d.kind == Promote ==> Level(d.decidedMode) == Level(before.mode) + 1)
            && (d.kind == Revert <==> before.mode.FullCatalog? && d.decidedMode.RawOnly?)
            && (d.kind == Freeze <==> d.decidedMode.RawOnly? && !before.mode.FullCatalog?
                                      && (before.mode.FlaggedFirst? || !before.freezeActive))
            && (d.kind == Hold ==> d.decidedMode == before.mode)
  {
    LogFollowsWindows(initial, windows, n, config);
    LogFollowsWindows(initial, windows, n - 1, config);
  }
}
