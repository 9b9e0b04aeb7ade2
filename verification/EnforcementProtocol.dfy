// Interleaved appends and recomputes of one package's enforcement projection: each call appends its action, lists
// the history and upserts the projection it computed, and each of these store calls is awaited.
module EnforcementProtocol {
  import opened Sorting
  import opened Enforcement

  /** A listed call has seen the first `seen` actions, at time listedAt. */
  datatype Phase = Arrived | Appended | Listed(seen: nat, listedAt: nat) | Finished

  datatype Call = Call(action: Action, now: int, phase: Phase)

  /** The stored projection, with what the call that stored it had seen. */
  datatype Shown = Nothing | Shown(projection: Projection, seen: nat, listedAt: nat, now: int)

  /** lastAppend is the time just after the last append; clock counts the steps. */
  datatype State = State(history: History, calls: seq<Call>, shown: Shown, lastAppend: nat, clock: nat)

  /** A recompute by itself starts after the append; Fail is a store call that throws, its effect landed or not. */
  datatype Step =
    | Begin(action: Action, now: int)
    | BeginRecompute(now: int)
    | Append(c: nat)
    | List(c: nat)
    | Upsert(c: nat)
    | Fail(c: nat, lands: bool)

  const NO_ACTION := Action([], NoState, [], false, 0, NoExpiry, [])

  predicate Enabled(s: State, step: Step) {
    if step.Begin? || step.BeginRecompute? then true else
    && step.c < |s.calls|
    && var phase := s.calls[step.c].phase;
    match step
    case Append(_) => phase.Arrived?
    case List(_) => phase.Appended?
    case Upsert(_) => phase.Listed?
    case _ => !phase.Finished?
  }

  function SetPhase(s: State, c: nat, phase: Phase): State
    requires c < |s.calls|
  {
    s.(calls := s.calls[c := s.calls[c].(phase := phase)])
  }

  function AppendBy(s: State, c: nat): State
    requires c < |s.calls|
  {
    s.(history := s.history + [s.calls[c].action], lastAppend := s.clock + 1)
  }

  /** What was listed never exceeds the history. */
  function UpsertBy(s: State, c: nat, le: Collation): State
    requires c < |s.calls| && s.calls[c].phase.Listed?
  {
    var call := s.calls[c];
    var seen := if call.phase.seen <= |s.history| then s.history[..call.phase.seen] else s.history;
    s.(shown := Shown(Project(seen, call.now, le), call.phase.seen, call.phase.listedAt, call.now))
  }

  function Apply(s: State, step: Step, le: Collation): State
    requires Enabled(s, step)
  {
    match step
    case Begin(action, now) => s.(calls := s.calls + [Call(action, now, Arrived)])
    case BeginRecompute(now) => s.(calls := s.calls + [Call(NO_ACTION, now, Appended)])
    case Append(c) => SetPhase(AppendBy(s, c), c, Appended)
    case List(c) => SetPhase(s, c, Listed(|s.history|, s.clock))
    case Upsert(c) => SetPhase(UpsertBy(s, c, le), c, Finished)
    case Fail(c, lands) =>
      SetPhase(if lands && s.calls[c].phase.Arrived? then AppendBy(s, c)
               else if lands && s.calls[c].phase.Listed? then UpsertBy(s, c, le)
               else s, c, Finished)
  }

  /** A step that is not possible changes nothing, so every sequence of steps is a run. */
  function Next(s: State, step: Step, le: Collation): State {
    (if Enabled(s, step) then Apply(s, step, le) else s).(clock := s.clock + 1)
  }

  function Exec(steps: seq<Step>, le: Collation): State {
    if steps == [] then State([], [], Nothing, 0, 0)
    else Next(Exec(steps[..|steps| - 1], le), steps[|steps| - 1], le)
  }

  predicate Upserts(s: State, step: Step) {
    Enabled(s, step) && (step.Upsert? || (step.Fail? && step.lands && s.calls[step.c].phase.Listed?))
  }

  /** What was listed at a time is the whole history exactly when nothing was appended since. */
  ghost predicate SeenOk(s: State, seen: nat, listedAt: nat) {
    seen <= |s.history| && listedAt < s.clock && (seen == |s.history| <==> s.lastAppend <= listedAt)
  }

  ghost predicate CallOk(s: State, c: nat)
    requires c < |s.calls|
  {
    s.calls[c].phase.Listed? ==> SeenOk(s, s.calls[c].phase.seen, s.calls[c].phase.listedAt)
  }

  ghost predicate Inv(s: State, le: Collation) {
    && s.lastAppend <= s.clock
    && (forall c: nat {:trigger CallOk(s, c)} :: c < |s.calls| ==> CallOk(s, c))
    && (s.shown.Shown? ==>
          && SeenOk(s, s.shown.seen, s.shown.listedAt)
          && s.shown.projection == Project(s.history[..s.shown.seen], s.shown.now, le))
  }

  lemma StepKeepsInv(s: State, step: Step, le: Collation)
    requires Inv(s, le)
    ensures Inv(Next(s, step, le), le)
  {
    var t := Next(s, step, le);
    forall c: nat | c < |t.calls| ensures CallOk(t, c) {
      assert c < |s.calls| ==> CallOk(s, c);
    }
    if Upserts(s, step) {
      assert CallOk(s, step.c);
    } else if s.shown.Shown? {
      assert t.history[..s.shown.seen] == s.history[..s.shown.seen];
    }
  }

  lemma {:induction false} RunKeepsInv(steps: seq<Step>, le: Collation)
    ensures Inv(Exec(steps, le), le)
  {
    if steps != [] {
      RunKeepsInv(steps[..|steps| - 1], le);
      StepKeepsInv(Exec(steps[..|steps| - 1], le), steps[|steps| - 1], le);
    }
  }

  /** The stored projection is that of what its writer listed: all of the history exactly when nothing was appended since. */
  lemma ShownIsOfPrefix(steps: seq<Step>, le: Collation)
    requires Exec(steps, le).shown.Shown?
    ensures var s := Exec(steps, le);
            && s.shown.seen <= |s.history|
            && s.shown.projection == Project(s.history[..s.shown.seen], s.shown.now, le)
            && (s.shown.seen == |s.history| <==> s.lastAppend <= s.shown.listedAt)
  {
    RunKeepsInv(steps, le);
  }

  /**
   * In every interleaving the stored state is that of the whole history exactly when no live action that the writer did
   * not list is stricter, and some live action still has it or it is none; the whole stored projection is, exactly when
   * nothing is live or the action that leads the whole history gives the stored state and reason.
   */
  lemma ShownIsCurrentIff(steps: seq<Step>, le: Collation)
    requires TotalPreorder(le) && Exec(steps, le).shown.Shown?
    ensures var s := Exec(steps, le);
            var p, now := s.shown.projection, s.shown.now;
            && (p.state == Project(s.history, now, le).state <==> StateStays(s.history, s.shown.seen, now, p.state))
            && (p == Project(s.history, now, le) <==> ProjectionStays(s.history, now, le, p))
  {
    ShownIsOfPrefix(steps, le);
    var s := Exec(steps, le);
    StateStaysIff(s.history, s.shown.seen, s.shown.now, le);
    ProjectionStaysIff(s.history, s.history[..s.shown.seen], s.shown.now, le);
  }

  // ---- When the projection is always current ----

  ghost predicate AllFinished(s: State) {
    forall c :: 0 <= c < |s.calls| ==> s.calls[c].phase.Finished?
  }

  /** An upsert of what was listed before the last append. */
  predicate UpsertsStale(s: State, step: Step) {
    Upserts(s, step) && s.lastAppend > s.calls[step.c].phase.listedAt
  }

  /** A call that fails after its append took effect and before its upsert does. */
  predicate BreaksOff(s: State, step: Step) {
    && step.Fail? && step.c < |s.calls|
    && match s.calls[step.c].phase
       case Arrived => step.lands
       case Appended => true
       case Listed(_, _) => !step.lands
       case Finished => false
  }

  ghost predicate Disciplined(steps: seq<Step>, le: Collation, exclusive: bool, unbroken: bool) {
    forall n: nat {:trigger Exec(steps[..n], le)} :: n < |steps| ==>
      && (exclusive ==> !UpsertsStale(Exec(steps[..n], le), steps[n]))
      && (unbroken ==> !BreaksOff(Exec(steps[..n], le), steps[n]))
  }

  /** Once all calls of a disciplined run are finished, the stored projection is that of the whole history. */
  ghost predicate AlwaysCurrent(le: Collation, exclusive: bool, unbroken: bool) {
    forall steps: seq<Step> {:trigger Exec(steps, le)} ::
      Disciplined(steps, le, exclusive, unbroken) && AllFinished(Exec(steps, le)) && Exec(steps, le).shown.Shown? ==>
        Exec(steps, le).shown.projection == Project(Exec(steps, le).history, Exec(steps, le).shown.now, le)
  }

  /** A call that will upsert the whole history as it is now, if it goes on. */
  predicate WillCatchUp(s: State, c: nat) {
    && c < |s.calls|
    && (s.calls[c].phase.Appended? || (s.calls[c].phase.Listed? && s.lastAppend <= s.calls[c].phase.listedAt))
  }

  ghost predicate UpToDate(s: State) {
    || s.history == []
    || (s.shown.Shown? && s.lastAppend <= s.shown.listedAt)
    || exists c: nat :: WillCatchUp(s, c)
  }

  lemma StepKeepsUpToDate(s: State, step: Step, le: Collation)
    requires Inv(s, le) && UpToDate(s) && !UpsertsStale(s, step) && !BreaksOff(s, step)
    ensures UpToDate(Next(s, step, le))
  {
    var t := Next(s, step, le);
    if Enabled(s, step) && step.Append? {
      assert WillCatchUp(t, step.c);
    } else if c: nat :| WillCatchUp(s, c) {
      if !(Upserts(s, step) && step.c == c) {
        assert WillCatchUp(t, c);
      }
    }
  }

  lemma {:induction false} DisciplinedStaysUpToDate(steps: seq<Step>, le: Collation)
    requires Disciplined(steps, le, true, true)
    ensures UpToDate(Exec(steps, le))
  {
    if steps != [] {
      var n := |steps| - 1;
      forall m: nat | m < n
        ensures !UpsertsStale(Exec(steps[..n][..m], le), steps[m]) && !BreaksOff(Exec(steps[..n][..m], le), steps[m])
      {
        assert steps[..n][..m] == steps[..m];
      }
      DisciplinedStaysUpToDate(steps[..n], le);
      RunKeepsInv(steps[..n], le);
      StepKeepsUpToDate(Exec(steps[..n], le), steps[n], le);
    }
  }

  lemma DisciplinedIsCurrent(steps: seq<Step>, le: Collation)
    requires Disciplined(steps, le, true, true) && AllFinished(Exec(steps, le)) && Exec(steps, le).shown.Shown?
    ensures Exec(steps, le).shown.projection == Project(Exec(steps, le).history, Exec(steps, le).shown.now, le)
  {
    DisciplinedStaysUpToDate(steps, le);
    ShownIsOfPrefix(steps, le);
    var s := Exec(steps, le);
    assert forall c: nat :: !WillCatchUp(s, c);
    assert s.history[..|s.history|] == s.history;
  }

  lemma OneMore(steps: seq<Step>, step: Step, le: Collation)
    ensures Exec(steps + [step], le) == Next(Exec(steps, le), step, le)
  {
    assert (steps + [step])[..|steps|] == steps;
  }

  lemma BothArrived(first: Action, block: Action, now: int, le: Collation) returns (steps: seq<Step>)
    ensures forall n :: 0 <= n < |steps| ==> !steps[n].Fail?
    ensures Exec(steps, le) == State([], [Call(first, now, Arrived), Call(block, now, Arrived)], Nothing, 0, 2)
  {
    steps := [Begin(first, now)];
    OneMore([], Begin(first, now), le);
    OneMore(steps, Begin(block, now), le);
    steps := steps + [Begin(block, now)];
  }

  lemma BothListed(first: Action, block: Action, now: int, le: Collation) returns (steps: seq<Step>)
    ensures forall n :: 0 <= n < |steps| ==> !steps[n].Fail?
    ensures Exec(steps, le)
         == State([first, block], [Call(first, now, Listed(1, 3)), Call(block, now, Listed(2, 5))], Nothing, 5, 6)
  {
    var s2 := BothArrived(first, block, now, le);
    OneMore(s2, Append(0), le);
    var s3 := s2 + [Append(0)];
    OneMore(s3, List(0), le);
    var s4 := s3 + [List(0)];
    assert Exec(s4, le) == State([first], [Call(first, now, Listed(1, 3)), Call(block, now, Arrived)], Nothing, 3, 4);
    OneMore(s4, Append(1), le);
    var s5 := s4 + [Append(1)];
    OneMore(s5, List(1), le);
    steps := s5 + [List(1)];
  }

  lemma LastIgnored(first: Action, block: Action, now: int, le: Collation)
    requires TotalPreorder(le)
    requires first.state.Flagged? && block.state.PolicyBlockedPerm? && first.supersedes == [] && block.supersedes == []
    requires Live(block, {}, now)
    ensures !Project([first], now, le).policyBlocked && Project([first, block], now, le).policyBlocked
  {
    BlockedIff([first], now, le);
    BlockedIff([first, block], now, le);
    assert Superseded([first, block]) == {};
    assert IsLive([first, block], block, now);
  }

  lemma ThenStoreSwapped(first: Action, block: Action, now: int, le: Collation) returns (steps: seq<Step>)
    ensures forall n :: 0 <= n < |steps| ==> !steps[n].Fail?
    ensures Exec(steps, le) == State([first, block], [Call(first, now, Finished), Call(block, now, Finished)],
                                     Shown(Project([first], now, le), 1, 3, now), 5, 8)
  {
    var ready := BothListed(first, block, now, le);
    OneMore(ready, Upsert(1), le);
    var later := ready + [Upsert(1)];
    assert Exec(later, le) == State([first, block], [Call(first, now, Listed(1, 3)), Call(block, now, Finished)],
                                    Exec(later, le).shown, 5, 7);
    OneMore(later, Upsert(0), le);
    steps := later + [Upsert(0)];
    assert [first, block][..1] == [first];
  }

  /** Two calls suffice to lose a block: the one that listed first stores last, and nothing corrects it. */
  lemma BlockIsLost(first: Action, block: Action, now: int, le: Collation) returns (steps: seq<Step>)
    requires TotalPreorder(le)
    requires first.state.Flagged? && block.state.PolicyBlockedPerm? && first.supersedes == [] && block.supersedes == []
    requires Live(block, {}, now)
    ensures Disciplined(steps, le, false, true)
    ensures var s := Exec(steps, le);
            && AllFinished(s) && s.history == [first, block]
            && s.shown.Shown? && s.shown.now == now && !s.shown.projection.policyBlocked
            && Project(s.history, now, le).policyBlocked
  {
    steps := ThenStoreSwapped(first, block, now, le);
    LastIgnored(first, block, now, le);
  }

  lemma AloneIsShown(first: Action, now: int, le: Collation) returns (steps: seq<Step>)
    ensures |steps| == 4 && !steps[0].Upsert? && !steps[1].Upsert? && !steps[2].Upsert?
    ensures forall n :: 0 <= n < 4 ==> !steps[n].Fail?
    ensures !UpsertsStale(Exec(steps[..3], le), steps[3])
    ensures Exec(steps, le) == State([first], [Call(first, now, Finished)], Shown(Project([first], now, le), 1, 2, now), 2, 4)
  {
    var s1, s2 := [Begin(first, now)], [Begin(first, now), Append(0)];
    var s3 := s2 + [List(0)];
    OneMore([], Begin(first, now), le);
    OneMore(s1, Append(0), le);
    OneMore(s2, List(0), le);
    OneMore(s3, Upsert(0), le);
    steps := s3 + [Upsert(0)];
    assert Exec(s3, le) == State([first], [Call(first, now, Listed(1, 2))], Nothing, 2, 3);
    assert steps[..3] == s3;
    assert [first][..1] == [first];
  }

  lemma ThenBreaks(first: Action, block: Action, now: int, le: Collation) returns (steps: seq<Step>)
    ensures Disciplined(steps, le, true, false)
    ensures Exec(steps, le) == State([first, block], [Call(first, now, Finished), Call(block, now, Finished)],
                                     Shown(Project([first], now, le), 1, 2, now), 6, 7)
  {
    var s4 := AloneIsShown(first, now, le);
    var s5, s6 := s4 + [Begin(block, now)], s4 + [Begin(block, now)] + [Append(1)];
    OneMore(s4, Begin(block, now), le);
    OneMore(s5, Append(1), le);
    OneMore(s6, Fail(1, false), le);
    assert Exec(s6, le) == State([first, block], [Call(first, now, Finished), Call(block, now, Appended)],
                                 Shown(Project([first], now, le), 1, 2, now), 6, 6);
    steps := s6 + [Fail(1, false)];
    assert steps[..3] == s4[..3] && steps[..6] == s6;
    forall n: nat | n < |steps| ensures !UpsertsStale(Exec(steps[..n], le), steps[n]) {
      assert n < 4 ==> steps[n] == s4[n];
    }
  }

  /** A call that fails between its append and its upsert loses its block, with no other call around. */
  lemma BreakLosesBlock(first: Action, block: Action, now: int, le: Collation) returns (steps: seq<Step>)
    requires TotalPreorder(le)
    requires first.state.Flagged? && block.state.PolicyBlockedPerm? && first.supersedes == [] && block.supersedes == []
    requires Live(block, {}, now)
    ensures Disciplined(steps, le, true, false)
    ensures var s := Exec(steps, le);
            AllFinished(s) && s.shown.Shown? && s.shown.projection != Project(s.history, s.shown.now, le)
  {
    steps := ThenBreaks(first, block, now, le);
    LastIgnored(first, block, now, le);
  }

  /**
   * The stored projection is always that of the whole history once all calls are finished exactly when no call upserts
   * what it listed before another one's append, and none fails between its append and its upsert.
   */
  lemma AlwaysCurrentIff(le: Collation, exclusive: bool, unbroken: bool)
    requires TotalPreorder(le)
    ensures AlwaysCurrent(le, exclusive, unbroken) <==> exclusive && unbroken
  {
    var first := Action([], Flagged, [], true, 0, NoExpiry, []);
    var block := Action([1], PolicyBlockedPerm, [], true, 0, NoExpiry, []);
    if !exclusive {
      var steps := BlockIsLost(first, block, 0, le);
      assert !AlwaysCurrent(le, exclusive, unbroken);
    } else if !unbroken {
      var steps := BreakLosesBlock(first, block, 0, le);
      assert !AlwaysCurrent(le, exclusive, unbroken);
    } else {
      forall steps: seq<Step> | Disciplined(steps, le, true, true) && AllFinished(Exec(steps, le)) && Exec(steps, le).shown.Shown?
        ensures Exec(steps, le).shown.projection == Project(Exec(steps, le).history, Exec(steps, le).shown.now, le)
      {
        DisciplinedIsCurrent(steps, le);
      }
    }
  }
}
