// The nonce part of submit as its steps really interleave: each store call and the signature check of a
// submit is awaited, so the steps of several submits of the ingestion service mix in any order.
module NonceProtocol {
  import opened JsText
  import opened NonceGuard

  /** What a call has done so far; Answered and Threw are its ends. */
  datatype Phase = Arrived | Swept | LookedUp | Counted | Verified | Answered(outcome: Outcome) | Threw

  /**
   * missed says that the lookup found no record; it then happened at time lookedUp, after the first `sweeps` purges.
   * landed says that the record was stored, at time storedAt.
   */
  datatype Call = Call(request: Request, now: int, phase: Phase, missed: bool, lookedUp: nat, sweeps: nat,
                       landed: bool, storedAt: nat)

  /** The store, all calls by arrival, the receive times of the purges so far, and the number of steps taken. */
  datatype State = State(records: Records, calls: seq<Call>, purges: seq<int>, clock: nat)

  /** Fail is a store or verifier call that throws, its effect landed or not. */
  datatype Step =
    | Arrive(request: Request, now: int)
    | Sweep(c: nat)
    | Lookup(c: nat)
    | Count(c: nat)
    | Verify(c: nat, signatureOk: bool)
    | Store(c: nat)
    | Fail(c: nat, lands: bool)

  function KeyOf(call: Call): Text {
    Key(call.request.reporter, call.request.nonce)
  }

  predicate Enabled(s: State, step: Step) {
    if step.Arrive? then true else
    && step.c < |s.calls|
    && var phase := s.calls[step.c].phase;
    match step
    case Sweep(_) => phase.Arrived?
    case Lookup(_) => phase.Swept?
    case Count(_) => phase.LookedUp?
    case Verify(_, _) => phase.Counted?
    case Store(_) => phase.Verified?
    case Fail(_, _) => !phase.Answered? && !phase.Threw?
    case Arrive(_, _) => true
  }

  function SetPhase(s: State, c: nat, phase: Phase): State
    requires c < |s.calls|
  {
    s.(calls := s.calls[c := s.calls[c].(phase := phase)])
  }

  function SweepBy(s: State, c: nat): State
    requires c < |s.calls|
  {
    s.(records := Purge(s.records, s.calls[c].now), purges := s.purges + [s.calls[c].now])
  }

  function StoreBy(config: Config, s: State, c: nat): State
    requires c < |s.calls|
  {
    var call := s.calls[c];
    var record := Record(call.request.reporter, call.request.nonce, call.now, call.now + config.ttl);
    s.(records := s.records[KeyOf(call) := record],
       calls := s.calls[c := call.(landed := true, storedAt := s.clock)])
  }

  /** security-governance/src/index.ts, lines 973-1031, one awaited call per step. */
  function Apply(config: Config, s: State, step: Step): State
    requires Enabled(s, step)
  {
    match step
    case Arrive(request, now) =>
      var phase := if Distance(now, request.timestamp) > config.maxSkew then Answered(TimestampSkewExceeded) else Arrived;
      s.(calls := s.calls + [Call(request, now, phase, false, 0, 0, false, 0)])
    case Sweep(c) =>
      SetPhase(SweepBy(s, c), c, Swept)
    case Lookup(c) =>
      if KeyOf(s.calls[c]) in s.records then SetPhase(s, c, Answered(NonceReplayed))
      else s.(calls := s.calls[c := s.calls[c].(phase := LookedUp, missed := true, lookedUp := s.clock,
                                                sweeps := |s.purges|)])
    case Count(c) =>
      var active := ActiveFor(s.records, s.calls[c].request.reporter, s.calls[c].now);
      SetPhase(s, c, if |active| >= config.maxActive then Answered(NonceRateLimited) else Counted)
    case Verify(c, signatureOk) =>
      SetPhase(s, c, if signatureOk then Verified else Answered(SignatureInvalid))
    case Store(c) =>
      SetPhase(StoreBy(config, s, c), c, Answered(Passed))
    case Fail(c, lands) =>
      SetPhase(if lands && s.calls[c].phase.Arrived? then SweepBy(s, c)
               else if lands && s.calls[c].phase.Verified? then StoreBy(config, s, c)
               else s, c, Threw)
  }

  /** A step that is not possible changes nothing, so every sequence of steps is a run. */
  function Next(config: Config, s: State, step: Step): State {
    (if Enabled(s, step) then Apply(config, s, step) else s).(clock := s.clock + 1)
  }

  function Exec(config: Config, steps: seq<Step>): State {
    if steps == [] then State(map[], [], [], 0)
    else Next(config, Exec(config, steps[..|steps| - 1]), steps[|steps| - 1])
  }

  lemma OneMore(config: Config, steps: seq<Step>, step: Step)
    ensures Exec(config, steps + [step]) == Next(config, Exec(config, steps), step)
  {
    assert (steps + [step])[..|steps|] == steps;
  }

  predicate PassedBy(s: State, c: nat) {
    c < |s.calls| && s.calls[c].phase == Answered(Passed)
  }

  /** Two calls of one key that both stored, each having looked up before the other stored. */
  predicate Overlap(s: State, c: nat, d: nat) {
    && c < |s.calls| && d < |s.calls| && c != d
    && s.calls[c].landed && s.calls[d].landed && KeyOf(s.calls[c]) == KeyOf(s.calls[d])
    && s.calls[c].lookedUp < s.calls[d].storedAt && s.calls[d].lookedUp < s.calls[c].storedAt
  }

  /** A call received later had already purged when this one looked up its nonce. */
  ghost predicate Overtaken(s: State, c: nat) {
    && c < |s.calls| && s.calls[c].missed
    && exists m :: 0 <= m < s.calls[c].sweeps && m < |s.purges| && s.purges[m] > s.calls[c].now
  }

  // ---- Replays ----

  /** One of the first n purges was at time t or later. */
  ghost predicate Gone(s: State, n: nat, t: int) {
    exists m :: 0 <= m < n && m < |s.purges| && s.purges[m] >= t
  }

  ghost predicate CallOk(config: Config, s: State, call: Call) {
    && (call.missed ==> call.lookedUp < s.clock && call.sweeps <= |s.purges|)
    && (call.landed ==>
          && call.missed && call.lookedUp < call.storedAt < s.clock && config.maxActive >= 1
          && (call.phase.Answered? || call.phase.Threw?)
          && Distance(call.now, call.request.timestamp) <= config.maxSkew)
    && (call.phase.Arrived? || call.phase.Swept? ==> !call.missed)
    && (call.phase.LookedUp? || call.phase.Counted? || call.phase.Verified? ==> call.missed && !call.landed)
    && (call.phase.Counted? || call.phase.Verified? ==> config.maxActive >= 1)
    && (call.phase == Answered(Passed) ==> call.landed)
    && (call.phase.Answered? || Distance(call.now, call.request.timestamp) <= config.maxSkew)
  }

  ghost predicate CallsOk(config: Config, s: State) {
    forall c {:trigger s.calls[c]} :: 0 <= c < |s.calls| ==> CallOk(config, s, s.calls[c])
  }

  /** The record of a stored nonce outlives its time to live, or a purge has come after that. */
  ghost predicate Kept(config: Config, s: State, key: Text, i: nat)
    requires i < |s.calls|
  {
    var call := s.calls[i];
    call.landed && KeyOf(call) == key ==>
      || Gone(s, |s.purges|, call.now + config.ttl)
      || (key in s.records && (s.records[key].expiresAt == 0 || s.records[key].expiresAt >= call.now + config.ttl))
  }

  /** A lookup after a store of the key misses only if such a purge had come before it. */
  ghost predicate MissExplained(config: Config, s: State, key: Text, i: nat, d: nat)
    requires i < |s.calls| && d < |s.calls|
  {
    && s.calls[i].landed && KeyOf(s.calls[i]) == key
    && s.calls[d].missed && KeyOf(s.calls[d]) == key
    && s.calls[i].storedAt <= s.calls[d].lookedUp
    ==> Gone(s, s.calls[d].sweeps, s.calls[i].now + config.ttl)
  }

  ghost predicate KeyOk(config: Config, s: State, key: Text) {
    && (forall i {:trigger Kept(config, s, key, i)} :: 0 <= i < |s.calls| ==> Kept(config, s, key, i))
    && (forall i, d {:trigger MissExplained(config, s, key, i, d)} ::
          0 <= i < |s.calls| && 0 <= d < |s.calls| ==> MissExplained(config, s, key, i, d))
  }

  ghost predicate NoOverlap(s: State, key: Text) {
    forall c: nat, d: nat {:trigger Overlap(s, c, d)} :: Overlap(s, c, d) ==> KeyOf(s.calls[c]) != key
  }

  lemma CallsStayOk(config: Config, s: State, step: Step)
    requires CallsOk(config, s)
    ensures CallsOk(config, Next(config, s, step))
  {
  }

  lemma OverlapStays(config: Config, s: State, step: Step, key: Text)
    requires CallsOk(config, s) && NoOverlap(Next(config, s, step), key)
    ensures NoOverlap(s, key)
  {
    forall c: nat, d: nat | Overlap(s, c, d) ensures KeyOf(s.calls[c]) != key {
      assert Overlap(Next(config, s, step), c, d);
    }
  }

  lemma GoneStays(config: Config, s: State, step: Step, n: nat, t: int)
    requires Gone(s, n, t)
    ensures Gone(Next(config, s, step), n, t)
  {
    var m :| 0 <= m < n && m < |s.purges| && s.purges[m] >= t;
    assert Next(config, s, step).purges[m] == s.purges[m];
  }

  predicate Stores(s: State, step: Step) {
    Enabled(s, step) && (step.Store? || (step.Fail? && step.lands && s.calls[step.c].phase.Verified?))
  }

  /** A second call of the key stores without an overlap only if a purge late enough came before its lookup. */
  lemma SecondStoreFollowsPurge(config: Config, s: State, step: Step, key: Text, i: nat)
    requires CallsOk(config, s) && KeyOk(config, s, key) && NoOverlap(Next(config, s, step), key)
    requires Stores(s, step) && step.c != i && KeyOf(s.calls[step.c]) == key
    requires i < |s.calls| && s.calls[i].landed && KeyOf(s.calls[i]) == key
    ensures Gone(s, |s.purges|, s.calls[i].now + config.ttl)
  {
    assert !Overlap(Next(config, s, step), i, step.c);
    assert MissExplained(config, s, key, i, step.c);
  }

  lemma KeptStays(config: Config, s: State, step: Step, key: Text, i: nat)
    requires CallsOk(config, s) && KeyOk(config, s, key) && NoOverlap(Next(config, s, step), key)
    requires i < |Next(config, s, step).calls|
    ensures Kept(config, Next(config, s, step), key, i)
  {
    var t := Next(config, s, step);
    if i < |s.calls| && s.calls[i].landed && KeyOf(s.calls[i]) == key {
      var due := s.calls[i].now + config.ttl;
      if Stores(s, step) && step.c != i && KeyOf(s.calls[step.c]) == key {
        SecondStoreFollowsPurge(config, s, step, key, i);
      }
      assert Kept(config, s, key, i);
      if Gone(s, |s.purges|, due) {
        GoneStays(config, s, step, |s.purges|, due);
      } else if |t.purges| > |s.purges| && key !in t.records {
        assert t.purges[|s.purges|] >= due;
      }
    }
  }

  lemma MissStaysExplained(config: Config, s: State, step: Step, key: Text, i: nat, d: nat)
    requires CallsOk(config, s) && KeyOk(config, s, key)
    requires i < |Next(config, s, step).calls| && d < |Next(config, s, step).calls|
    ensures MissExplained(config, Next(config, s, step), key, i, d)
  {
    if i >= |s.calls| || !s.calls[i].landed || d >= |s.calls| {
      NewStoreIsLater(config, s, step, key, i, d);
    } else if KeyOf(s.calls[i]) == key && KeyOf(s.calls[d]) == key {
      if s.calls[d].missed {
        assert MissExplained(config, s, key, i, d);
        OldMissIsExplained(config, s, step, key, i, d);
      } else if Next(config, s, step).calls[d].missed {
        assert Kept(config, s, key, i);
        LookupMissIsExplained(config, s, step, key, i, d);
      }
    }
  }

  lemma NewStoreIsLater(config: Config, s: State, step: Step, key: Text, i: nat, d: nat)
    requires CallsOk(config, s) && i < |Next(config, s, step).calls| && d < |Next(config, s, step).calls|
    requires i >= |s.calls| || !s.calls[i].landed || d >= |s.calls|
    ensures MissExplained(config, Next(config, s, step), key, i, d)
  {
  }

  lemma OldMissIsExplained(config: Config, s: State, step: Step, key: Text, i: nat, d: nat)
    requires i < |s.calls| && d < |s.calls| && s.calls[i].landed && s.calls[d].missed
    requires CallOk(config, s, s.calls[i]) && CallOk(config, s, s.calls[d]) && MissExplained(config, s, key, i, d)
    ensures MissExplained(config, Next(config, s, step), key, i, d)
  {
    var due := s.calls[i].now + config.ttl;
    if Gone(s, s.calls[d].sweeps, due) {
      GoneStays(config, s, step, s.calls[d].sweeps, due);
    }
  }

  lemma LookupMissIsExplained(config: Config, s: State, step: Step, key: Text, i: nat, d: nat)
    requires i < |s.calls| && Kept(config, s, key, i) && s.calls[i].landed && KeyOf(s.calls[i]) == key
    requires d < |s.calls| && KeyOf(s.calls[d]) == key && !s.calls[d].missed && Next(config, s, step).calls[d].missed
    ensures Gone(Next(config, s, step), Next(config, s, step).calls[d].sweeps, s.calls[i].now + config.ttl)
  {
    assert step == Lookup(d);
    GoneStays(config, s, step, |s.purges|, s.calls[i].now + config.ttl);
  }

  lemma {:induction false} RunsAreOk(config: Config, steps: seq<Step>, key: Text)
    ensures CallsOk(config, Exec(config, steps))
    ensures NoOverlap(Exec(config, steps), key) ==> KeyOk(config, Exec(config, steps), key)
  {
    if steps != [] {
      var init, step := steps[..|steps| - 1], steps[|steps| - 1];
      var s, t := Exec(config, init), Exec(config, steps);
      RunsAreOk(config, init, key);
      CallsStayOk(config, s, step);
      if NoOverlap(t, key) {
        OverlapStays(config, s, step, key);
        forall i | 0 <= i < |t.calls| ensures Kept(config, t, key, i) {
          KeptStays(config, s, step, key, i);
        }
        forall i, d | 0 <= i < |t.calls| && 0 <= d < |t.calls| ensures MissExplained(config, t, key, i, d) {
          MissStaysExplained(config, s, step, key, i, d);
        }
      }
    }
  }

  /**
   * With a time to live over twice the skew, a signed request passes twice in some interleaving only if two calls
   * of its key overlap between lookup and store, or one of the two was overtaken by the purge of a later call.
   */
  lemma ReplayNeedsRace(config: Config, steps: seq<Step>, i: nat, j: nat)
    requires config.ttl > 2 * config.maxSkew && i != j
    requires PassedBy(Exec(config, steps), i) && PassedBy(Exec(config, steps), j)
    requires Exec(config, steps).calls[i].request == Exec(config, steps).calls[j].request
    ensures var s := Exec(config, steps);
            || !NoOverlap(s, KeyOf(s.calls[i]))
            || Overtaken(s, i) || Overtaken(s, j)
  {
    var s := Exec(config, steps);
    var key := KeyOf(s.calls[i]);
    RunsAreOk(config, steps, key);
    if NoOverlap(s, key) {
      assert CallOk(config, s, s.calls[i]) && CallOk(config, s, s.calls[j]);
      assert !Overlap(s, i, j);
      if s.calls[i].storedAt <= s.calls[j].lookedUp {
        LaterIsOvertaken(config, s, key, i, j);
      } else {
        LaterIsOvertaken(config, s, key, j, i);
      }
    }
  }

  lemma LaterIsOvertaken(config: Config, s: State, key: Text, i: nat, j: nat)
    requires config.ttl > 2 * config.maxSkew && i < |s.calls| && j < |s.calls|
    requires CallsOk(config, s) && MissExplained(config, s, key, i, j)
    requires KeyOf(s.calls[i]) == key && s.calls[i].landed && s.calls[j].landed
    requires s.calls[i].request == s.calls[j].request && s.calls[i].storedAt <= s.calls[j].lookedUp
    ensures Overtaken(s, j)
  {
    var due := s.calls[i].now + config.ttl;
    assert CallOk(config, s, s.calls[i]) && CallOk(config, s, s.calls[j]);
    var m :| 0 <= m < s.calls[j].sweeps && m < |s.purges| && s.purges[m] >= due;
    assert s.purges[m] > s.calls[j].now;
  }

  ghost predicate Replayed(s: State, i: nat, j: nat) {
    i < j && PassedBy(s, i) && PassedBy(s, j) && s.calls[i].request == s.calls[j].request
  }

  /** In every interleaving that keeps to the discipline, no request gets past the guard twice. */
  ghost predicate Protected(config: Config, exclusive: bool, prompt: bool) {
    forall steps: seq<Step>, i: nat, j: nat {:trigger Replayed(Exec(config, steps), i, j)} ::
      && (exclusive ==> forall c: nat, d: nat :: !Overlap(Exec(config, steps), c, d))
      && (prompt ==> forall c: nat :: !Overtaken(Exec(config, steps), c))
      ==> !Replayed(Exec(config, steps), i, j)
  }

  // ---- The interleavings that let a request pass twice ----

  /** A call that is about to look up and will find neither its key nor a full quota. */
  predicate Clear(config: Config, s: State, c: nat) {
    && c < |s.calls| && s.calls[c].phase.Swept?
    && KeyOf(s.calls[c]) !in s.records
    && |ActiveFor(s.records, s.calls[c].request.reporter, s.calls[c].now)| < config.maxActive
  }

  lemma ChecksGoThrough(config: Config, steps: seq<Step>, c: nat) returns (more: seq<Step>)
    requires Clear(config, Exec(config, steps), c)
    ensures var s := Exec(config, steps);
            && more == steps + [Lookup(c), Count(c), Verify(c, true)]
            && Exec(config, more) == s.(clock := s.clock + 3, calls := s.calls[c :=
                 s.calls[c].(phase := Verified, missed := true, lookedUp := s.clock, sweeps := |s.purges|)])
  {
    var s := Exec(config, steps);
    var one, two := steps + [Lookup(c)], steps + [Lookup(c)] + [Count(c)];
    more := two + [Verify(c, true)];
    OneMore(config, steps, Lookup(c));
    OneMore(config, one, Count(c));
    OneMore(config, two, Verify(c, true));
    assert Exec(config, more).calls
        == s.calls[c := s.calls[c].(phase := Verified, missed := true, lookedUp := s.clock, sweeps := |s.purges|)];
  }

  /** A call that arrives in time and purges. */
  lemma ArrivesAndSweeps(config: Config, steps: seq<Step>, request: Request, now: int) returns (more: seq<Step>)
    requires Distance(now, request.timestamp) <= config.maxSkew
    ensures var s := Exec(config, steps);
            Exec(config, more) == State(Purge(s.records, now), s.calls + [Call(request, now, Swept, false, 0, 0, false, 0)],
                                        s.purges + [now], s.clock + 2)
  {
    var s := Exec(config, steps);
    var one := steps + [Arrive(request, now)];
    more := one + [Sweep(|s.calls|)];
    OneMore(config, steps, Arrive(request, now));
    OneMore(config, one, Sweep(|s.calls|));
  }

  lemma BothVerified(config: Config, request: Request) returns (steps: seq<Step>)
    requires 0 <= config.maxSkew && 1 <= config.maxActive && request.timestamp == 0
    ensures Exec(config, steps) == State(map[], [Call(request, 0, Verified, true, 4, 2, false, 0),
                                                 Call(request, 0, Verified, true, 7, 2, false, 0)], [0, 0], 10)
  {
    steps := ArrivesAndSweeps(config, [], request, 0);
    steps := ArrivesAndSweeps(config, steps, request, 0);
    assert Exec(config, steps).records == map[];
    assert ActiveFor(map[], request.reporter, 0) == {};
    steps := ChecksGoThrough(config, steps, 0);
    steps := ChecksGoThrough(config, steps, 1);
  }

  /** Two copies of one request in flight together both pass, whatever the time to live. */
  lemma OverlapPassesTwice(config: Config) returns (steps: seq<Step>)
    requires 0 <= config.maxSkew && 1 <= config.maxActive
    ensures Replayed(Exec(config, steps), 0, 1)
    ensures forall c: nat :: !Overtaken(Exec(config, steps), c)
  {
    var ready := BothVerified(config, Request([114], [110], 0));
    OneMore(config, ready, Store(0));
    OneMore(config, ready + [Store(0)], Store(1));
    steps := ready + [Store(0)] + [Store(1)];
  }

  /** A first call that runs on an empty store. */
  lemma FirstPasses(config: Config, request: Request, now: int) returns (steps: seq<Step>)
    requires Distance(now, request.timestamp) <= config.maxSkew && 1 <= config.maxActive
    ensures var key := Key(request.reporter, request.nonce);
            Exec(config, steps) == State(map[key := Record(request.reporter, request.nonce, now, now + config.ttl)],
              [Call(request, now, Answered(Passed), true, 2, 1, true, 5)], [now], 6)
  {
    steps := ArrivesAndSweeps(config, [], request, now);
    assert Exec(config, steps).records == map[];
    assert ActiveFor(map[], request.reporter, now) == {};
    steps := ChecksGoThrough(config, steps, 0);
    OneMore(config, steps, Store(0));
    steps := steps + [Store(0)];
  }

  /** A second copy, received at time g, passes when a purge at time h comes before its lookup and removes the nonce. */
  lemma SweptPassesTwice(config: Config, timestamp: int, f: int, g: int, h: int) returns (steps: seq<Step>)
    requires Distance(f, timestamp) <= config.maxSkew && Distance(g, timestamp) <= config.maxSkew
    requires 1 <= config.maxActive && f <= g <= h
    requires f + config.ttl != 0 && f + config.ttl <= h
    ensures Replayed(Exec(config, steps), 0, 1)
    ensures forall c: nat, d: nat :: !Overlap(Exec(config, steps), c, d)
    ensures g == h ==> forall c: nat :: !Overtaken(Exec(config, steps), c)
  {
    var request, other := Request([114], [110], timestamp), Request([114], [], h);
    steps := FirstPasses(config, request, f);
    steps := ArrivesAndSweeps(config, steps, request, g);
    steps := ArrivesAndSweeps(config, steps, other, h);
    assert Exec(config, steps).records == map[];
    assert ActiveFor(map[], request.reporter, g) == {};
    steps := ChecksGoThrough(config, steps, 1);
    OneMore(config, steps, Store(1));
    steps := steps + [Store(1)];
  }

  /**
   * The nonce store stops replays exactly when the time to live exceeds twice the skew, calls of one key never
   * overlap between lookup and store, and no call is overtaken before its lookup by the purge of a later one
   * (or when nothing can pass at all).
   */
  lemma ProtectedIff(config: Config, exclusive: bool, prompt: bool)
    ensures Protected(config, exclusive, prompt)
        <==> config.maxSkew < 0 || config.maxActive < 1 || (exclusive && prompt && config.ttl > 2 * config.maxSkew)
  {
    if 0 <= config.maxSkew && 1 <= config.maxActive && !(exclusive && prompt && config.ttl > 2 * config.maxSkew) {
      var f := if config.ttl == 0 then 1 else 0;
      var steps;
      if !exclusive {
        steps := OverlapPassesTwice(config);
      } else if !prompt {
        steps := SweptPassesTwice(config, f, f, f, f + (if config.ttl > 0 then config.ttl else 0));
      } else {
        steps := SweptPassesTwice(config, f + config.maxSkew, f, f + 2 * config.maxSkew, f + 2 * config.maxSkew);
      }
      assert Replayed(Exec(config, steps), 0, 1);
    } else {
      forall steps: seq<Step>, i: nat, j: nat
        | && (exclusive ==> forall c: nat, d: nat :: !Overlap(Exec(config, steps), c, d))
          && (prompt ==> forall c: nat :: !Overtaken(Exec(config, steps), c))
        ensures !Replayed(Exec(config, steps), i, j)
      {
        NoneReplayed(config, steps, i, j);
      }
    }
  }

  lemma NoneReplayed(config: Config, steps: seq<Step>, i: nat, j: nat)
    requires || config.maxSkew < 0 || config.maxActive < 1
             || (config.ttl > 2 * config.maxSkew
                 && (forall c: nat, d: nat :: !Overlap(Exec(config, steps), c, d))
                 && forall c: nat :: !Overtaken(Exec(config, steps), c))
    ensures !Replayed(Exec(config, steps), i, j)
  {
    var s := Exec(config, steps);
    RunsAreOk(config, steps, []);
    if Replayed(s, i, j) {
      assert CallOk(config, s, s.calls[i]);
      ReplayNeedsRace(config, steps, i, j);
    }
  }

  // ---- Bounded storage ----

  /** A purge so far would have removed the record: it was stored too late for it. */
  ghost predicate PastDue(s: State, r: Record) {
    exists m :: 0 <= m < |s.purges| && Expired(r, s.purges[m])
  }

  /** The keys of a reporter's stored records that no purge so far would have removed. */
  ghost function FreshFor(s: State, reporter: Text): set<Text> {
    set k | k in s.records && s.records[k].reporter == reporter && !PastDue(s, s.records[k])
  }

  /** The reporter's calls between the count and the store. */
  function PendingFor(s: State, reporter: Text): set<nat> {
    set c: nat | c < |s.calls| && s.calls[c].request.reporter == reporter
                 && (s.calls[c].phase.Counted? || s.calls[c].phase.Verified?)
  }

  lemma FewerIn<T>(a: set<T>, b: set<T>)
    requires a <= b
    ensures |a| <= |b|
  {
    assert b == a + (b - a);
  }

  ghost predicate SweptNow(s: State, c: nat)
    requires c < |s.calls|
  {
    s.calls[c].phase.Swept? || s.calls[c].phase.LookedUp? ==> s.calls[c].now in s.purges
  }

  ghost predicate AllSwept(s: State) {
    forall c: nat {:trigger SweptNow(s, c)} :: c < |s.calls| ==> SweptNow(s, c)
  }

  lemma SweptStays(config: Config, s: State, step: Step)
    requires AllSwept(s)
    ensures AllSwept(Next(config, s, step))
  {
    var t := Next(config, s, step);
    forall c: nat | c < |t.calls| ensures SweptNow(t, c) {
      assert c < |s.calls| ==> SweptNow(s, c);
    }
  }

  lemma PastDueStays(config: Config, s: State, step: Step, r: Record)
    ensures PastDue(s, r) ==> PastDue(Next(config, s, step), r)
  {
    if PastDue(s, r) {
      var m :| 0 <= m < |s.purges| && Expired(r, s.purges[m]);
      assert Next(config, s, step).purges[m] == s.purges[m];
    }
  }

  /** A step that is no store makes no record fresh. */
  lemma FreshShrinks(config: Config, s: State, step: Step, reporter: Text)
    ensures var t := Next(config, s, step);
            FreshFor(t, reporter) <= FreshFor(s, reporter) + (if Stores(s, step) && s.calls[step.c].request.reporter == reporter
                                                              then {KeyOf(s.calls[step.c])} else {})
  {
    var t := Next(config, s, step);
    forall k | k in FreshFor(t, reporter) && !(Stores(s, step) && k == KeyOf(s.calls[step.c]))
      ensures k in FreshFor(s, reporter)
    {
      assert s.records[k] == t.records[k];
      PastDueStays(config, s, step, s.records[k]);
    }
  }

  /** A step other than a successful count adds no pending call, and a store ends one. */
  lemma PendingShrinks(config: Config, s: State, step: Step, reporter: Text)
    requires !(step.Count? && Enabled(s, step) && s.calls[step.c].request.reporter == reporter)
    ensures var t := Next(config, s, step);
            PendingFor(t, reporter) <= PendingFor(s, reporter) - (if Stores(s, step) then {step.c} else {})
  {
  }

  /** Every record that is fresh counts as active for a call that has purged. */
  lemma FreshIsActive(s: State, c: nat)
    requires c < |s.calls| && SweptNow(s, c) && s.calls[c].phase.LookedUp?
    ensures var call := s.calls[c];
            |FreshFor(s, call.request.reporter)| <= |ActiveFor(s.records, call.request.reporter, call.now)|
  {
    var call := s.calls[c];
    var m :| 0 <= m < |s.purges| && s.purges[m] == call.now;
    forall k | k in FreshFor(s, call.request.reporter) ensures !Expired(s.records[k], call.now) {
      assert !Expired(s.records[k], s.purges[m]);
    }
    FewerIn(FreshFor(s, call.request.reporter), ActiveFor(s.records, call.request.reporter, call.now));
  }

  function Bound(config: Config, inFlight: nat): nat {
    if config.maxActive < 1 then 0 else config.maxActive - 1 + inFlight
  }

  lemma StepKeepsBound(config: Config, s: State, step: Step, reporter: Text, inFlight: nat)
    requires AllSwept(s) && |PendingFor(Next(config, s, step), reporter)| <= inFlight
    requires |FreshFor(s, reporter)| + |PendingFor(s, reporter)| <= Bound(config, inFlight)
    ensures var t := Next(config, s, step);
            |FreshFor(t, reporter)| + |PendingFor(t, reporter)| <= Bound(config, inFlight)
  {
    var t := Next(config, s, step);
    FreshShrinks(config, s, step, reporter);
    if step.Count? && Enabled(s, step) && s.calls[step.c].request.reporter == reporter {
      FewerIn(FreshFor(t, reporter), FreshFor(s, reporter));
      assert SweptNow(s, step.c);
      FreshIsActive(s, step.c);
      if |ActiveFor(s.records, reporter, s.calls[step.c].now)| >= config.maxActive {
        FewerIn(PendingFor(t, reporter), PendingFor(s, reporter));
      }
    } else {
      PendingShrinks(config, s, step, reporter);
      var stored := Stores(s, step) && s.calls[step.c].request.reporter == reporter;
      FewerIn(FreshFor(t, reporter), FreshFor(s, reporter) + (if stored then {KeyOf(s.calls[step.c])} else {}));
      FewerIn(PendingFor(t, reporter), PendingFor(s, reporter) - (if stored then {step.c} else {}));
    }
  }

  /**
   * In every interleaving in which at most inFlight calls of a reporter are between count and store at a time, its
   * stored records that no purge so far would have removed never exceed the limit by more than inFlight - 1.
   */
  lemma {:induction false} InFlightBound(config: Config, steps: seq<Step>, reporter: Text, inFlight: nat)
    requires forall n :: 0 <= n <= |steps| ==> |PendingFor(Exec(config, steps[..n]), reporter)| <= inFlight
    ensures AllSwept(Exec(config, steps))
    ensures |FreshFor(Exec(config, steps), reporter)| + |PendingFor(Exec(config, steps), reporter)| <= Bound(config, inFlight)
  {
    if steps == [] {
      assert FreshFor(Exec(config, []), reporter) == {};
      assert PendingFor(Exec(config, []), reporter) == {};
    } else {
      var init, step := steps[..|steps| - 1], steps[|steps| - 1];
      forall n | 0 <= n <= |init| ensures |PendingFor(Exec(config, init[..n]), reporter)| <= inFlight {
        assert init[..n] == steps[..n];
      }
      InFlightBound(config, init, reporter, inFlight);
      SweptStays(config, Exec(config, init), step);
      assert steps[..|steps|] == steps;
      StepKeepsBound(config, Exec(config, init), step, reporter, inFlight);
    }
  }

  /** A store whose record an earlier purge would already have removed. */
  ghost predicate StoresLate(config: Config, s: State, step: Step) {
    Stores(s, step) && PastDue(Next(config, s, step), Next(config, s, step).records[KeyOf(s.calls[step.c])])
  }

  /** Without such late stores every stored record is fresh, so the bound is one on all stored records. */
  lemma {:induction false} StoredIsFresh(config: Config, steps: seq<Step>, reporter: Text)
    requires forall n :: 0 <= n < |steps| ==> !StoresLate(config, Exec(config, steps[..n]), steps[n])
    ensures FreshFor(Exec(config, steps), reporter) == StoredFor(Exec(config, steps).records, reporter)
  {
    if steps != [] {
      var init, step := steps[..|steps| - 1], steps[|steps| - 1];
      forall n | 0 <= n < |init| ensures !StoresLate(config, Exec(config, init[..n]), init[n]) {
        assert init[..n] == steps[..n];
      }
      StoredIsFresh(config, init, reporter);
      StepKeepsFresh(config, Exec(config, init), step, reporter);
    }
  }

  lemma StepKeepsFresh(config: Config, s: State, step: Step, reporter: Text)
    requires FreshFor(s, reporter) == StoredFor(s.records, reporter) && !StoresLate(config, s, step)
    ensures var t := Next(config, s, step);
            FreshFor(t, reporter) == StoredFor(t.records, reporter)
  {
    var t := Next(config, s, step);
    forall k | k in StoredFor(t.records, reporter) ensures !PastDue(t, t.records[k]) {
      if !(Stores(s, step) && k == KeyOf(s.calls[step.c])) {
        assert k in FreshFor(s, reporter);
      }
    }
  }

  /** Unbounded calls in flight make the limit worthless: n of them get n records stored. */
  lemma LimitExceeded(config: Config, n: nat) returns (steps: seq<Step>)
    requires 0 <= config.maxSkew && 1 <= config.maxActive
    ensures |StoredFor(Exec(config, steps).records, [114])| == n
  {
    var ready := AllVerified(config, n);
    steps := StoreFirst(config, ready, n, n);
  }

  function Numbered(i: nat): Request {
    Request([114], seq(i, _ => 110), 0)
  }

  ghost predicate ReadyFrom(s: State, k: nat, n: nat) {
    && |s.calls| == n
    && forall i :: 0 <= i < n ==> s.calls[i].request == Numbered(i) && (i >= k ==> s.calls[i].phase.Verified?)
  }

  lemma {:induction false} AllVerified(config: Config, n: nat) returns (steps: seq<Step>)
    requires 0 <= config.maxSkew && 1 <= config.maxActive
    ensures Exec(config, steps).records == map[] && ReadyFrom(Exec(config, steps), 0, n)
  {
    if n == 0 {
      steps := [];
    } else {
      steps := AllVerified(config, n - 1);
      steps := ArrivesAndSweeps(config, steps, Numbered(n - 1), 0);
      assert Exec(config, steps).records == map[];
      assert ActiveFor(map[], [114], 0) == {};
      steps := ChecksGoThrough(config, steps, n - 1);
    }
  }

  lemma {:induction false} StoreFirst(config: Config, ready: seq<Step>, n: nat, k: nat) returns (steps: seq<Step>)
    requires k <= n && Exec(config, ready).records == map[] && ReadyFrom(Exec(config, ready), 0, n)
    ensures var s := Exec(config, steps);
            && ReadyFrom(s, k, n) && |StoredFor(s.records, [114])| == k
            && forall t :: t in s.records ==> |t| < k + 2
  {
    if k == 0 {
      steps := ready;
      assert StoredFor(map[], [114]) == {};
    } else {
      var before := StoreFirst(config, ready, n, k - 1);
      var s := Exec(config, before);
      OneMore(config, before, Store(k - 1));
      steps := before + [Store(k - 1)];
      StoresOne(config, s, k - 1, n);
    }
  }

  lemma StoresOne(config: Config, s: State, c: nat, n: nat)
    requires c < n && ReadyFrom(s, c, n) && forall t :: t in s.records ==> |t| < c + 2
    ensures var t := Next(config, s, Store(c));
            && ReadyFrom(t, c + 1, n) && |StoredFor(t.records, [114])| == |StoredFor(s.records, [114])| + 1
            && forall u :: u in t.records ==> |u| < c + 3
  {
    var t, key := Next(config, s, Store(c)), KeyOf(s.calls[c]);
    assert |key| == c + 2;
    assert t.records.Keys == s.records.Keys + {key};
    assert StoredFor(t.records, [114]) == StoredFor(s.records, [114]) + {key};
  }

  // ---- The bound is reached ----

  /** In every state so far at most inFlight calls of the reporter were between count and store. */
  ghost predicate AtMost(config: Config, steps: seq<Step>, reporter: Text, inFlight: nat) {
    forall n :: 0 <= n <= |steps| ==> |PendingFor(Exec(config, steps[..n]), reporter)| <= inFlight
  }

  lemma AtMostMore(config: Config, steps: seq<Step>, step: Step, reporter: Text, inFlight: nat)
    requires AtMost(config, steps, reporter, inFlight)
    requires |PendingFor(Exec(config, steps + [step]), reporter)| <= inFlight
    ensures AtMost(config, steps + [step], reporter, inFlight)
  {
    var more := steps + [step];
    forall n | 0 <= n <= |more| ensures |PendingFor(Exec(config, more[..n]), reporter)| <= inFlight {
      if n <= |steps| {
        assert more[..n] == steps[..n];
      } else {
        assert more[..n] == more;
      }
    }
  }

  lemma PendingGrows(config: Config, s: State, step: Step, reporter: Text)
    ensures |PendingFor(Next(config, s, step), reporter)| <= |PendingFor(s, reporter)| + if step.Count? then 1 else 0
  {
    var t := Next(config, s, step);
    if step.Count? {
      FewerIn(PendingFor(t, reporter), PendingFor(s, reporter) + {step.c});
    } else {
      PendingShrinks(config, s, step, reporter);
      FewerIn(PendingFor(t, reporter), PendingFor(s, reporter));
    }
  }

  /** One more step of a run, which stays within its bound unless the step counts a call too many. */
  lemma Goes(config: Config, steps: seq<Step>, step: Step, reporter: Text, inFlight: nat) returns (more: seq<Step>)
    requires AtMost(config, steps, reporter, inFlight)
    requires step.Count? ==> |PendingFor(Exec(config, steps), reporter)| < inFlight
    ensures more == steps + [step] && AtMost(config, more, reporter, inFlight)
    ensures Exec(config, more) == Next(config, Exec(config, steps), step)
    ensures |PendingFor(Exec(config, more), reporter)|
         <= |PendingFor(Exec(config, steps), reporter)| + if step.Count? then 1 else 0
  {
    more := steps + [step];
    assert steps[..|steps|] == steps;
    OneMore(config, steps, step);
    PendingGrows(config, Exec(config, steps), step, reporter);
    AtMostMore(config, steps, step, reporter, inFlight);
  }

  function Nth(reporter: Text, i: nat): Request {
    Request(reporter, seq(i, _ => 110), 0)
  }

  /** The first `stored` calls have stored their records and the other ones are about to. */
  ghost predicate Filled(config: Config, s: State, reporter: Text, stored: nat, verified: nat) {
    && |s.calls| == stored + verified && |PendingFor(s, reporter)| <= verified
    && (forall i :: 0 <= i < |s.calls| ==>
          && s.calls[i].request == Nth(reporter, i) && s.calls[i].now == 0 && (i >= stored ==> s.calls[i].phase.Verified?))
    && (forall i :: 0 <= i < |s.purges| ==> s.purges[i] == 0)
    && (forall k :: k in s.records ==>
          |k| < |reporter| + 1 + stored && s.records[k].reporter == reporter && s.records[k].expiresAt == config.ttl)
    && |s.records| == stored
  }

  lemma FilledActive(config: Config, s: State, reporter: Text, stored: nat, verified: nat)
    requires Filled(config, s, reporter, stored, verified) && config.ttl > 0
    ensures Purge(s.records, 0) == s.records && |ActiveFor(s.records, reporter, 0)| == stored && |FreshFor(s, reporter)| == stored
  {
    assert ActiveFor(s.records, reporter, 0) == s.records.Keys;
    assert FreshFor(s, reporter) == s.records.Keys;
    assert |s.records.Keys| == |s.records|;
  }

  lemma ArriveOne(config: Config, steps: seq<Step>, reporter: Text, inFlight: nat, request: Request) returns (more: seq<Step>)
    requires 0 <= config.maxSkew && request.timestamp == 0 && AtMost(config, steps, reporter, inFlight)
    requires Purge(Exec(config, steps).records, 0) == Exec(config, steps).records
    ensures AtMost(config, more, reporter, inFlight)
    ensures var s := Exec(config, steps);
            && Exec(config, more) == State(s.records, s.calls + [Call(request, 0, Swept, false, 0, 0, false, 0)],
                                           s.purges + [0], s.clock + 2)
            && |PendingFor(Exec(config, more), reporter)| <= |PendingFor(s, reporter)|
  {
    more := Goes(config, steps, Arrive(request, 0), reporter, inFlight);
    more := Goes(config, more, Sweep(|Exec(config, steps).calls|), reporter, inFlight);
  }

  lemma CheckOne(config: Config, steps: seq<Step>, reporter: Text, inFlight: nat, c: nat) returns (more: seq<Step>)
    requires AtMost(config, steps, reporter, inFlight) && Clear(config, Exec(config, steps), c)
    requires |PendingFor(Exec(config, steps), reporter)| < inFlight
    ensures AtMost(config, more, reporter, inFlight)
    ensures var s := Exec(config, steps);
            && Exec(config, more) == s.(clock := s.clock + 3, calls := s.calls[c :=
                 s.calls[c].(phase := Verified, missed := true, lookedUp := s.clock, sweeps := |s.purges|)])
            && |PendingFor(Exec(config, more), reporter)| <= |PendingFor(s, reporter)| + 1
  {
    var expected := ChecksGoThrough(config, steps, c);
    more := Goes(config, steps, Lookup(c), reporter, inFlight);
    more := Goes(config, more, Count(c), reporter, inFlight);
    more := Goes(config, more, Verify(c, true), reporter, inFlight);
    assert more == expected;
  }

  lemma ArrivedIsClear(config: Config, s: State, t: State, reporter: Text, stored: nat, verified: nat)
    requires Filled(config, s, reporter, stored, verified) && config.ttl > 0 && stored < config.maxActive
    requires t.records == s.records
    requires t.calls == s.calls + [Call(Nth(reporter, stored + verified), 0, Swept, false, 0, 0, false, 0)]
    ensures Clear(config, t, stored + verified)
  {
    FilledActive(config, s, reporter, stored, verified);
    assert |KeyOf(t.calls[stored + verified])| == |reporter| + 1 + (stored + verified);
  }

  /** With one more call verified. */
  lemma FilledVerifies(config: Config, s: State, t: State, reporter: Text, stored: nat, verified: nat, call: Call)
    requires Filled(config, s, reporter, stored, verified)
    requires call.request == Nth(reporter, stored + verified) && call.now == 0 && call.phase.Verified?
    requires t.records == s.records && t.calls == s.calls + [call] && t.purges == s.purges + [0]
    requires |PendingFor(t, reporter)| <= verified + 1
    ensures Filled(config, t, reporter, stored, verified + 1)
  {
  }

  lemma VerifyOne(config: Config, steps: seq<Step>, reporter: Text, inFlight: nat, stored: nat, verified: nat)
    returns (more: seq<Step>)
    requires 0 <= config.maxSkew && config.ttl > 0 && stored < config.maxActive && verified < inFlight
    requires AtMost(config, steps, reporter, inFlight) && Filled(config, Exec(config, steps), reporter, stored, verified)
    ensures AtMost(config, more, reporter, inFlight) && Filled(config, Exec(config, more), reporter, stored, verified + 1)
  {
    FilledActive(config, Exec(config, steps), reporter, stored, verified);
    var arrived := ArriveOne(config, steps, reporter, inFlight, Nth(reporter, stored + verified));
    ArrivedIsClear(config, Exec(config, steps), Exec(config, arrived), reporter, stored, verified);
    more := CheckOne(config, arrived, reporter, inFlight, stored + verified);
    var s, t := Exec(config, steps), Exec(config, more);
    var call := t.calls[stored + verified];
    assert t.calls == s.calls + [call];
    FilledVerifies(config, s, t, reporter, stored, verified, call);
  }

  lemma FilledStores(config: Config, s: State, reporter: Text, stored: nat, verified: nat)
    requires Filled(config, s, reporter, stored, verified) && verified > 0
    ensures Filled(config, Next(config, s, Store(stored)), reporter, stored + 1, verified - 1)
  {
    var t, key := Next(config, s, Store(stored)), KeyOf(s.calls[stored]);
    assert |key| == |reporter| + 1 + stored;
    assert key !in s.records;
    PendingShrinks(config, s, Store(stored), reporter);
    assert stored in PendingFor(s, reporter);
    FewerIn(PendingFor(t, reporter), PendingFor(s, reporter) - {stored});
  }

  lemma StoreOne(config: Config, steps: seq<Step>, reporter: Text, inFlight: nat, stored: nat, verified: nat)
    returns (more: seq<Step>)
    requires verified > 0
    requires AtMost(config, steps, reporter, inFlight) && Filled(config, Exec(config, steps), reporter, stored, verified)
    ensures AtMost(config, more, reporter, inFlight) && Filled(config, Exec(config, more), reporter, stored + 1, verified - 1)
  {
    more := Goes(config, steps, Store(stored), reporter, inFlight);
    FilledStores(config, Exec(config, steps), reporter, stored, verified);
  }

  lemma {:induction false} FillOneByOne(config: Config, reporter: Text, inFlight: nat, n: nat) returns (steps: seq<Step>)
    requires 0 <= config.maxSkew && config.ttl > 0 && n <= config.maxActive && inFlight > 0
    ensures AtMost(config, steps, reporter, inFlight) && Filled(config, Exec(config, steps), reporter, n, 0)
  {
    if n == 0 {
      steps := [];
      assert PendingFor(Exec(config, []), reporter) == {};
    } else {
      steps := FillOneByOne(config, reporter, inFlight, n - 1);
      steps := VerifyOne(config, steps, reporter, inFlight, n - 1, 0);
      steps := StoreOne(config, steps, reporter, inFlight, n - 1, 1);
    }
  }

  lemma {:induction false} VerifyMany(config: Config, reporter: Text, inFlight: nat, stored: nat, n: nat)
    returns (steps: seq<Step>)
    requires 0 <= config.maxSkew && config.ttl > 0 && stored < config.maxActive && n <= inFlight && inFlight > 0
    ensures AtMost(config, steps, reporter, inFlight) && Filled(config, Exec(config, steps), reporter, stored, n)
  {
    if n == 0 {
      steps := FillOneByOne(config, reporter, inFlight, stored);
    } else {
      steps := VerifyMany(config, reporter, inFlight, stored, n - 1);
      steps := VerifyOne(config, steps, reporter, inFlight, stored, n - 1);
    }
  }

  lemma {:induction false} StoreMany(config: Config, reporter: Text, inFlight: nat, stored: nat, n: nat)
    returns (steps: seq<Step>)
    requires 0 <= config.maxSkew && config.ttl > 0 && stored < config.maxActive && n <= inFlight && inFlight > 0
    ensures AtMost(config, steps, reporter, inFlight) && Filled(config, Exec(config, steps), reporter, stored + n, inFlight - n)
  {
    if n == 0 {
      steps := VerifyMany(config, reporter, inFlight, stored, inFlight);
    } else {
      steps := StoreMany(config, reporter, inFlight, stored, n - 1);
      steps := StoreOne(config, steps, reporter, inFlight, stored + n - 1, inFlight - n + 1);
    }
  }

  ghost predicate StaysWithin(config: Config, reporter: Text, inFlight: nat, bound: nat) {
    forall steps: seq<Step> {:trigger AtMost(config, steps, reporter, inFlight)} ::
      AtMost(config, steps, reporter, inFlight) ==> |FreshFor(Exec(config, steps), reporter)| <= bound
  }

  /** The bound is the least one, for every limit, every reporter and every number of calls in flight. */
  lemma InFlightBoundIsLeast(config: Config, reporter: Text, inFlight: nat, bound: nat)
    requires 0 <= config.maxSkew && 1 <= config.maxActive && config.ttl > 0 && inFlight > 0
    ensures StaysWithin(config, reporter, inFlight, bound) <==> bound >= config.maxActive - 1 + inFlight
  {
    var full := StoreMany(config, reporter, inFlight, config.maxActive - 1, inFlight);
    FilledActive(config, Exec(config, full), reporter, config.maxActive - 1 + inFlight, 0);
    if bound >= config.maxActive - 1 + inFlight {
      forall steps: seq<Step> | AtMost(config, steps, reporter, inFlight)
        ensures |FreshFor(Exec(config, steps), reporter)| <= bound
      {
        InFlightBound(config, steps, reporter, inFlight);
      }
    }
  }

  // ---- One call by itself ----

  /** t is s with call c answered, or moved on to the given phase. */
  ghost predicate MovedOn(s: State, t: State, c: nat, phase: Phase) {
    && c < |s.calls| == |t.calls| && t.calls[..c] == s.calls[..c]
    && t.calls[c].request == s.calls[c].request && t.calls[c].now == s.calls[c].now && t.calls[c].phase == phase
  }

  /** What the lookup and the count make of a call that has purged. */
  function Checked(config: Config, s: State, call: Call): Phase {
    if call.phase.Answered? then call.phase
    else if KeyOf(call) in s.records then Answered(NonceReplayed)
    else if |ActiveFor(s.records, call.request.reporter, call.now)| >= config.maxActive then Answered(NonceRateLimited)
    else Counted
  }

  lemma CheckSteps(config: Config, s: State, c: nat)
    requires c < |s.calls| && (s.calls[c].phase.Swept? || s.calls[c].phase.Answered?)
    ensures var t := Next(config, Next(config, s, Lookup(c)), Count(c));
            MovedOn(s, t, c, Checked(config, s, s.calls[c])) && t.records == s.records
  {
  }

  /** What the signature check and the store make of a call that has been counted. */
  ghost predicate Settled(config: Config, s: State, t: State, c: nat, signatureOk: bool) {
    && c < |s.calls|
    && var call := s.calls[c];
    if call.phase.Answered? then MovedOn(s, t, c, call.phase) && t.records == s.records
    else if !signatureOk then MovedOn(s, t, c, Answered(SignatureInvalid)) && t.records == s.records
    else MovedOn(s, t, c, Answered(Passed)) && t.records == s.records[KeyOf(call) :=
           Record(call.request.reporter, call.request.nonce, call.now, call.now + config.ttl)]
  }

  lemma StoreSteps(config: Config, s: State, c: nat, signatureOk: bool)
    requires c < |s.calls| && (s.calls[c].phase.Counted? || s.calls[c].phase.Answered?)
    ensures Settled(config, s, Next(config, Next(config, s, Verify(c, signatureOk)), Store(c)), c, signatureOk)
  {
  }

  lemma Checks(config: Config, steps: seq<Step>, c: nat)
    requires var s := Exec(config, steps);
             c < |s.calls| && (s.calls[c].phase.Swept? || s.calls[c].phase.Answered?)
    ensures var s, t := Exec(config, steps), Exec(config, steps + [Lookup(c)] + [Count(c)]);
            MovedOn(s, t, c, Checked(config, s, s.calls[c])) && t.records == s.records
  {
    OneMore(config, steps, Lookup(c));
    OneMore(config, steps + [Lookup(c)], Count(c));
    CheckSteps(config, Exec(config, steps), c);
  }

  lemma Settles(config: Config, steps: seq<Step>, c: nat, signatureOk: bool)
    requires var s := Exec(config, steps);
             c < |s.calls| && (s.calls[c].phase.Counted? || s.calls[c].phase.Answered?)
    ensures Settled(config, Exec(config, steps), Exec(config, steps + [Verify(c, signatureOk)] + [Store(c)]), c, signatureOk)
  {
    OneMore(config, steps, Verify(c, signatureOk));
    OneMore(config, steps + [Verify(c, signatureOk)], Store(c));
    StoreSteps(config, Exec(config, steps), c, signatureOk);
  }

  /** What the arrival and the purge make of a request. */
  ghost predicate Received(config: Config, s: State, t: State, request: Request, now: int) {
    var call := Call(request, now, Swept, false, 0, 0, false, 0);
    if Distance(now, request.timestamp) > config.maxSkew
    then t.records == s.records && t.calls == s.calls + [call.(phase := Answered(TimestampSkewExceeded))]
    else t.records == Purge(s.records, now) && t.calls == s.calls + [call]
  }

  lemma Receives(config: Config, steps: seq<Step>, request: Request, now: int)
    ensures var s, c := Exec(config, steps), |Exec(config, steps).calls|;
            Received(config, s, Exec(config, steps + [Arrive(request, now)] + [Sweep(c)]), request, now)
  {
    OneMore(config, steps, Arrive(request, now));
    OneMore(config, steps + [Arrive(request, now)], Sweep(|Exec(config, steps).calls|));
  }

  /** The last call of t answered a request as the guard does on s. */
  ghost predicate Guarded(config: Config, s: State, t: State, request: Request, now: int, signatureOk: bool) {
    var c, (records, outcome) := |s.calls|, Guard(s.records, config, request, now, signatureOk);
    && t.records == records
    && c < |t.calls| && t.calls[..c] == s.calls && t.calls[c].phase == Answered(outcome)
  }

  lemma PartsMakeGuard(config: Config, s: State, swept: State, checked: State, t: State, request: Request, now: int,
                       signatureOk: bool)
    requires Received(config, s, swept, request, now)
    requires var c := |s.calls|;
             && MovedOn(swept, checked, c, Checked(config, swept, swept.calls[c])) && checked.records == swept.records
             && Settled(config, checked, t, c, signatureOk)
    ensures Guarded(config, s, t, request, now, signatureOk)
  {
    assert swept.calls[..|s.calls|] == s.calls;
  }

  /** With nothing in between, the steps of one call are the guard, whatever the store holds. */
  lemma AloneIsGuard(config: Config, steps: seq<Step>, request: Request, now: int, signatureOk: bool)
    ensures var c := |Exec(config, steps).calls|;
            Guarded(config, Exec(config, steps),
                    Exec(config, steps + [Arrive(request, now)] + [Sweep(c)] + [Lookup(c)] + [Count(c)]
                                       + [Verify(c, signatureOk)] + [Store(c)]), request, now, signatureOk)
  {
    var c := |Exec(config, steps).calls|;
    var swept := steps + [Arrive(request, now)] + [Sweep(c)];
    var checked := swept + [Lookup(c)] + [Count(c)];
    Receives(config, steps, request, now);
    Checks(config, swept, c);
    Settles(config, checked, c, signatureOk);
    PartsMakeGuard(config, Exec(config, steps), Exec(config, swept), Exec(config, checked),
                   Exec(config, checked + [Verify(c, signatureOk)] + [Store(c)]), request, now, signatureOk);
  }
}
