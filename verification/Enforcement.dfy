// The enforcement projection: the strictest live action of a package's history, recomputed on every append,
// and the adjustment the rollout mode makes to a projected state.
module Enforcement {
  import opened JsText
  import opened Sorting
  import TrustGate

  datatype EnforcementState = PolicyBlockedPerm | PolicyBlockedTemp | Flagged | Reinstated | NoState

  datatype Expiry = NoExpiry | At(ms: int)

  /** An empty supersedes stands for none, as in the source's truthiness test; an expiry that cannot be parsed is At(0). */
  datatype Action = Action(id: Text, state: EnforcementState, reason: Text, active: bool, createdAt: int, expiry: Expiry,
                           supersedes: Text)

  datatype Reason = NoReason | Because(code: Text)

  datatype Projection = Projection(state: EnforcementState, reason: Reason, policyBlocked: bool, warningOnly: bool, updatedAt: int)

  type History = seq<Action>

  /** String.prototype.localeCompare, as "not after". */
  type Collation = (Text, Text) -> bool

  /** Smaller is stricter. */
  function Precedence(s: EnforcementState): nat {
    match s
    case PolicyBlockedPerm => 0
    case PolicyBlockedTemp => 1
    case Flagged => 2
    case Reinstated => 3
    case NoState => 4
  }

  function Stricter(a: EnforcementState, b: EnforcementState): EnforcementState {
    if Precedence(a) <= Precedence(b) then a else b
  }

  function Superseded(h: History): set<Text> {
    set i | 0 <= i < |h| && h[i].supersedes != [] :: h[i].supersedes
  }

  method GetSupersededActionIds(h: History) returns (ids: set<Text>)
    ensures ids == Superseded(h)
  {
    ids := {};
    for i := 0 to |h|
      invariant ids == set j | 0 <= j < i && h[j].supersedes != [] :: h[j].supersedes
    {
      if h[i].supersedes != [] {
        ids := ids + {h[i].supersedes};
      }
    }
  }

  predicate Expired(a: Action, now: int) {
    a.expiry.At? && a.expiry.ms != 0 && a.expiry.ms <= now
  }

  predicate Live(a: Action, superseded: set<Text>, now: int) {
    a.active && a.id !in superseded && !Expired(a, now)
  }

  function LiveActions(h: History, superseded: set<Text>, now: int): History {
    Filter((a: Action) => Live(a, superseded, now), h)
  }

  /** Strictest first, then newest, then the greatest id. */
  function ByStrictness(le: Collation): (Action, Action) -> bool {
    (a: Action, b: Action) =>
      if Precedence(a.state) != Precedence(b.state) then Precedence(a.state) < Precedence(b.state)
      else if a.createdAt != b.createdAt then a.createdAt > b.createdAt
      else le(b.id, a.id)
  }

  /** security-governance/src/index.ts, lines 368-442. */
  function Project(h: History, now: int, le: Collation): Projection {
    var live := LiveActions(h, Superseded(h), now);
    if live == [] then Projection(NoState, NoReason, false, false, now)
    else
      var winner := Sort(ByStrictness(le), live)[0];
      Projection(winner.state, Because(winner.reason), winner.state.PolicyBlockedPerm? || winner.state.PolicyBlockedTemp?,
                 winner.state.Flagged?, now)
  }

  /** Actions and current projections by package. */
  class ProjectionStore {
    var actions: map<Text, History>
    var projections: map<Text, Projection>

    constructor ()
      ensures actions == map[] && projections == map[]
    {
      actions, projections := map[], map[];
    }

    function ListActions(package: Text): History
      reads this
    {
      if package in actions then actions[package] else []
    }

    method AppendAction(package: Text, action: Action)
      modifies this`actions
      ensures actions == old(actions)[package := old(ListActions(package)) + [action]]
    {
      actions := actions[package := ListActions(package) + [action]];
    }

    method Recompute(package: Text, now: int, le: Collation) returns (projection: Projection)
      modifies this`projections
      ensures projection == Project(ListActions(package), now, le)
      ensures projections == old(projections)[package := projection]
    {
      var history := ListActions(package);
      var superseded := GetSupersededActionIds(history);
      var live := LiveActions(history, superseded, now);
      if live == [] {
        projection := Projection(NoState, NoReason, false, false, now);
      } else {
        var winner := Sort(ByStrictness(le), live)[0];
        projection := Projection(winner.state, Because(winner.reason),
                                 winner.state.PolicyBlockedPerm? || winner.state.PolicyBlockedTemp?, winner.state.Flagged?, now);
      }
      projections := projections[package := projection];
    }

    method AppendActionAndRecompute(package: Text, action: Action, now: int,
                                    le: Collation) returns (projection: Projection)
      modifies this
      ensures projection == Project(old(ListActions(package)) + [action], now, le)
      ensures actions == old(actions)[package := old(ListActions(package)) + [action]]
      ensures projections == old(projections)[package := projection]
    {
      AppendAction(package, action);
      projection := Recompute(package, now, le);
    }
  }

  // ---- The projection is the strictest live action ----

  ghost predicate IsLive(h: History, a: Action, now: int) {
    a in h && Live(a, Superseded(h), now)
  }

  lemma StrictnessIsTotal(le: Collation)
    requires TotalPreorder(le)
    ensures TotalPreorder(ByStrictness(le))
  {
    var before := ByStrictness(le);
    forall a, b ensures before(a, b) || before(b, a) {
      assert le(a.id, b.id) || le(b.id, a.id);
    }
    forall a, b, c | before(a, b) && before(b, c) ensures before(a, c) {
      assert le(c.id, b.id) && le(b.id, a.id) ==> le(c.id, a.id);
    }
  }

  /** The winner is live, no live action is stricter, and it is the newest of the strictest, by id when these tie. */
  lemma StrictestLiveWins(h: History, now: int, le: Collation) returns (winner: Action)
    requires TotalPreorder(le)
    ensures (forall a :: !IsLive(h, a, now)) ==> Project(h, now, le) == Projection(NoState, NoReason, false, false, now)
    ensures (exists a :: IsLive(h, a, now)) ==>
              && IsLive(h, winner, now)
              && Project(h, now, le).state == winner.state && Project(h, now, le).reason == Because(winner.reason)
              && (forall a :: IsLive(h, a, now) ==> Precedence(winner.state) <= Precedence(a.state))
              && (forall a :: IsLive(h, a, now) && a.state == winner.state ==>
                    a.createdAt < winner.createdAt || (a.createdAt == winner.createdAt && le(a.id, winner.id)))
  {
    var live := LiveActions(h, Superseded(h), now);
    assert forall a :: a in live <==> IsLive(h, a, now);
    if live == [] {
      winner := Action([], NoState, [], false, 0, NoExpiry, []);
    } else {
      assert live[0] in live;
      StrictnessIsTotal(le);
      SortSorts(ByStrictness(le), live);
      SortPermutes(ByStrictness(le), live);
      var sorted := Sort(ByStrictness(le), live);
      winner := sorted[0];
      assert winner in sorted;
      forall a | IsLive(h, a, now) ensures ByStrictness(le)(winner, a) {
        var i :| 0 <= i < |sorted| && sorted[i] == a;
        assert le(a.id, a.id);
      }
    }
  }

  /** The state alone, as a minimum over the live actions. */
  ghost predicate IsStrictest(h: History, now: int, s: EnforcementState) {
    && (forall a :: IsLive(h, a, now) ==> Precedence(s) <= Precedence(a.state))
    && (s == NoState || exists a :: IsLive(h, a, now) && a.state == s)
  }

  lemma ProjectsStrictest(h: History, now: int, le: Collation, s: EnforcementState)
    requires TotalPreorder(le)
    ensures Project(h, now, le).state == s <==> IsStrictest(h, now, s)
  {
    var winner := StrictestLiveWins(h, now, le);
    var p := Project(h, now, le).state;
    assert IsStrictest(h, now, p) by {
      if exists a :: IsLive(h, a, now) {
        assert IsLive(h, winner, now) && winner.state == p;
      }
    }
    if IsStrictest(h, now, s) {
      assert Precedence(s) <= Precedence(p) && Precedence(p) <= Precedence(s);
    }
  }

  predicate Blocks(s: EnforcementState) {
    s.PolicyBlockedPerm? || s.PolicyBlockedTemp?
  }

  /** A package is blocked exactly when some live action blocks it, and only warned about when one flags it and none blocks. */
  lemma BlockedIff(h: History, now: int, le: Collation)
    requires TotalPreorder(le)
    ensures Project(h, now, le).policyBlocked <==> exists a :: IsLive(h, a, now) && Blocks(a.state)
    ensures Project(h, now, le).warningOnly <==>
              (exists a :: IsLive(h, a, now) && a.state.Flagged?) && !exists a :: IsLive(h, a, now) && Blocks(a.state)
  {
    ProjectsStrictest(h, now, le, Project(h, now, le).state);
  }

  // ---- The projection, from the history's fields ----

  /** The i-th action is active, nothing in the history supersedes it, and it has no expiry or a later one. */
  ghost predicate InForce(h: History, i: nat, now: int) {
    && i < |h| && h[i].active
    && (forall j :: 0 <= j < |h| ==> h[j].supersedes == [] || h[j].supersedes != h[i].id)
    && (h[i].expiry.NoExpiry? || h[i].expiry.ms == 0 || h[i].expiry.ms > now)
  }

  /** Some action in force has the state. */
  ghost predicate Held(h: History, s: EnforcementState, now: int) {
    exists i: nat {:trigger InForce(h, i, now)} :: InForce(h, i, now) && h[i].state == s
  }

  lemma InForceIsLive(h: History, i: nat, now: int)
    requires i < |h|
    ensures InForce(h, i, now) <==> Live(h[i], Superseded(h), now)
  {
    if h[i].id in Superseded(h) {
      var j :| 0 <= j < |h| && h[j].supersedes != [] && h[j].supersedes == h[i].id;
    } else {
      forall j | 0 <= j < |h| ensures h[j].supersedes == [] || h[j].supersedes != h[i].id {
        assert h[j].supersedes != [] ==> h[j].supersedes in Superseded(h);
      }
    }
  }

  lemma HeldIsLive(h: History, s: EnforcementState, now: int)
    ensures Held(h, s, now) <==> exists a :: IsLive(h, a, now) && a.state == s
  {
    if a :| IsLive(h, a, now) && a.state == s {
      var i :| 0 <= i < |h| && h[i] == a;
      InForceIsLive(h, i, now);
    }
    if i: nat :| InForce(h, i, now) && h[i].state == s {
      InForceIsLive(h, i, now);
      assert IsLive(h, h[i], now);
    }
  }

  /**
   * The projected state is blocked for good when an action in force says so; else blocked for a time, flagged or
   * reinstated, the first of these that some action in force says; and none when none says any of them.
   */
  lemma StateFromHistory(h: History, now: int, le: Collation)
    requires TotalPreorder(le)
    ensures var p := Project(h, now, le);
            && (p.state == PolicyBlockedPerm <==> Held(h, PolicyBlockedPerm, now))
            && (p.state == PolicyBlockedTemp <==> Held(h, PolicyBlockedTemp, now) && !Held(h, PolicyBlockedPerm, now))
            && (p.state == Flagged <==>
                  Held(h, Flagged, now) && !Held(h, PolicyBlockedTemp, now) && !Held(h, PolicyBlockedPerm, now))
            && (p.state == Reinstated <==>
                  && Held(h, Reinstated, now) && !Held(h, Flagged, now)
                  && !Held(h, PolicyBlockedTemp, now) && !Held(h, PolicyBlockedPerm, now))
            && (p.policyBlocked <==> p.state == PolicyBlockedPerm || p.state == PolicyBlockedTemp)
            && (p.warningOnly <==> p.state == Flagged)
            && p.updatedAt == now
  {
    ProjectsStrictest(h, now, le, Project(h, now, le).state);
    forall s ensures Held(h, s, now) <==> exists a :: IsLive(h, a, now) && a.state == s {
      HeldIsLive(h, s, now);
    }
  }

  /** The reason is that of an action in force with the projected state: the newest such, and then the greatest id. */
  lemma ReasonFromHistory(h: History, now: int, le: Collation) returns (w: nat)
    requires TotalPreorder(le)
    ensures Project(h, now, le).reason == NoReason <==> forall i: nat :: !InForce(h, i, now)
    ensures Project(h, now, le).reason != NoReason ==>
              && InForce(h, w, now) && h[w].state == Project(h, now, le).state
              && Project(h, now, le).reason == Because(h[w].reason)
              && (forall i: nat :: InForce(h, i, now) && h[i].state == h[w].state ==>
                    h[i].createdAt < h[w].createdAt || (h[i].createdAt == h[w].createdAt && le(h[i].id, h[w].id)))
  {
    var winner := StrictestLiveWins(h, now, le);
    forall i: nat | i < |h| ensures InForce(h, i, now) <==> IsLive(h, h[i], now) {
      InForceIsLive(h, i, now);
    }
    w := 0;
    if a :| IsLive(h, a, now) {
      assert IsLive(h, winner, now);
      w :| w < |h| && h[w] == winner;
    }
  }

  /** A state is not shown once every action that has it is inactive, superseded or expired. */
  lemma ExpiredIsNotShown(h: History, s: EnforcementState, now: int, le: Collation)
    requires TotalPreorder(le) && s != NoState
    requires forall i :: 0 <= i < |h| && h[i].state == s ==> !h[i].active || (h[i].expiry.At? && 0 < h[i].expiry.ms <= now)
    ensures Project(h, now, le).state != s
  {
    StateFromHistory(h, now, le);
    assert !Held(h, s, now);
  }

  // ---- History order, time, appends ----

  lemma SameElements(h: History, g: History, now: int)
    requires multiset(h) == multiset(g)
    ensures Superseded(h) == Superseded(g)
    ensures forall a :: IsLive(h, a, now) <==> IsLive(g, a, now)
  {
    assert forall a :: (a in h <==> a in multiset(h)) && (a in g <==> a in multiset(g));
    forall x ensures x in Superseded(h) <==> x in Superseded(g) {
      if x in Superseded(h) {
        var i :| 0 <= i < |h| && h[i].supersedes != [] && h[i].supersedes == x;
        assert h[i] in g;
        var j :| 0 <= j < |g| && g[j] == h[i];
      }
      if x in Superseded(g) {
        var i :| 0 <= i < |g| && g[i].supersedes != [] && g[i].supersedes == x;
        assert g[i] in h;
        var j :| 0 <= j < |h| && h[j] == g[i];
      }
    }
  }

  /** The projected state never depends on history order; the whole projection does not when ids are distinct. */
  lemma HistoryOrderIrrelevant(h: History, g: History, now: int, le: Collation)
    requires TotalPreorder(le) && multiset(h) == multiset(g)
    ensures Project(h, now, le).state == Project(g, now, le).state
    ensures (forall a, b :: a in h && b in h && le(a.id, b.id) && le(b.id, a.id) ==> a == b) ==>
              Project(h, now, le) == Project(g, now, le)
  {
    SameElements(h, g, now);
    var s := Project(h, now, le).state;
    ProjectsStrictest(h, now, le, s);
    assert IsStrictest(g, now, s);
    ProjectsStrictest(g, now, le, s);
    if forall a, b :: a in h && b in h && le(a.id, b.id) && le(b.id, a.id) ==> a == b {
      var p := (a: Action) => Live(a, Superseded(h), now);
      FilterMultiset(p, h, g);
      StrictnessIsTotal(le);
      SortCanonical(ByStrictness(le), LiveActions(h, Superseded(h), now), LiveActions(g, Superseded(h), now));
    }
  }

  /** With no new actions the state never becomes stricter as time passes. */
  lemma TimeOnlyRelaxes(h: History, now: int, later: int, le: Collation)
    requires TotalPreorder(le) && now <= later
    ensures Precedence(Project(h, now, le).state) <= Precedence(Project(h, later, le).state)
  {
    ProjectsStrictest(h, now, le, Project(h, now, le).state);
    ProjectsStrictest(h, later, le, Project(h, later, le).state);
    forall a | IsLive(h, a, later) ensures IsLive(h, a, now) {
    }
  }

  lemma AppendedLive(h: History, a: Action, b: Action, now: int)
    ensures IsLive(h + [a], b, now) <==>
              if b == a then Live(a, Superseded(h), now) && (a.supersedes == [] || a.supersedes != a.id)
              else IsLive(h, b, now) && (a.supersedes == [] || b.id != a.supersedes)
  {
    assert Superseded(h + [a]) == Superseded(h) + (if a.supersedes != [] then {a.supersedes} else {}) by {
      forall x ensures x in Superseded(h + [a]) <==> x in Superseded(h) + (if a.supersedes != [] then {a.supersedes} else {}) {
        if x in Superseded(h) {
          var i :| 0 <= i < |h| && h[i].supersedes != [] && h[i].supersedes == x;
          assert (h + [a])[i] == h[i];
        }
        assert (h + [a])[|h|] == a;
      }
    }
  }

  /** A fresh, active, unexpired action that supersedes nothing gives the stricter of the old state and its own. */
  lemma FreshActionTightens(h: History, a: Action, now: int, le: Collation)
    requires TotalPreorder(le) && Live(a, Superseded(h), now) && a.supersedes == []
    ensures Project(h + [a], now, le).state == Stricter(Project(h, now, le).state, a.state)
  {
    var s := Project(h, now, le).state;
    ProjectsStrictest(h, now, le, s);
    forall b ensures IsLive(h + [a], b, now) <==> b == a || IsLive(h, b, now) {
      AppendedLive(h, a, b, now);
    }
    ProjectsStrictest(h + [a], now, le, Stricter(s, a.state));
  }

  /** An append relaxes the state only by superseding every live action that has the strictest state. */
  lemma RelaxedOnlyBySuperseding(h: History, a: Action, b: Action, now: int, le: Collation)
    requires TotalPreorder(le)
    requires Precedence(Project(h + [a], now, le).state) > Precedence(Project(h, now, le).state)
    requires IsLive(h, b, now) && b.state == Project(h, now, le).state
    ensures a.supersedes != [] && a.supersedes == b.id
  {
    AppendedLive(h, a, b, now);
    ProjectsStrictest(h + [a], now, le, Project(h + [a], now, le).state);
  }

  // ---- What later actions do to a projection ----

  ghost predicate LiveAt(h: History, now: int, i: nat) {
    i < |h| && Live(h[i], Superseded(h), now)
  }

  lemma LaterSupersedeMore(h: History, seen: nat)
    requires seen <= |h|
    ensures Superseded(h[..seen]) <= Superseded(h)
  {
    forall x | x in Superseded(h[..seen]) ensures x in Superseded(h) {
      var i :| 0 <= i < seen && h[..seen][i].supersedes != [] && h[..seen][i].supersedes == x;
      assert h[i].supersedes == x;
    }
  }

  /** No live action among those appended later is stricter than s, and s is none or some live action still has it. */
  ghost predicate StateStays(h: History, seen: nat, now: int, s: EnforcementState) {
    && (forall i: nat :: seen <= i && LiveAt(h, now, i) ==> Precedence(s) <= Precedence(h[i].state))
    && (s == NoState || exists i: nat :: LiveAt(h, now, i) && h[i].state == s)
  }

  /** The state of the first actions is that of the whole history exactly when it stays in that sense. */
  lemma StateStaysIff(h: History, seen: nat, now: int, le: Collation)
    requires TotalPreorder(le) && seen <= |h|
    ensures Project(h[..seen], now, le).state == Project(h, now, le).state
       <==> StateStays(h, seen, now, Project(h[..seen], now, le).state)
  {
    var s := Project(h[..seen], now, le).state;
    ProjectsStrictest(h[..seen], now, le, s);
    ProjectsStrictest(h, now, le, s);
    LaterSupersedeMore(h, seen);
    forall i: nat | LiveAt(h, now, i) ensures IsLive(h, h[i], now) {
    }
    forall i: nat | i < seen && LiveAt(h, now, i) ensures Precedence(s) <= Precedence(h[i].state) {
      assert h[..seen][i] == h[i];
      assert IsLive(h[..seen], h[i], now);
    }
    if StateStays(h, seen, now, s) {
      assert IsStrictest(h, now, s) by {
        forall a | IsLive(h, a, now) ensures Precedence(s) <= Precedence(a.state) {
          var i :| 0 <= i < |h| && h[i] == a;
          assert LiveAt(h, now, i);
        }
      }
    }
    if IsStrictest(h, now, s) && s != NoState {
      var a :| IsLive(h, a, now) && a.state == s;
      var i :| 0 <= i < |h| && h[i] == a;
      assert LiveAt(h, now, i);
    }
  }

  /** Action i is live, no live action comes before it, and of those that tie with it it is the first in the history. */
  ghost predicate Leads(h: History, now: int, le: Collation, i: nat) {
    && LiveAt(h, now, i)
    && (forall j: nat :: LiveAt(h, now, j) ==> ByStrictness(le)(h[i], h[j]))
    && (forall j: nat :: j < i && LiveAt(h, now, j) ==> !ByStrictness(le)(h[j], h[i]))
  }

  /** Where the k-th kept element comes from. */
  lemma {:induction false} FilterPosition<T(!new)>(p: T -> bool, s: seq<T>, k: nat) returns (i: nat)
    requires k < |Filter(p, s)|
    ensures i < |s| && p(s[i]) && s[i] == Filter(p, s)[k] && Filter(p, s[..i]) == Filter(p, s)[..k]
  {
    var init, last := s[..|s| - 1], s[|s| - 1];
    assert s == init + [last];
    FilterLast(p, init, last);
    if k < |Filter(p, init)| {
      i := FilterPosition(p, init, k);
      assert init[..i] == s[..i];
    } else {
      i := |init|;
    }
  }

  /** The live action that the sort puts first is the leader. */
  lemma HeadLeads(h: History, now: int, le: Collation, m: nat, i: nat)
    requires var live := LiveActions(h, Superseded(h), now);
             && m < |live| && i < |h| && h[i] == live[m]
             && LiveActions(h[..i], Superseded(h), now) == live[..m]
             && (forall j :: 0 <= j < |live| ==> ByStrictness(le)(live[m], live[j]))
             && (forall j :: 0 <= j < m ==> !ByStrictness(le)(live[j], live[m]))
    ensures Leads(h, now, le, i)
  {
    var live := LiveActions(h, Superseded(h), now);
    assert h[i] in live;
    forall j: nat | LiveAt(h, now, j) ensures ByStrictness(le)(h[i], h[j]) {
      assert h[j] in live;
      var n :| 0 <= n < |live| && live[n] == h[j];
    }
    forall j: nat | j < i && LiveAt(h, now, j) ensures !ByStrictness(le)(h[j], h[i]) {
      assert h[..i][j] == h[j];
      assert h[j] in live[..m];
      var n :| 0 <= n < m && live[n] == h[j];
    }
  }

  /** When anything is live some action leads, and the projection is its own. */
  lemma LeaderProjects(h: History, now: int, le: Collation) returns (i: nat)
    requires TotalPreorder(le) && exists k: nat :: LiveAt(h, now, k)
    ensures Leads(h, now, le, i)
    ensures Project(h, now, le).state == h[i].state && Project(h, now, le).reason == Because(h[i].reason)
  {
    var live := LiveActions(h, Superseded(h), now);
    var k: nat :| LiveAt(h, now, k);
    assert h[k] in live;
    StrictnessIsTotal(le);
    var m := SortHead(ByStrictness(le), live);
    i := FilterPosition((a: Action) => Live(a, Superseded(h), now), h, m);
    HeadLeads(h, now, le, m, i);
  }

  lemma OneLeader(h: History, now: int, le: Collation, i: nat, j: nat)
    requires Leads(h, now, le, i) && Leads(h, now, le, j)
    ensures i == j
  {
  }

  /** The leader of the first actions leads the whole history exactly when it is still live and none later precedes it. */
  lemma LeaderStaysIff(h: History, seen: nat, now: int, le: Collation, w: nat)
    requires TotalPreorder(le) && seen <= |h| && Leads(h[..seen], now, le, w)
    ensures Leads(h, now, le, w) <==>
              LiveAt(h, now, w) && forall j: nat :: seen <= j && LiveAt(h, now, j) ==> ByStrictness(le)(h[w], h[j])
  {
    LaterSupersedeMore(h, seen);
    forall j: nat | j < seen && LiveAt(h, now, j) ensures LiveAt(h[..seen], now, j) && h[..seen][j] == h[j] {
    }
  }

  /** Nothing is live, or the action that leads gives the projection's state and reason. */
  ghost predicate ProjectionStays(h: History, now: int, le: Collation, p: Projection) {
    if p.state == NoState && p.reason == NoReason then forall i: nat :: !LiveAt(h, now, i)
    else exists v: nat :: Leads(h, now, le, v) && h[v].state == p.state && Because(h[v].reason) == p.reason
  }

  lemma NothingLive(h: History, now: int, le: Collation)
    requires TotalPreorder(le)
    ensures (forall i: nat :: !LiveAt(h, now, i)) <==> Project(h, now, le).reason == NoReason
    ensures Project(h, now, le).reason == NoReason ==> Project(h, now, le) == Projection(NoState, NoReason, false, false, now)
  {
    var live := LiveActions(h, Superseded(h), now);
    if live != [] {
      assert live[0] in live;
      var i :| 0 <= i < |h| && h[i] == live[0];
      assert LiveAt(h, now, i);
    } else {
      forall i: nat ensures !LiveAt(h, now, i) {
        assert i < |h| ==> h[i] !in live;
      }
    }
  }

  lemma FlagsFollowState(h: History, now: int, le: Collation)
    ensures var p := Project(h, now, le);
            p == Projection(p.state, p.reason, Blocks(p.state), p.state.Flagged?, now)
  {
  }

  /** The projection of one history is that of another exactly when it stays in that sense. */
  lemma ProjectionStaysIff(h: History, g: History, now: int, le: Collation)
    requires TotalPreorder(le)
    ensures Project(g, now, le) == Project(h, now, le) <==> ProjectionStays(h, now, le, Project(g, now, le))
  {
    var p := Project(g, now, le);
    NothingLive(h, now, le);
    NothingLive(g, now, le);
    FlagsFollowState(h, now, le);
    FlagsFollowState(g, now, le);
    if Project(h, now, le).reason != NoReason {
      var i := LeaderProjects(h, now, le);
      if j: nat :| Leads(h, now, le, j) && h[j].state == p.state && Because(h[j].reason) == p.reason {
        OneLeader(h, now, le, i, j);
      }
    }
  }

  // ---- Rollout adjustment ----

  /** security-governance/src/index.ts, lines 473-541. */
  function ResolveRollout(state: EnforcementState, rawSource: bool, mode: TrustGate.Mode,
                          freezeActive: bool): EnforcementState {
    var effective := if freezeActive then TrustGate.RawOnly else mode;
    if state.NoState? then state
    else if effective.RawOnly? then
      if rawSource then state else Flagged
    else if effective.FlaggedFirst? then
      if state.PolicyBlockedPerm? || state.PolicyBlockedTemp? then Flagged else state
    else state
  }

  /** The adjustment keeps a state or makes it flagged. */
  lemma RolloutKeepsOrFlags(state: EnforcementState, rawSource: bool, mode: TrustGate.Mode, freezeActive: bool)
    ensures var r, raw := ResolveRollout(state, rawSource, mode, freezeActive), freezeActive || mode.RawOnly?;
            && (r == state || (r == Flagged && state != NoState))
            && (Blocks(r) <==> Blocks(state) && (if raw then rawSource else mode.FullCatalog?))
            && (r == Reinstated <==> state == Reinstated && (raw ==> rawSource))
  {
  }

  /**
   * What a reader of a source sees, from the windows and the history alone: with the rollout at raw-only at first, a package
   * is blocked exactly when an action in force blocks it and the gate is open for the second time in a row, or it is not
   * open and the source is raw.
   */
  lemma BlockedForReaders(h: History, now: int, le: Collation, rawSource: bool, initial: TrustGate.Rollout,
                          windows: seq<TrustGate.Window>, n: nat, config: TrustGate.Config)
    requires TotalPreorder(le) && initial.mode.RawOnly? && TrustGate.Increasing(windows) && 0 < n <= |windows|
    ensures var rollout := TrustGate.After(initial, windows, n, config).rollout;
            Blocks(ResolveRollout(Project(h, now, le).state, rawSource, rollout.mode, rollout.freezeActive))
            <==> && (Held(h, PolicyBlockedPerm, now) || Held(h, PolicyBlockedTemp, now))
                 && if TrustGate.Open(windows, n, config) then n > 1 && TrustGate.Open(windows, n - 1, config) else rawSource
  {
    StateFromHistory(h, now, le);
    TrustGate.RolloutFollowsSnapshots(initial, windows, n, config);
    var rollout := TrustGate.After(initial, windows, n, config).rollout;
    RolloutKeepsOrFlags(Project(h, now, le).state, rawSource, rollout.mode, rollout.freezeActive);
  }

  /**
   * The rollout is meant to weaken enforcement. It strengthens it in exactly one case: a reinstated state from
   * a non-raw source becomes flagged while the rollout is raw-only or frozen.
   */
  lemma RolloutStrengthensIff(state: EnforcementState, rawSource: bool, mode: TrustGate.Mode, freezeActive: bool)
    ensures Precedence(ResolveRollout(state, rawSource, mode, freezeActive)) < Precedence(state)
        <==> state.Reinstated? && !rawSource && (freezeActive || mode.RawOnly?)
    ensures ResolveRollout(ResolveRollout(state, rawSource, mode, freezeActive), rawSource, mode, freezeActive)
         == ResolveRollout(state, rawSource, mode, freezeActive)
    ensures ResolveRollout(state, rawSource, TrustGate.FullCatalog, false) == state
  {
  }
}
