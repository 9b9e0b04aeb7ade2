// The actions of an install plan: how createPlan derives them from the discovered scopes, and what
// running them over the scope files does when the adapter may fail at any call.
module InstallActions {
  import opened JsText
  import opened Sorting
  import opened ScopeFiles

  datatype Scope = Workspace | UserProfile | DaemonDefault

  datatype Descriptor = Descriptor(scope: Scope, path: Text, writable: bool, approved: bool, daemonOwned: bool)

  datatype ActionType = WriteScope | SkipScope

  datatype ActionStatus = Pending | Applied | Skipped | Failed

  datatype Reason =
    | PolicyPreflightBlocked | ScopeWritableApproved | ScopeNotApproved | ScopeNotWritable | ScopeUnowned
    | TrustGateBlocked | ScopeNotFound | AdapterFailed
    | ApplyOk | UpdateOk | RemoveOk | RollbackRestoreOk | RollbackCleanupOk

  datatype Action = Action(kind: ActionType, scope: Scope, path: Text, status: ActionStatus, reason: Reason)

  // ---- Planning ----

  function Rank(scope: Scope): nat {
    match scope
    case Workspace => 0
    case UserProfile => 1
    case DaemonDefault => 2
  }

  predicate ByScope(a: Descriptor, b: Descriptor) {
    Rank(a.scope) <= Rank(b.scope)
  }

  predicate Usable(d: Descriptor) {
    d.writable && d.approved && d.daemonOwned
  }

  function ActionFor(d: Descriptor, blocked: bool): Action {
    if Usable(d) then
      if blocked then Action(SkipScope, d.scope, d.path, Pending, PolicyPreflightBlocked)
      else Action(WriteScope, d.scope, d.path, Pending, ScopeWritableApproved)
    else
      Action(SkipScope, d.scope, d.path, Pending,
             if !d.approved then ScopeNotApproved else if !d.writable then ScopeNotWritable else ScopeUnowned)
  }

  /** The scopes in planning order: the usable ones by scope rank, then the others by scope rank. */
  function PlanOrder(discovered: seq<Descriptor>): seq<Descriptor> {
    var ordered := Sort(ByScope, discovered);
    Filter(Usable, ordered) + Filter((d: Descriptor) => !Usable(d), ordered)
  }

  /** Action number i has action_order i. */
  function PlanActions(discovered: seq<Descriptor>, blocked: bool): (r: seq<Action>)
    ensures |r| == |PlanOrder(discovered)|
    ensures blocked ==> forall i :: 0 <= i < |r| ==> r[i].kind == SkipScope
  {
    var ordered := PlanOrder(discovered);
    seq(|ordered|, i requires 0 <= i < |ordered| => ActionFor(ordered[i], blocked))
  }

  lemma FilterSplits<T(!new)>(p: T -> bool, q: T -> bool, s: seq<T>)
    requires forall x :: q(x) <==> !p(x)
    ensures multiset(Filter(p, s)) + multiset(Filter(q, s)) == multiset(s)
  {
    forall x ensures (multiset(Filter(p, s)) + multiset(Filter(q, s)))[x] == multiset(s)[x] {
      FilterCount(p, s, x);
      FilterCount(q, s, x);
    }
  }

  lemma {:induction false} FilterKeepsOrder<T(!new)>(le: (T, T) -> bool, p: T -> bool, s: seq<T>)
    requires SortedBy(le, s)
    ensures SortedBy(le, Filter(p, s))
  {
    if s != [] {
      FilterKeepsOrder(le, p, s[1..]);
      var rest := Filter(p, s[1..]);
      forall j | 0 <= j < |rest| ensures le(s[0], rest[j]) {
        assert rest[j] in s[1..];
      }
    }
  }

  /** Every discovered scope gets one action; usable scopes come first, each group in scope order. */
  lemma PlanOrderIsFair(discovered: seq<Descriptor>)
    ensures multiset(PlanOrder(discovered)) == multiset(discovered)
    ensures var order := PlanOrder(discovered);
            forall i, j :: 0 <= i < j < |order| ==>
              && (Usable(order[j]) ==> Usable(order[i]))
              && (Usable(order[i]) == Usable(order[j]) ==> Rank(order[i].scope) <= Rank(order[j].scope))
  {
    var ordered := Sort(ByScope, discovered);
    var no := (d: Descriptor) => !Usable(d);
    SortPermutes(ByScope, discovered);
    SortSorts(ByScope, discovered);
    FilterSplits(Usable, no, ordered);
    FilterKeepsOrder(ByScope, Usable, ordered);
    FilterKeepsOrder(ByScope, no, ordered);
    TwoGroups(Filter(Usable, ordered), Filter(no, ordered));
  }

  lemma TwoGroups(a: seq<Descriptor>, b: seq<Descriptor>)
    requires SortedBy(ByScope, a) && SortedBy(ByScope, b)
    requires (forall d :: d in a ==> Usable(d)) && forall d :: d in b ==> !Usable(d)
    ensures var order := a + b;
            forall i, j :: 0 <= i < j < |order| ==>
              && (Usable(order[j]) ==> Usable(order[i]))
              && (Usable(order[i]) == Usable(order[j]) ==> Rank(order[i].scope) <= Rank(order[j].scope))
  {
  }

  /** Scopes of one rank, both usable or both not, are planned in the order they were discovered in. */
  lemma PlanOrderIsStable(discovered: seq<Descriptor>, scope: Scope, usable: bool)
    ensures var group := (d: Descriptor) => d.scope == scope && Usable(d) == usable;
            Filter(group, PlanOrder(discovered)) == Filter(group, discovered)
  {
    var group := (d: Descriptor) => d.scope == scope && Usable(d) == usable;
    var no := (d: Descriptor) => !Usable(d);
    var ordered := Sort(ByScope, discovered);
    SortStable(ByScope, discovered, group);
    FilterConcat(group, Filter(Usable, ordered), Filter(no, ordered));
    FilterFilter(group, Usable, ordered);
    FilterFilter(group, no, ordered);
  }

  /** A plan writes exactly the discovered scopes that are writable, approved and owned, unless it is blocked. */
  lemma PlanWritesUsableScopes(discovered: seq<Descriptor>, blocked: bool, scope: Scope, path: Text)
    ensures (exists i :: 0 <= i < |PlanActions(discovered, blocked)| && Writes(PlanActions(discovered, blocked)[i], scope, path))
       <==> !blocked && exists i :: 0 <= i < |discovered| && Offers(discovered[i], scope, path)
  {
    var order, actions := PlanOrder(discovered), PlanActions(discovered, blocked);
    if i :| 0 <= i < |actions| && Writes(actions[i], scope, path) {
      var j := SameScopes(discovered, i);
      assert Offers(discovered[j], scope, path);
    }
    if i :| 0 <= i < |discovered| && Offers(discovered[i], scope, path) {
      var j := Planned(discovered, i);
      assert !blocked ==> Writes(actions[j], scope, path);
    }
  }

  lemma SameScopes(discovered: seq<Descriptor>, i: nat) returns (j: nat)
    requires i < |PlanOrder(discovered)|
    ensures j < |discovered| && discovered[j] == PlanOrder(discovered)[i]
  {
    PlanOrderIsFair(discovered);
    assert PlanOrder(discovered)[i] in multiset(discovered);
    j :| j < |discovered| && discovered[j] == PlanOrder(discovered)[i];
  }

  lemma Planned(discovered: seq<Descriptor>, i: nat) returns (j: nat)
    requires i < |discovered|
    ensures j < |PlanOrder(discovered)| && PlanOrder(discovered)[j] == discovered[i]
  {
    PlanOrderIsFair(discovered);
    assert discovered[i] in multiset(PlanOrder(discovered));
    j :| j < |PlanOrder(discovered)| && PlanOrder(discovered)[j] == discovered[i];
  }

  /** What each action of a plan says of the descriptor it was planned for. */
  lemma ActionsTellDescriptors(discovered: seq<Descriptor>, blocked: bool, i: nat) returns (d: Descriptor)
    requires i < |PlanActions(discovered, blocked)|
    ensures d in discovered
    ensures var a := PlanActions(discovered, blocked)[i];
            && a.scope == d.scope && a.path == d.path && a.status == Pending
            && (a.kind == WriteScope <==> d.writable && d.approved && d.daemonOwned && !blocked)
            && (a.reason == ScopeWritableApproved <==> a.kind == WriteScope)
            && (a.reason == PolicyPreflightBlocked <==> d.writable && d.approved && d.daemonOwned && blocked)
            && (a.reason == ScopeNotApproved <==> !d.approved)
            && (a.reason == ScopeNotWritable <==> d.approved && !d.writable)
            && (a.reason == ScopeUnowned <==> d.approved && d.writable && !d.daemonOwned)
  {
    var j := SameScopes(discovered, i);
    d := discovered[j];
  }

  /** No action is planned after one that Forge may write less, nor after one of the same kind that is further from the user. */
  lemma ActionsInOrder(discovered: seq<Descriptor>, i: nat, j: nat)
    requires i < j < |PlanActions(discovered, false)|
    ensures var a, b := PlanActions(discovered, false)[i], PlanActions(discovered, false)[j];
            && (b.kind == WriteScope ==> a.kind == WriteScope)
            && (a.kind == b.kind ==>
                  !(a.scope == UserProfile && b.scope == Workspace) && (a.scope == DaemonDefault ==> b.scope == DaemonDefault))
  {
    PlanOrderIsFair(discovered);
  }

  predicate Writes(a: Action, scope: Scope, path: Text) {
    a.kind == WriteScope && a.scope == scope && a.path == path
  }

  predicate Offers(d: Descriptor, scope: Scope, path: Text) {
    Usable(d) && d.scope == scope && d.path == path
  }

  // ---- Running ----

  /** createScopeMap: the last descriptor of a scope wins. */
  function ScopeMap(discovered: seq<Descriptor>): map<Scope, Descriptor> {
    if discovered == [] then map[]
    else
      var last := discovered[|discovered| - 1];
      ScopeMap(discovered[..|discovered| - 1])[last.scope := last]
  }

  /** A scope has a descriptor exactly when one was discovered for it, and it is the last one. */
  lemma {:induction false} ScopeMapIs(discovered: seq<Descriptor>, scope: Scope) returns (i: nat)
    ensures scope in ScopeMap(discovered) <==> exists j :: 0 <= j < |discovered| && discovered[j].scope == scope
    ensures scope in ScopeMap(discovered) ==>
              && i < |discovered| && discovered[i].scope == scope && ScopeMap(discovered)[scope] == discovered[i]
              && forall j :: i < j < |discovered| ==> discovered[j].scope != scope
  {
    i := 0;
    if discovered != [] {
      var n := |discovered| - 1;
      var rest := discovered[..n];
      i := ScopeMapIs(rest, scope);
      assert forall j :: 0 <= j < n ==> rest[j] == discovered[j];
      if discovered[n].scope == scope {
        i := n;
      }
    }
  }

  method CreateScopeMap(discovered: seq<Descriptor>) returns (scopes: map<Scope, Descriptor>)
    ensures scopes == ScopeMap(discovered)
  {
    scopes := map[];
    for i := 0 to |discovered|
      invariant scopes == ScopeMap(discovered[..i])
    {
      scopes := scopes[discovered[i].scope := discovered[i]];
      assert discovered[..i + 1][..i] == discovered[..i];
    }
    assert discovered[..|discovered|] == discovered;
  }

  /** Where an adapter call breaks down: nowhere, before the file is rewritten, or after it. */
  datatype Break = Never | BeforeEffect | AfterEffect

  /** misled: the access check of the call's read fails, so that the file counts as missing. */
  datatype Fault = Fault(breaks: Break, misled: bool)

  /** By action number. */
  type Faults = nat -> Fault

  datatype Failure = NoFailure | FailedWith(reason: Reason)

  /** write_entry or remove_entry: refused outright, refused by the file's content, or carried out. */
  function AdapterCall(files: Files, d: Descriptor, request: Request, fault: Fault): (Files, bool) {
    if !d.daemonOwned || fault.breaks == BeforeEffect then (files, false)
    else
      match SeenEffect(FileAt(files, d.path), request, fault.misled)
      case Err(_) => (files, false)
      case Ok(content) => (files[d.path := content], fault.breaks == Never)
  }

  /** After a run: the files, why it stopped, and the number of the action it stopped at. */
  datatype Ran = Ran(files: Files, failure: Failure, stop: nat)

  /** The loop over plan.actions from action k on (install-lifecycle.ts, lines 1661-1750, and its three copies). */
  function RunFrom(files: Files, actions: seq<Action>, k: nat, scopes: map<Scope, Descriptor>, request: Request,
                   faults: Faults): (r: Ran)
    requires k <= |actions|
    ensures k <= r.stop <= |actions| && (r.failure == NoFailure <==> r.stop == |actions|)
    decreases |actions| - k
  {
    if k == |actions| then Ran(files, NoFailure, k)
    else if actions[k].kind == SkipScope then RunFrom(files, actions, k + 1, scopes, request, faults)
    else if actions[k].scope !in scopes then Ran(files, FailedWith(ScopeNotFound), k)
    else
      var (after, ok) := AdapterCall(files, scopes[actions[k].scope], request, faults(k));
      if ok then RunFrom(after, actions, k + 1, scopes, request, faults) else Ran(after, FailedWith(AdapterFailed), k)
  }

  /** The row of an action that the run got past. */
  function Passed(a: Action, okReason: Reason): Action {
    if a.kind == SkipScope then a.(status := Skipped) else a.(status := Applied, reason := okReason)
  }

  /** The action rows after a run: those before the stop are passed, that at the stop failed, the others are as before. */
  function RowsAfter(actions: seq<Action>, r: Ran, okReason: Reason): (rows: seq<Action>)
    ensures |rows| == |actions|
    ensures forall i :: 0 <= i < |rows| ==>
              rows[i] == if i < r.stop then Passed(actions[i], okReason)
                         else if i == r.stop && r.failure.FailedWith? then actions[i].(status := Failed, reason := r.failure.reason)
                         else actions[i]
  {
    seq(|actions|, i requires 0 <= i < |actions| =>
      if i < r.stop then Passed(actions[i], okReason)
      else if i == r.stop && r.failure.FailedWith? then actions[i].(status := Failed, reason := r.failure.reason)
      else actions[i])
  }

  /** Action i writes or removes in the file at p. */
  predicate Concerns(actions: seq<Action>, scopes: map<Scope, Descriptor>, i: nat, p: Text)
    requires i < |actions|
  {
    actions[i].kind == WriteScope && actions[i].scope in scopes && scopes[actions[i].scope].path == p
  }

  /** Action i is a call on p that gets as far as reading and whose read is misled. */
  predicate Misled(actions: seq<Action>, scopes: map<Scope, Descriptor>, faults: Faults, i: nat, p: Text)
    requires i < |actions|
  {
    && Concerns(actions, scopes, i, p) && scopes[actions[i].scope].daemonOwned
    && faults(i).breaks != BeforeEffect && faults(i).misled
  }

  /** Some action from k up to the stopping one is misled on p. */
  ghost predicate SomeMisled(actions: seq<Action>, k: nat, stop: nat, scopes: map<Scope, Descriptor>, faults: Faults, p: Text) {
    exists i: nat :: k <= i <= stop && i < |actions| && Misled(actions, scopes, faults, i, p)
  }

  lemma CallFate(files: Files, d: Descriptor, request: Request, fault: Fault, p: Text)
    ensures var (after, ok) := AdapterCall(files, d, request, fault);
            var misled := d.path == p && d.daemonOwned && fault.breaks != BeforeEffect && fault.misled;
            Fate(FileAt(files, p), FileAt(after, p), request.Target(), misled && request.Write?)
    ensures p != d.path ==> FileAt(AdapterCall(files, d, request, fault).0, p) == FileAt(files, p)
  {
    if d.path == p && SeenEffect(FileAt(files, p), request, fault.misled).Ok? {
      EffectFate(FileAt(files, p), request, fault.misled);
    } else {
      SucceedsIff(FileAt(files, p), request, fault.misled);
    }
  }

  lemma FirstOrLater(actions: seq<Action>, k: nat, stop: nat, scopes: map<Scope, Descriptor>, faults: Faults, p: Text)
    requires k <= stop && k < |actions|
    ensures SomeMisled(actions, k, stop, scopes, faults, p)
       <==> Misled(actions, scopes, faults, k, p) || SomeMisled(actions, k + 1, stop, scopes, faults, p)
  {
  }

  /**
   * A run of actions leaves a file's foreign content and other packages' entries alone, for good or damaged for good:
   * damaged exactly when it had something to lose and some write of it was misled.
   */
  lemma {:induction false} RunFate(files: Files, actions: seq<Action>, k: nat, scopes: map<Scope, Descriptor>,
                                   request: Request, faults: Faults, p: Text)
    requires k <= |actions|
    ensures var r := RunFrom(files, actions, k, scopes, request, faults);
            Fate(FileAt(files, p), FileAt(r.files, p), request.Target(),
                 request.Write? && SomeMisled(actions, k, r.stop, scopes, faults, p))
    decreases |actions| - k
  {
    if k < |actions| {
      var r := RunFrom(files, actions, k, scopes, request, faults);
      FirstOrLater(actions, k, r.stop, scopes, faults, p);
      if actions[k].kind == SkipScope {
        RunFate(files, actions, k + 1, scopes, request, faults, p);
      } else if actions[k].scope in scopes {
        var (after, ok) := AdapterCall(files, scopes[actions[k].scope], request, faults(k));
        CallFate(files, scopes[actions[k].scope], request, faults(k), p);
        if ok {
          RunFate(after, actions, k + 1, scopes, request, faults, p);
          FateComposes(FileAt(files, p), FileAt(after, p), FileAt(r.files, p), request.Target(),
                       request.Write? && Misled(actions, scopes, faults, k, p),
                       request.Write? && SomeMisled(actions, k + 1, r.stop, scopes, faults, p));
        }
      }
    }
  }

  /** Foreign content and other packages' entries survive a run exactly when no write of a precious file was misled. */
  lemma RunRespectsIff(files: Files, actions: seq<Action>, scopes: map<Scope, Descriptor>, request: Request, faults: Faults,
                       p: Text)
    ensures var r := RunFrom(files, actions, 0, scopes, request, faults);
            && (Respects(FileAt(files, p), FileAt(r.files, p), request.Target()) <==>
                  !(request.Write? && SomeMisled(actions, 0, r.stop, scopes, faults, p)
                    && Precious(FileAt(files, p), request.Target())))
  {
    var r := RunFrom(files, actions, 0, scopes, request, faults);
    RunFate(files, actions, 0, scopes, request, faults, p);
    FateDecides(FileAt(files, p), FileAt(r.files, p), request.Target(),
                request.Write? && SomeMisled(actions, 0, r.stop, scopes, faults, p));
  }

  // ---- What a run achieves ----

  /** A call on p that, when it is carried out, does its work: any write, and a removal whose read is truthful. */
  predicate Works(actions: seq<Action>, scopes: map<Scope, Descriptor>, request: Request, faults: Faults, i: nat, p: Text)
    requires i < |actions|
  {
    Concerns(actions, scopes, i, p) && (request.Write? || !faults(i).misled)
  }

  ghost predicate SomeWorks(actions: seq<Action>, from: nat, to: nat, scopes: map<Scope, Descriptor>, request: Request,
                            faults: Faults, p: Text)
  {
    exists i: nat :: from <= i < to && i < |actions| && Works(actions, scopes, request, faults, i, p)
  }

  lemma CallAchieves(files: Files, d: Descriptor, request: Request, fault: Fault, p: Text)
    ensures var (after, ok) := AdapterCall(files, d, request, fault);
            && (Achieved(FileAt(files, p), request) ==> Achieved(FileAt(after, p), request))
            && (ok && d.path == p && (request.Write? || !fault.misled) ==> Achieved(FileAt(after, p), request))
            && (d.path != p || (!request.Write? && fault.misled) ==>
                  Achieved(FileAt(after, p), request) == Achieved(FileAt(files, p), request))
  {
    if d.path == p && SeenEffect(FileAt(files, p), request, fault.misled).Ok? {
      AchievesIff(FileAt(files, p), request, fault.misled);
    }
  }

  lemma WorksFirstOrLater(actions: seq<Action>, k: nat, to: nat, scopes: map<Scope, Descriptor>, request: Request,
                          faults: Faults, p: Text)
    requires k < to && k < |actions|
    ensures SomeWorks(actions, k, to, scopes, request, faults, p)
       <==> Works(actions, scopes, request, faults, k, p) || SomeWorks(actions, k + 1, to, scopes, request, faults, p)
  {
  }

  /** Work done before the stop stays done. */
  lemma {:induction false} RunAchieves(files: Files, actions: seq<Action>, k: nat, scopes: map<Scope, Descriptor>,
                                       request: Request, faults: Faults, p: Text)
    requires k <= |actions|
    ensures var r := RunFrom(files, actions, k, scopes, request, faults);
            Achieved(FileAt(files, p), request) || SomeWorks(actions, k, r.stop, scopes, request, faults, p) ==>
              Achieved(FileAt(r.files, p), request)
    decreases |actions| - k
  {
    if k < |actions| {
      var r := RunFrom(files, actions, k, scopes, request, faults);
      if k < r.stop {
        WorksFirstOrLater(actions, k, r.stop, scopes, request, faults, p);
      }
      if actions[k].kind == SkipScope {
        RunAchieves(files, actions, k + 1, scopes, request, faults, p);
      } else if actions[k].scope in scopes {
        var (after, ok) := AdapterCall(files, scopes[actions[k].scope], request, faults(k));
        CallAchieves(files, scopes[actions[k].scope], request, faults(k), p);
        if ok {
          RunAchieves(after, actions, k + 1, scopes, request, faults, p);
        }
      }
    }
  }

  /** Whatever the files are, the call of action i keeps what holds of the file at p. */
  ghost predicate CallKeeps(actions: seq<Action>, i: nat, scopes: map<Scope, Descriptor>, request: Request, faults: Faults,
                            p: Text, holds: Content -> bool)
    requires i < |actions|
  {
    actions[i].kind == WriteScope && actions[i].scope in scopes ==>
      forall files: Files {:trigger AdapterCall(files, scopes[actions[i].scope], request, faults(i))} ::
        holds(FileAt(files, p)) ==> holds(FileAt(AdapterCall(files, scopes[actions[i].scope], request, faults(i)).0, p))
  }

  /** What every call up to the stopping one keeps, the run keeps. */
  lemma {:induction false} RunKeeps(files: Files, actions: seq<Action>, k: nat, scopes: map<Scope, Descriptor>,
                                    request: Request, faults: Faults, p: Text, holds: Content -> bool)
    requires k <= |actions| && holds(FileAt(files, p))
    requires forall i: nat {:trigger CallKeeps(actions, i, scopes, request, faults, p, holds)} ::
               k <= i <= RunFrom(files, actions, k, scopes, request, faults).stop && i < |actions| ==>
                 CallKeeps(actions, i, scopes, request, faults, p, holds)
    ensures holds(FileAt(RunFrom(files, actions, k, scopes, request, faults).files, p))
    decreases |actions| - k
  {
    if k < |actions| {
      assert CallKeeps(actions, k, scopes, request, faults, p, holds);
      if actions[k].kind == SkipScope {
        RunKeeps(files, actions, k + 1, scopes, request, faults, p, holds);
      } else if actions[k].scope in scopes {
        var (after, ok) := AdapterCall(files, scopes[actions[k].scope], request, faults(k));
        if ok {
          RunKeeps(after, actions, k + 1, scopes, request, faults, p, holds);
        }
      }
    }
  }

  lemma IdleCall(actions: seq<Action>, i: nat, scopes: map<Scope, Descriptor>, request: Request, faults: Faults, p: Text)
    requires i < |actions| && !Works(actions, scopes, request, faults, i, p)
    ensures CallKeeps(actions, i, scopes, request, faults, p, (c: Content) => !Achieved(c, request))
  {
    if actions[i].kind == WriteScope && actions[i].scope in scopes {
      forall files: Files | !Achieved(FileAt(files, p), request)
        ensures !Achieved(FileAt(AdapterCall(files, scopes[actions[i].scope], request, faults(i)).0, p), request)
      {
        CallAchieves(files, scopes[actions[i].scope], request, faults(i), p);
      }
    }
  }

  lemma IdleCalls(actions: seq<Action>, from: nat, to: nat, scopes: map<Scope, Descriptor>, request: Request, faults: Faults,
                  p: Text, holds: Content -> bool)
    requires holds == ((c: Content) => !Achieved(c, request))
    requires !SomeWorks(actions, from, to, scopes, request, faults, p)
    ensures forall i: nat {:trigger CallKeeps(actions, i, scopes, request, faults, p, holds)} ::
              from <= i < to && i < |actions| ==> CallKeeps(actions, i, scopes, request, faults, p, holds)
  {
    forall i: nat | from <= i < to && i < |actions| ensures CallKeeps(actions, i, scopes, request, faults, p, holds) {
      IdleCall(actions, i, scopes, request, faults, p);
    }
  }

  lemma IdleRun(files: Files, actions: seq<Action>, k: nat, scopes: map<Scope, Descriptor>, request: Request,
                faults: Faults, p: Text, holds: Content -> bool)
    requires k <= |actions| && holds == ((c: Content) => !Achieved(c, request)) && holds(FileAt(files, p))
    requires !SomeWorks(actions, k, RunFrom(files, actions, k, scopes, request, faults).stop + 1, scopes, request, faults, p)
    ensures holds(FileAt(RunFrom(files, actions, k, scopes, request, faults).files, p))
  {
    var to := RunFrom(files, actions, k, scopes, request, faults).stop + 1;
    IdleCalls(actions, k, to, scopes, request, faults, p, holds);
    RunKeeps(files, actions, k, scopes, request, faults, p, holds);
  }

  /** Nothing but such work, or that of the stopping action, does it. */
  lemma RunAchievesOnly(files: Files, actions: seq<Action>, k: nat, scopes: map<Scope, Descriptor>, request: Request,
                        faults: Faults, p: Text)
    requires k <= |actions|
    ensures var r := RunFrom(files, actions, k, scopes, request, faults);
            Achieved(FileAt(r.files, p), request) ==>
              Achieved(FileAt(files, p), request) || SomeWorks(actions, k, r.stop + 1, scopes, request, faults, p)
  {
    var r := RunFrom(files, actions, k, scopes, request, faults);
    if !Achieved(FileAt(files, p), request) && !SomeWorks(actions, k, r.stop + 1, scopes, request, faults, p) {
      IdleRun(files, actions, k, scopes, request, faults, p, (c: Content) => !Achieved(c, request));
    }
  }

  // ---- Where a run stops ----

  /** An earlier misled write of the same file has made it Forge's. */
  ghost predicate TakenOver(actions: seq<Action>, k: nat, i: nat, scopes: map<Scope, Descriptor>, request: Request,
                            faults: Faults, p: Text)
  {
    request.Write? && exists j: nat :: k <= j < i && j < |actions| && Misled(actions, scopes, faults, j, p)
  }

  /**
   * Action i goes through in a run from k: it skips, or its scope is known and owned, its call does not break down, and
   * its file is Forge's, is taken for missing, or was taken over by an earlier action.
   */
  ghost predicate GoesThrough(files: Files, actions: seq<Action>, k: nat, i: nat, scopes: map<Scope, Descriptor>,
                              request: Request, faults: Faults)
    requires i < |actions|
  {
    var a := actions[i];
    || a.kind == SkipScope
    || (&& a.scope in scopes && scopes[a.scope].daemonOwned && faults(i).breaks == Never
        && (|| faults(i).misled || Mutable(FileAt(files, scopes[a.scope].path))
            || TakenOver(actions, k, i, scopes, request, faults, scopes[a.scope].path)))
  }

  lemma CallOpens(files: Files, d: Descriptor, request: Request, fault: Fault, p: Text)
    ensures var (after, ok) := AdapterCall(files, d, request, fault);
            && (ok <==> d.daemonOwned && fault.breaks == Never && (fault.misled || Mutable(FileAt(files, d.path))))
            && (ok ==> (Mutable(FileAt(after, p)) <==>
                          Mutable(FileAt(files, p)) || (d.path == p && request.Write? && fault.misled)))
  {
    var content := FileAt(files, d.path);
    SucceedsIff(content, request, fault.misled);
    if SeenEffect(content, request, fault.misled).Ok? {
      RespectsIff(content, request, fault.misled);
      if fault.misled && request.Write? {
        MisledWrite(content, request.entry);
      }
    }
  }

  lemma LaterGoesThrough(files: Files, after: Files, actions: seq<Action>, k: nat, i: nat, scopes: map<Scope, Descriptor>,
                         request: Request, faults: Faults)
    requires k < i < |actions| && actions[k].kind == WriteScope && actions[k].scope in scopes
    requires AdapterCall(files, scopes[actions[k].scope], request, faults(k)) == (after, true)
    ensures GoesThrough(after, actions, k + 1, i, scopes, request, faults)
       <==> GoesThrough(files, actions, k, i, scopes, request, faults)
  {
    var d := scopes[actions[k].scope];
    if actions[i].kind == WriteScope && actions[i].scope in scopes {
      var p := scopes[actions[i].scope].path;
      CallOpens(files, d, request, faults(k), p);
      assert TakenOver(actions, k, i, scopes, request, faults, p)
        <==> (request.Write? && Misled(actions, scopes, faults, k, p)) || TakenOver(actions, k + 1, i, scopes, request, faults, p);
    }
  }

  /** A run is stopped by an action that writes: by its scope when that was not discovered, and by its adapter call otherwise. */
  lemma {:induction false} StopReason(files: Files, actions: seq<Action>, k: nat, scopes: map<Scope, Descriptor>, request: Request,
                                      faults: Faults)
    requires k <= |actions|
    ensures var r := RunFrom(files, actions, k, scopes, request, faults);
            r.stop < |actions| ==>
              && actions[r.stop].kind == WriteScope
              && r.failure == FailedWith(if actions[r.stop].scope in scopes then AdapterFailed else ScopeNotFound)
    decreases |actions| - k
  {
    if k < |actions| {
      if actions[k].kind == SkipScope {
        StopReason(files, actions, k + 1, scopes, request, faults);
      } else if actions[k].scope in scopes {
        var (after, ok) := AdapterCall(files, scopes[actions[k].scope], request, faults(k));
        if ok {
          StopReason(after, actions, k + 1, scopes, request, faults);
        }
      }
    }
  }

  /** A run stops at the first action that does not go through. */
  lemma {:induction false} RunStopsAt(files: Files, actions: seq<Action>, k: nat, scopes: map<Scope, Descriptor>,
                                      request: Request, faults: Faults)
    requires k <= |actions|
    ensures var r := RunFrom(files, actions, k, scopes, request, faults);
            && (forall i: nat {:trigger GoesThrough(files, actions, k, i, scopes, request, faults)} ::
                  k <= i < r.stop ==> GoesThrough(files, actions, k, i, scopes, request, faults))
            && (r.stop < |actions| ==> !GoesThrough(files, actions, k, r.stop, scopes, request, faults))
    decreases |actions| - k
  {
    if k < |actions| {
      var a, r := actions[k], RunFrom(files, actions, k, scopes, request, faults);
      if a.kind == SkipScope {
        RunStopsAt(files, actions, k + 1, scopes, request, faults);
        forall i: nat | k < i < |actions|
          ensures GoesThrough(files, actions, k + 1, i, scopes, request, faults)
             <==> GoesThrough(files, actions, k, i, scopes, request, faults)
        {
          SkipOpensNothing(actions, k, i, scopes, request, faults);
        }
      } else if a.scope in scopes {
        var (after, ok) := AdapterCall(files, scopes[a.scope], request, faults(k));
        CallOpens(files, scopes[a.scope], request, faults(k), scopes[a.scope].path);
        if ok {
          RunStopsAt(after, actions, k + 1, scopes, request, faults);
          forall i: nat | k < i < |actions|
            ensures GoesThrough(after, actions, k + 1, i, scopes, request, faults)
               <==> GoesThrough(files, actions, k, i, scopes, request, faults)
          {
            LaterGoesThrough(files, after, actions, k, i, scopes, request, faults);
          }
        }
      }
    }
  }

  lemma SkipOpensNothing(actions: seq<Action>, k: nat, i: nat, scopes: map<Scope, Descriptor>, request: Request, faults: Faults)
    requires k < i < |actions| && actions[k].kind == SkipScope
    ensures forall p :: TakenOver(actions, k, i, scopes, request, faults, p)
                   <==> TakenOver(actions, k + 1, i, scopes, request, faults, p)
  {
  }

  /** Some action up to the stopping one is about the file at p. */
  ghost predicate Visited(actions: seq<Action>, from: nat, stop: nat, scopes: map<Scope, Descriptor>, p: Text) {
    exists i: nat :: from <= i <= stop && i < |actions| && Concerns(actions, scopes, i, p)
  }

  /** A file that no action up to the stopping one is about stays as it is. */
  lemma {:induction false} RunLeavesAlone(files: Files, actions: seq<Action>, k: nat, scopes: map<Scope, Descriptor>,
                                          request: Request, faults: Faults, p: Text)
    requires k <= |actions|
    ensures var r := RunFrom(files, actions, k, scopes, request, faults);
            !Visited(actions, k, r.stop, scopes, p) ==> FileAt(r.files, p) == FileAt(files, p)
    decreases |actions| - k
  {
    var r := RunFrom(files, actions, k, scopes, request, faults);
    if k < |actions| && !Visited(actions, k, r.stop, scopes, p) {
      assert !Concerns(actions, scopes, k, p);
      if actions[k].kind == SkipScope {
        RunLeavesAlone(files, actions, k + 1, scopes, request, faults, p);
      } else if actions[k].scope in scopes {
        var (after, ok) := AdapterCall(files, scopes[actions[k].scope], request, faults(k));
        CallFate(files, scopes[actions[k].scope], request, faults(k), p);
        if ok {
          RunLeavesAlone(after, actions, k + 1, scopes, request, faults, p);
        }
      }
    }
  }

  /** A run over skipping actions only touches no file and always succeeds. */
  lemma SkippingRun(files: Files, actions: seq<Action>, scopes: map<Scope, Descriptor>, request: Request, faults: Faults)
    requires forall i :: 0 <= i < |actions| ==> actions[i].kind == SkipScope
    ensures var r := RunFrom(files, actions, 0, scopes, request, faults);
            && r.failure == NoFailure && forall p :: FileAt(r.files, p) == FileAt(files, p)
  {
    RunStopsAt(files, actions, 0, scopes, request, faults);
    var r := RunFrom(files, actions, 0, scopes, request, faults);
    forall p ensures FileAt(r.files, p) == FileAt(files, p) {
      RunLeavesAlone(files, actions, 0, scopes, request, faults, p);
    }
  }
}
