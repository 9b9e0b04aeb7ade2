// What a dependency order is: paths, cycles, install orders and the least install order.
// A pair (a, b) in a dependency set says that package a depends on package b.
module DependencyOrder {
  import opened JsText
  import opened Sorting

  type Id = Text

  type Deps = set<(Id, Id)>

  ghost predicate IsPath(deps: Deps, p: seq<Id>) {
    p != [] && forall i :: 0 <= i < |p| - 1 ==> (p[i], p[i + 1]) in deps
  }

  ghost predicate Joins(deps: Deps, p: seq<Id>, a: Id, b: Id) {
    IsPath(deps, p) && p[0] == a && p[|p| - 1] == b
  }

  ghost predicate Reaches(deps: Deps, a: Id, b: Id) {
    exists p :: Joins(deps, p, a, b)
  }

  ghost predicate ReachableFrom(deps: Deps, roots: seq<Id>, x: Id) {
    exists r :: r in roots && Reaches(deps, r, x)
  }

  /** A directed cycle through x; a self-loop is one. */
  ghost predicate OnCycle(deps: Deps, x: Id) {
    exists p :: |p| >= 2 && Joins(deps, p, x, x)
  }

  ghost predicate ReachesCycle(deps: Deps, x: Id) {
    exists y :: Reaches(deps, x, y) && OnCycle(deps, y)
  }

  ghost predicate Closed(deps: Deps, nodes: set<Id>) {
    forall a, b :: (a, b) in deps && a in nodes ==> b in nodes
  }

  function Within(deps: Deps, nodes: set<Id>): Deps {
    set e | e in deps && e.0 in nodes && e.1 in nodes
  }

  function Elems<T>(s: seq<T>): set<T> {
    set x | x in s
  }

  /** Every package once, each after everything it depends on. */
  ghost predicate IsInstallOrder(deps: Deps, nodes: set<Id>, s: seq<Id>) {
    && NoDup(s)
    && Elems(s) == nodes
    && forall i, b :: 0 <= i < |s| && (s[i], b) in deps ==> b in s[..i]
  }

  /** Dictionary order on sequences of packages. */
  ghost predicate LexLe(s: seq<Id>, t: seq<Id>) {
    s == t || exists i :: 0 <= i < |s| && i < |t| && s[..i] == t[..i] && TextLt(s[i], t[i])
  }

  ghost predicate IsLeastInstallOrder(deps: Deps, nodes: set<Id>, s: seq<Id>) {
    IsInstallOrder(deps, nodes, s) && forall t :: IsInstallOrder(deps, nodes, t) ==> LexLe(s, t)
  }

  ghost predicate Ready(deps: Deps, nodes: set<Id>, done: seq<Id>, x: Id) {
    x in nodes && x !in done && forall b :: (x, b) in deps ==> b in done
  }

  /** Each element is the least package that was ready when it was taken. */
  ghost predicate Greedy(deps: Deps, nodes: set<Id>, s: seq<Id>) {
    forall i :: 0 <= i < |s| ==>
      Ready(deps, nodes, s[..i], s[i]) && forall y :: Ready(deps, nodes, s[..i], y) ==> TextLe(s[i], y)
  }

  // ---- Sequences without duplicates ----

  lemma {:induction false} NoDupCardinality<T(!new)>(s: seq<T>)
    requires NoDup(s)
    ensures |Elems(s)| == |s|
  {
    if s != [] {
      var init := s[..|s| - 1];
      NoDupCardinality(init);
      assert s == init + [s[|s| - 1]];
      assert Elems(s) == Elems(init) + {s[|s| - 1]};
    }
  }

  /** The pigeonhole principle: more steps than places force a repetition. */
  lemma {:induction false} Pigeonhole<T(!new)>(s: seq<T>, places: set<T>) returns (i: nat, j: nat)
    requires forall x :: x in s ==> x in places
    requires |s| > |places|
    ensures i < j < |s| && s[i] == s[j]
  {
    if NoDup(s) {
      NoDupCardinality(s);
      SubsetCardinality(Elems(s), places);
      assert false;
    }
    i, j :| 0 <= i < j < |s| && s[i] == s[j];
  }

  lemma {:induction false} SubsetCardinality<T>(a: set<T>, b: set<T>)
    requires a <= b
    ensures |a| <= |b|
    ensures |a| == |b| ==> a == b
  {
    if a != {} {
      var x :| x in a;
      SubsetCardinality(a - {x}, b - {x});
      assert a == a - {x} + {x} && b == b - {x} + {x};
    }
  }

  // ---- Greedy choice yields the least install order ----

  lemma GreedyTakesEachOnce(deps: Deps, nodes: set<Id>, s: seq<Id>)
    requires Greedy(deps, nodes, s)
    ensures NoDup(s) && Elems(s) <= nodes
    ensures forall i, b :: 0 <= i < |s| && (s[i], b) in deps ==> b in s[..i]
  {
  }

  lemma {:induction false} FirstDifference(s: seq<Id>, t: seq<Id>, from: nat) returns (k: nat)
    requires |s| == |t| && from <= |s| && s[..from] == t[..from] && s != t
    ensures k < |s| && s[..k] == t[..k] && s[k] != t[k]
    decreases |s| - from
  {
    if from < |s| && s[from] == t[from] {
      assert s[..from + 1] == s[..from] + [s[from]] && t[..from + 1] == t[..from] + [t[from]];
      k := FirstDifference(s, t, from + 1);
    } else {
      k := from;
    }
  }

  lemma GreedyPrecedes(deps: Deps, nodes: set<Id>, s: seq<Id>, t: seq<Id>)
    requires Greedy(deps, nodes, s) && Elems(s) == nodes
    requires IsInstallOrder(deps, nodes, t)
    ensures LexLe(s, t)
  {
    GreedyTakesEachOnce(deps, nodes, s);
    NoDupCardinality(s);
    NoDupCardinality(t);
    if s != t {
      var k := FirstDifference(s, t, 0);
      assert t[k] in Elems(t);
      assert Ready(deps, nodes, s[..k], t[k]);
      assert TextLt(s[k], t[k]);
    }
  }

  lemma GreedyIsLeast(deps: Deps, nodes: set<Id>, s: seq<Id>)
    requires Greedy(deps, nodes, s) && Elems(s) == nodes
    ensures IsLeastInstallOrder(deps, nodes, s)
  {
    GreedyTakesEachOnce(deps, nodes, s);
    forall t | IsInstallOrder(deps, nodes, t) ensures LexLe(s, t) {
      GreedyPrecedes(deps, nodes, s, t);
    }
  }

  lemma LexLeAntisymmetric(s: seq<Id>, t: seq<Id>)
    requires LexLe(s, t) && LexLe(t, s)
    ensures s == t
  {
    if s != t {
      var i :| 0 <= i < |s| && i < |t| && s[..i] == t[..i] && TextLt(s[i], t[i]);
      var j :| 0 <= j < |t| && j < |s| && t[..j] == s[..j] && TextLt(t[j], s[j]);
      if i == j {
        TextLeAntisymmetric(s[i], t[i]);
      }
    }
  }

  lemma LeastInstallOrderUnique(deps: Deps, nodes: set<Id>, s: seq<Id>, t: seq<Id>)
    requires IsLeastInstallOrder(deps, nodes, s) && IsLeastInstallOrder(deps, nodes, t)
    ensures s == t
  {
    LexLeAntisymmetric(s, t);
  }

  // ---- Cycles ----

  /** Along a path that starts inside an order, positions strictly decrease. */
  lemma {:induction false} PathDescends(deps: Deps, s: seq<Id>, p: seq<Id>, at: nat) returns (end: nat)
    requires forall i, b :: 0 <= i < |s| && (s[i], b) in deps ==> b in s[..i]
    requires IsPath(deps, p) && at < |s| && s[at] == p[0]
    ensures end < |s| && s[end] == p[|p| - 1]
    ensures |p| >= 2 ==> end < at
    ensures |p| == 1 ==> end == at
  {
    if |p| == 1 {
      end := at;
    } else {
      assert (p[0], p[1]) in deps;
      var next :| 0 <= next < at && s[next] == p[1];
      end := PathDescends(deps, s, p[1..], next);
    }
  }

  lemma OrderedNeverReachesCycle(deps: Deps, s: seq<Id>, x: Id)
    requires NoDup(s)
    requires forall i, b :: 0 <= i < |s| && (s[i], b) in deps ==> b in s[..i]
    requires x in s
    ensures !ReachesCycle(deps, x)
  {
    if ReachesCycle(deps, x) {
      var y :| Reaches(deps, x, y) && OnCycle(deps, y);
      var p :| Joins(deps, p, x, y);
      var c :| |c| >= 2 && Joins(deps, c, y, y);
      var at :| 0 <= at < |s| && s[at] == x;
      var mid := PathDescends(deps, s, p, at);
      var end := PathDescends(deps, s, c, mid);
      assert false;
    }
  }

  ghost predicate DependsInto(deps: Deps, rest: set<Id>, u: Id) {
    exists v :: v in rest && (u, v) in deps
  }

  ghost predicate Stuck(deps: Deps, rest: set<Id>) {
    forall u {:trigger DependsInto(deps, rest, u)} :: u in rest ==> DependsInto(deps, rest, u)
  }

  lemma {:induction false} Walk(deps: Deps, rest: set<Id>, u: Id, steps: nat) returns (p: seq<Id>)
    requires Stuck(deps, rest) && u in rest
    ensures IsPath(deps, p) && |p| == steps + 1 && p[0] == u
    ensures forall x :: x in p ==> x in rest
    decreases steps
  {
    if steps == 0 {
      p := [u];
    } else {
      assert DependsInto(deps, rest, u);
      var v :| v in rest && (u, v) in deps;
      var q := Walk(deps, rest, v, steps - 1);
      p := [u] + q;
    }
  }

  lemma StuckReachesCycle(deps: Deps, rest: set<Id>, u: Id)
    requires Stuck(deps, rest) && u in rest
    ensures ReachesCycle(deps, u)
  {
    var p := Walk(deps, rest, u, |rest|);
    var i, j := Pigeonhole(p, rest);
    assert Joins(deps, p[..i + 1], u, p[i]);
    assert Joins(deps, p[i..j + 1], p[i], p[j]);
    assert Reaches(deps, u, p[i]) && OnCycle(deps, p[i]);
  }

  // ---- Restricting to a closed set of packages loses nothing ----

  lemma {:induction false} ClosedPathStays(deps: Deps, nodes: set<Id>, p: seq<Id>)
    requires Closed(deps, nodes) && IsPath(deps, p) && p[0] in nodes
    ensures IsPath(Within(deps, nodes), p) && p[|p| - 1] in nodes
  {
    if |p| > 1 {
      assert (p[0], p[1]) in deps;
      ClosedPathStays(deps, nodes, p[1..]);
      var w := Within(deps, nodes);
      forall i | 0 <= i < |p| - 1 ensures (p[i], p[i + 1]) in w {
        if i > 0 {
          assert (p[1..][i - 1], p[1..][i]) in w;
        }
      }
    }
  }

  lemma ClosedKeepsCycles(deps: Deps, nodes: set<Id>, x: Id)
    requires Closed(deps, nodes) && x in nodes
    ensures ReachesCycle(Within(deps, nodes), x) <==> ReachesCycle(deps, x)
  {
    var w := Within(deps, nodes);
    if ReachesCycle(deps, x) {
      var y :| Reaches(deps, x, y) && OnCycle(deps, y);
      var p :| Joins(deps, p, x, y);
      var c :| |c| >= 2 && Joins(deps, c, y, y);
      ClosedPathStays(deps, nodes, p);
      ClosedPathStays(deps, nodes, c);
      assert Joins(w, p, x, y) && Joins(w, c, y, y);
      assert Reaches(w, x, y) && OnCycle(w, y);
    }
    if ReachesCycle(w, x) {
      var y :| Reaches(w, x, y) && OnCycle(w, y);
      var p :| Joins(w, p, x, y);
      var c :| |c| >= 2 && Joins(w, c, y, y);
      assert Joins(deps, p, x, y) && Joins(deps, c, y, y);
      assert Reaches(deps, x, y) && OnCycle(deps, y);
    }
  }

  lemma ClosedKeepsLeast(deps: Deps, nodes: set<Id>, s: seq<Id>)
    requires Closed(deps, nodes) && IsLeastInstallOrder(Within(deps, nodes), nodes, s)
    ensures IsLeastInstallOrder(deps, nodes, s)
  {
  }
}
