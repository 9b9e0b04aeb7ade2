// Array.prototype.sort and filter as specifications: a stable sort under a comparator, and what it keeps.
module Sorting {

  ghost predicate TotalPreorder<T(!new)>(le: (T, T) -> bool) {
    && (forall x, y :: le(x, y) || le(y, x))
    && (forall x, y, z :: le(x, y) && le(y, z) ==> le(x, z))
  }

  ghost predicate SortedBy<T(!new)>(le: (T, T) -> bool, s: seq<T>) {
    forall i, j :: 0 <= i < j < |s| ==> le(s[i], s[j])
  }

  /** The comparator tells apart any two different elements of s. */
  ghost predicate Separates<T(!new)>(le: (T, T) -> bool, s: seq<T>) {
    forall x, y :: x in s && y in s && le(x, y) && le(y, x) ==> x == y
  }

  ghost predicate NoDup<T(!new)>(s: seq<T>) {
    forall i, j :: 0 <= i < j < |s| ==> s[i] != s[j]
  }

  function Insert<T(!new)>(le: (T, T) -> bool, x: T, s: seq<T>): (r: seq<T>)
    ensures |r| == |s| + 1
  {
    if s == [] || le(x, s[0]) then [x] + s else [s[0]] + Insert(le, x, s[1..])
  }

  /** An element is placed before the later elements it ties with, so ties keep their order. */
  function Sort<T(!new)>(le: (T, T) -> bool, s: seq<T>): (r: seq<T>)
    ensures |r| == |s|
  {
    if s == [] then [] else Insert(le, s[0], Sort(le, s[1..]))
  }

  function Filter<T(!new)>(p: T -> bool, s: seq<T>): (r: seq<T>)
    ensures |r| <= |s|
    ensures forall x :: x in r <==> x in s && p(x)
  {
    if s == [] then [] else
    assert forall x :: x in s <==> x == s[0] || x in s[1..];
    (if p(s[0]) then [s[0]] else []) + Filter(p, s[1..])
  }

  lemma {:induction false} InsertKeepsElements<T(!new)>(le: (T, T) -> bool, x: T, s: seq<T>)
    ensures multiset(Insert(le, x, s)) == multiset(s) + multiset{x}
  {
    if s != [] && !le(x, s[0]) {
      InsertKeepsElements(le, x, s[1..]);
      assert s == [s[0]] + s[1..];
    }
  }

  lemma {:induction false} SortPermutes<T(!new)>(le: (T, T) -> bool, s: seq<T>)
    ensures multiset(Sort(le, s)) == multiset(s)
    ensures forall x :: x in Sort(le, s) <==> x in s
  {
    if s != [] {
      SortPermutes(le, s[1..]);
      InsertKeepsElements(le, s[0], Sort(le, s[1..]));
      assert s == [s[0]] + s[1..];
    }
    assert forall x :: x in Sort(le, s) <==> x in multiset(Sort(le, s));
    assert forall x :: x in s <==> x in multiset(s);
  }

  lemma {:induction false} InsertSorted<T(!new)>(le: (T, T) -> bool, x: T, s: seq<T>)
    requires TotalPreorder(le) && SortedBy(le, s)
    ensures SortedBy(le, Insert(le, x, s))
  {
    if s != [] && !le(x, s[0]) {
      InsertSorted(le, x, s[1..]);
      var t := Insert(le, x, s[1..]);
      InsertKeepsElements(le, x, s[1..]);
      forall j | 0 <= j < |t| ensures le(s[0], t[j]) {
        assert t[j] in multiset(t);
      }
    }
  }

  lemma {:induction false} SortSorts<T(!new)>(le: (T, T) -> bool, s: seq<T>)
    requires TotalPreorder(le)
    ensures SortedBy(le, Sort(le, s))
  {
    if s != [] {
      SortSorts(le, s[1..]);
      InsertSorted(le, s[0], Sort(le, s[1..]));
    }
  }

  /** Two sorted arrangements of the same elements agree when the comparator separates them. */
  lemma {:induction false} SortedUnique<T(!new)>(le: (T, T) -> bool, s: seq<T>, t: seq<T>)
    requires SortedBy(le, s) && SortedBy(le, t)
    requires multiset(s) == multiset(t)
    requires Separates(le, s)
    ensures s == t
    decreases |s|
  {
    if s == [] {
      assert |multiset(t)| == |t|;
    } else {
      assert s[0] in multiset(t);
      LeastHead(le, s, t);
      TailElements(s);
      TailElements(t);
      SortedUnique(le, s[1..], t[1..]);
      assert s == [s[0]] + s[1..] && t == [t[0]] + t[1..];
    }
  }

  lemma TailElements<T(!new)>(s: seq<T>)
    requires s != []
    ensures multiset(s[1..]) == multiset(s) - multiset{s[0]}
  {
    assert s == [s[0]] + s[1..];
  }

  lemma LeastHead<T(!new)>(le: (T, T) -> bool, s: seq<T>, t: seq<T>)
    requires SortedBy(le, s) && SortedBy(le, t) && s != [] && t != []
    requires multiset(s) == multiset(t) && Separates(le, s)
    ensures s[0] == t[0]
  {
    assert s[0] in multiset(t) && t[0] in multiset(s);
    var i :| 0 <= i < |s| && s[i] == t[0];
    var j :| 0 <= j < |t| && t[j] == s[0];
    if i > 0 && j > 0 {
      assert le(s[0], s[i]) && le(t[0], t[j]);
    }
  }

  lemma SortCanonical<T(!new)>(le: (T, T) -> bool, s: seq<T>, t: seq<T>)
    requires TotalPreorder(le)
    requires multiset(s) == multiset(t)
    requires Separates(le, s)
    ensures Sort(le, s) == Sort(le, t)
  {
    SortSorts(le, s);
    SortSorts(le, t);
    SortPermutes(le, s);
    SortPermutes(le, t);
    SortedUnique(le, Sort(le, s), Sort(le, t));
  }

  lemma FilterUnfolds<T(!new)>(p: T -> bool, x: T, s: seq<T>)
    ensures Filter(p, [x] + s) == if p(x) then [x] + Filter(p, s) else Filter(p, s)
  {
    assert ([x] + s)[1..] == s;
  }

  lemma {:induction false} InsertStable<T(!new)>(le: (T, T) -> bool, x: T, s: seq<T>, tied: T -> bool)
    requires forall a, b :: tied(a) && tied(b) ==> le(a, b)
    ensures Filter(tied, Insert(le, x, s)) == if tied(x) then [x] + Filter(tied, s) else Filter(tied, s)
  {
    if s == [] || le(x, s[0]) {
      FilterUnfolds(tied, x, s);
    } else {
      var first, rest := s[0], s[1..];
      InsertStable(le, x, rest, tied);
      FilterUnfolds(tied, first, Insert(le, x, rest));
      assert Filter(tied, s) == if tied(first) then [first] + Filter(tied, rest) else Filter(tied, rest);
      assert !(tied(x) && tied(first));
    }
  }

  /** Sorting keeps the relative order of elements that tie. */
  lemma {:induction false} SortStable<T(!new)>(le: (T, T) -> bool, s: seq<T>, tied: T -> bool)
    requires forall a, b :: tied(a) && tied(b) ==> le(a, b)
    ensures Filter(tied, Sort(le, s)) == Filter(tied, s)
  {
    if s != [] {
      SortStable(le, s[1..], tied);
      InsertStable(le, s[0], Sort(le, s[1..]), tied);
    }
  }

  lemma ConcatAfterHead<T(!new)>(x: T, s: seq<T>, t: seq<T>)
    ensures ([x] + s) + t == [x] + (s + t)
  {
  }

  lemma {:induction false} FilterConcat<T(!new)>(p: T -> bool, s: seq<T>, t: seq<T>)
    ensures Filter(p, s + t) == Filter(p, s) + Filter(p, t)
  {
    if s == [] {
      assert s + t == t;
    } else {
      var x, rest := s[0], s[1..];
      assert s == [x] + rest;
      FilterConcat(p, rest, t);
      FilterUnfolds(p, x, rest + t);
      FilterUnfolds(p, x, rest);
      ConcatAfterHead(x, rest, t);
      ConcatAfterHead(x, Filter(p, rest), Filter(p, t));
    }
  }

  lemma FilterLast<T(!new)>(p: T -> bool, init: seq<T>, last: T)
    ensures Filter(p, init + [last]) == if p(last) then Filter(p, init) + [last] else Filter(p, init)
  {
    FilterConcat(p, init, [last]);
    assert [last] == [last] + [];
    FilterUnfolds(p, last, []);
  }

  lemma {:induction false} FilterFilter<T(!new)>(p: T -> bool, q: T -> bool, s: seq<T>)
    ensures (forall x :: p(x) ==> q(x)) ==> Filter(p, Filter(q, s)) == Filter(p, s)
    ensures (forall x :: p(x) ==> !q(x)) ==> Filter(p, Filter(q, s)) == []
  {
    if s != [] {
      FilterFilter(p, q, s[1..]);
      FilterConcat(p, if q(s[0]) then [s[0]] else [], Filter(q, s[1..]));
    }
  }

  lemma {:induction false} FilterAll<T(!new)>(p: T -> bool, s: seq<T>)
    ensures |Filter(p, s)| == |s| <==> Filter(p, s) == s
    ensures Filter(p, s) == s <==> forall x :: x in s ==> p(x)
  {
    if s != [] {
      FilterAll(p, s[1..]);
      assert s == [s[0]] + s[1..];
      if p(s[0]) {
        assert Filter(p, s) == [s[0]] + Filter(p, s[1..]);
        assert Filter(p, s)[1..] == Filter(p, s[1..]);
      } else {
        assert s[0] in s;
      }
    }
  }

  lemma {:induction false} FilterNoDup<T(!new)>(p: T -> bool, s: seq<T>)
    requires NoDup(s)
    ensures NoDup(Filter(p, s))
  {
    if s != [] {
      FilterNoDup(p, s[1..]);
      assert s[0] !in s[1..];
    }
  }

  lemma {:induction false} NoDupMultiplicity<T(!new)>(s: seq<T>, x: T)
    requires NoDup(s)
    ensures multiset(s)[x] <= 1
  {
    if s != [] {
      NoDupMultiplicity(s[1..], x);
      assert s == [s[0]] + s[1..];
      if x == s[0] {
        assert x !in s[1..];
      }
    }
  }

  lemma NoDupMultiset<T(!new)>(s: seq<T>, t: seq<T>)
    requires NoDup(s) && multiset(s) == multiset(t)
    ensures NoDup(t)
  {
    forall i, j | 0 <= i < j < |t| ensures t[i] != t[j] {
      if t[i] == t[j] {
        assert t == t[..i] + [t[i]] + t[i + 1..j] + [t[j]] + t[j + 1..];
        assert multiset(t)[t[i]] >= 2;
        NoDupMultiplicity(s, t[i]);
      }
    }
  }

  /** The head of a sorted sequence is the first of its least elements. */
  lemma {:induction false} SortHead<T(!new)>(le: (T, T) -> bool, s: seq<T>) returns (i: nat)
    requires TotalPreorder(le) && s != []
    ensures i < |s| && Sort(le, s)[0] == s[i]
    ensures forall j :: 0 <= j < |s| ==> le(s[i], s[j])
    ensures forall j :: 0 <= j < i ==> !le(s[j], s[i])
  {
    if |s| == 1 {
      i := 0;
      assert le(s[0], s[0]);
    } else {
      var k := SortHead(le, s[1..]);
      assert s[1..][k] == s[k + 1];
      assert forall j :: 1 <= j < |s| ==> s[j] == s[1..][j - 1];
      if le(s[0], s[k + 1]) {
        i := 0;
        assert le(s[0], s[0]);
      } else {
        i := k + 1;
      }
    }
  }

  /** Two duplicate-free sequences with the same elements are permutations of each other. */
  lemma NoDupPermutes<T(!new)>(s: seq<T>, t: seq<T>)
    requires NoDup(s) && NoDup(t) && forall x :: x in s <==> x in t
    ensures multiset(s) == multiset(t)
  {
    forall x ensures multiset(s)[x] == multiset(t)[x] {
      NoDupMultiplicity(s, x);
      NoDupMultiplicity(t, x);
      assert x in s <==> x in multiset(s);
      assert x in t <==> x in multiset(t);
    }
  }

  lemma PairStays<T(!new)>(le: (T, T) -> bool, p: T -> bool, a: T, b: T)
    ensures le(a, b) ==> Sort(le, [a, b]) == [a, b]
    ensures p(a) && p(b) ==> Filter(p, [a, b]) == [a, b]
  {
  }

  lemma {:induction false} FilterNone<T(!new)>(p: T -> bool, s: seq<T>)
    requires forall i :: 0 <= i < |s| ==> !p(s[i])
    ensures Filter(p, s) == []
  {
    if s != [] {
      FilterNone(p, s[1..]);
    }
  }

  lemma {:induction false} FilterCount<T(!new)>(p: T -> bool, s: seq<T>, x: T)
    ensures multiset(Filter(p, s))[x] == if p(x) then multiset(s)[x] else 0
  {
    if s != [] {
      FilterCount(p, s[1..], x);
      assert s == [s[0]] + s[1..];
    }
  }

  lemma FilterMultiset<T(!new)>(p: T -> bool, s: seq<T>, t: seq<T>)
    requires multiset(s) == multiset(t)
    ensures multiset(Filter(p, s)) == multiset(Filter(p, t))
  {
    forall x ensures multiset(Filter(p, s))[x] == multiset(Filter(p, t))[x] {
      FilterCount(p, s, x);
      FilterCount(p, t, x);
    }
  }

  lemma {:induction false} FilterSame<T(!new)>(p: T -> bool, q: T -> bool, s: seq<T>)
    requires forall i :: 0 <= i < |s| ==> p(s[i]) == q(s[i])
    ensures Filter(p, s) == Filter(q, s)
  {
    if s != [] {
      FilterSame(p, q, s[1..]);
    }
  }

  lemma {:induction false} FilterLength<T(!new)>(p: T -> bool, s: seq<T>, n: nat)
    requires n <= |s|
    ensures (forall x :: x in s[..n] ==> p(x)) ==> |Filter(p, s)| >= n
    ensures (forall x :: x in s[n..] ==> !p(x)) ==> |Filter(p, s)| <= n
  {
    assert s == s[..n] + s[n..];
    FilterConcat(p, s[..n], s[n..]);
    FilterAll(p, s[..n]);
    if Filter(p, s[n..]) != [] {
      assert Filter(p, s[n..])[0] in Filter(p, s[n..]);
    }
  }

  /** The element at position i is at most x exactly when more than i elements are. */
  lemma SortedCount<T(!new)>(le: (T, T) -> bool, s: seq<T>, i: nat, x: T)
    requires TotalPreorder(le) && SortedBy(le, s) && i < |s|
    ensures le(s[i], x) <==> |Filter((y: T) => le(y, x), s)| > i
  {
    var below := (y: T) => le(y, x);
    assert le(s[i], s[i]);
    FilterLength(below, s, i + 1);
    FilterLength(below, s, i);
    assert le(s[i], x) ==> forall y :: y in s[..i + 1] ==> below(y);
    assert !le(s[i], x) ==> forall y :: y in s[i..] ==> !below(y);
  }

  /** Two sorted arrangements of the same elements tie at every position. */
  lemma SortedTie<T(!new)>(le: (T, T) -> bool, s: seq<T>, t: seq<T>, i: nat)
    requires TotalPreorder(le) && SortedBy(le, s) && SortedBy(le, t)
    requires multiset(s) == multiset(t) && i < |s| && i < |t|
    ensures le(s[i], t[i])
  {
    var below := (x: T) => le(x, t[i]);
    SortedCount(le, s, i, t[i]);
    SortedCount(le, t, i, t[i]);
    FilterMultiset(below, s, t);
    assert |Filter(below, s)| == |multiset(Filter(below, s))|;
    assert |Filter(below, t)| == |multiset(Filter(below, t))|;
    assert le(t[i], t[i]);
  }

  /** The position before the first element that x does not come after. */
  function Slot<T(!new)>(le: (T, T) -> bool, x: T, s: seq<T>): (k: nat)
    ensures k <= |s|
  {
    if s == [] || le(x, s[0]) then 0 else 1 + Slot(le, x, s[1..])
  }

  lemma {:induction false} SameSlot<T(!new)>(le: (T, T) -> bool, a: T, b: T, s: seq<T>)
    requires TotalPreorder(le) && le(a, b) && le(b, a)
    ensures Slot(le, a, s) == Slot(le, b, s)
  {
    if s != [] {
      assert le(a, s[0]) <==> le(b, s[0]);
      SameSlot(le, a, b, s[1..]);
    }
  }

  /** Two elements that tie go in side by side, the one inserted last first. */
  lemma {:induction false} InsertTwo<T(!new)>(le: (T, T) -> bool, a: T, b: T, s: seq<T>)
    requires TotalPreorder(le) && le(a, b) && le(b, a)
    ensures var k := Slot(le, a, s); Insert(le, a, Insert(le, b, s)) == s[..k] + ([a, b] + s[k..])
  {
    var k := Slot(le, a, s);
    assert s == [] || (le(a, s[0]) <==> le(b, s[0]));
    if k == 0 {
      assert Insert(le, b, s) == [b] + s && Insert(le, a, [b] + s) == [a] + ([b] + s);
    } else {
      InsertTwo(le, a, b, s[1..]);
      InsertAfterHead(le, a, b, s);
      Rejoin(s, k, [a, b] + s[k..]);
    }
  }

  lemma Rejoin<T(!new)>(s: seq<T>, k: nat, t: seq<T>)
    requires 0 < k <= |s|
    ensures [s[0]] + (s[1..][..k - 1] + t) == s[..k] + t && s[1..][k - 1..] == s[k..]
  {
  }

  lemma InsertAfterHead<T(!new)>(le: (T, T) -> bool, a: T, b: T, s: seq<T>)
    requires s != [] && !le(a, s[0]) && !le(b, s[0])
    ensures Insert(le, a, Insert(le, b, s)) == [s[0]] + Insert(le, a, Insert(le, b, s[1..]))
  {
    assert Insert(le, b, s)[0] == s[0] && Insert(le, b, s)[1..] == Insert(le, b, s[1..]);
  }

  lemma TakeOut<T(!new)>(s: seq<T>, x: T) returns (rest: seq<T>)
    requires x in s
    ensures multiset(s) == multiset(rest) + multiset{x}
  {
    var i :| 0 <= i < |s| && s[i] == x;
    rest := s[..i] + s[i + 1..];
    assert s == s[..i] + [x] + s[i + 1..];
  }
}
