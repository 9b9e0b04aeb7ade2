// What a stable sort leaves of the order of its input: the order of the elements that tie, what of them fits into
// the first places, and what can come first.
module TieOrder {
  import opened Sorting

function TiesWith<T(!new)>(le: (T, T) -> bool, x: T): T -> bool {
    (y: T) => le(x, y) && le(y, x)
  }

  ghost predicate SameTies<T(!new)>(le: (T, T) -> bool, s: seq<T>, t: seq<T>) {
    forall x {:trigger TiesWith(le, x)} :: Filter(TiesWith(le, x), s) == Filter(TiesWith(le, x), t)
  }

  lemma SameHead<T(!new)>(le: (T, T) -> bool, s: seq<T>, t: seq<T>)
    requires TotalPreorder(le) && SortedBy(le, s) && SortedBy(le, t) && SameTies(le, s, t) && s != []
    ensures t != [] && le(t[0], s[0])
  {
    var ties := TiesWith(le, s[0]);
    assert le(s[0], s[0]);
    assert s[0] in Filter(ties, s);
    var i :| 0 <= i < |t| && t[i] == Filter(ties, t)[0];
    assert le(t[0], t[0]) && le(t[0], t[i]);
  }

  lemma TailsTie<T(!new)>(le: (T, T) -> bool, s: seq<T>, t: seq<T>)
    requires SameTies(le, s, t) && s != [] && t != [] && s[0] == t[0]
    ensures SameTies(le, s[1..], t[1..])
  {
    forall x ensures Filter(TiesWith(le, x), s[1..]) == Filter(TiesWith(le, x), t[1..]) {
      var ties := TiesWith(le, x);
      assert s == [s[0]] + s[1..] && t == [t[0]] + t[1..];
      FilterUnfolds(ties, s[0], s[1..]);
      FilterUnfolds(ties, t[0], t[1..]);
      assert Filter(ties, s) == Filter(ties, t);
      if ties(s[0]) {
        assert ([s[0]] + Filter(ties, s[1..]))[1..] == ([t[0]] + Filter(ties, t[1..]))[1..];
      }
    }
  }

  /** Sorted sequences are equal when they have the same elements of each class of ties in the same order. */
  lemma {:induction false} SortedByClasses<T(!new)>(le: (T, T) -> bool, s: seq<T>, t: seq<T>)
    requires TotalPreorder(le) && SortedBy(le, s) && SortedBy(le, t) && SameTies(le, s, t)
    ensures s == t
    decreases |s|
  {
    if s == [] {
      if t != [] {
        SameHead(le, t, s);
      }
    } else {
      SameHead(le, s, t);
      SameHead(le, t, s);
      var ties := TiesWith(le, s[0]);
      assert s == [s[0]] + s[1..] && t == [t[0]] + t[1..];
      FilterUnfolds(ties, s[0], s[1..]);
      FilterUnfolds(ties, t[0], t[1..]);
      assert le(s[0], s[0]);
      assert Filter(ties, s)[0] == s[0] && Filter(ties, t)[0] == t[0];
      TailsTie(le, s, t);
      SortedByClasses(le, s[1..], t[1..]);
    }
  }

  /** What a stable sort leaves of the order of its input: that of the elements that tie, and nothing else. */
  lemma SortsAgreeIff<T(!new)>(le: (T, T) -> bool, s: seq<T>, t: seq<T>)
    requires TotalPreorder(le)
    ensures Sort(le, s) == Sort(le, t) <==> SameTies(le, s, t)
  {
    forall x ensures Filter(TiesWith(le, x), Sort(le, s)) == Filter(TiesWith(le, x), s)
                  && Filter(TiesWith(le, x), Sort(le, t)) == Filter(TiesWith(le, x), t) {
      SortStable(le, s, TiesWith(le, x));
      SortStable(le, t, TiesWith(le, x));
    }
    if SameTies(le, s, t) {
      SortSorts(le, s);
      SortSorts(le, t);
      SortedByClasses(le, Sort(le, s), Sort(le, t));
    }
  }

  function Least(a: nat, b: nat): nat {
    if a <= b then a else b
  }

  function Take<T(!new)>(s: seq<T>, n: nat): (r: seq<T>)
    ensures |r| == Least(n, |s|)
  {
    s[..Least(n, |s|)]
  }

  /** Strictly before x. */
  function Below<T(!new)>(le: (T, T) -> bool, x: T): T -> bool {
    (y: T) => !le(x, y)
  }

  /** The elements from position b on, c of them, are those of s that tie with x, in their order. */
  ghost predicate IsClass<T(!new)>(le: (T, T) -> bool, s: seq<T>, x: T, b: nat, c: nat) {
    && b + c <= |s| && s[b..b + c] == Filter(TiesWith(le, x), s)
    && forall i :: 0 <= i < |s| ==> (TiesWith(le, x)(s[i]) <==> b <= i < b + c)
  }

  lemma ClassAfterSmaller<T(!new)>(le: (T, T) -> bool, first: T, rest: seq<T>, x: T, b: nat, c: nat)
    requires IsClass(le, rest, x, b, c) && !TiesWith(le, x)(first)
    ensures IsClass(le, [first] + rest, x, b + 1, c)
  {
    FilterUnfolds(TiesWith(le, x), first, rest);
    var s := [first] + rest;
    assert s[b + 1..b + 1 + c] == rest[b..b + c];
  }

  lemma ClassFromHead<T(!new)>(le: (T, T) -> bool, first: T, rest: seq<T>, x: T, c: nat)
    requires IsClass(le, rest, x, 0, c) && TiesWith(le, x)(first)
    ensures IsClass(le, [first] + rest, x, 0, c + 1)
  {
    FilterUnfolds(TiesWith(le, x), first, rest);
    var s := [first] + rest;
    assert s[0..0 + (c + 1)] == [first] + rest[0..0 + c];
  }

  lemma NoClass<T(!new)>(le: (T, T) -> bool, s: seq<T>, x: T)
    requires forall i :: 0 <= i < |s| ==> !TiesWith(le, x)(s[i])
    ensures IsClass(le, s, x, 0, 0)
  {
    FilterNone(TiesWith(le, x), s);
  }

  /** Nothing is below x in a sorted sequence whose head is not, and nothing ties with x when the head is above it. */
  lemma HeadIsLeast<T(!new)>(le: (T, T) -> bool, s: seq<T>, x: T)
    requires TotalPreorder(le) && SortedBy(le, s) && s != [] && le(x, s[0])
    ensures Filter(Below(le, x), s) == [] && Filter(Below(le, x), s[1..]) == []
    ensures !le(s[0], x) ==> Filter(TiesWith(le, x), s[1..]) == []
  {
    forall i | 0 <= i < |s| ensures le(x, s[i]) && (le(s[i], x) ==> le(s[0], x)) {
      assert i > 0 ==> le(s[0], s[i]);
    }
    FilterNone(Below(le, x), s);
    FilterNone(Below(le, x), s[1..]);
    if !le(s[0], x) {
      FilterNone(TiesWith(le, x), s[1..]);
    }
  }

  lemma ClassCounts<T(!new)>(le: (T, T) -> bool, first: T, rest: seq<T>, x: T)
    ensures |Filter(Below(le, x), [first] + rest)| == |Filter(Below(le, x), rest)| + if le(x, first) then 0 else 1
    ensures |Filter(TiesWith(le, x), [first] + rest)|
         == |Filter(TiesWith(le, x), rest)| + if le(x, first) && le(first, x) then 1 else 0
  {
    FilterUnfolds(Below(le, x), first, rest);
    FilterUnfolds(TiesWith(le, x), first, rest);
  }

  lemma ClassStep<T(!new)>(le: (T, T) -> bool, first: T, rest: seq<T>, x: T, b: nat, c: nat)
    requires IsClass(le, rest, x, b, c)
    requires le(x, first) ==> b == 0
    requires le(x, first) && !le(first, x) ==> c == 0
    ensures IsClass(le, [first] + rest, x, b + (if le(x, first) then 0 else 1), c + if le(x, first) && le(first, x) then 1 else 0)
  {
    if !le(x, first) {
      ClassAfterSmaller(le, first, rest, x, b, c);
    } else if le(first, x) {
      ClassFromHead(le, first, rest, x, c);
    } else {
      NoClass(le, [first] + rest, x);
    }
  }

  /** In a sorted sequence the elements that tie with x stand together, after those below it. */
  lemma {:induction false} ClassSlice<T(!new)>(le: (T, T) -> bool, s: seq<T>, x: T)
    requires TotalPreorder(le) && SortedBy(le, s)
    ensures IsClass(le, s, x, |Filter(Below(le, x), s)|, |Filter(TiesWith(le, x), s)|)
  {
    if s == [] {
      NoClass(le, s, x);
    } else {
      var first, rest := s[0], s[1..];
      assert s == [first] + rest;
      ClassSlice(le, rest, x);
      if le(x, first) {
        HeadIsLeast(le, s, x);
      }
      ClassStep(le, first, rest, x, |Filter(Below(le, x), rest)|, |Filter(TiesWith(le, x), rest)|);
      ClassCounts(le, first, rest, x);
    }
  }

  /** How many of n places are left to the elements that tie with x in a sorted sequence of the elements of s. */
  function Room<T(!new)>(le: (T, T) -> bool, s: seq<T>, x: T, n: nat): nat {
    var below := |Filter(Below(le, x), s)|;
    if below >= n then 0 else n - below
  }

  /** Of each class of ties the elements that fit into the first n places are the same and in the same order. */
  ghost predicate SameTiesUpTo<T(!new)>(le: (T, T) -> bool, s: seq<T>, t: seq<T>, n: nat) {
    forall x {:trigger TiesWith(le, x)} ::
      Take(Filter(TiesWith(le, x), s), Room(le, s, x, n)) == Take(Filter(TiesWith(le, x), t), Room(le, s, x, n))
  }

  lemma RoomPermutes<T(!new)>(le: (T, T) -> bool, s: seq<T>, t: seq<T>, x: T, n: nat)
    requires multiset(s) == multiset(t)
    ensures |Filter(Below(le, x), s)| == |Filter(Below(le, x), t)| && Room(le, s, x, n) == Room(le, t, x, n)
    ensures |Filter(TiesWith(le, x), s)| == |Filter(TiesWith(le, x), t)|
  {
    FilterMultiset(Below(le, x), s, t);
    FilterMultiset(TiesWith(le, x), s, t);
    assert |Filter(Below(le, x), s)| == |multiset(Filter(Below(le, x), s))|;
    assert |Filter(Below(le, x), t)| == |multiset(Filter(Below(le, x), t))|;
    assert |Filter(TiesWith(le, x), s)| == |multiset(Filter(TiesWith(le, x), s))|;
    assert |Filter(TiesWith(le, x), t)| == |multiset(Filter(TiesWith(le, x), t))|;
  }

  /** Those of the class of x that fit are a slice of the first n places. */
  lemma ClassTake<T(!new)>(le: (T, T) -> bool, s: seq<T>, x: T, n: nat)
    requires TotalPreorder(le) && SortedBy(le, s)
    ensures var b, k := |Filter(Below(le, x), s)|, Least(Room(le, s, x, n), |Filter(TiesWith(le, x), s)|);
            if k == 0 then Take(Filter(TiesWith(le, x), s), Room(le, s, x, n)) == []
            else b + k <= |Take(s, n)| && Take(Filter(TiesWith(le, x), s), Room(le, s, x, n)) == Take(s, n)[b..b + k]
  {
    ClassSlice(le, s, x);
    var b, c, k := |Filter(Below(le, x), s)|, |Filter(TiesWith(le, x), s)|, Least(Room(le, s, x, n), |Filter(TiesWith(le, x), s)|);
    if k > 0 {
      assert s[b..b + c][..k] == s[b..b + k] == Take(s, n)[b..b + k];
    }
  }

  lemma PrefixKeepsTies<T(!new)>(le: (T, T) -> bool, s: seq<T>, t: seq<T>, n: nat, x: T)
    requires TotalPreorder(le) && SortedBy(le, s) && SortedBy(le, t) && multiset(s) == multiset(t)
    requires Take(s, n) == Take(t, n)
    ensures Take(Filter(TiesWith(le, x), s), Room(le, s, x, n)) == Take(Filter(TiesWith(le, x), t), Room(le, s, x, n))
  {
    ClassTake(le, s, x, n);
    ClassTake(le, t, x, n);
    RoomPermutes(le, s, t, x, n);
  }

  lemma ClassAt<T(!new)>(le: (T, T) -> bool, s: seq<T>, x: T, i: nat)
    requires TotalPreorder(le) && SortedBy(le, s) && i < |s|
    ensures var b, c := |Filter(Below(le, x), s)|, |Filter(TiesWith(le, x), s)|;
            && (TiesWith(le, x)(s[i]) <==> b <= i < b + c)
            && (b <= i < b + c ==> s[i] == Filter(TiesWith(le, x), s)[i - b])
  {
    ClassSlice(le, s, x);
    var b, c := |Filter(Below(le, x), s)|, |Filter(TiesWith(le, x), s)|;
    assert b <= i < b + c ==> s[i] == s[b..b + c][i - b];
  }

  lemma TiesKeepPrefix<T(!new)>(le: (T, T) -> bool, s: seq<T>, t: seq<T>, n: nat, i: nat)
    requires TotalPreorder(le) && SortedBy(le, s) && SortedBy(le, t) && multiset(s) == multiset(t)
    requires SameTiesUpTo(le, s, t, n) && i < n && i < |s| && i < |t|
    ensures s[i] == t[i]
  {
    var x := s[i];
    assert le(x, x);
    ClassAt(le, s, x, i);
    ClassAt(le, t, x, i);
    RoomPermutes(le, s, t, x, n);
    var b, ties, room := |Filter(Below(le, x), s)|, TiesWith(le, x), Room(le, s, x, n);
    assert Take(Filter(ties, s), room)[i - b] == Take(Filter(ties, t), room)[i - b];
  }

  /** The first n places after a stable sort are decided by the elements of each class of ties that fit there. */
  lemma TakeSortsAgreeIff<T(!new)>(le: (T, T) -> bool, s: seq<T>, t: seq<T>, n: nat)
    requires TotalPreorder(le) && multiset(s) == multiset(t)
    ensures Take(Sort(le, s), n) == Take(Sort(le, t), n) <==> SameTiesUpTo(le, s, t, n)
  {
    var a, b := Sort(le, s), Sort(le, t);
    SortSorts(le, s);
    SortSorts(le, t);
    SortPermutes(le, s);
    SortPermutes(le, t);
    assert |multiset(s)| == |s| && |multiset(t)| == |t|;
    forall x
      ensures Filter(TiesWith(le, x), a) == Filter(TiesWith(le, x), s) && Filter(TiesWith(le, x), b) == Filter(TiesWith(le, x), t)
                  && Room(le, a, x, n) == Room(le, s, x, n) {
      SortStable(le, s, TiesWith(le, x));
      SortStable(le, t, TiesWith(le, x));
      RoomPermutes(le, a, s, x, n);
    }
    assert SameTiesUpTo(le, s, t, n) <==> SameTiesUpTo(le, a, b, n);
    if Take(a, n) == Take(b, n) {
      forall x
        ensures Take(Filter(TiesWith(le, x), a), Room(le, a, x, n)) == Take(Filter(TiesWith(le, x), b), Room(le, a, x, n))
      {
        PrefixKeepsTies(le, a, b, n, x);
      }
    }
    if SameTiesUpTo(le, a, b, n) {
      forall i | 0 <= i < Least(n, |a|) ensures a[i] == b[i] {
        TiesKeepPrefix(le, a, b, n, i);
      }
    }
  }

  lemma {:induction false} FilterCommutes<T(!new)>(p: T -> bool, q: T -> bool, s: seq<T>)
    ensures Filter(p, Filter(q, s)) == Filter(q, Filter(p, s))
  {
    if s != [] {
      var x, rest := s[0], s[1..];
      assert s == [x] + rest;
      FilterCommutes(p, q, rest);
      FilterUnfolds(p, x, rest);
      FilterUnfolds(q, x, rest);
      FilterUnfolds(p, x, Filter(q, rest));
      FilterUnfolds(q, x, Filter(p, rest));
    }
  }

  lemma {:induction false} FilterSorted<T(!new)>(le: (T, T) -> bool, p: T -> bool, s: seq<T>)
    requires SortedBy(le, s)
    ensures SortedBy(le, Filter(p, s))
  {
    if s != [] {
      FilterSorted(le, p, s[1..]);
      var r := Filter(p, s[1..]);
      forall j | 0 <= j < |r| ensures le(s[0], r[j]) {
        assert r[j] in s[1..];
        var i :| 0 <= i < |s[1..]| && s[1..][i] == r[j];
        assert s[i + 1] == r[j];
      }
    }
  }

  /** Sorting what a filter keeps is filtering what is sorted. */
  lemma SortOfFilter<T(!new)>(le: (T, T) -> bool, p: T -> bool, s: seq<T>)
    requires TotalPreorder(le)
    ensures Filter(p, Sort(le, s)) == Sort(le, Filter(p, s))
  {
    var a, b := Filter(p, Sort(le, s)), Sort(le, Filter(p, s));
    SortSorts(le, s);
    FilterSorted(le, p, Sort(le, s));
    SortSorts(le, Filter(p, s));
    forall x ensures Filter(TiesWith(le, x), a) == Filter(TiesWith(le, x), b) {
      var ties := TiesWith(le, x);
      FilterCommutes(ties, p, Sort(le, s));
      SortStable(le, s, ties);
      FilterCommutes(p, ties, s);
      SortStable(le, Filter(p, s), ties);
    }
    SortedByClasses(le, a, b);
  }

  // ---- Which element can come first, over all orders of the input ----

  /** Sort by one comparator, keep what p holds of, sort by another one: what then comes first. */
  function Leader<T(!new)>(le1: (T, T) -> bool, le2: (T, T) -> bool, p: T -> bool, s: seq<T>): T
    requires Filter(p, Sort(le1, s)) != []
  {
    Sort(le2, Filter(p, Sort(le1, s)))[0]
  }

  /** None that p holds of is before x by the second comparator. */
  ghost predicate IsLeast<T(!new)>(le2: (T, T) -> bool, p: T -> bool, s: seq<T>, x: T) {
    x in s && p(x) && forall y :: y in s && p(y) ==> le2(x, y)
  }

  /** x is such an element, and of these none is before it by the first comparator. */
  ghost predicate MayLead<T(!new)>(le1: (T, T) -> bool, le2: (T, T) -> bool, p: T -> bool, s: seq<T>, x: T) {
    IsLeast(le2, p, s, x) && forall y :: IsLeast(le2, p, s, y) ==> le1(x, y)
  }

  /** What the leader is: the first, in the order of the first sort, that the second one puts nothing before. */
  lemma LeaderIs<T(!new)>(le1: (T, T) -> bool, le2: (T, T) -> bool, p: T -> bool, s: seq<T>) returns (i: nat)
    requires TotalPreorder(le1) && TotalPreorder(le2) && Filter(p, Sort(le1, s)) != []
    ensures var kept := Filter(p, Sort(le1, s));
            && i < |kept| && kept[i] == Leader(le1, le2, p, s) && IsLeast(le2, p, s, kept[i])
            && forall j :: 0 <= j < i ==> !IsLeast(le2, p, s, kept[j])
  {
    var kept := Filter(p, Sort(le1, s));
    SortPermutes(le1, s);
    i := SortHead(le2, kept);
    assert kept[i] in kept;
    forall y | y in s && p(y) ensures le2(kept[i], y) {
      assert y in kept;
      var j :| 0 <= j < |kept| && kept[j] == y;
    }
  }

  lemma LeaderMayLead<T(!new)>(le1: (T, T) -> bool, le2: (T, T) -> bool, p: T -> bool, s: seq<T>)
    requires TotalPreorder(le1) && TotalPreorder(le2) && Filter(p, Sort(le1, s)) != []
    ensures MayLead(le1, le2, p, s, Leader(le1, le2, p, s))
  {
    var kept := Filter(p, Sort(le1, s));
    var i := LeaderIs(le1, le2, p, s);
    SortSorts(le1, s);
    SortPermutes(le1, s);
    FilterSorted(le1, p, Sort(le1, s));
    forall y | IsLeast(le2, p, s, y) ensures le1(kept[i], y) {
      assert y in kept;
      var j :| 0 <= j < |kept| && kept[j] == y;
      assert j >= i;
      assert le1(kept[i], kept[i]);
    }
  }

  /** Put in front of the input, an element that may lead does. */
  lemma MayLeadLeads<T(!new)>(le1: (T, T) -> bool, le2: (T, T) -> bool, p: T -> bool, s: seq<T>, x: T, rest: seq<T>)
    requires TotalPreorder(le1) && TotalPreorder(le2) && MayLead(le1, le2, p, s, x)
    requires s == [x] + rest
    ensures Filter(p, Sort(le1, s)) != [] && Leader(le1, le2, p, s) == x
  {
    var ties, kept := TiesWith(le1, x), Filter(p, Sort(le1, s));
    SortPermutes(le1, s);
    assert x in kept;
    var i := LeaderIs(le1, le2, p, s);
    LeaderMayLead(le1, le2, p, s);
    assert ties(kept[i]);
    SortStable(le1, s, ties);
    FilterUnfolds(ties, x, rest);
    FilterCommutes(ties, p, Sort(le1, s));
    assert le1(x, x);
    FilterUnfolds(p, x, Filter(ties, rest));
    assert Filter(ties, kept)[0] == x;
    FirstKept(ties, kept, i);
  }

  /** The first element a filter keeps is that at position i or an earlier one. */
  lemma FirstKept<T(!new)>(p: T -> bool, s: seq<T>, i: nat)
    requires i < |s| && p(s[i])
    ensures Filter(p, s) != []
    ensures Filter(p, s)[0] == s[i] || Filter(p, s)[0] in s[..i]
  {
    assert s == s[..i] + ([s[i]] + s[i + 1..]);
    FilterConcat(p, s[..i], [s[i]] + s[i + 1..]);
    FilterUnfolds(p, s[i], s[i + 1..]);
    if Filter(p, s[..i]) != [] {
      assert Filter(p, s[..i])[0] in Filter(p, s[..i]);
    }
  }

  lemma SameLeast<T(!new)>(le1: (T, T) -> bool, le2: (T, T) -> bool, p: T -> bool, s: seq<T>, t: seq<T>)
    requires multiset(s) == multiset(t)
    ensures forall x :: MayLead(le1, le2, p, s, x) <==> MayLead(le1, le2, p, t, x)
    ensures (exists x :: x in s && p(x)) ==> Filter(p, Sort(le1, t)) != []
  {
    assert forall x :: (x in s <==> x in multiset(s)) && (x in t <==> x in multiset(t));
    assert forall x :: IsLeast(le2, p, s, x) <==> IsLeast(le2, p, t, x);
    SortPermutes(le1, t);
    if x :| x in s && p(x) {
      assert x in Filter(p, Sort(le1, t));
    }
  }

  /** In every order of s what comes first has the same image. */
  ghost predicate LeadersAgree<T(!new), U(!new)>(le1: (T, T) -> bool, le2: (T, T) -> bool, p: T -> bool, s: seq<T>, g: T -> U) {
    forall t: seq<T>, u: seq<T> {:trigger Filter(p, Sort(le1, t)), Filter(p, Sort(le1, u))} ::
      && multiset(t) == multiset(s) && Filter(p, Sort(le1, t)) != []
      && multiset(u) == multiset(s) && Filter(p, Sort(le1, u)) != []
      ==> g(Leader(le1, le2, p, t)) == g(Leader(le1, le2, p, u))
  }

  lemma InFront<T(!new)>(le1: (T, T) -> bool, le2: (T, T) -> bool, p: T -> bool, s: seq<T>, x: T) returns (t: seq<T>)
    requires TotalPreorder(le1) && TotalPreorder(le2) && MayLead(le1, le2, p, s, x)
    ensures multiset(t) == multiset(s) && Filter(p, Sort(le1, t)) != [] && Leader(le1, le2, p, t) == x
  {
    var rest := TakeOut(s, x);
    t := [x] + rest;
    SameLeast(le1, le2, p, s, t);
    MayLeadLeads(le1, le2, p, t, x, rest);
  }

  /** Every order gives the same image of what comes first exactly when all that may come first have the same image. */
  lemma LeadersAgreeIff<T(!new), U(!new)>(le1: (T, T) -> bool, le2: (T, T) -> bool, p: T -> bool, s: seq<T>, g: T -> U)
    requires TotalPreorder(le1) && TotalPreorder(le2)
    ensures LeadersAgree(le1, le2, p, s, g)
       <==> forall x, y :: MayLead(le1, le2, p, s, x) && MayLead(le1, le2, p, s, y) ==> g(x) == g(y)
  {
    if LeadersAgree(le1, le2, p, s, g) {
      forall x, y | MayLead(le1, le2, p, s, x) && MayLead(le1, le2, p, s, y) ensures g(x) == g(y) {
        var t := InFront(le1, le2, p, s, x);
        var u := InFront(le1, le2, p, s, y);
      }
    }
    if forall x, y :: MayLead(le1, le2, p, s, x) && MayLead(le1, le2, p, s, y) ==> g(x) == g(y) {
      forall t: seq<T>, u: seq<T> | && multiset(t) == multiset(s) && Filter(p, Sort(le1, t)) != []
                                    && multiset(u) == multiset(s) && Filter(p, Sort(le1, u)) != []
        ensures g(Leader(le1, le2, p, t)) == g(Leader(le1, le2, p, u))
      {
        LeaderMayLead(le1, le2, p, t);
        LeaderMayLead(le1, le2, p, u);
        SameLeast(le1, le2, p, s, t);
        SameLeast(le1, le2, p, s, u);
      }
    }
  }
}
