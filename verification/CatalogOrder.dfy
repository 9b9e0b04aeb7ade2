// When the order in which the catalog's candidates are given shows in the ingested record.
module CatalogOrder {
  import opened JsText
  import opened Sorting
  import opened TieOrder
  import opened CatalogIngest
  import M = MergePrecedence

  // ---- The surviving aliases, from the aliases as they come ----

  /** No alias of the same type and value has a source name that comes before this one's. */
  predicate HasLeastSource(env: M.Env, candidates: seq<Alias>, a: Alias) {
    forall i :: 0 <= i < |candidates| && AliasKey(candidates[i]) == AliasKey(a) ==> AliasNotAfter(env, a, candidates[i])
  }

  /** The first alias of least source for each type and value, as they come. */
  function Winners(env: M.Env, candidates: seq<Alias>): seq<Alias> {
    Firsts(Filter((a: Alias) => HasLeastSource(env, candidates, a), candidates))
  }

  ghost predicate KeyRespecting(p: Alias -> bool, s: seq<Alias>) {
    forall i, j :: 0 <= i < |s| && 0 <= j < |s| && AliasKey(s[i]) == AliasKey(s[j]) ==> p(s[i]) == p(s[j])
  }

  lemma FirstsLast(init: seq<Alias>, last: Alias)
    ensures Firsts(init + [last]) == if HasKey(init, AliasKey(last)) then Firsts(init) else Firsts(init) + [last]
  {
    assert (init + [last])[..|init|] == init;
  }

  ghost predicate KeepsKey(p: Alias -> bool, s: seq<Alias>, key: Text) {
    exists i :: 0 <= i < |s| && AliasKey(s[i]) == key && p(s[i])
  }

  lemma {:induction false} FilteredHasKey(p: Alias -> bool, s: seq<Alias>, key: Text)
    ensures HasKey(Filter(p, s), key) <==> KeepsKey(p, s, key)
  {
    if s == [] {
      assert Filter(p, s) == [];
    } else {
      var init, last := s[..|s| - 1], s[|s| - 1];
      assert s == init + [last];
      FilteredHasKey(p, init, key);
      FilterLast(p, init, last);
      OneMoreKey(Filter(p, init), last, key);
      OneMoreKept(p, init, last, key);
    }
  }

  lemma OneMoreKey(init: seq<Alias>, last: Alias, key: Text)
    ensures HasKey(init + [last], key) <==> HasKey(init, key) || AliasKey(last) == key
  {
    var s := init + [last];
    if i :| 0 <= i < |init| && AliasKey(init[i]) == key {
      assert AliasKey(s[i]) == key;
    }
    if AliasKey(last) == key {
      assert AliasKey(s[|init|]) == key;
    }
  }

  lemma OneMoreKept(p: Alias -> bool, init: seq<Alias>, last: Alias, key: Text)
    ensures KeepsKey(p, init + [last], key) <==> KeepsKey(p, init, key) || (AliasKey(last) == key && p(last))
  {
    var s := init + [last];
    if i :| 0 <= i < |init| && AliasKey(init[i]) == key && p(init[i]) {
      assert AliasKey(s[i]) == key && p(s[i]);
    }
    if AliasKey(last) == key && p(last) {
      assert AliasKey(s[|init|]) == key && p(s[|init|]);
    }
  }

  lemma RespectedKey(p: Alias -> bool, init: seq<Alias>, last: Alias)
    requires KeyRespecting(p, init + [last])
    ensures KeyRespecting(p, init)
    ensures p(last) ==> (HasKey(Filter(p, init), AliasKey(last)) <==> HasKey(init, AliasKey(last)))
    ensures !p(last) ==> !HasKey(Filter(p, init), AliasKey(last))
  {
    var s := init + [last];
    assert s[|init|] == last && forall i :: 0 <= i < |init| ==> s[i] == init[i];
    FilteredHasKey(p, init, AliasKey(last));
  }

  /** Keeping the first of each key commutes with a filter that treats each key as one. */
  lemma {:induction false} FirstsOfFilter(p: Alias -> bool, s: seq<Alias>)
    requires KeyRespecting(p, s)
    ensures Filter(p, Firsts(s)) == Firsts(Filter(p, s))
  {
    if s != [] {
      var init, last := s[..|s| - 1], s[|s| - 1];
      assert s == init + [last];
      RespectedKey(p, init, last);
      FirstsOfFilter(p, init);
      FirstsLast(init, last);
      FirstsLast(Filter(p, init), last);
      FilterLast(p, init, last);
      FilterLast(p, Firsts(init), last);
    }
  }

  /** An element that is left out by p comes after one of its key that p keeps. */
  ghost predicate LaterOnesDropped(p: Alias -> bool, s: seq<Alias>) {
    forall i :: 0 <= i < |s| && !p(s[i]) ==> exists j :: 0 <= j < i && AliasKey(s[j]) == AliasKey(s[i]) && p(s[j])
  }

  lemma {:induction false} FirstsDropLater(p: Alias -> bool, s: seq<Alias>)
    requires LaterOnesDropped(p, s)
    ensures Firsts(Filter(p, s)) == Firsts(s)
  {
    if s != [] {
      var n := |s| - 1;
      var init, last := s[..n], s[n];
      assert s == init + [last];
      forall i | 0 <= i < |init| && !p(init[i])
        ensures exists j :: 0 <= j < i && AliasKey(init[j]) == AliasKey(init[i]) && p(init[j])
      {
        var j :| 0 <= j < i && AliasKey(s[j]) == AliasKey(s[i]) && p(s[j]);
        assert init[j] == s[j];
      }
      FirstsDropLater(p, init);
      FirstsLast(init, last);
      FirstsLast(Filter(p, init), last);
      FilterLast(p, init, last);
      FilteredHasKey(p, init, AliasKey(last));
      KeptHasKey(p, s, n);
    }
  }

  lemma KeptHasKey(p: Alias -> bool, s: seq<Alias>, n: nat)
    requires LaterOnesDropped(p, s) && n < |s|
    ensures HasKey(s[..n], AliasKey(s[n])) <==> KeepsKey(p, s[..n], AliasKey(s[n]))
    ensures !p(s[n]) ==> HasKey(s[..n], AliasKey(s[n]))
  {
    var init, key := s[..n], AliasKey(s[n]);
    if k :| 0 <= k < n && AliasKey(init[k]) == key {
      if !p(init[k]) {
        assert s[k] == init[k];
        var j :| 0 <= j < k && AliasKey(s[j]) == AliasKey(s[k]) && p(s[j]);
        assert init[j] == s[j];
      }
    }
    if !p(s[n]) {
      var j :| 0 <= j < n && AliasKey(s[j]) == AliasKey(s[n]) && p(s[j]);
      assert init[j] == s[j];
    }
  }

  lemma {:induction false} FirstsAmong(s: seq<Alias>)
    ensures forall x :: x in Firsts(s) ==> x in s
  {
    if s != [] {
      var init, last := s[..|s| - 1], s[|s| - 1];
      assert s == init + [last];
      FirstsLast(init, last);
      FirstsAmong(init);
    }
  }

  lemma {:induction false} FirstsSorted(env: M.Env, s: seq<Alias>)
    requires SortedBy(ByAlias(env), s)
    ensures SortedBy(ByAlias(env), Firsts(s))
  {
    if s != [] {
      var init, last := s[..|s| - 1], s[|s| - 1];
      assert s == init + [last];
      FirstsLast(init, last);
      assert forall i :: 0 <= i < |init| ==> init[i] == s[i];
      FirstsSorted(env, init);
      FirstsAmong(init);
      forall j | 0 <= j < |Firsts(init)| ensures ByAlias(env)(Firsts(init)[j], last) {
        assert Firsts(init)[j] in init;
        var i :| 0 <= i < |init| && init[i] == Firsts(init)[j];
        assert ByAlias(env)(s[i], s[|s| - 1]);
      }
    }
  }

  lemma {:induction false} FirstIndex(s: seq<Alias>, i: nat) returns (j: nat)
    requires i < |s|
    ensures j <= i && AliasKey(s[j]) == AliasKey(s[i])
    ensures forall k :: 0 <= k < j ==> AliasKey(s[k]) != AliasKey(s[i])
  {
    j := i;
    if k :| 0 <= k < i && AliasKey(s[k]) == AliasKey(s[i]) {
      j := FirstIndex(s, k);
    }
  }

  /** The first of its key in the sorted aliases has the least source. */
  lemma FirstHasLeastSource(env: M.Env, candidates: seq<Alias>, j: nat)
    requires TotalPreorder(env.le)
    requires var s := Sort(ByAlias(env), candidates);
             j < |s| && forall k :: 0 <= k < j ==> AliasKey(s[k]) != AliasKey(s[j])
    ensures HasLeastSource(env, candidates, Sort(ByAlias(env), candidates)[j])
  {
    var le, s := ByAlias(env), Sort(ByAlias(env), candidates);
    ByAliasOrder(env);
    SortSorts(le, candidates);
    SortPermutes(le, candidates);
    forall m | 0 <= m < |candidates| && AliasKey(candidates[m]) == AliasKey(s[j]) ensures le(s[j], candidates[m]) {
      assert candidates[m] in s;
      var n :| 0 <= n < |s| && s[n] == candidates[m];
      assert n == j || n > j;
      assert le(s[j], s[j]);
    }
  }

  lemma SortedDropsLater(env: M.Env, candidates: seq<Alias>)
    requires TotalPreorder(env.le)
    ensures LaterOnesDropped((a: Alias) => HasLeastSource(env, candidates, a), Sort(ByAlias(env), candidates))
  {
    var s := Sort(ByAlias(env), candidates);
    forall i | 0 <= i < |s| && !HasLeastSource(env, candidates, s[i])
      ensures exists j :: 0 <= j < i && AliasKey(s[j]) == AliasKey(s[i]) && HasLeastSource(env, candidates, s[j])
    {
      var j := FirstIndex(s, i);
      FirstHasLeastSource(env, candidates, j);
      assert j != i;
    }
  }

  ghost predicate KeysTie(env: M.Env, s: seq<Alias>) {
    forall x, y :: x in s && y in s && AliasKey(x) == AliasKey(y) ==> ByAlias(env)(x, y)
  }

  lemma TiesRespectKeys(env: M.Env, s: seq<Alias>, x: Alias)
    requires TotalPreorder(env.le) && KeysTie(env, s)
    ensures KeyRespecting(TiesWith(ByAlias(env), x), s)
  {
    ByAliasOrder(env);
    var le := ByAlias(env);
    forall i, j | 0 <= i < |s| && 0 <= j < |s| && AliasKey(s[i]) == AliasKey(s[j])
      ensures TiesWith(le, x)(s[i]) == TiesWith(le, x)(s[j])
    {
      assert le(s[i], s[j]) && le(s[j], s[i]);
    }
  }

  /** When aliases of one key tie, keeping the first of each commutes with the sort. */
  lemma FirstsOfSort(env: M.Env, s: seq<Alias>)
    requires TotalPreorder(env.le) && KeysTie(env, s)
    ensures Firsts(Sort(ByAlias(env), s)) == Sort(ByAlias(env), Firsts(s))
  {
    var le := ByAlias(env);
    ByAliasOrder(env);
    SortSorts(le, s);
    SortPermutes(le, s);
    SortSorts(le, Firsts(s));
    FirstsSorted(env, Sort(le, s));
    forall x ensures Filter(TiesWith(le, x), Firsts(Sort(le, s))) == Filter(TiesWith(le, x), Sort(le, Firsts(s))) {
      TiesRespectKeys(env, s, x);
      TiesRespectKeys(env, Sort(le, s), x);
      FirstsOfFilter(TiesWith(le, x), Sort(le, s));
      SortStable(le, s, TiesWith(le, x));
      FirstsOfFilter(TiesWith(le, x), s);
      SortStable(le, Firsts(s), TiesWith(le, x));
    }
    SortedByClasses(le, Firsts(Sort(le, s)), Sort(le, Firsts(s)));
  }

  /** The surviving aliases are the winners, sorted. */
  lemma SurvivorsAreWinners(env: M.Env, candidates: seq<Alias>)
    requires TotalPreorder(env.le)
    ensures Firsts(Sort(ByAlias(env), candidates)) == Sort(ByAlias(env), Winners(env, candidates))
  {
    var le, least := ByAlias(env), (a: Alias) => HasLeastSource(env, candidates, a);
    ByAliasOrder(env);
    SortedDropsLater(env, candidates);
    FirstsDropLater(least, Sort(le, candidates));
    SortOfFilter(le, least, candidates);
    forall x, y | x in Filter(least, candidates) && y in Filter(least, candidates) && AliasKey(x) == AliasKey(y)
      ensures le(x, y)
    {
      var i :| 0 <= i < |candidates| && candidates[i] == y;
    }
    FirstsOfSort(env, Filter(least, candidates));
  }

  /** Two lists of aliases leave the same survivors exactly when their winners that tie come in the same order. */
  lemma SurvivorsAgreeIff(env: M.Env, s: seq<Alias>, t: seq<Alias>)
    requires TotalPreorder(env.le)
    ensures Firsts(Sort(ByAlias(env), s)) == Firsts(Sort(ByAlias(env), t))
       <==> SameTies(ByAlias(env), Winners(env, s), Winners(env, t))
  {
    ByAliasOrder(env);
    SurvivorsAreWinners(env, s);
    SurvivorsAreWinners(env, t);
    SortsAgreeIff(ByAlias(env), Winners(env, s), Winners(env, t));
  }

  // ---- Two tied candidates of one source ----

  ghost predicate TiedPair(env: M.Env, a: Source, b: Source) {
    SourceNotAfter(env, a, b) && SourceNotAfter(env, b, a) && a.name == b.name
  }

  predicate Gives(s: Source, f: M.MergeField) {
    f in s.fields && !s.fields[f].Nothing?
  }

  function Given(s: Source, f: M.MergeField): M.Candidate
    requires f in s.fields
  {
    M.Candidate(s.name, s.stamp, s.fields[f])
  }

  /** When the two orders give a field the same value, source and stamp. */
  ghost predicate FieldAgrees(env: M.Env, a: Source, b: Source, f: M.MergeField) {
    Gives(a, f) && Gives(b, f) ==>
      if f.Tags? then
        && a.stamp == b.stamp
        && SameTiesUpTo(env.le, M.FreshTags(env, [Given(a, f), Given(b, f)]), M.FreshTags(env, [Given(b, f), Given(a, f)]),
                        M.MAX_TAGS)
      else if f.LastUpdated? then
        M.Effective(env, Given(a, f)) == M.Effective(env, Given(b, f)) > 0 ==> a.stamp == b.stamp
      else
        a.fields[f] == b.fields[f] && a.stamp == b.stamp
  }

  /** When the two orders give the same slug: of two different ones a known source takes the lesser, if they do not tie. */
  predicate SlugAgrees(env: M.Env, a: Source, b: Source) {
    var s, t := Trim(a.slug), Trim(b.slug);
    s == [] || t == [] || s == t || (a.name in SlugOrder() && !(env.le(s, t) && env.le(t, s)))
  }

  /** When the two orders list the conflicting aliases alike: those that tie under localeCompare commute. */
  ghost predicate ValuesAgree(env: M.Env, a: Source, b: Source) {
    SameTies(env.le, BroughtValues(env, [a, b]), BroughtValues(env, [b, a]))
  }

  /** When the two orders leave the same aliases: the winners that tie come in the same order. */
  ghost predicate AliasesAgree(env: M.Env, a: Source, i: Identity, b: Source, j: Identity)
    requires i.Identified? && j.Identified?
  {
    SameTies(ByAlias(env), Winners(env, Brought(env, [a, b], i)), Winners(env, Brought(env, [b, a], j)))
  }

  ghost predicate PairAgrees(env: M.Env, identify: Source -> Identity, a: Source, b: Source) {
    var i, j := identify(a), identify(b);
    if i.ManualReview? || j.ManualReview? then i == j && ValuesAgree(env, a, b)
    else
      && i.packageId == j.packageId && i.path == j.path && RepoOf(i, a) == RepoOf(j, b) && a.toolKind == b.toolKind
      && AliasesAgree(env, a, i, b, j)
      && SlugAgrees(env, a, b)
      && forall f :: FieldAgrees(env, a, b, f)
  }

  lemma TiedCandidates(a: Source, b: Source, f: M.MergeField)
    ensures CandidatesFor([a, b], f)
         == (if f in a.fields then [Given(a, f)] else []) + (if f in b.fields then [Given(b, f)] else [])
  {
    assert [a, b][..1] == [a] && [a][..0] == [];
    assert CandidatesFor([a], f) == if f in a.fields then [Given(a, f)] else [];
  }

  lemma TiedPresent(a: Source, b: Source, f: M.MergeField)
    ensures M.Present(CandidatesFor([a, b], f))
         == (if Gives(a, f) then [Given(a, f)] else []) + (if Gives(b, f) then [Given(b, f)] else [])
  {
    var present := (c: M.Candidate) => !c.value.Nothing?;
    TiedCandidates(a, b, f);
    FilterConcat(present, if f in a.fields then [Given(a, f)] else [], if f in b.fields then [Given(b, f)] else []);
    forall s: Source
      ensures Filter(present, if f in s.fields then [Given(s, f)] else []) == if Gives(s, f) then [Given(s, f)] else []
    {
    }
  }

  lemma OneGiven(env: M.Env, a: Source, b: Source, f: M.MergeField)
    requires !Gives(a, f) || !Gives(b, f)
    ensures M.ResolveField(env, f, CandidatesFor([a, b], f)) == M.ResolveField(env, f, CandidatesFor([b, a], f))
  {
    TiedPresent(a, b, f);
    TiedPresent(b, a, f);
    var cs, ds := CandidatesFor([a, b], f), CandidatesFor([b, a], f);
    assert M.Present(cs) == M.Present(ds);
    if f.Tags? {
      SamePresent(env, cs, ds);
    }
  }

  lemma SamePresent(env: M.Env, cs: seq<M.Candidate>, ds: seq<M.Candidate>)
    requires M.Present(cs) == M.Present(ds)
    ensures forall f: M.MergeField :: M.ResolveField(env, f, cs) == M.ResolveField(env, f, ds)
  {
  }

  /** What an ordinary field, the tags and the last update resolve to when both of a tied pair give it. */
  lemma BothGiven(env: M.Env, a: Source, b: Source, f: M.MergeField)
    requires TotalPreorder(env.le) && TiedPair(env, a, b) && Gives(a, f) && Gives(b, f)
    ensures var r, c, d := M.ResolveField(env, f, CandidatesFor([a, b], f)), Given(a, f), Given(b, f);
            if f.Tags? then r == M.Resolved(M.ResolveTags(env, [c, d]).value, Ascii("union"), a.stamp)
            else if f.LastUpdated? then r == M.ResolveLastUpdated(env, [c, d])
            else r == M.Resolved(a.fields[f], a.name, a.stamp)
  {
    var c, d := Given(a, f), Given(b, f);
    TiedPresent(a, b, f);
    assert M.Present(CandidatesFor([a, b], f)) == [c, d];
    assert env.le(a.name, a.name);
    PairStays(M.ByPrecedence(env, f), (x: M.Candidate) => true, c, d);
  }

  lemma FreshTagsSwap(env: M.Env, c: M.Candidate, d: M.Candidate)
    ensures multiset(M.FreshTags(env, [c, d])) == multiset(M.FreshTags(env, [d, c]))
  {
    var good := (t: Text) => !M.IsSpamTag(t);
    FilterNoDup(good, M.Distinct(M.AllTags(env, [c, d])));
    FilterNoDup(good, M.Distinct(M.AllTags(env, [d, c])));
    forall x ensures x in M.AllTags(env, [c, d]) <==> x in M.AllTags(env, [d, c]) {
      assert [c, d][1..] == [d] && [d, c][1..] == [c] && [c][1..] == [] && [d][1..] == [];
      assert M.AllTags(env, [c]) == (if c.value.Items? then M.CleanTags(env, c.value.items) else []) + [];
      assert M.AllTags(env, [d]) == (if d.value.Items? then M.CleanTags(env, d.value.items) else []) + [];
    }
    NoDupPermutes(M.FreshTags(env, [c, d]), M.FreshTags(env, [d, c]));
  }

  lemma TagsOfPair(env: M.Env, c: M.Candidate, d: M.Candidate)
    requires M.NotAfter(env, M.SourceOrder(M.Tags), c, d)
    ensures M.ResolveTags(env, [c, d]).value == M.Items(Take(Sort(env.le, M.FreshTags(env, [c, d])), M.MAX_TAGS))
  {
    PairStays(M.ByPrecedence(env, M.Tags), (x: M.Candidate) => true, c, d);
  }

  /** The kept tags of two tied candidates are the same in both orders exactly when the tags that tie and fit are. */
  lemma TagsAgreeIff(env: M.Env, c: M.Candidate, d: M.Candidate)
    requires TotalPreorder(env.le)
    requires M.NotAfter(env, M.SourceOrder(M.Tags), c, d) && M.NotAfter(env, M.SourceOrder(M.Tags), d, c)
    ensures M.ResolveTags(env, [c, d]).value == M.ResolveTags(env, [d, c]).value
       <==> SameTiesUpTo(env.le, M.FreshTags(env, [c, d]), M.FreshTags(env, [d, c]), M.MAX_TAGS)
  {
    TagsOfPair(env, c, d);
    TagsOfPair(env, d, c);
    FreshTagsSwap(env, c, d);
    TakeSortsAgreeIff(env.le, M.FreshTags(env, [c, d]), M.FreshTags(env, [d, c]), M.MAX_TAGS);
  }

  /** Of two candidates of one source the later one gives the last update, and the first given one when they tie. */
  lemma TwoDated(env: M.Env, a: Source, b: Source)
    requires TotalPreorder(env.le) && a.name == b.name && M.LastUpdated in a.fields && M.LastUpdated in b.fields
    ensures var c, d := Given(a, M.LastUpdated), Given(b, M.LastUpdated);
            var x, y := M.Effective(env, c), M.Effective(env, d);
            var expected := if x <= 0 && y <= 0 then M.Unresolved
                            else if x >= y then M.Resolved(M.Instant(x), a.name, a.stamp)
                            else M.Resolved(M.Instant(y), a.name, b.stamp);
            M.ResolveLastUpdated(env, [c, d]) == expected
  {
    var c, d := Given(a, M.LastUpdated), Given(b, M.LastUpdated);
    var dated := (c: M.Candidate) => M.Effective(env, c) > 0;
    assert [c, d] == [c] + [d];
    FilterUnfolds(dated, c, [d]);
    FilterUnfolds(dated, d, []);
    assert [d] == [d] + [];
    assert env.le(a.name, a.name);
    assert Sort(M.ByEffective(env), [c, d])[0] == if M.LaterFirst(env, c, d) then c else d by {
      assert [c, d][1..] == [d] && [d][1..] == [];
    }
    assert Sort(M.ByEffective(env), [c]) == [c] && Sort(M.ByEffective(env), [d]) == [d];
  }

  lemma DateAgreesIff(env: M.Env, a: Source, b: Source)
    requires TotalPreorder(env.le) && a.name == b.name && Gives(a, M.LastUpdated) && Gives(b, M.LastUpdated)
    ensures var c, d := Given(a, M.LastUpdated), Given(b, M.LastUpdated);
            M.ResolveLastUpdated(env, [c, d]) == M.ResolveLastUpdated(env, [d, c]) <==> FieldAgrees(env, a, b, M.LastUpdated)
  {
    TwoDated(env, a, b);
    TwoDated(env, b, a);
  }

  lemma TagsFieldAgreesIff(env: M.Env, a: Source, b: Source)
    requires TotalPreorder(env.le) && TiedPair(env, a, b) && Gives(a, M.Tags) && Gives(b, M.Tags)
    ensures M.ResolveField(env, M.Tags, CandidatesFor([a, b], M.Tags)) == M.ResolveField(env, M.Tags, CandidatesFor([b, a], M.Tags))
       <==> FieldAgrees(env, a, b, M.Tags)
  {
    BothGiven(env, a, b, M.Tags);
    BothGiven(env, b, a, M.Tags);
    assert env.le(a.name, a.name);
    TagsAgreeIff(env, Given(a, M.Tags), Given(b, M.Tags));
  }

  /** A field comes out the same in both orders exactly when it agrees. */
  lemma FieldAgreesIff(env: M.Env, a: Source, b: Source, f: M.MergeField)
    requires TotalPreorder(env.le) && TiedPair(env, a, b)
    ensures M.ResolveField(env, f, CandidatesFor([a, b], f)) == M.ResolveField(env, f, CandidatesFor([b, a], f))
       <==> FieldAgrees(env, a, b, f)
  {
    if !Gives(a, f) || !Gives(b, f) {
      OneGiven(env, a, b, f);
    } else if f.Tags? {
      TagsFieldAgreesIff(env, a, b);
    } else {
      BothGiven(env, a, b, f);
      BothGiven(env, b, a, f);
      if f.LastUpdated? {
        DateAgreesIff(env, a, b);
      }
    }
  }

  function ResolutionIn(lineage: M.Lineage, f: M.MergeField): M.Resolution {
    if f in lineage then lineage[f] else M.Unresolved
  }

  lemma LineageHolds(env: M.Env, sources: seq<Source>, f: M.MergeField)
    ensures ResolutionIn(M.LineageOf(env, CandidateMap(sources)), f) == M.ResolveField(env, f, CandidatesFor(sources, f))
  {
    M.EveryFieldListed(f);
  }

  /** Two lineages without unresolved entries are equal when they resolve every field alike. */
  lemma SameLineage(l: M.Lineage, m: M.Lineage)
    requires forall f :: f in l ==> l[f].Resolved?
    requires forall f :: f in m ==> m[f].Resolved?
    requires forall f {:trigger ResolutionIn(l, f)} :: ResolutionIn(l, f) == ResolutionIn(m, f)
    ensures l == m
  {
    forall f ensures (f in l <==> f in m) && (f in l ==> l[f] == m[f]) {
      assert ResolutionIn(l, f) == ResolutionIn(m, f);
    }
    assert l.Keys == m.Keys;
  }

  lemma LineageAgreesIff(env: M.Env, a: Source, b: Source)
    requires TotalPreorder(env.le) && TiedPair(env, a, b)
    ensures M.LineageOf(env, CandidateMap([a, b])) == M.LineageOf(env, CandidateMap([b, a]))
       <==> forall f :: FieldAgrees(env, a, b, f)
  {
    var l, m := M.LineageOf(env, CandidateMap([a, b])), M.LineageOf(env, CandidateMap([b, a]));
    forall f ensures FieldAgrees(env, a, b, f) <==> ResolutionIn(l, f) == ResolutionIn(m, f) {
      FieldAgreesIff(env, a, b, f);
      LineageHolds(env, [a, b], f);
      LineageHolds(env, [b, a], f);
    }
    if forall f :: FieldAgrees(env, a, b, f) {
      SameLineage(l, m);
    }
  }

  lemma SlugOfPair(env: M.Env, a: Source, b: Source)
    requires TotalPreorder(env.le) && TiedPair(env, a, b)
    ensures var s, t := Trim(a.slug), Trim(b.slug);
            ResolveSlug(env, [a, b]) == if s == [] then t else if t == [] then s
                                        else if a.name !in SlugOrder() || env.le(s, t) then s else t
  {
    var sluggish := (x: Source) => Trim(x.slug) != [];
    assert [a, b] == [a] + [b] && [b] == [b] + [];
    FilterUnfolds(sluggish, a, [b]);
    FilterUnfolds(sluggish, b, []);
    assert [a, b][1..] == [b] && [b][1..] == [] && [a][1..] == [];
    assert Sort(BySlug(env), [b]) == [b] && Sort(BySlug(env), [a]) == [a];
    assert Sort(BySlug(env), [a, b])[0] == if SlugNotAfter(env, a, b) then a else b;
  }

  lemma SlugOrNameIff(env: M.Env, a: Source, b: Source, lineage: M.Lineage)
    requires TotalPreorder(env.le) && TiedPair(env, a, b)
    ensures SlugOrName(env, [a, b], lineage) == SlugOrName(env, [b, a], lineage) <==> SlugAgrees(env, a, b)
  {
    SlugOfPair(env, a, b);
    SlugOfPair(env, b, a);
  }

  lemma TiedOrder(env: M.Env, a: Source, b: Source)
    requires TiedPair(env, a, b)
    ensures Sort(BySource(env), [a, b]) == [a, b]
  {
    PairStays(BySource(env), (x: Source) => true, a, b);
  }

  lemma TiedReviewIff(env: M.Env, identify: Source -> Identity, a: Source, b: Source)
    requires TotalPreorder(env.le) && TiedPair(env, a, b)
    requires identify(a).ManualReview? || identify(b).ManualReview?
    ensures IngestOf(env, identify, [a, b]) == IngestOf(env, identify, [b, a])
       <==> identify(a) == identify(b) && ValuesAgree(env, a, b)
  {
    TiedOrder(env, a, b);
    TiedOrder(env, b, a);
    SortsAgreeIff(env.le, BroughtValues(env, [a, b]), BroughtValues(env, [b, a]));
  }

  /** Assembled records are equal when their parts are; the slug falls back on the merged name. */
  lemma AssembledIff(env: M.Env, s: seq<Source>, t: seq<Source>, i: Identity, j: Identity, l: M.Lineage, m: M.Lineage)
    requires s != [] && t != [] && i.Identified? && j.Identified?
    ensures Assemble(env, s, i, l) == Assemble(env, t, j, m)
       <==> && i.packageId == j.packageId && i.path == j.path && RepoOf(i, s[0]) == RepoOf(j, t[0])
            && s[0].toolKind == t[0].toolKind && Survivors(env, s, i) == Survivors(env, t, j) && l == m
            && SlugOrName(env, s, l) == SlugOrName(env, t, m)
  {
  }

  /** Two tied candidates of one source give the same result in both orders exactly when they agree. */
  lemma TiedPairIff(env: M.Env, identify: Source -> Identity, a: Source, b: Source)
    requires TotalPreorder(env.le) && TiedPair(env, a, b)
    ensures IngestOf(env, identify, [a, b]) == IngestOf(env, identify, [b, a]) <==> PairAgrees(env, identify, a, b)
  {
    if identify(a).ManualReview? || identify(b).ManualReview? {
      TiedReviewIff(env, identify, a, b);
    } else {
      TiedOrder(env, a, b);
      TiedOrder(env, b, a);
      var l, m := M.LineageOf(env, CandidateMap([a, b])), M.LineageOf(env, CandidateMap([b, a]));
      AssembledIff(env, [a, b], [b, a], identify(a), identify(b), l, m);
      LineageAgreesIff(env, a, b);
      SlugOrNameIff(env, a, b, l);
      SurvivorsAgreeIff(env, Brought(env, [a, b], identify(a)), Brought(env, [b, a], identify(b)));
    }
  }

  /** So two such candidates that give different values for an ordinary field make the result depend on their order. */
  lemma TiedSourcesMatter(env: M.Env, identify: Source -> Identity, a: Source, b: Source, f: M.MergeField)
    requires TotalPreorder(env.le) && TiedPair(env, a, b) && !f.Tags? && !f.LastUpdated?
    requires Gives(a, f) && Gives(b, f) && a.fields[f] != b.fields[f]
    requires identify(a).Identified? && identify(b).Identified?
    ensures IngestOf(env, identify, [a, b]) != IngestOf(env, identify, [b, a])
  {
    TiedPairIff(env, identify, a, b);
    assert !FieldAgrees(env, a, b, f);
  }

  // ---- Any number of candidates ----

  function GivesField(f: M.MergeField): Source -> bool {
    (s: Source) => Gives(s, f)
  }

  /** The precedence of two sources for a field. */
  function ByField(env: M.Env, f: M.MergeField): (Source, Source) -> bool {
    (a: Source, b: Source) =>
      M.NotAfter(env, M.SourceOrder(f), M.Candidate(a.name, a.stamp, M.Nothing), M.Candidate(b.name, b.stamp, M.Nothing))
  }

  lemma ByFieldOrder(env: M.Env, f: M.MergeField)
    requires TotalPreorder(env.le)
    ensures TotalPreorder(ByField(env, f))
  {
    M.ByPrecedenceOrder(env, f);
    var le, field := M.ByPrecedence(env, f), ByField(env, f);
    forall a, b ensures field(a, b) == le(M.Candidate(a.name, a.stamp, M.Nothing), M.Candidate(b.name, b.stamp, M.Nothing)) {
    }
  }

  /** What a source makes a field resolve to. */
  function Resolving(f: M.MergeField): Source -> M.Resolution {
    (s: Source) => if f in s.fields then M.Resolved(s.fields[f], s.name, s.stamp) else M.Unresolved
  }

  lemma OneMoreCandidate(init: seq<Source>, last: Source, f: M.MergeField)
    ensures M.Present(CandidatesFor(init + [last], f))
         == if Gives(last, f) then M.Present(CandidatesFor(init, f)) + [Given(last, f)] else M.Present(CandidatesFor(init, f))
  {
    assert (init + [last])[..|init|] == init;
    if f in last.fields {
      FilterLast((c: M.Candidate) => !c.value.Nothing?, CandidatesFor(init, f), Given(last, f));
    } else {
      assert CandidatesFor(init + [last], f) == CandidatesFor(init, f);
    }
  }

  /** The i-th candidate is what the i-th source gives. */
  ghost predicate AreGiven(given: seq<Source>, present: seq<M.Candidate>, f: M.MergeField) {
    && |present| == |given|
    && forall i :: 0 <= i < |given| ==> f in given[i].fields && present[i] == Given(given[i], f)
  }

  lemma OneMoreGiven(given: seq<Source>, present: seq<M.Candidate>, last: Source, f: M.MergeField)
    requires AreGiven(given, present, f) && f in last.fields
    ensures AreGiven(given + [last], present + [Given(last, f)], f)
  {
  }

  lemma {:induction false} PresentAreGiven(sources: seq<Source>, f: M.MergeField)
    ensures AreGiven(Filter(GivesField(f), sources), M.Present(CandidatesFor(sources, f)), f)
  {
    if sources == [] {
      assert CandidatesFor(sources, f) == [];
    } else {
      var init, last := sources[..|sources| - 1], sources[|sources| - 1];
      assert sources == init + [last];
      PresentAreGiven(init, f);
      FilterLast(GivesField(f), init, last);
      OneMoreCandidate(init, last, f);
      if Gives(last, f) {
        OneMoreGiven(Filter(GivesField(f), init), M.Present(CandidatesFor(init, f)), last, f);
      }
    }
  }

  lemma PresentAre(sources: seq<Source>, f: M.MergeField)
    ensures var given := Filter(GivesField(f), sources);
            && |M.Present(CandidatesFor(sources, f))| == |given|
            && forall i :: 0 <= i < |given| ==> f in given[i].fields && M.Present(CandidatesFor(sources, f))[i] == Given(given[i], f)
  {
    PresentAreGiven(sources, f);
  }

  /** Two sequences whose elements compare alike have their first least elements at the same position. */
  lemma HeadsMatch<T(!new), U(!new)>(le: (T, T) -> bool, s: seq<T>, other: (U, U) -> bool, t: seq<U>) returns (i: nat)
    requires TotalPreorder(le) && TotalPreorder(other) && |s| == |t| > 0
    requires forall k, l :: 0 <= k < |s| && 0 <= l < |s| ==> le(s[k], s[l]) == other(t[k], t[l])
    ensures i < |s| && Sort(le, s)[0] == s[i] && Sort(other, t)[0] == t[i]
  {
    i := SortHead(le, s);
    var j := SortHead(other, t);
    assert le(s[i], s[j]) && other(t[j], t[i]);
    assert other(t[i], t[j]) && le(s[j], s[i]);
  }

  /** An ordinary field in the order that t gives. */
  function FieldFrom(env: M.Env, f: M.MergeField, t: seq<Source>): M.Resolution {
    M.ResolveField(env, f, CandidatesFor(Sort(BySource(env), t), f))
  }

  /** An ordinary field resolves to what the leading one of the sources that give it says. */
  lemma FieldIsLeader(env: M.Env, f: M.MergeField, t: seq<Source>)
    requires TotalPreorder(env.le) && !f.Tags? && !f.LastUpdated?
    ensures FieldFrom(env, f, t)
         == if Filter(GivesField(f), Sort(BySource(env), t)) == [] then M.Unresolved
            else Resolving(f)(Leader(BySource(env), ByField(env, f), GivesField(f), t))
  {
    var o := Sort(BySource(env), t);
    var given, present := Filter(GivesField(f), o), M.Present(CandidatesFor(o, f));
    PresentAre(o, f);
    if given != [] {
      ByFieldOrder(env, f);
      M.ByPrecedenceOrder(env, f);
      CompareAlike(env, f, given, present);
      var i := HeadsMatch(ByField(env, f), given, M.ByPrecedence(env, f), present);
      WinnerSays(env, f, o, present[i]);
    }
  }

  lemma CompareAlike(env: M.Env, f: M.MergeField, given: seq<Source>, present: seq<M.Candidate>)
    requires |present| == |given|
    requires forall i :: 0 <= i < |given| ==> f in given[i].fields && present[i] == Given(given[i], f)
    ensures forall k, l :: 0 <= k < |given| && 0 <= l < |given| ==>
              ByField(env, f)(given[k], given[l]) == M.ByPrecedence(env, f)(present[k], present[l])
  {
  }

  lemma WinnerSays(env: M.Env, f: M.MergeField, o: seq<Source>, c: M.Candidate)
    requires !f.Tags? && !f.LastUpdated? && M.Present(CandidatesFor(o, f)) != []
    requires Sort(M.ByPrecedence(env, f), M.Present(CandidatesFor(o, f)))[0] == c
    ensures M.ResolveField(env, f, CandidatesFor(o, f)) == M.Resolved(c.value, c.source, c.stamp)
  {
  }

  /** A field comes out the same in every order of the candidates. */
  ghost predicate FieldFixed(env: M.Env, f: M.MergeField, sources: seq<Source>) {
    forall t: seq<Source>, u: seq<Source> {:trigger FieldFrom(env, f, t), FieldFrom(env, f, u)} ::
      multiset(t) == multiset(sources) && multiset(u) == multiset(sources) ==> FieldFrom(env, f, t) == FieldFrom(env, f, u)
  }

  /** What is made of any two of these sources is the same. */
  ghost predicate AllAgree<T(!new)>(these: Source -> bool, made: Source -> T) {
    forall x, y :: these(x) && these(y) ==> made(x) == made(y)
  }

  lemma FixedIsAgreed(env: M.Env, f: M.MergeField, sources: seq<Source>)
    requires TotalPreorder(env.le) && !f.Tags? && !f.LastUpdated?
    ensures FieldFixed(env, f, sources)
       <==> LeadersAgree(BySource(env), ByField(env, f), GivesField(f), sources, Resolving(f))
  {
    var le1, le2, p, g := BySource(env), ByField(env, f), GivesField(f), Resolving(f);
    forall t: seq<Source>
      ensures FieldFrom(env, f, t) == if Filter(p, Sort(le1, t)) == [] then M.Unresolved else g(Leader(le1, le2, p, t))
    {
      FieldIsLeader(env, f, t);
    }
    forall t: seq<Source>, u: seq<Source> | multiset(t) == multiset(sources) && multiset(u) == multiset(sources)
      ensures Filter(p, Sort(le1, t)) == [] <==> Filter(p, Sort(le1, u)) == [] {
      SomeKept(le1, p, sources, t);
      SomeKept(le1, p, sources, u);
    }
  }

  lemma AllLeadersAgreeIff<T(!new)>(le1: (Source, Source) -> bool, le2: (Source, Source) -> bool, p: Source -> bool,
                                    s: seq<Source>, g: Source -> T)
    requires TotalPreorder(le1) && TotalPreorder(le2)
    ensures LeadersAgree(le1, le2, p, s, g) <==> AllAgree((x: Source) => MayLead(le1, le2, p, s, x), g)
  {
    LeadersAgreeIff(le1, le2, p, s, g);
  }

  /** For any candidates: an ordinary field is independent of their order exactly when all sources that can decide it agree. */
  lemma FieldFixedIff(env: M.Env, f: M.MergeField, sources: seq<Source>)
    requires TotalPreorder(env.le) && !f.Tags? && !f.LastUpdated?
    ensures FieldFixed(env, f, sources)
       <==> AllAgree((x: Source) => MayLead(BySource(env), ByField(env, f), GivesField(f), sources, x), Resolving(f))
  {
    BySourceOrder(env);
    ByFieldOrder(env, f);
    FixedIsAgreed(env, f, sources);
    AllLeadersAgreeIff(BySource(env), ByField(env, f), GivesField(f), sources, Resolving(f));
  }

  lemma SomeKept<T(!new)>(le: (T, T) -> bool, p: T -> bool, s: seq<T>, t: seq<T>)
    requires multiset(t) == multiset(s)
    ensures Filter(p, Sort(le, t)) == [] <==> forall x :: x in s ==> !p(x)
  {
    SortPermutes(le, t);
    assert forall x :: (x in s <==> x in multiset(s)) && (x in t <==> x in multiset(t));
    if Filter(p, Sort(le, t)) != [] {
      assert Filter(p, Sort(le, t))[0] in Filter(p, Sort(le, t));
    }
    if x :| x in s && p(x) {
      assert x in Filter(p, Sort(le, t));
    }
  }

  ghost predicate SlugFixed(env: M.Env, sources: seq<Source>) {
    forall t: seq<Source>, u: seq<Source> {:trigger Sort(BySource(env), t), Sort(BySource(env), u)} ::
      multiset(t) == multiset(sources) && multiset(u) == multiset(sources) ==>
        ResolveSlug(env, Sort(BySource(env), t)) == ResolveSlug(env, Sort(BySource(env), u))
  }

  /** For any candidates: the slug is independent of their order exactly when all sources that can decide it have the same. */
  lemma SlugFixedIff(env: M.Env, sources: seq<Source>)
    requires TotalPreorder(env.le)
    ensures SlugFixed(env, sources)
       <==> AllAgree((x: Source) => MayLead(BySource(env), BySlug(env), (s: Source) => Trim(s.slug) != [], sources, x),
                     (s: Source) => Trim(s.slug))
  {
    var le1, le2, p, g := BySource(env), BySlug(env), (s: Source) => Trim(s.slug) != [], (s: Source) => Trim(s.slug);
    BySourceOrder(env);
    SlugOrderTotal(env);
    LeadersAgreeIff(le1, le2, p, sources, g);
    forall t: seq<Source> | multiset(t) == multiset(sources)
      ensures Filter(p, Sort(le1, t)) == [] <==> forall x :: x in sources ==> !p(x) {
      SomeKept(le1, p, sources, t);
    }
    forall t: seq<Source>
      ensures ResolveSlug(env, Sort(le1, t)) == if Filter(p, Sort(le1, t)) == [] then [] else g(Leader(le1, le2, p, t))
    {
    }
  }

  // ---- The last update and the pivot of any number of candidates ----

  function IsDated(env: M.Env): Source -> bool {
    (s: Source) => Gives(s, M.LastUpdated) && M.Effective(env, Given(s, M.LastUpdated)) > 0
  }

  function DatedFrom(env: M.Env, t: seq<Source>): M.Resolution {
    M.ResolveField(env, M.LastUpdated, CandidatesFor(Sort(BySource(env), t), M.LastUpdated))
  }

  /** The order of last updates on sources; those without a date come last. */
  function ByDate(env: M.Env): (Source, Source) -> bool {
    (a: Source, b: Source) =>
      if M.LastUpdated in a.fields && M.LastUpdated in b.fields
      then M.LaterFirst(env, Given(a, M.LastUpdated), Given(b, M.LastUpdated))
      else M.LastUpdated in a.fields || M.LastUpdated !in b.fields
  }

  lemma ByDateOrder(env: M.Env)
    requires TotalPreorder(env.le)
    ensures TotalPreorder(ByDate(env))
  {
    M.ByEffectiveOrder(env);
    var le, later := ByDate(env), M.ByEffective(env);
    forall a: Source, b: Source | M.LastUpdated in a.fields && M.LastUpdated in b.fields
      ensures le(a, b) == later(Given(a, M.LastUpdated), Given(b, M.LastUpdated)) {
    }
  }

  function Dating(env: M.Env): Source -> M.Resolution {
    (s: Source) =>
      if M.LastUpdated in s.fields
      then M.Resolved(M.Instant(M.Effective(env, Given(s, M.LastUpdated))), s.name, s.stamp) else M.Unresolved
  }

  function DatedCandidates(env: M.Env, sources: seq<Source>): seq<M.Candidate> {
    Filter((c: M.Candidate) => M.Effective(env, c) > 0, M.Present(CandidatesFor(sources, M.LastUpdated)))
  }

  lemma OneMoreDated(env: M.Env, init: seq<Source>, last: Source)
    ensures DatedCandidates(env, init + [last])
         == if IsDated(env)(last) then DatedCandidates(env, init) + [Given(last, M.LastUpdated)] else DatedCandidates(env, init)
  {
    OneMoreCandidate(init, last, M.LastUpdated);
    if Gives(last, M.LastUpdated) {
      FilterLast((c: M.Candidate) => M.Effective(env, c) > 0, M.Present(CandidatesFor(init, M.LastUpdated)), Given(last, M.LastUpdated));
    }
  }

  lemma {:induction false} DatedAreGiven(env: M.Env, sources: seq<Source>)
    ensures AreGiven(Filter(IsDated(env), sources), DatedCandidates(env, sources), M.LastUpdated)
  {
    if sources == [] {
      assert CandidatesFor(sources, M.LastUpdated) == [];
    } else {
      var init, last := sources[..|sources| - 1], sources[|sources| - 1];
      assert sources == init + [last];
      DatedAreGiven(env, init);
      FilterLast(IsDated(env), init, last);
      OneMoreDated(env, init, last);
      if IsDated(env)(last) {
        OneMoreGiven(Filter(IsDated(env), init), DatedCandidates(env, init), last, M.LastUpdated);
      }
    }
  }

  lemma DatedAre(env: M.Env, sources: seq<Source>)
    ensures var dated := Filter(IsDated(env), sources);
            && |DatedCandidates(env, sources)| == |dated|
            && forall i :: 0 <= i < |dated| ==>
                 M.LastUpdated in dated[i].fields && DatedCandidates(env, sources)[i] == Given(dated[i], M.LastUpdated)
  {
    DatedAreGiven(env, sources);
  }

  lemma DatedIsLeader(env: M.Env, t: seq<Source>)
    requires TotalPreorder(env.le)
    ensures DatedFrom(env, t)
         == if Filter(IsDated(env), Sort(BySource(env), t)) == [] then M.Unresolved
            else Dating(env)(Leader(BySource(env), ByDate(env), IsDated(env), t))
  {
    var o := Sort(BySource(env), t);
    var dated, present := Filter(IsDated(env), o), DatedCandidates(env, o);
    DatedAre(env, o);
    if dated != [] {
      ByDateOrder(env);
      M.ByEffectiveOrder(env);
      DatesCompareAlike(env, dated, present);
      var i := HeadsMatch(ByDate(env), dated, M.ByEffective(env), present);
      assert present != [] && M.Present(CandidatesFor(o, M.LastUpdated)) != [];
    }
  }

  lemma DatesCompareAlike(env: M.Env, dated: seq<Source>, present: seq<M.Candidate>)
    requires |present| == |dated|
    requires forall i :: 0 <= i < |dated| ==> M.LastUpdated in dated[i].fields && present[i] == Given(dated[i], M.LastUpdated)
    ensures forall k, l :: 0 <= k < |dated| && 0 <= l < |dated| ==>
              ByDate(env)(dated[k], dated[l]) == M.ByEffective(env)(present[k], present[l])
  {
  }

  ghost predicate DateFixed(env: M.Env, sources: seq<Source>) {
    forall t: seq<Source>, u: seq<Source> {:trigger DatedFrom(env, t), DatedFrom(env, u)} ::
      multiset(t) == multiset(sources) && multiset(u) == multiset(sources) ==> DatedFrom(env, t) == DatedFrom(env, u)
  }

  lemma DateFixedIsAgreed(env: M.Env, sources: seq<Source>)
    requires TotalPreorder(env.le)
    ensures DateFixed(env, sources) <==> LeadersAgree(BySource(env), ByDate(env), IsDated(env), sources, Dating(env))
  {
    var le1, le2, p, g := BySource(env), ByDate(env), IsDated(env), Dating(env);
    forall t: seq<Source>
      ensures DatedFrom(env, t) == if Filter(p, Sort(le1, t)) == [] then M.Unresolved else g(Leader(le1, le2, p, t))
    {
      DatedIsLeader(env, t);
    }
    forall t: seq<Source>, u: seq<Source> | multiset(t) == multiset(sources) && multiset(u) == multiset(sources)
      ensures Filter(p, Sort(le1, t)) == [] <==> Filter(p, Sort(le1, u)) == [] {
      SomeKept(le1, p, sources, t);
      SomeKept(le1, p, sources, u);
    }
  }

  /** For any candidates: the last update is independent of their order exactly when all that can decide it agree. */
  lemma DateFixedIff(env: M.Env, sources: seq<Source>)
    requires TotalPreorder(env.le)
    ensures DateFixed(env, sources)
       <==> AllAgree((x: Source) => MayLead(BySource(env), ByDate(env), IsDated(env), sources, x), Dating(env))
  {
    BySourceOrder(env);
    ByDateOrder(env);
    DateFixedIsAgreed(env, sources);
    AllLeadersAgreeIff(BySource(env), ByDate(env), IsDated(env), sources, Dating(env));
  }

  /** No source comes before x. */
  ghost predicate MayPivot(env: M.Env, sources: seq<Source>, x: Source) {
    x in sources && forall y :: y in sources ==> SourceNotAfter(env, x, y)
  }

  lemma PivotMay(env: M.Env, sources: seq<Source>, t: seq<Source>)
    requires TotalPreorder(env.le) && sources != [] && multiset(t) == multiset(sources)
    ensures Sort(BySource(env), t) != [] && MayPivot(env, sources, Sort(BySource(env), t)[0])
  {
    BySourceOrder(env);
    assert |multiset(t)| == |t| && |multiset(sources)| == |sources|;
    var i := SortHead(BySource(env), t);
    assert t[i] in multiset(t);
    forall y | y in sources ensures SourceNotAfter(env, t[i], y) {
      assert y in multiset(t);
      var j :| 0 <= j < |t| && t[j] == y;
      assert BySource(env)(t[i], t[j]);
    }
  }

  lemma PivotInFront(env: M.Env, sources: seq<Source>, x: Source) returns (t: seq<Source>)
    requires TotalPreorder(env.le) && MayPivot(env, sources, x)
    ensures multiset(t) == multiset(sources) && t != [] && Sort(BySource(env), t)[0] == x
  {
    BySourceOrder(env);
    var rest := TakeOut(sources, x);
    t := [x] + rest;
    var i := SortHead(BySource(env), t);
    assert t[i] in multiset(t) && t[i] in multiset(sources);
    assert t[0] == x && BySource(env)(t[0], t[i]);
  }

  ghost predicate PivotFixed<T(!new)>(env: M.Env, sources: seq<Source>, made: Source -> T) {
    forall t: seq<Source>, u: seq<Source> {:trigger Sort(BySource(env), t), Sort(BySource(env), u)} ::
      multiset(t) == multiset(sources) && t != [] && multiset(u) == multiset(sources) && u != [] ==>
        made(Sort(BySource(env), t)[0]) == made(Sort(BySource(env), u)[0])
  }

  /** For any candidates: what is made of the pivot is independent of their order exactly when all possible pivots agree. */
  lemma PivotFixedIff<T(!new)>(env: M.Env, sources: seq<Source>, made: Source -> T)
    requires TotalPreorder(env.le) && sources != []
    ensures PivotFixed(env, sources, made) <==> AllAgree((x: Source) => MayPivot(env, sources, x), made)
  {
    if PivotFixed(env, sources, made) {
      forall x, y | MayPivot(env, sources, x) && MayPivot(env, sources, y) ensures made(x) == made(y) {
        var t := PivotInFront(env, sources, x);
        var u := PivotInFront(env, sources, y);
      }
    }
    if AllAgree((x: Source) => MayPivot(env, sources, x), made) {
      forall t: seq<Source>, u: seq<Source> |
        multiset(t) == multiset(sources) && t != [] && multiset(u) == multiset(sources) && u != []
        ensures made(Sort(BySource(env), t)[0]) == made(Sort(BySource(env), u)[0]) {
        PivotMay(env, sources, t);
        PivotMay(env, sources, u);
      }
    }
  }
}
