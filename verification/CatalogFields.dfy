// The ingested record, told from the fields of the candidates it comes from.
module CatalogFields {
  import opened JsText
  import opened Sorting
  import opened CatalogIngest
  import CatalogOrder
  import M = MergePrecedence

  // ---- Which candidate decides the identity ----

  ghost predicate SameText(env: M.Env, a: Text, b: Text) {
    env.le(a, b) && env.le(b, a)
  }

  /** Neither has a repository id, locator or registry locator that the other one lacks. */
  ghost predicate SameKnown(a: Source, b: Source) {
    a.hasRepoId == b.hasRepoId && (a.repoLocator == [] <==> b.repoLocator == []) && (a.registryLocator == [] <==> b.registryLocator == [])
  }

  /**
   * The candidate at w leads: it has a repository id if any has one, then a repository locator, then a registry locator;
   * among those like it, it has the least source name, then the latest time, the least tool kind and the least subpath,
   * and of several such it is the one given first.
   */
  ghost predicate Leads(env: M.Env, sources: seq<Source>, w: nat) {
    && w < |sources|
    && var p := sources[w];
    && (forall i :: 0 <= i < |sources| ==>
          var x := sources[i];
          && (x.hasRepoId ==> p.hasRepoId)
          && (x.hasRepoId == p.hasRepoId && x.repoLocator != [] ==> p.repoLocator != [])
          && (x.hasRepoId == p.hasRepoId && (x.repoLocator == [] <==> p.repoLocator == []) && x.registryLocator != [] ==>
                p.registryLocator != [])
          && (SameKnown(x, p) ==> env.le(p.name, x.name))
          && (SameKnown(x, p) && SameText(env, x.name, p.name) ==> M.TimeOf(env, x.stamp) <= M.TimeOf(env, p.stamp))
          && (SameKnown(x, p) && SameText(env, x.name, p.name) && M.TimeOf(env, x.stamp) == M.TimeOf(env, p.stamp) ==>
                env.le(p.toolKind, x.toolKind) && (SameText(env, x.toolKind, p.toolKind) ==> env.le(p.subpath, x.subpath))))
    && forall i :: 0 <= i < w ==>
         var x := sources[i];
         !(&& SameKnown(x, p) && SameText(env, x.name, p.name) && M.TimeOf(env, x.stamp) == M.TimeOf(env, p.stamp)
           && SameText(env, x.toolKind, p.toolKind) && SameText(env, x.subpath, p.subpath))
  }

  /** There is one that leads, and whatever leads is first in source order. */
  lemma SortedFirstLeads(env: M.Env, sources: seq<Source>) returns (w: nat)
    requires TotalPreorder(env.le) && sources != []
    ensures Leads(env, sources, w) && Sort(BySource(env), sources)[0] == sources[w]
  {
    BySourceOrder(env);
    w := SortHead(BySource(env), sources);
    forall i | 0 <= i < |sources| ensures SourceNotAfter(env, sources[w], sources[i]) {
      assert BySource(env)(sources[w], sources[i]);
    }
    forall i | 0 <= i < w ensures !SourceNotAfter(env, sources[i], sources[w]) {
      assert !BySource(env)(sources[i], sources[w]);
    }
  }

  lemma OneLeads(env: M.Env, sources: seq<Source>, v: nat, w: nat)
    requires TotalPreorder(env.le) && Leads(env, sources, v) && Leads(env, sources, w)
    ensures v == w
  {
    var a, b := sources[v], sources[w];
    assert SameKnown(a, b) && SameText(env, a.name, b.name) && M.TimeOf(env, a.stamp) == M.TimeOf(env, b.stamp);
    assert SameText(env, a.toolKind, b.toolKind) && SameText(env, a.subpath, b.subpath);
  }

  /** The one candidate that leads decides identity, path and tool kind, and the repository when the resolver names none. */
  lemma LeaderDecides(env: M.Env, identify: Source -> Identity, sources: seq<Source>, w: nat)
    requires TotalPreorder(env.le) && Leads(env, sources, w)
    ensures var id, r := identify(sources[w]), IngestOf(env, identify, sources);
            match id
            case ManualReview(locator, fingerprint) => r.Conflict? && r.locator == locator && r.fingerprint == fingerprint
            case Identified(packageId, path, repoLocator, _) =>
              && r.Ingested? && r.package.packageId == packageId && r.path == path
              && r.package.toolKind == sources[w].toolKind
              && r.package.canonicalRepo == if repoLocator != [] then repoLocator else Trim(sources[w].canonicalRepo)
  {
    var v := SortedFirstLeads(env, sources);
    OneLeads(env, sources, v, w);
  }

  // ---- Aliases ----

  /** The text, without surrounding space and in lower case. */
  ghost predicate Cleaned(env: M.Env, raw: Text, value: Text) {
    value != [] && value == env.lower(Trim(raw))
  }

  /** Candidate s brings the alias: as one of its own, under the name that one gives or its own, or as its repository's address. */
  ghost predicate Brings(env: M.Env, s: Source, a: Alias) {
    || (exists k: nat :: k < |s.aliases| && IsOwn(env, s, s.aliases[k], a))
    || (Trim(s.repoLocator) != [] && a.kind == UrlAlias && a.value == env.lower(Trim(Trim(s.repoLocator)))
        && a.source == s.name && a.active)
  }

  ghost predicate IsOwn(env: M.Env, s: Source, own: SourceAlias, a: Alias) {
    && Cleaned(env, own.value, a.value) && a.kind == own.kind && a.active == own.active
    && match own.source
       case Named(name) => a.source == name
       case Inherited => a.source == s.name
  }

  /** The resolver's locators are aliases of its own, whatever the candidates bring. */
  ghost predicate Resolves(env: M.Env, id: Identity, a: Alias)
    requires id.Identified?
  {
    && a.source == Ascii("identity_resolver") && a.active
    && ((a.kind == RepoRename && id.repoLocator != [] && a.value == env.lower(Trim(id.repoLocator)))
        || (a.kind == RegistryAlias && id.registryLocator != [] && a.value == env.lower(Trim(id.registryLocator))))
  }

  lemma {:induction false} OwnAliasesAre(env: M.Env, s: Source, aliases: seq<SourceAlias>, a: Alias)
    ensures a in OwnAliases(env, aliases, s.name) <==> exists k: nat :: k < |aliases| && IsOwn(env, s, aliases[k], a)
  {
    if aliases != [] {
      var n := |aliases| - 1;
      OwnAliasesAre(env, s, aliases[..n], a);
      if k: nat :| k < n && IsOwn(env, s, aliases[..n][k], a) {
        assert IsOwn(env, s, aliases[k], a);
      }
      if k: nat :| k < n && IsOwn(env, s, aliases[k], a) {
        assert IsOwn(env, s, aliases[..n][k], a);
      }
      assert IsOwn(env, s, aliases[n], a) ==> IsOwn(env, s, aliases[|aliases| - 1], a);
    }
  }

  lemma BringsIff(env: M.Env, s: Source, a: Alias)
    ensures a in OwnAliases(env, s.aliases, s.name) + LocatorAlias(env, s) <==> Brings(env, s, a)
  {
    OwnAliasesAre(env, s, s.aliases, a);
  }

  ghost predicate SomeBrings(env: M.Env, sources: seq<Source>, a: Alias) {
    exists i: nat :: i < |sources| && Brings(env, sources[i], a)
  }

  lemma OneMoreBrings(env: M.Env, sources: seq<Source>, a: Alias)
    requires sources != []
    ensures SomeBrings(env, sources, a)
       <==> SomeBrings(env, sources[..|sources| - 1], a) || Brings(env, sources[|sources| - 1], a)
  {
    var init := sources[..|sources| - 1];
    if i: nat :| i < |init| && Brings(env, init[i], a) {
      assert Brings(env, sources[i], a);
    }
    if i: nat :| i < |init| && Brings(env, sources[i], a) {
      assert Brings(env, init[i], a);
    }
  }

  lemma {:induction false} SourceAliasesAre(env: M.Env, sources: seq<Source>, a: Alias)
    ensures a in SourceAliases(env, sources) <==> SomeBrings(env, sources, a)
  {
    if sources != [] {
      SourceAliasesAre(env, sources[..|sources| - 1], a);
      BringsIff(env, sources[|sources| - 1], a);
      OneMoreBrings(env, sources, a);
    }
  }

  lemma SomeBringsPermutes(env: M.Env, s: seq<Source>, t: seq<Source>, a: Alias)
    requires multiset(s) == multiset(t) && SomeBrings(env, s, a)
    ensures SomeBrings(env, t, a)
  {
    var i: nat :| i < |s| && Brings(env, s[i], a);
    assert s[i] in multiset(t);
    var j :| 0 <= j < |t| && t[j] == s[i];
  }

  /** Some candidate, or the resolver, brings the alias. */
  ghost predicate IsBrought(env: M.Env, sources: seq<Source>, id: Identity, a: Alias)
    requires id.Identified?
  {
    Resolves(env, id, a) || SomeBrings(env, sources, a)
  }

  lemma ResolvesIff(env: M.Env, id: Identity, a: Alias)
    requires id.Identified?
    ensures a in IdentityAliases(env, id) <==> Resolves(env, id, a)
  {
  }

  lemma SortedBrings(env: M.Env, sources: seq<Source>, a: Alias)
    ensures a in SourceAliases(env, Sort(BySource(env), sources)) <==> SomeBrings(env, sources, a)
  {
    var ordered := Sort(BySource(env), sources);
    SortPermutes(BySource(env), sources);
    SourceAliasesAre(env, ordered, a);
    if SomeBrings(env, sources, a) {
      SomeBringsPermutes(env, sources, ordered, a);
    }
    if SomeBrings(env, ordered, a) {
      SomeBringsPermutes(env, ordered, sources, a);
    }
  }

  lemma BroughtAre(env: M.Env, sources: seq<Source>, id: Identity, a: Alias)
    requires id.Identified?
    ensures a in Brought(env, Sort(BySource(env), sources), id) <==> IsBrought(env, sources, id, a)
  {
    ResolvesIff(env, id, a);
    SortedBrings(env, sources, a);
  }

  /** x and y are in the order of alias types by name, and then of values. */
  ghost predicate AliasesInOrder(env: M.Env, x: Alias, y: Alias) {
    && env.le(TypeText(x.kind), TypeText(y.kind))
    && (SameText(env, TypeText(x.kind), TypeText(y.kind)) ==> env.le(x.value, y.value))
  }

  ghost function TypeText(kind: AliasType): Text {
    match kind
    case RepoRename => Ascii("repo_rename")
    case UrlAlias => Ascii("url_alias")
    case RegistryAlias => Ascii("registry_alias")
  }

  /**
   * The record's aliases are ones that are brought, in order of type and value; of each type and value that is brought there
   * is exactly one, under the least name that one is brought under.
   */
  lemma AliasesFromFields(env: M.Env, identify: Source -> Identity, sources: seq<Source>)
    requires TotalPreorder(env.le) && sources != [] && IngestOf(env, identify, sources).Ingested?
    ensures var id, r := identify(Sort(BySource(env), sources)[0]), IngestOf(env, identify, sources).aliases;
            && id.Identified?
            && (forall j :: 0 <= j < |r| ==> IsBrought(env, sources, id, r[j]))
            && (forall i, j :: 0 <= i < j < |r| ==>
                  AliasesInOrder(env, r[i], r[j]) && (r[i].kind != r[j].kind || r[i].value != r[j].value))
            && forall c: Alias :: IsBrought(env, sources, id, c) ==> exists j: nat :: StandsFor(env, r, j, c)
  {
    var id := identify(Sort(BySource(env), sources)[0]);
    SurvivorsStand(env, Brought(env, Sort(BySource(env), sources), id));
    StandForFields(env, sources, id, Survivors(env, Sort(BySource(env), sources), id));
  }

  /** The aliases in r are some of the candidates, each type and value once and in order, and stand for all of them. */
  ghost predicate Stand(env: M.Env, candidates: seq<Alias>, r: seq<Alias>) {
    && (forall j :: 0 <= j < |r| ==> r[j] in candidates)
    && (forall i, j :: 0 <= i < j < |r| ==>
          AliasesInOrder(env, r[i], r[j]) && (r[i].kind != r[j].kind || r[i].value != r[j].value))
    && forall c :: c in candidates ==> exists j: nat :: StandsFor(env, r, j, c)
  }

  lemma StandForFields(env: M.Env, sources: seq<Source>, id: Identity, r: seq<Alias>)
    requires id.Identified? && Stand(env, Brought(env, Sort(BySource(env), sources), id), r)
    ensures forall j :: 0 <= j < |r| ==> IsBrought(env, sources, id, r[j])
    ensures forall c: Alias :: IsBrought(env, sources, id, c) ==> exists j: nat :: StandsFor(env, r, j, c)
  {
    forall j | 0 <= j < |r| ensures IsBrought(env, sources, id, r[j]) {
      BroughtAre(env, sources, id, r[j]);
    }
    forall c: Alias | IsBrought(env, sources, id, c) ensures exists j: nat :: StandsFor(env, r, j, c) {
      BroughtAre(env, sources, id, c);
    }
  }

  lemma SurvivorsStand(env: M.Env, candidates: seq<Alias>)
    requires TotalPreorder(env.le)
    ensures Stand(env, candidates, Firsts(Sort(ByAlias(env), candidates)))
  {
    var r := Firsts(Sort(ByAlias(env), candidates));
    SurvivingAliases(env, candidates);
    SurvivorsInOrder(env, candidates);
    forall c | c in candidates ensures exists j: nat :: StandsFor(env, r, j, c) {
      var j: nat :| Survives(env, r, candidates, j, c);
      assert StandsFor(env, r, j, c);
    }
  }

  ghost predicate StandsFor(env: M.Env, r: seq<Alias>, j: nat, c: Alias) {
    j < |r| && r[j].kind == c.kind && r[j].value == c.value && env.le(r[j].source, c.source)
  }

  lemma SurvivorsInOrder(env: M.Env, candidates: seq<Alias>)
    requires TotalPreorder(env.le)
    ensures var r := Firsts(Sort(ByAlias(env), candidates));
            forall i, j :: 0 <= i < j < |r| ==> AliasesInOrder(env, r[i], r[j])
  {
    ByAliasOrder(env);
    SortSorts(ByAlias(env), candidates);
    CatalogOrder.FirstsSorted(env, Sort(ByAlias(env), candidates));
    var r := Firsts(Sort(ByAlias(env), candidates));
    forall i, j | 0 <= i < j < |r| ensures AliasesInOrder(env, r[i], r[j]) {
      assert ByAlias(env)(r[i], r[j]);
    }
  }

  lemma {:induction false} NonEmptyValuesAre(env: M.Env, aliases: seq<SourceAlias>, x: Text)
    ensures x in NonEmptyValues(env, aliases) <==> exists k: nat :: k < |aliases| && Cleaned(env, aliases[k].value, x)
  {
    if aliases != [] {
      NonEmptyValuesAre(env, aliases[1..], x);
      if k: nat :| 0 < k < |aliases| && Cleaned(env, aliases[k].value, x) {
        assert Cleaned(env, aliases[1..][k - 1].value, x);
      }
      if k: nat :| k < |aliases[1..]| && Cleaned(env, aliases[1..][k].value, x) {
        assert Cleaned(env, aliases[k + 1].value, x);
      }
    }
  }

  /** One of the candidate's own aliases has the value. */
  ghost predicate Names(env: M.Env, s: Source, x: Text) {
    exists k: nat :: k < |s.aliases| && Cleaned(env, s.aliases[k].value, x)
  }

  lemma {:induction false} BroughtValuesAre(env: M.Env, sources: seq<Source>, x: Text)
    ensures x in BroughtValues(env, sources) <==> exists i: nat :: i < |sources| && Names(env, sources[i], x)
  {
    if sources != [] {
      BroughtValuesAre(env, sources[1..], x);
      NonEmptyValuesAre(env, sources[0].aliases, x);
      if i: nat :| 0 < i < |sources| && Names(env, sources[i], x) {
        assert Names(env, sources[1..][i - 1], x);
      }
      if i: nat :| i < |sources[1..]| && Names(env, sources[1..][i], x) {
        assert Names(env, sources[i + 1], x);
      }
    }
  }

  /** A conflict lists, sorted, the values of the candidates' own aliases. */
  lemma ConflictFromFields(env: M.Env, identify: Source -> Identity, sources: seq<Source>, x: Text)
    requires TotalPreorder(env.le) && sources != [] && IngestOf(env, identify, sources).Conflict?
    ensures var r := IngestOf(env, identify, sources).conflictingAliases;
            SortedBy(env.le, r) && (x in r <==> exists i: nat :: i < |sources| && Names(env, sources[i], x))
  {
    var ordered := Sort(BySource(env), sources);
    SortPermutes(BySource(env), sources);
    SortSorts(env.le, BroughtValues(env, ordered));
    SortPermutes(env.le, BroughtValues(env, ordered));
    BroughtValuesAre(env, ordered, x);
    if i: nat :| i < |sources| && Names(env, sources[i], x) {
      assert sources[i] in ordered;
      var j :| 0 <= j < |ordered| && ordered[j] == sources[i];
    }
    if i: nat :| i < |ordered| && Names(env, ordered[i], x) {
      assert ordered[i] in sources;
      var j :| 0 <= j < |sources| && sources[j] == ordered[i];
    }
  }

  // ---- Slug ----

  /** By the list of known sources the i-th candidate's slug comes before the j-th's, or ties with it. */
  ghost predicate SlugFirst(env: M.Env, sources: seq<Source>, i: nat, j: nat)
    requires i < |sources| && j < |sources|
  {
    var a, b := sources[i], sources[j];
    match (M.IndexIn(SlugOrder(), a.name), M.IndexIn(SlugOrder(), b.name))
    case (_, Unknown) => true
    case (Unknown, Known(_)) => false
    case (Known(k), Known(l)) =>
      || k < l
      || (k == l && M.TimeOf(env, a.stamp) > M.TimeOf(env, b.stamp))
      || (k == l && M.TimeOf(env, a.stamp) == M.TimeOf(env, b.stamp) && env.le(Trim(a.slug), Trim(b.slug)))
  }

  /** The record's slug is one that no other candidate's comes before, or the merged name when no candidate has a slug. */
  lemma SlugFromFields(env: M.Env, identify: Source -> Identity, sources: seq<Source>)
    requires TotalPreorder(env.le) && sources != [] && IngestOf(env, identify, sources).Ingested?
    ensures var r := IngestOf(env, identify, sources);
            if forall i :: 0 <= i < |sources| ==> Trim(sources[i].slug) == [] then
              r.package.slug
              == if M.Name in r.lineage && r.lineage[M.Name].Resolved? && r.lineage[M.Name].value.Str?
                 then Trim(r.lineage[M.Name].value.text) else []
            else exists w: nat :: HasFirstSlug(env, sources, w) && r.package.slug == Trim(sources[w].slug)
  {
    var ordered := Sort(BySource(env), sources);
    SortedSlug(env, sources);
    if i :| 0 <= i < |sources| && Trim(sources[i].slug) != [] {
      var w: nat :| HasFirstSlug(env, sources, w) && ResolveSlug(env, ordered) == Trim(sources[w].slug);
    }
  }

  lemma KeptOfSorted(env: M.Env, sources: seq<Source>, p: Source -> bool, x: Source)
    ensures x in Filter(p, Sort(BySource(env), sources)) <==> x in sources && p(x)
  {
    SortPermutes(BySource(env), sources);
  }

  lemma WinnerHasFirstSlug(env: M.Env, sources: seq<Source>, given: seq<Source>, v: nat, w: nat)
    requires v < |given| && w < |sources| && sources[w] == given[v] && Trim(given[v].slug) != []
    requires forall k :: 0 <= k < |given| ==> SlugNotAfter(env, given[v], given[k])
    requires forall j :: 0 <= j < |sources| && Trim(sources[j].slug) != [] ==> sources[j] in given
    ensures HasFirstSlug(env, sources, w)
  {
    forall j: nat | j < |sources| && Trim(sources[j].slug) != [] ensures SlugFirst(env, sources, w, j) {
      var k :| 0 <= k < |given| && given[k] == sources[j];
      assert SlugNotAfter(env, given[v], given[k]);
    }
  }

  lemma SortedSlug(env: M.Env, sources: seq<Source>)
    requires TotalPreorder(env.le)
    ensures var slug := ResolveSlug(env, Sort(BySource(env), sources));
            if forall i :: 0 <= i < |sources| ==> Trim(sources[i].slug) == [] then slug == []
            else exists w: nat :: HasFirstSlug(env, sources, w) && slug == Trim(sources[w].slug)
  {
    var sluggish := (s: Source) => Trim(s.slug) != [];
    var given := Filter(sluggish, Sort(BySource(env), sources));
    var v := SlugWinner(env, Sort(BySource(env), sources));
    forall j | 0 <= j < |sources| && Trim(sources[j].slug) != [] ensures sources[j] in given {
      KeptOfSorted(env, sources, sluggish, sources[j]);
    }
    if given != [] {
      assert given[v] in given;
      KeptOfSorted(env, sources, sluggish, given[v]);
      var w: nat :| w < |sources| && sources[w] == given[v];
      WinnerHasFirstSlug(env, sources, given, v, w);
    }
  }

  ghost predicate HasFirstSlug(env: M.Env, sources: seq<Source>, w: nat) {
    && w < |sources| && Trim(sources[w].slug) != []
    && forall j :: 0 <= j < |sources| && Trim(sources[j].slug) != [] ==> SlugFirst(env, sources, w, j)
  }

  // ---- Fields ----

  /** The i-th candidate has a value for the field. */
  ghost predicate GivesIt(sources: seq<Source>, i: nat, f: M.MergeField) {
    i < |sources| && f in sources[i].fields && sources[i].fields[f] != M.Nothing
  }

  /** The value, source and stamp that the i-th candidate has for the field. */
  ghost predicate IsFrom(sources: seq<Source>, i: nat, f: M.MergeField, c: M.Candidate) {
    GivesIt(sources, i, f) && c == M.Candidate(sources[i].name, sources[i].stamp, sources[i].fields[f])
  }

  lemma PresentFrom(env: M.Env, sources: seq<Source>, f: M.MergeField, c: M.Candidate)
    ensures c in M.Present(CandidatesFor(Sort(BySource(env), sources), f)) <==> exists i: nat :: IsFrom(sources, i, f, c)
  {
    var ordered, gives := Sort(BySource(env), sources), CatalogOrder.GivesField(f);
    CatalogOrder.PresentAre(ordered, f);
    if c in M.Present(CandidatesFor(ordered, f)) {
      var k: nat :| k < |M.Present(CandidatesFor(ordered, f))| && M.Present(CandidatesFor(ordered, f))[k] == c;
      KeptIsFrom(env, sources, f, c, k);
    }
    if i: nat :| IsFrom(sources, i, f, c) {
      FromIsKept(env, sources, f, c, i);
    }
  }

  lemma KeptIsFrom(env: M.Env, sources: seq<Source>, f: M.MergeField, c: M.Candidate, k: nat)
    requires var given := Filter(CatalogOrder.GivesField(f), Sort(BySource(env), sources));
             k < |given| && f in given[k].fields && c == CatalogOrder.Given(given[k], f)
    ensures exists i: nat :: IsFrom(sources, i, f, c)
  {
    var given := Filter(CatalogOrder.GivesField(f), Sort(BySource(env), sources));
    assert given[k] in given;
    KeptOfSorted(env, sources, CatalogOrder.GivesField(f), given[k]);
    var i: nat :| i < |sources| && sources[i] == given[k];
    assert IsFrom(sources, i, f, c);
  }

  lemma FromIsKept(env: M.Env, sources: seq<Source>, f: M.MergeField, c: M.Candidate, i: nat)
    requires IsFrom(sources, i, f, c)
    ensures c in M.Present(CandidatesFor(Sort(BySource(env), sources), f))
  {
    var ordered := Sort(BySource(env), sources);
    var given := Filter(CatalogOrder.GivesField(f), ordered);
    KeptOfSorted(env, sources, CatalogOrder.GivesField(f), sources[i]);
    CatalogOrder.PresentAre(ordered, f);
    var k :| 0 <= k < |given| && given[k] == sources[i];
    assert M.Present(CandidatesFor(ordered, f))[k] == c;
  }

  /** A field is merged from exactly the values that the candidates have for it, with their sources and stamps. */
  lemma MergedFromFields(env: M.Env, identify: Source -> Identity, sources: seq<Source>, f: M.MergeField, c: M.Candidate)
    requires sources != [] && IngestOf(env, identify, sources).Ingested?
    ensures var r, cs := IngestOf(env, identify, sources), CandidatesFor(Sort(BySource(env), sources), f);
            && (f in r.lineage <==> M.ResolveField(env, f, cs).Resolved?)
            && (f in r.lineage ==> r.lineage[f] == M.ResolveField(env, f, cs))
            && (c in M.Present(cs) <==> exists i: nat :: IsFrom(sources, i, f, c))
  {
    PresentFrom(env, sources, f, c);
    CatalogOrder.LineageHolds(env, Sort(BySource(env), sources), f);
  }
}
