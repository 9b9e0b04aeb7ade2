// Catalog ingest: several sources' candidates for one package, sorted, merged and reduced to one record.
module CatalogIngest {
  import opened JsText
  import opened Sorting
  import M = MergePrecedence

  datatype AliasType = RepoRename | UrlAlias | RegistryAlias

  /** Whether an alias names its source or takes over its candidate's. */
  datatype AliasSource = Inherited | Named(name: Text)

  /** An alias a candidate brings; one that does not say so is active. */
  datatype SourceAlias = SourceAlias(kind: AliasType, value: Text, source: AliasSource, active: bool)

  /** Empty texts stand for absent values, as the source's truthiness tests take them. */
  datatype Source = Source(name: Text, stamp: M.Stamp, hasRepoId: bool, repoId: Text, repoLocator: Text, registryLocator: Text,
                           subpath: Text, toolKind: Text, slug: Text, canonicalRepo: Text, aliases: seq<SourceAlias>,
                           fields: map<M.MergeField, M.Value>)

  datatype Alias = Alias(kind: AliasType, value: Text, source: Text, active: bool)

  datatype Path = CanonicalRepoId | GithubLocator | RegistryMap

  /** What the identity resolver makes of the pivot candidate; the path also decides the identity state. */
  datatype Identity =
    | ManualReview(locator: Text, fingerprint: Text)
    | Identified(packageId: Text, path: Path, repoLocator: Text, registryLocator: Text)

  datatype Package = Package(packageId: Text, slug: Text, canonicalRepo: Text, repoAliases: seq<Text>, toolKind: Text)

  datatype Result =
    | Conflict(locator: Text, fingerprint: Text, conflictingAliases: seq<Text>)
    | Ingested(package: Package, path: Path, aliases: seq<Alias>, lineage: M.Lineage)

  function TypeName(kind: AliasType): Text {
    match kind
    case RepoRename => Ascii("repo_rename")
    case UrlAlias => Ascii("url_alias")
    case RegistryAlias => Ascii("registry_alias")
  }

  // ---- Source order ----

  /** compareSourceCandidates as "not after": each test decides only when the ones before it tie. */
  predicate SourceNotAfter(env: M.Env, a: Source, b: Source) {
    if a.hasRepoId != b.hasRepoId then a.hasRepoId
    else if (a.repoLocator != []) != (b.repoLocator != []) then a.repoLocator != []
    else if (a.registryLocator != []) != (b.registryLocator != []) then a.registryLocator != []
    else if !(env.le(a.name, b.name) && env.le(b.name, a.name)) then env.le(a.name, b.name)
    else if M.Epoch(env, a.stamp) != M.Epoch(env, b.stamp) then M.Epoch(env, a.stamp) > M.Epoch(env, b.stamp)
    else if !(env.le(a.toolKind, b.toolKind) && env.le(b.toolKind, a.toolKind)) then env.le(a.toolKind, b.toolKind)
    else env.le(a.subpath, b.subpath)
  }

  function BySource(env: M.Env): (Source, Source) -> bool {
    (a: Source, b: Source) => SourceNotAfter(env, a, b)
  }

  lemma BySourceOrder(env: M.Env)
    requires TotalPreorder(env.le)
    ensures TotalPreorder(BySource(env))
  {
  }

  // ---- Slug ----

  function SlugOrder(): seq<Text> {
    [Ascii("smithery"), Ascii("glama"), Ascii("github"), Ascii("mcp.so"), Ascii("registry"), Ascii("npm"), Ascii("pypi")]
  }

  /** The comparator of resolvePackageSlug; two unknown sources tie as in field merging. */
  predicate SlugNotAfter(env: M.Env, a: Source, b: Source) {
    match (M.IndexIn(SlugOrder(), a.name), M.IndexIn(SlugOrder(), b.name))
    case (_, Unknown) => true
    case (Unknown, Known(_)) => false
    case (Known(i), Known(j)) =>
      if i != j then i < j
      else if M.Epoch(env, a.stamp) != M.Epoch(env, b.stamp) then M.Epoch(env, a.stamp) > M.Epoch(env, b.stamp)
      else env.le(Trim(a.slug), Trim(b.slug))
  }

  function BySlug(env: M.Env): (Source, Source) -> bool {
    (a: Source, b: Source) => SlugNotAfter(env, a, b)
  }

  /** Empty when no source brings a slug. */
  function ResolveSlug(env: M.Env, sources: seq<Source>): Text {
    var sluggish := Filter((s: Source) => Trim(s.slug) != [], sources);
    if sluggish == [] then [] else Trim(Sort(BySlug(env), sluggish)[0].slug)
  }

  // ---- Field candidates ----

  /** The candidates for a field, in source order. */
  function CandidatesFor(sources: seq<Source>, f: M.MergeField): seq<M.Candidate> {
    if sources == [] then []
    else
      var last := sources[|sources| - 1];
      CandidatesFor(sources[..|sources| - 1], f)
      + if f in last.fields then [M.Candidate(last.name, last.stamp, last.fields[f])] else []
  }

  /** A field is a key exactly when some source has it. */
  function CandidateMap(sources: seq<Source>): M.CandidateMap {
    map f: M.MergeField | f in M.FIELDS && CandidatesFor(sources, f) != [] :: CandidatesFor(sources, f)
  }

  method CollectLineageCandidates(sources: seq<Source>) returns (r: M.CandidateMap)
    ensures r == CandidateMap(sources)
  {
    r := map[];
    for i := 0 to |sources|
      invariant forall f: M.MergeField :: f in r <==> CandidatesFor(sources[..i], f) != []
      invariant forall f :: f in r ==> r[f] == CandidatesFor(sources[..i], f)
    {
      var todo := sources[i].fields.Keys;
      ghost var before := r;
      while todo != {}
        invariant todo <= sources[i].fields.Keys
        invariant forall f: M.MergeField :: f in sources[i].fields && f !in todo ==>
                    f in r && r[f] == CandidatesFor(sources[..i], f) + [M.Candidate(sources[i].name, sources[i].stamp, sources[i].fields[f])]
        invariant forall f: M.MergeField :: f in todo || f !in sources[i].fields ==>
                    (f in r <==> f in before) && (f in r ==> r[f] == before[f])
        decreases |todo|
      {
        var f :| f in todo;
        var entry := M.Candidate(sources[i].name, sources[i].stamp, sources[i].fields[f]);
        r := r[f := (if f in r then r[f] else []) + [entry]];
        todo := todo - {f};
      }
      assert sources[..i + 1][..i] == sources[..i];
    }
    assert sources[..|sources|] == sources;
    forall f: M.MergeField ensures f in M.FIELDS {
      M.EveryFieldListed(f);
    }
  }

  // ---- Aliases ----

  function NormalizeAlias(env: M.Env, value: Text): Text {
    env.lower(Trim(value))
  }

  function OwnAliases(env: M.Env, aliases: seq<SourceAlias>, name: Text): seq<Alias> {
    if aliases == [] then []
    else
      var a := aliases[|aliases| - 1];
      var value := NormalizeAlias(env, a.value);
      OwnAliases(env, aliases[..|aliases| - 1], name)
      + if value == [] then [] else [Alias(a.kind, value, if a.source.Named? then a.source.name else name, a.active)]
  }

  function LocatorAlias(env: M.Env, s: Source): seq<Alias> {
    if Trim(s.repoLocator) == [] then [] else [Alias(UrlAlias, NormalizeAlias(env, Trim(s.repoLocator)), s.name, true)]
  }

  function SourceAliases(env: M.Env, sources: seq<Source>): seq<Alias> {
    if sources == [] then []
    else
      var last := sources[|sources| - 1];
      SourceAliases(env, sources[..|sources| - 1]) + (OwnAliases(env, last.aliases, last.name) + LocatorAlias(env, last))
  }

  function IdentityAliases(env: M.Env, id: Identity): seq<Alias>
    requires id.Identified?
  {
    (if id.repoLocator == [] then [] else [Alias(RepoRename, NormalizeAlias(env, id.repoLocator), Ascii("identity_resolver"), true)])
    + (if id.registryLocator == [] then []
       else [Alias(RegistryAlias, NormalizeAlias(env, id.registryLocator), Ascii("identity_resolver"), true)])
  }

  method CollectAliases(env: M.Env, sources: seq<Source>, id: Identity) returns (r: seq<Alias>)
    requires id.Identified?
    ensures r == IdentityAliases(env, id) + SourceAliases(env, sources)
  {
    r := IdentityAliases(env, id);
    for i := 0 to |sources|
      invariant r == IdentityAliases(env, id) + SourceAliases(env, sources[..i])
    {
      var own := CollectOwn(env, sources[i]);
      MoreSourceAliases(env, sources, i);
      Associate(IdentityAliases(env, id), SourceAliases(env, sources[..i]), own + LocatorAlias(env, sources[i]));
      r := r + (own + LocatorAlias(env, sources[i]));
    }
    assert sources[..|sources|] == sources;
  }

  lemma Associate(a: seq<Alias>, b: seq<Alias>, c: seq<Alias>)
    ensures a + b + c == a + (b + c)
  {
  }

  lemma MoreSourceAliases(env: M.Env, sources: seq<Source>, i: nat)
    requires i < |sources|
    ensures SourceAliases(env, sources[..i + 1])
         == SourceAliases(env, sources[..i]) + (OwnAliases(env, sources[i].aliases, sources[i].name) + LocatorAlias(env, sources[i]))
  {
    assert sources[..i + 1][..i] == sources[..i];
  }

  /** The inner loop: one source's aliases that are not blank. */
  method CollectOwn(env: M.Env, s: Source) returns (own: seq<Alias>)
    ensures own == OwnAliases(env, s.aliases, s.name)
  {
    own := [];
    for k := 0 to |s.aliases|
      invariant own == OwnAliases(env, s.aliases[..k], s.name)
    {
      var a := s.aliases[k];
      assert s.aliases[..k + 1][..k] == s.aliases[..k];
      var value := NormalizeAlias(env, a.value);
      if value != [] {
        own := own + [Alias(a.kind, value, if a.source.Named? then a.source.name else s.name, a.active)];
      }
    }
    assert s.aliases[..|s.aliases|] == s.aliases;
  }

  predicate AliasNotAfter(env: M.Env, a: Alias, b: Alias) {
    if !(env.le(TypeName(a.kind), TypeName(b.kind)) && env.le(TypeName(b.kind), TypeName(a.kind)))
    then env.le(TypeName(a.kind), TypeName(b.kind))
    else if !(env.le(a.value, b.value) && env.le(b.value, a.value)) then env.le(a.value, b.value)
    else env.le(a.source, b.source)
  }

  function ByAlias(env: M.Env): (Alias, Alias) -> bool {
    (a: Alias, b: Alias) => AliasNotAfter(env, a, b)
  }

  lemma ByAliasOrder(env: M.Env)
    requires TotalPreorder(env.le)
    ensures TotalPreorder(ByAlias(env))
  {
  }

  function AliasKey(a: Alias): Text {
    TypeName(a.kind) + [COLON] + a.value
  }

  lemma AliasKeyInjective(a: Alias, b: Alias)
    ensures AliasKey(a) == AliasKey(b) <==> a.kind == b.kind && a.value == b.value
  {
    assert COLON !in TypeName(a.kind) && COLON !in TypeName(b.kind);
    assert |TypeName(RepoRename)| == 11 && |TypeName(UrlAlias)| == 9 && |TypeName(RegistryAlias)| == 14;
    if AliasKey(a) == AliasKey(b) {
      CutAtMark(TypeName(a.kind), a.value, TypeName(b.kind), b.value, COLON);
    }
  }

  predicate HasKey(s: seq<Alias>, key: Text) {
    exists i :: 0 <= i < |s| && AliasKey(s[i]) == key
  }

  /** The first alias of each key. */
  function Firsts(s: seq<Alias>): (r: seq<Alias>)
    ensures |r| <= |s|
  {
    if s == [] then []
    else
      var rest, last := Firsts(s[..|s| - 1]), s[|s| - 1];
      if HasKey(s[..|s| - 1], AliasKey(last)) then rest else rest + [last]
  }

  method DedupeAliases(env: M.Env, candidates: seq<Alias>) returns (deduped: seq<Alias>)
    ensures deduped == Firsts(Sort(ByAlias(env), candidates))
  {
    deduped := KeepFirsts(Sort(ByAlias(env), candidates));
  }

  ghost predicate Tracks(seen: set<Text>, s: seq<Alias>) {
    forall key :: key in seen <==> HasKey(s, key)
  }

  method KeepFirsts(ordered: seq<Alias>) returns (deduped: seq<Alias>)
    ensures deduped == Firsts(ordered)
  {
    var seen: set<Text> := {};
    deduped := [];
    for i := 0 to |ordered|
      invariant Tracks(seen, ordered[..i])
      invariant deduped == Firsts(ordered[..i])
    {
      var key := AliasKey(ordered[i]);
      NextAlias(ordered, i, seen);
      if key !in seen {
        seen := seen + {key};
        deduped := deduped + [ordered[i]];
      }
    }
    assert ordered[..|ordered|] == ordered;
  }

  lemma NextAlias(s: seq<Alias>, i: nat, seen: set<Text>)
    requires i < |s| && Tracks(seen, s[..i])
    ensures var key := AliasKey(s[i]);
            && Firsts(s[..i + 1]) == (if key in seen then Firsts(s[..i]) else Firsts(s[..i]) + [s[i]])
            && Tracks(if key in seen then seen else seen + {key}, s[..i + 1])
  {
    OneMoreAlias(s, i);
    assert Firsts(s[..i]) + [] == Firsts(s[..i]);
  }

  lemma OneMoreAlias(s: seq<Alias>, i: nat)
    requires i < |s|
    ensures Firsts(s[..i + 1]) == Firsts(s[..i]) + if HasKey(s[..i], AliasKey(s[i])) then [] else [s[i]]
    ensures forall key :: HasKey(s[..i + 1], key) <==> HasKey(s[..i], key) || key == AliasKey(s[i])
  {
    assert s[..i + 1][..i] == s[..i] && s[..i + 1][i] == s[i];
    forall key ensures HasKey(s[..i + 1], key) <==> HasKey(s[..i], key) || key == AliasKey(s[i]) {
      if HasKey(s[..i], key) {
        var k :| 0 <= k < i && AliasKey(s[..i][k]) == key;
        assert s[..i + 1][k] == s[..i][k];
      }
      if HasKey(s[..i + 1], key) {
        var k :| 0 <= k < i + 1 && AliasKey(s[..i + 1][k]) == key;
        assert k < i ==> s[..i][k] == s[..i + 1][k];
      }
    }
  }

  lemma {:induction false} FirstsHaveTheKeys(s: seq<Alias>, key: Text)
    ensures HasKey(Firsts(s), key) <==> HasKey(s, key)
  {
    if s != [] {
      var n := |s| - 1;
      FirstsHaveTheKeys(s[..n], key);
      assert s[..n + 1] == s;
      OneMoreAlias(s, n);
      var r, rest := Firsts(s), Firsts(s[..n]);
      if HasKey(rest, key) {
        var k :| 0 <= k < |rest| && AliasKey(rest[k]) == key;
        assert r[k] == rest[k];
      }
      if HasKey(r, key) {
        var k :| 0 <= k < |r| && AliasKey(r[k]) == key;
        assert k < |rest| ==> rest[k] == r[k];
      }
      if key == AliasKey(s[n]) && !HasKey(s[..n], key) {
        assert r[|rest|] == s[n];
      }
    }
  }

  lemma {:induction false} FirstsDiffer(s: seq<Alias>, i: nat, j: nat)
    requires i < j < |Firsts(s)|
    ensures AliasKey(Firsts(s)[i]) != AliasKey(Firsts(s)[j])
  {
    var init := s[..|s| - 1];
    if j < |Firsts(init)| {
      FirstsDiffer(init, i, j);
    } else {
      LastIsNew(s);
    }
  }

  lemma LastIsNew(s: seq<Alias>)
    requires s != [] && |Firsts(s)| > |Firsts(s[..|s| - 1])|
    ensures forall i :: 0 <= i < |Firsts(s)| - 1 ==> AliasKey(Firsts(s)[i]) != AliasKey(Firsts(s)[|Firsts(s)| - 1])
  {
    FirstsHaveTheKeys(s[..|s| - 1], AliasKey(s[|s| - 1]));
  }

  /** A kept alias is the first of its key. */
  lemma {:induction false} FirstOfItsKey(s: seq<Alias>, j: nat) returns (i: nat)
    requires j < |Firsts(s)|
    ensures i < |s| && s[i] == Firsts(s)[j]
    ensures forall k :: 0 <= k < i ==> AliasKey(s[k]) != AliasKey(s[i])
  {
    var init := s[..|s| - 1];
    if j < |Firsts(init)| {
      i := FirstOfItsKey(init, j);
      assert forall k :: 0 <= k <= i ==> s[k] == init[k];
    } else {
      i := |init|;
      assert forall k :: 0 <= k < i ==> s[k] == init[k];
    }
  }

  /**
   * Every alias type and value that is brought survives exactly once, as one of the aliases brought, and with a
   * source name that no other alias of the same type and value comes before.
   */
  lemma SurvivingAliases(env: M.Env, candidates: seq<Alias>)
    requires TotalPreorder(env.le)
    ensures var r := Firsts(Sort(ByAlias(env), candidates));
            && (forall i, j :: 0 <= i < j < |r| ==> r[i].kind != r[j].kind || r[i].value != r[j].value)
            && (forall c :: c in candidates ==> exists j: nat :: Survives(env, r, candidates, j, c))
            && forall j :: 0 <= j < |r| ==> r[j] in candidates
  {
    var s := Sort(ByAlias(env), candidates);
    var r := Firsts(s);
    SortPermutes(ByAlias(env), candidates);
    forall i, j | 0 <= i < j < |r| ensures r[i].kind != r[j].kind || r[i].value != r[j].value {
      FirstsDiffer(s, i, j);
      AliasKeyInjective(r[i], r[j]);
    }
    forall c | c in candidates ensures exists j: nat :: Survives(env, r, candidates, j, c) {
      assert c in s;
      var m :| 0 <= m < |s| && s[m] == c;
      FirstsHaveTheKeys(s, AliasKey(c));
      assert AliasKey(s[m]) == AliasKey(c);
      var j: nat :| j < |r| && AliasKey(r[j]) == AliasKey(c);
      FirstIsLeast(env, candidates, j, m);
      assert Survives(env, r, candidates, j, c);
    }
    forall j | 0 <= j < |r| ensures r[j] in candidates {
      var i := FirstOfItsKey(s, j);
      assert s[i] in s;
    }
  }

  /** The j-th surviving alias stands for c: same type and value, and a source name that c's does not come before. */
  ghost predicate Survives(env: M.Env, r: seq<Alias>, candidates: seq<Alias>, j: nat, c: Alias) {
    j < |r| && r[j] in candidates && r[j].kind == c.kind && r[j].value == c.value && env.le(r[j].source, c.source)
  }

  lemma FirstIsLeast(env: M.Env, candidates: seq<Alias>, j: nat, m: nat)
    requires TotalPreorder(env.le)
    requires var s := Sort(ByAlias(env), candidates);
             j < |Firsts(s)| && m < |s| && AliasKey(Firsts(s)[j]) == AliasKey(s[m])
    ensures var s := Sort(ByAlias(env), candidates);
            var r := Firsts(s)[j];
            r in candidates && r.kind == s[m].kind && r.value == s[m].value && env.le(r.source, s[m].source)
  {
    var s := Sort(ByAlias(env), candidates);
    ByAliasOrder(env);
    SortSorts(ByAlias(env), candidates);
    SortPermutes(ByAlias(env), candidates);
    AliasKeyInjective(Firsts(s)[j], s[m]);
    var i := FirstOfItsKey(s, j);
    assert s[i] in s;
    assert i < m ==> ByAlias(env)(s[i], s[m]);
    SameKeyBySource(env, s[i], s[m]);
    assert env.le(s[m].source, s[m].source);
  }

  lemma SameKeyBySource(env: M.Env, a: Alias, b: Alias)
    requires TotalPreorder(env.le) && a.kind == b.kind && a.value == b.value
    ensures AliasNotAfter(env, a, b) <==> env.le(a.source, b.source)
  {
  }

  // ---- Ingest ----

  function AliasValues(aliases: seq<Alias>): seq<Text> {
    if aliases == [] then []
    else (if aliases[0].kind.RegistryAlias? then [] else [aliases[0].value]) + AliasValues(aliases[1..])
  }

  function BroughtValues(env: M.Env, sources: seq<Source>): seq<Text> {
    if sources == [] then []
    else NonEmptyValues(env, sources[0].aliases) + BroughtValues(env, sources[1..])
  }

  function NonEmptyValues(env: M.Env, aliases: seq<SourceAlias>): seq<Text> {
    if aliases == [] then []
    else
      var value := NormalizeAlias(env, aliases[0].value);
      (if value == [] then [] else [value]) + NonEmptyValues(env, aliases[1..])
  }

  function ResolvedName(lineage: M.Lineage): Text {
    if M.Name in lineage && lineage[M.Name].Resolved? && lineage[M.Name].value.Str? then Trim(lineage[M.Name].value.text) else []
  }

  function Brought(env: M.Env, ordered: seq<Source>, id: Identity): seq<Alias>
    requires id.Identified?
  {
    IdentityAliases(env, id) + SourceAliases(env, ordered)
  }

  function Survivors(env: M.Env, ordered: seq<Source>, id: Identity): seq<Alias>
    requires id.Identified?
  {
    Firsts(Sort(ByAlias(env), Brought(env, ordered, id)))
  }

  function RepoOf(id: Identity, pivot: Source): Text
    requires id.Identified?
  {
    if id.repoLocator != [] then id.repoLocator else Trim(pivot.canonicalRepo)
  }

  function SlugOrName(env: M.Env, ordered: seq<Source>, lineage: M.Lineage): Text {
    var slug := ResolveSlug(env, ordered);
    if slug != [] then slug else ResolvedName(lineage)
  }

  /** The record built for an identified package from its sources in source order. */
  function Assemble(env: M.Env, ordered: seq<Source>, id: Identity, lineage: M.Lineage): Result
    requires ordered != [] && id.Identified?
  {
    var aliases := Survivors(env, ordered, id);
    Ingested(Package(id.packageId,
                     SlugOrName(env, ordered, lineage),
                     RepoOf(id, ordered[0]),
                     Sort(env.le, AliasValues(aliases)),
                     ordered[0].toolKind),
             id.path, aliases, lineage)
  }

  /** The result is decided by the sorted sources alone. */
  function IngestOf(env: M.Env, identify: Source -> Identity, sources: seq<Source>): Result
    requires sources != []
  {
    var ordered := Sort(BySource(env), sources);
    var id := identify(ordered[0]);
    if id.ManualReview? then Conflict(id.locator, id.fingerprint, Sort(env.le, BroughtValues(env, ordered)))
    else Assemble(env, ordered, id, M.LineageOf(env, CandidateMap(ordered)))
  }

  datatype Answer = Invalid | Answer(result: Result)

  /** The identity resolver is the caller's. */
  method Ingest(env: M.Env, identify: Source -> Identity, sources: seq<Source>) returns (r: Answer)
    ensures r == if sources == [] then Invalid else Answer(IngestOf(env, identify, sources))
  {
    if sources == [] {
      return Invalid;
    }
    var ordered := Sort(BySource(env), sources);
    var id := identify(ordered[0]);
    if id.ManualReview? {
      return Answer(Conflict(id.locator, id.fingerprint, Sort(env.le, BroughtValues(env, ordered))));
    }
    var candidates := CollectLineageCandidates(ordered);
    var lineage := M.ResolveMergedRecord(env, candidates);
    var brought := CollectAliases(env, ordered, id);
    var aliases := DedupeAliases(env, brought);
    var slug := ResolveSlug(env, ordered);
    r := Answer(Ingested(Package(id.packageId,
                                 if slug != [] then slug else ResolvedName(lineage),
                                 if id.repoLocator != [] then id.repoLocator else Trim(ordered[0].canonicalRepo),
                                 Sort(env.le, AliasValues(aliases)),
                                 ordered[0].toolKind),
                         id.path, aliases, lineage));
  }

  /** The result is the same for every order of the candidates when the source comparator tells them apart. */
  lemma IngestOrderIrrelevant(env: M.Env, identify: Source -> Identity, s: seq<Source>, t: seq<Source>)
    requires TotalPreorder(env.le) && s != [] && t != []
    requires multiset(s) == multiset(t) && Separates(BySource(env), s)
    ensures IngestOf(env, identify, s) == IngestOf(env, identify, t)
  {
    BySourceOrder(env);
    SortCanonical(BySource(env), s, t);
  }

  /** The repository aliases of the package: sorted, and exactly the values of its surviving repository and url aliases. */
  lemma IngestedAliases(env: M.Env, identify: Source -> Identity, sources: seq<Source>, x: Text)
    requires TotalPreorder(env.le) && sources != [] && IngestOf(env, identify, sources).Ingested?
    ensures var r := IngestOf(env, identify, sources);
            && SortedBy(env.le, r.package.repoAliases)
            && (x in r.package.repoAliases <==>
                  exists i :: 0 <= i < |r.aliases| && r.aliases[i].value == x && !r.aliases[i].kind.RegistryAlias?)
  {
    var r := IngestOf(env, identify, sources);
    SortSorts(env.le, AliasValues(r.aliases));
    SortPermutes(env.le, AliasValues(r.aliases));
    AliasValuesAre(r.aliases, x);
  }

  lemma {:induction false} AliasValuesAre(aliases: seq<Alias>, x: Text)
    ensures x in AliasValues(aliases) <==>
              exists i :: 0 <= i < |aliases| && aliases[i].value == x && !aliases[i].kind.RegistryAlias?
  {
    if aliases != [] {
      AliasValuesAre(aliases[1..], x);
      assert forall i :: 0 < i < |aliases| ==> aliases[i] == aliases[1..][i - 1];
      if x in AliasValues(aliases[1..]) {
        var i :| 0 <= i < |aliases[1..]| && aliases[1..][i].value == x && !aliases[1..][i].kind.RegistryAlias?;
        assert aliases[i + 1].value == x;
      }
    }
  }

  lemma SlugOrderTotal(env: M.Env)
    requires TotalPreorder(env.le)
    ensures TotalPreorder(BySlug(env))
  {
    var le := BySlug(env);
    forall a, b ensures le(a, b) || le(b, a) {
      assert env.le(Trim(a.slug), Trim(b.slug)) || env.le(Trim(b.slug), Trim(a.slug));
    }
    forall a, b, c | le(a, b) && le(b, c) ensures le(a, c) {
      assert env.le(Trim(a.slug), Trim(b.slug)) && env.le(Trim(b.slug), Trim(c.slug)) ==> env.le(Trim(a.slug), Trim(c.slug));
    }
  }

  /** The slug is a non-empty slug of the best known source, the latest first, or the first given when none is known. */
  lemma SlugWinner(env: M.Env, sources: seq<Source>) returns (w: nat)
    requires TotalPreorder(env.le)
    ensures var given := Filter((s: Source) => Trim(s.slug) != [], sources);
            && (given == [] ==> ResolveSlug(env, sources) == [])
            && (given != [] ==>
                  && w < |given| && ResolveSlug(env, sources) == Trim(given[w].slug) && Trim(given[w].slug) != []
                  && (forall j :: 0 <= j < |given| ==> SlugNotAfter(env, given[w], given[j]))
                  && ((forall j :: 0 <= j < |given| ==> M.IndexIn(SlugOrder(), given[j].name).Unknown?) ==> w == 0))
  {
    var given := Filter((s: Source) => Trim(s.slug) != [], sources);
    w := 0;
    if given != [] {
      SlugOrderTotal(env);
      w := SortHead(BySlug(env), given);
      assert given[w] in given;
      forall j | 0 <= j < |given| ensures SlugNotAfter(env, given[w], given[j]) {
        assert BySlug(env)(given[w], given[j]);
      }
      assert forall j :: 0 <= j < w ==> !BySlug(env)(given[j], given[w]);
    }
  }
}
