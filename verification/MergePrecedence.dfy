// Field merging: of several sources' values for a field, which one wins.
module MergePrecedence {
  import opened JsText
  import opened Sorting

  datatype MergeField =
    | GithubRepoId | OwnerIdentity | Name | Description | ToolKind | DomainCategory | Capabilities | Permissions | Io
    | InstallCommand | ConfigTemplate | RuntimeRequirements | Ratings | Stars | Downloads | LastUpdated | Tags

  /** Nothing is null or undefined; a list's items are already turned into strings; Instant is an ISO timestamp. */
  datatype Value = Nothing | Str(text: Text) | Items(items: seq<Text>) | Instant(ms: int) | Other(text: Text)

  datatype Stamp = NoStamp | Stamp(text: Text)

  datatype Candidate = Candidate(source: Text, stamp: Stamp, value: Value)

  datatype Resolution = Unresolved | Resolved(value: Value, source: Text, stamp: Stamp)

  /** localeCompare as "not after", toEpoch on non-empty texts (0 when unparsable), and toLowerCase. */
  datatype Env = Env(le: (Text, Text) -> bool, parse: Text -> int, lower: Text -> Text)

  datatype Precedence = Known(index: nat) | Unknown

  function SourceOrder(field: MergeField): seq<Text> {
    match field
    case GithubRepoId => [Ascii("github")]
    case OwnerIdentity => [Ascii("github"), Ascii("verified_partner_claim"), Ascii("others")]
    case Name => [Ascii("smithery"), Ascii("glama"), Ascii("github"), Ascii("mcp.so"), Ascii("registry")]
    case Description => [Ascii("smithery"), Ascii("glama"), Ascii("github"), Ascii("mcp.so"), Ascii("registry")]
    case ToolKind => [Ascii("glama"), Ascii("smithery"), Ascii("registry_inference"), Ascii("github_topics")]
    case DomainCategory => [Ascii("smithery"), Ascii("glama"), Ascii("github_topics"), Ascii("mcp.so_tags")]
    case Capabilities => [Ascii("glama")]
    case Permissions => [Ascii("glama")]
    case Io => [Ascii("glama")]
    case InstallCommand => [Ascii("smithery"), Ascii("registry_derived"), Ascii("readme_parse")]
    case ConfigTemplate => [Ascii("smithery")]
    case RuntimeRequirements => [Ascii("npm"), Ascii("pypi"), Ascii("inferred_docs")]
    case Ratings => [Ascii("mcp.so")]
    case Stars => [Ascii("github")]
    case Downloads => [Ascii("npm"), Ascii("pypi")]
    case LastUpdated =>
      [Ascii("github"), Ascii("smithery"), Ascii("glama"), Ascii("mcp.so"), Ascii("registry"), Ascii("npm"), Ascii("pypi"),
       Ascii("registry_derived"), Ascii("readme_parse"), Ascii("inferred_docs"), Ascii("github_topics"), Ascii("mcp.so_tags")]
    case Tags =>
      [Ascii("smithery"), Ascii("glama"), Ascii("github"), Ascii("mcp.so"), Ascii("registry"), Ascii("npm"), Ascii("pypi"),
       Ascii("github_topics"), Ascii("mcp.so_tags")]
  }

  /** Array.prototype.indexOf, with infinity for a missing element. */
  function IndexIn(order: seq<Text>, source: Text): (r: Precedence)
    ensures r.Known? ==> r.index < |order| && order[r.index] == source
    ensures r.Known? <==> source in order
  {
    if order == [] then Unknown
    else if order[0] == source then Known(0)
    else
      match IndexIn(order[1..], source)
      case Unknown => Unknown
      case Known(i) => Known(i + 1)
  }

  function Epoch(env: Env, stamp: Stamp): int {
    if stamp.NoStamp? || stamp.text == [] then 0 else env.parse(stamp.text)
  }

  /**
   * compareCandidates as "not after". For two unknown sources the difference of infinities is not a number, which
   * the code returns because it is not zero and sort takes for a tie, so nothing else is compared.
   */
  predicate NotAfter(env: Env, order: seq<Text>, a: Candidate, b: Candidate) {
    match (IndexIn(order, a.source), IndexIn(order, b.source))
    case (_, Unknown) => true
    case (Unknown, Known(_)) => false
    case (Known(i), Known(j)) =>
      if i != j then i < j
      else if Epoch(env, a.stamp) != Epoch(env, b.stamp) then Epoch(env, a.stamp) > Epoch(env, b.stamp)
      else env.le(a.source, b.source)
  }

  function ByPrecedence(env: Env, field: MergeField): (Candidate, Candidate) -> bool {
    (a: Candidate, b: Candidate) => NotAfter(env, SourceOrder(field), a, b)
  }

  lemma ByPrecedenceOrder(env: Env, field: MergeField)
    requires TotalPreorder(env.le)
    ensures TotalPreorder(ByPrecedence(env, field))
  {
  }

  // ---- Tags ----

  const MAX_TAG_LENGTH := 40
  const MAX_TAGS := 25

  const BLOCKLIST: seq<Text> :=
    [Ascii("sponsored"), Ascii("promoted"), Ascii("ad"), Ascii("ads"), Ascii("clickbait"), Ascii("free-money")]

  function LowerAscii(u: CodeUnit): CodeUnit {
    if 65 <= u <= 90 then u + 32 else u
  }

  predicate StartsWith(t: Text, prefix: Text) {
    |t| >= |prefix| && forall i :: 0 <= i < |prefix| ==> LowerAscii(t[i]) == prefix[i]
  }

  predicate IsLineEnd(u: CodeUnit) {
    u == 10 || u == 13 || u == 8232 || u == 8233
  }

  /** The five patterns: a web address, a www name, a unit five times in a row, an angle bracket, two spaces in a row. */
  predicate LooksLikeSpam(t: Text) {
    || StartsWith(t, Ascii("http://")) || StartsWith(t, Ascii("https://")) || StartsWith(t, Ascii("www."))
    || (exists i :: 0 <= i <= |t| - 5 && !IsLineEnd(t[i]) && SameUnits(t[i..i + 5]))
    || 60 in t || 62 in t
    || (exists i :: 0 <= i <= |t| - 2 && IsSpace(t[i]) && IsSpace(t[i + 1]))
  }

  predicate SameUnits(t: Text) {
    forall i :: 0 <= i < |t| ==> t[i] == t[0]
  }

  predicate IsSpamTag(t: Text) {
    t in BLOCKLIST || t == [] || |t| > MAX_TAG_LENGTH || LooksLikeSpam(t)
  }

  function CleanTags(env: Env, items: seq<Text>): seq<Text> {
    if items == [] then []
    else
      var tag := env.lower(Trim(items[0]));
      (if tag == [] then [] else [tag]) + CleanTags(env, items[1..])
  }

  function AllTags(env: Env, cs: seq<Candidate>): seq<Text> {
    if cs == [] then []
    else (if cs[0].value.Items? then CleanTags(env, cs[0].value.items) else []) + AllTags(env, cs[1..])
  }

  /** [...new Set(s)]: first occurrences. */
  function Distinct(s: seq<Text>): (r: seq<Text>)
    ensures NoDup(r)
    ensures forall x :: x in r <==> x in s
  {
    if s == [] then []
    else
      var rest, last := Distinct(s[..|s| - 1]), s[|s| - 1];
      assert forall x :: x in s <==> x in s[..|s| - 1] || x == last;
      if last in rest then rest else rest + [last]
  }

  /** The tags that candidates bring, spam aside, as they come. */
  function FreshTags(env: Env, cs: seq<Candidate>): seq<Text> {
    Filter((t: Text) => !IsSpamTag(t), Distinct(AllTags(env, cs)))
  }

  /** The tags that may be kept, in order. */
  function GoodTags(env: Env, cs: seq<Candidate>): seq<Text> {
    Sort(env.le, FreshTags(env, Sort(ByPrecedence(env, Tags), cs)))
  }

  function ResolveTags(env: Env, cs: seq<Candidate>): Resolution {
    var ordered := Sort(ByPrecedence(env, Tags), cs);
    if ordered == [] then Unresolved
    else
      var tags := GoodTags(env, cs);
      Resolved(Items(if |tags| <= MAX_TAGS then tags else tags[..MAX_TAGS]), Ascii("union"), ordered[0].stamp)
  }

  // ---- Last update ----

  function Effective(env: Env, c: Candidate): int {
    var fromValue := if c.value.Str? && c.value.text != [] then env.parse(c.value.text) else 0;
    var fromSource := Epoch(env, c.stamp);
    if fromValue >= fromSource then fromValue else fromSource
  }

  predicate LaterFirst(env: Env, a: Candidate, b: Candidate) {
    if Effective(env, a) != Effective(env, b) then Effective(env, a) > Effective(env, b)
    else
      match (IndexIn(SourceOrder(LastUpdated), a.source), IndexIn(SourceOrder(LastUpdated), b.source))
      case (_, Unknown) => true
      case (Unknown, Known(_)) => false
      case (Known(i), Known(j)) => i < j || (i == j && env.le(a.source, b.source))
  }

  function ByEffective(env: Env): (Candidate, Candidate) -> bool {
    (a: Candidate, b: Candidate) => LaterFirst(env, a, b)
  }

  function ResolveLastUpdated(env: Env, cs: seq<Candidate>): Resolution {
    var dated := Filter((c: Candidate) => Effective(env, c) > 0, cs);
    if dated == [] then Unresolved
    else
      var winner := Sort(ByEffective(env), dated)[0];
      Resolved(Instant(Effective(env, winner)), winner.source, winner.stamp)
  }

  // ---- One field, and the whole record ----

  function Present(cs: seq<Candidate>): seq<Candidate> {
    Filter((c: Candidate) => !c.value.Nothing?, cs)
  }

  /** resolveFieldValue. */
  function ResolveField(env: Env, field: MergeField, cs: seq<Candidate>): Resolution {
    var present := Present(cs);
    if present == [] then Unresolved
    else if field.Tags? then ResolveTags(env, present)
    else if field.LastUpdated? then ResolveLastUpdated(env, present)
    else
      var winner := Sort(ByPrecedence(env, field), present)[0];
      Resolved(winner.value, winner.source, winner.stamp)
  }

  type CandidateMap = map<MergeField, seq<Candidate>>

  type Lineage = map<MergeField, Resolution>

  const FIELDS: seq<MergeField> :=
    [GithubRepoId, OwnerIdentity, Name, Description, ToolKind, DomainCategory, Capabilities, Permissions, Io, InstallCommand,
     ConfigTemplate, RuntimeRequirements, Ratings, Stars, Downloads, LastUpdated, Tags]

  /** The record holds a field's resolution exactly when the field has been looked at and resolves. */
  ghost predicate Holds(env: Env, cs: CandidateMap, lineage: Lineage, f: MergeField, seen: seq<MergeField>) {
    && (f in lineage <==> f in seen && f in cs && ResolveField(env, f, cs[f]).Resolved?)
    && (f in lineage ==> lineage[f] == ResolveField(env, f, cs[f]))
  }

  /** Every field that resolves, and no other. */
  function LineageOf(env: Env, cs: CandidateMap): Lineage {
    map f | f in cs && ResolveField(env, f, cs[f]).Resolved? :: ResolveField(env, f, cs[f])
  }

  /** resolveMergedRecord. */
  method ResolveMergedRecord(env: Env, cs: CandidateMap) returns (lineage: Lineage)
    ensures lineage == LineageOf(env, cs)
  {
    lineage := map[];
    for i := 0 to |FIELDS|
      invariant forall f :: Holds(env, cs, lineage, f, FIELDS[..i])
    {
      ghost var before := lineage;
      lineage := AddField(env, cs, lineage, FIELDS[i]);
      ghost var seen := FIELDS[..i + 1];
      forall f ensures Holds(env, cs, lineage, f, seen) {
        assert seen == FIELDS[..i] + [FIELDS[i]];
        assert Holds(env, cs, before, f, FIELDS[..i]);
      }
    }
    assert FIELDS[..|FIELDS|] == FIELDS;
    CompleteLineage(env, cs, lineage);
  }

  lemma CompleteLineage(env: Env, cs: CandidateMap, lineage: Lineage)
    requires forall f :: Holds(env, cs, lineage, f, FIELDS)
    ensures lineage == LineageOf(env, cs)
  {
    forall f ensures (f in lineage <==> f in LineageOf(env, cs)) && (f in lineage ==> lineage[f] == LineageOf(env, cs)[f]) {
      EveryFieldListed(f);
      assert Holds(env, cs, lineage, f, FIELDS);
    }
    assert lineage.Keys == LineageOf(env, cs).Keys;
  }

  /** The body of that loop for one field. */
  method AddField(env: Env, cs: CandidateMap, lineage: Lineage, field: MergeField) returns (r: Lineage)
    ensures r == if field in cs && ResolveField(env, field, cs[field]).Resolved?
                 then lineage[field := ResolveField(env, field, cs[field])] else lineage
  {
    r := lineage;
    if field in cs && cs[field] != [] {
      var resolution := ResolveField(env, field, cs[field]);
      if resolution.Resolved? {
        r := lineage[field := resolution];
      }
    }
  }

  /** No field is forgotten, so the record is complete. */
  lemma EveryFieldListed(f: MergeField)
    ensures f in FIELDS
  {
  }

  // ---- What wins ----

  /** The times that a stamp and a value stand for, when they do. */
  ghost function TimeOf(env: Env, stamp: Stamp): int {
    match stamp
    case NoStamp => 0
    case Stamp(text) => if |text| > 0 then env.parse(text) else 0
  }

  ghost function TimeGiven(env: Env, value: Value): int {
    match value
    case Str(text) => if |text| > 0 then env.parse(text) else 0
    case _ => 0
  }

  /**
   * For an ordinary field the winner is a present value of least precedence, then of the latest epoch, and the
   * earliest candidate of those that tie; when every source is unknown that is the first present candidate.
   */
  lemma OrdinaryWinner(env: Env, field: MergeField, cs: seq<Candidate>) returns (w: nat)
    requires TotalPreorder(env.le) && !field.Tags? && !field.LastUpdated?
    ensures Present(cs) == [] <==> ResolveField(env, field, cs).Unresolved?
    ensures Present(cs) != [] ==>
              var p, order := Present(cs), SourceOrder(field);
              && w < |p| && ResolveField(env, field, cs) == Resolved(p[w].value, p[w].source, p[w].stamp)
              && (forall j :: 0 <= j < |p| ==>
                    match IndexIn(order, p[j].source)
                    case Unknown => true
                    case Known(b) =>
                      var a := IndexIn(order, p[w].source);
                      a.Known? && a.index <= b && (a.index == b ==> TimeOf(env, p[w].stamp) >= TimeOf(env, p[j].stamp)))
              && ((forall j :: 0 <= j < |p| ==> IndexIn(order, p[j].source).Unknown?) ==> w == 0)
              && forall j :: 0 <= j < w ==>
                   IndexIn(order, p[j].source) != IndexIn(order, p[w].source) || TimeOf(env, p[j].stamp) < TimeOf(env, p[w].stamp)
  {
    w := 0;
    if Present(cs) != [] {
      var p, le := Present(cs), ByPrecedence(env, field);
      ByPrecedenceOrder(env, field);
      w := SortHead(le, p);
      forall j | 0 <= j < |p| ensures NotAfter(env, SourceOrder(field), p[w], p[j]) {
        assert le(p[w], p[j]);
      }
      forall j | 0 <= j < w ensures !NotAfter(env, SourceOrder(field), p[j], p[w]) {
        assert !le(p[j], p[w]);
      }
    }
  }

  /** lastUpdated is the greatest effective timestamp of any present candidate, if one is positive. */
  lemma LastUpdatedIsMax(env: Env, cs: seq<Candidate>)
    requires TotalPreorder(env.le)
    ensures var p := Present(cs);
            match ResolveField(env, LastUpdated, cs)
            case Unresolved => forall j :: 0 <= j < |p| ==> Effective(env, p[j]) <= 0
            case Resolved(value, source, stamp) =>
              && value.Instant? && value.ms > 0
              && (forall j :: 0 <= j < |p| ==> Effective(env, p[j]) <= value.ms)
              && exists j :: 0 <= j < |p| && Effective(env, p[j]) == value.ms && p[j].source == source && p[j].stamp == stamp
  {
    var p := Present(cs);
    var dated := Filter((c: Candidate) => Effective(env, c) > 0, p);
    forall j | 0 <= j < |p| ensures Effective(env, p[j]) > 0 ==> p[j] in dated {
      assert p[j] in p;
    }
    if dated != [] {
      ByEffectiveOrder(env);
      var w := SortHead(ByEffective(env), dated);
      assert dated[w] in dated && dated[w] in p;
      forall j | 0 <= j < |p| ensures Effective(env, p[j]) <= Effective(env, dated[w]) {
        if p[j] in dated {
          var k :| 0 <= k < |dated| && dated[k] == p[j];
          assert ByEffective(env)(dated[w], dated[k]);
        } else {
          assert Effective(env, dated[w]) > 0;
        }
      }
    }
  }

  /** A present candidate's own value, or its stamp, says so. */
  ghost predicate DatedAt(env: Env, c: Candidate, ms: int) {
    TimeGiven(env, c.value) <= ms && TimeOf(env, c.stamp) <= ms && (TimeGiven(env, c.value) == ms || TimeOf(env, c.stamp) == ms)
  }

  lemma DatedAtIff(env: Env, c: Candidate)
    ensures forall ms :: DatedAt(env, c, ms) <==> Effective(env, c) == ms
    ensures TimeGiven(env, c.value) <= Effective(env, c) && TimeOf(env, c.stamp) <= Effective(env, c)
  {
  }

  /** The position among the present candidates of the one that gives the last update. */
  lemma LastWinner(env: Env, cs: seq<Candidate>) returns (w: nat)
    requires TotalPreorder(env.le) && ResolveField(env, LastUpdated, cs).Resolved?
    ensures var p, r := Present(cs), ResolveField(env, LastUpdated, cs);
            && w < |p| && r == Resolved(Instant(Effective(env, p[w])), p[w].source, p[w].stamp)
            && forall j :: 0 <= j < |p| && Effective(env, p[j]) > 0 ==> LaterFirst(env, p[w], p[j])
  {
    var p := Present(cs);
    var dated := Filter((c: Candidate) => Effective(env, c) > 0, p);
    ByEffectiveOrder(env);
    var v := SortHead(ByEffective(env), dated);
    assert dated[v] in dated && dated[v] in p;
    w :| w < |p| && p[w] == dated[v];
    forall j | 0 <= j < |p| && Effective(env, p[j]) > 0 ensures LaterFirst(env, p[w], p[j]) {
      assert p[j] in p && p[j] in dated;
      var k :| 0 <= k < |dated| && dated[k] == p[j];
      assert ByEffective(env)(dated[v], dated[k]);
    }
  }

  /**
   * The last update is the latest time that any present candidate's value or stamp stands for, if one is positive, with the
   * source and the stamp of a candidate that says so and that no other such one precedes.
   */
  lemma LastUpdateFromFields(env: Env, cs: seq<Candidate>)
    requires TotalPreorder(env.le)
    ensures var p := Present(cs);
            match ResolveField(env, LastUpdated, cs)
            case Unresolved => forall j :: 0 <= j < |p| ==> TimeGiven(env, p[j].value) <= 0 && TimeOf(env, p[j].stamp) <= 0
            case Resolved(value, source, stamp) =>
              && value.Instant? && value.ms > 0
              && (forall j :: 0 <= j < |p| ==> TimeGiven(env, p[j].value) <= value.ms && TimeOf(env, p[j].stamp) <= value.ms)
              && exists w: nat :: w < |p| && p[w].source == source && p[w].stamp == stamp && DatedAt(env, p[w], value.ms)
                   && forall j :: 0 <= j < |p| && DatedAt(env, p[j], value.ms) ==>
                        match (IndexIn(SourceOrder(LastUpdated), source), IndexIn(SourceOrder(LastUpdated), p[j].source))
                        case (_, Unknown) => true
                        case (Unknown, Known(_)) => false
                        case (Known(a), Known(b)) => a <= b
  {
    var p := Present(cs);
    LastUpdatedIsMax(env, cs);
    forall j | 0 <= j < |p|
      ensures TimeGiven(env, p[j].value) <= Effective(env, p[j]) && TimeOf(env, p[j].stamp) <= Effective(env, p[j])
      ensures forall ms :: DatedAt(env, p[j], ms) <==> Effective(env, p[j]) == ms
    {
      DatedAtIff(env, p[j]);
    }
    if ResolveField(env, LastUpdated, cs).Resolved? {
      var w := LastWinner(env, cs);
    }
  }

  lemma ByEffectiveOrder(env: Env)
    requires TotalPreorder(env.le)
    ensures TotalPreorder(ByEffective(env))
  {
  }

  lemma {:induction false} AllTagsPermute(env: Env, cs: seq<Candidate>, x: Text)
    ensures x in AllTags(env, cs) <==> exists i :: 0 <= i < |cs| && cs[i].value.Items? && x in CleanTags(env, cs[i].value.items)
  {
    if cs != [] {
      AllTagsPermute(env, cs[1..], x);
      if x in AllTags(env, cs[1..]) {
        var i :| 0 <= i < |cs[1..]| && cs[1..][i].value.Items? && x in CleanTags(env, cs[1..][i].value.items);
        assert cs[i + 1].value.Items? && x in CleanTags(env, cs[i + 1].value.items);
      }
      if i :| 0 < i < |cs| && cs[i].value.Items? && x in CleanTags(env, cs[i].value.items) {
        assert cs[1..][i - 1] == cs[i];
      }
    }
  }

  /** A tag some candidate gives and that is not spam. */
  ghost predicate Offered(env: Env, cs: seq<Candidate>, x: Text) {
    !IsSpamTag(x) && exists i :: 0 <= i < |cs| && cs[i].value.Items? && x in CleanTags(env, cs[i].value.items)
  }

  /** A tag that Forge keeps: short, not blocked, and nothing of an address, of markup or of shouting about it. */
  ghost predicate Decent(x: Text) {
    && 1 <= |x| <= 40
    && x !in [Ascii("sponsored"), Ascii("promoted"), Ascii("ad"), Ascii("ads"), Ascii("clickbait"), Ascii("free-money")]
    && !Begins(x, "http://") && !Begins(x, "https://") && !Begins(x, "www.")
    && Ascii("<")[0] !in x && Ascii(">")[0] !in x
    && (forall i :: 0 <= i < |x| - 4 && x[i] !in [10, 13, 8232, 8233] ==> exists k :: i < k < i + 5 && x[k] != x[i])
    && forall i :: 0 <= i < |x| - 1 ==> !IsSpace(x[i]) || !IsSpace(x[i + 1])
  }

  /** In either case of its letters. */
  ghost predicate Begins(x: Text, prefix: string) {
    |prefix| <= |x| && forall i :: 0 <= i < |prefix| ==> SameLetter(x[i], Ascii(prefix)[i])
  }

  ghost predicate SameLetter(u: CodeUnit, lower: CodeUnit) {
    u == lower || (97 <= lower <= 122 && u + 32 == lower)
  }

  lemma RunOfFive(x: Text, i: nat)
    requires i + 5 <= |x|
    ensures SameUnits(x[i..i + 5]) <==> forall k :: i < k < i + 5 ==> x[k] == x[i]
  {
    var run := x[i..i + 5];
    assert forall k :: i <= k < i + 5 ==> run[k - i] == x[k];
    assert forall j :: 0 <= j < 5 ==> run[j] == x[i + j];
  }

  lemma BeginsIff(x: Text, prefix: string)
    requires forall i :: 0 <= i < |prefix| ==> 0 < Ascii(prefix)[i] < 65 || 90 < Ascii(prefix)[i]
    ensures StartsWith(x, Ascii(prefix)) <==> Begins(x, prefix)
  {
    forall i | 0 <= i < |prefix| && i < |x| ensures LowerAscii(x[i]) == Ascii(prefix)[i] <==> SameLetter(x[i], Ascii(prefix)[i]) {
    }
  }

  /** The tags that are dropped as spam are those that are not decent in that sense. */
  lemma DecentIff(x: Text)
    ensures IsSpamTag(x) <==> !Decent(x)
  {
    BeginsIff(x, "http://");
    BeginsIff(x, "https://");
    BeginsIff(x, "www.");
    forall i: nat | i + 5 <= |x| ensures SameUnits(x[i..i + 5]) <==> forall k :: i < k < i + 5 ==> x[k] == x[i] {
      RunOfFive(x, i);
    }
    assert Ascii("<")[0] == 60 && Ascii(">")[0] == 62;
  }

  lemma {:induction false} CleanTagsAre(env: Env, items: seq<Text>, x: Text)
    ensures x in CleanTags(env, items) <==> x != [] && exists k :: 0 <= k < |items| && env.lower(Trim(items[k])) == x
  {
    if items != [] {
      CleanTagsAre(env, items[1..], x);
      if k :| 0 < k < |items| && env.lower(Trim(items[k])) == x {
        assert items[1..][k - 1] == items[k];
      }
      if k :| 0 <= k < |items[1..]| && env.lower(Trim(items[1..][k])) == x {
        assert items[k + 1] == items[1..][k];
      }
    }
  }

  /** The i-th candidate lists the tag, up to case and surrounding space. */
  ghost predicate Lists(env: Env, cs: seq<Candidate>, i: nat, x: Text) {
    i < |cs| && cs[i].value.Items? && exists k :: 0 <= k < |cs[i].value.items| && env.lower(Trim(cs[i].value.items[k])) == x
  }

  /** The tags that may be kept are the decent ones that some candidate lists. */
  lemma OfferedIff(env: Env, cs: seq<Candidate>, x: Text)
    ensures Offered(env, cs, x) <==> Decent(x) && exists i: nat :: Lists(env, cs, i, x)
  {
    DecentIff(x);
    if !IsSpamTag(x) {
      forall i: nat | i < |cs| && cs[i].value.Items? ensures x in CleanTags(env, cs[i].value.items) <==> Lists(env, cs, i, x) {
        CleanTagsAre(env, cs[i].value.items, x);
      }
    }
  }

  lemma GoodTagsAre(env: Env, cs: seq<Candidate>)
    requires TotalPreorder(env.le)
    ensures NoDup(GoodTags(env, cs)) && SortedBy(env.le, GoodTags(env, cs))
    ensures forall x :: x in GoodTags(env, cs) <==> Offered(env, cs, x)
  {
    var ordered := Sort(ByPrecedence(env, Tags), cs);
    var good := FreshTags(env, ordered);
    SortPermutes(ByPrecedence(env, Tags), cs);
    FilterNoDup((t: Text) => !IsSpamTag(t), Distinct(AllTags(env, ordered)));
    SortSorts(env.le, good);
    SortPermutes(env.le, good);
    NoDupMultiset(good, Sort(env.le, good));
    forall x ensures x in GoodTags(env, cs) <==> Offered(env, cs, x) {
      AllTagsPermute(env, ordered, x);
      if i :| 0 <= i < |ordered| && ordered[i].value.Items? && x in CleanTags(env, ordered[i].value.items) {
        assert ordered[i] in cs;
        var j :| 0 <= j < |cs| && cs[j] == ordered[i];
      }
      if i :| 0 <= i < |cs| && cs[i].value.Items? && x in CleanTags(env, cs[i].value.items) {
        assert cs[i] in ordered;
        var j :| 0 <= j < |ordered| && ordered[j] == cs[i];
      }
    }
  }

  /** The tags are offered, sorted and distinct, at most 25; a tag left out is spam or comes after 25 kept ones. */
  lemma TagsAreTheFirst(env: Env, cs: seq<Candidate>)
    requires TotalPreorder(env.le) && Present(cs) != []
    ensures var r := ResolveField(env, Tags, cs);
            && r.Resolved? && r.value.Items?
            && var tags := r.value.items;
               && NoDup(tags) && SortedBy(env.le, tags) && |tags| <= MAX_TAGS
               && (forall i :: 0 <= i < |tags| ==> Offered(env, Present(cs), tags[i]))
               && forall x :: Offered(env, Present(cs), x) && x !in tags ==>
                    |tags| == MAX_TAGS && forall i :: 0 <= i < |tags| ==> env.le(tags[i], x)
  {
    var p := Present(cs);
    SortPermutes(ByPrecedence(env, Tags), p);
    assert p[0] in Sort(ByPrecedence(env, Tags), p);
    GoodTagsAre(env, p);
    FirstTags(env, GoodTags(env, p));
  }

  lemma FirstTags(env: Env, good: seq<Text>)
    requires NoDup(good) && SortedBy(env.le, good)
    ensures var tags := if |good| <= MAX_TAGS then good else good[..MAX_TAGS];
            && NoDup(tags) && SortedBy(env.le, tags) && |tags| <= MAX_TAGS
            && (forall i :: 0 <= i < |tags| ==> tags[i] in good)
            && forall x :: x in good && x !in tags ==> |tags| == MAX_TAGS && forall i :: 0 <= i < |tags| ==> env.le(tags[i], x)
  {
  }

  lemma OfferedPermutes(env: Env, cs: seq<Candidate>, ds: seq<Candidate>, x: Text)
    requires multiset(cs) == multiset(ds) && Offered(env, cs, x)
    ensures Offered(env, ds, x)
  {
    var i :| 0 <= i < |cs| && cs[i].value.Items? && x in CleanTags(env, cs[i].value.items);
    assert cs[i] in multiset(ds);
    var j :| 0 <= j < |ds| && ds[j] == cs[i];
  }

  /** The merged tags do not depend on the order the candidates come in, when localeCompare tells the good tags apart. */
  lemma TagOrderIrrelevant(env: Env, cs: seq<Candidate>, ds: seq<Candidate>)
    requires TotalPreorder(env.le) && multiset(cs) == multiset(ds)
    requires Separates(env.le, GoodTags(env, Present(cs)))
    ensures var r, q := ResolveField(env, Tags, cs), ResolveField(env, Tags, ds);
            && (r.Resolved? <==> q.Resolved?)
            && (r.Resolved? ==> r.value == q.value && r.source == q.source)
  {
    var p, q := Present(cs), Present(ds);
    FilterMultiset((c: Candidate) => !c.value.Nothing?, cs, ds);
    assert |multiset(p)| == |p| && |multiset(q)| == |q|;
    GoodTagsAre(env, p);
    GoodTagsAre(env, q);
    forall x ensures x in GoodTags(env, p) <==> x in GoodTags(env, q) {
      if Offered(env, p, x) {
        OfferedPermutes(env, p, q, x);
      } else if Offered(env, q, x) {
        OfferedPermutes(env, q, p, x);
      }
    }
    NoDupPermutes(GoodTags(env, p), GoodTags(env, q));
    SortedUnique(env.le, GoodTags(env, p), GoodTags(env, q));
  }
}
