// What one run of the retrieval sync does, told from its raw arguments, the catalog rows and the two tables.
module RetrievalFields {
  import opened JsText
  import opened Sorting
  import opened RetrievalSync

  // ---- The arguments ----

  /** The form of a uuid: h is a hexadecimal digit, v a version and y a variant. */
  const UUID_FORM: string := "hhhhhhhh-hhhh-vhhh-yhhh-hhhhhhhhhhhh"

  ghost predicate OfClass(u: CodeUnit, class_: char) {
    match class_
    case 'h' => u in Ascii("0123456789abcdefABCDEF")
    case 'v' => u in Ascii("12345678")
    case 'y' => u in Ascii("89abAB")
    case _ => u == class_ as int
  }

  ghost predicate IsUuidText(t: Text) {
    |t| == |UUID_FORM| && forall i :: 0 <= i < |UUID_FORM| ==> OfClass(t[i], UUID_FORM[i])
  }

  lemma HexClass(u: CodeUnit)
    ensures OfClass(u, 'h') <==> IsHex(u)
  {
    var digits := Ascii("0123456789abcdefABCDEF");
    if 48 <= u <= 57 {
      assert digits[u - 48] == u;
    } else if 97 <= u <= 102 {
      assert digits[u - 87] == u;
    } else if 65 <= u <= 70 {
      assert digits[u - 49] == u;
    }
  }

  lemma VersionClass(u: CodeUnit)
    ensures OfClass(u, 'v') <==> 49 <= u <= 56
    ensures OfClass(u, 'y') <==> 56 <= u <= 57 || 97 <= u <= 98 || 65 <= u <= 66
    ensures OfClass(u, 'v') ==> OfClass(u, 'h')
    ensures OfClass(u, 'y') ==> OfClass(u, 'h')
  {
    var versions, variants := Ascii("12345678"), Ascii("89abAB");
    HexClass(u);
    if 49 <= u <= 56 {
      assert versions[u - 49] == u;
    }
    if 56 <= u <= 57 {
      assert variants[u - 56] == u;
    } else if 97 <= u <= 98 {
      assert variants[u - 95] == u;
    } else if 65 <= u <= 66 {
      assert variants[u - 61] == u;
    }
  }

  /** The ids that are recognised are the texts of that form. */
  lemma UuidIff(t: Text)
    ensures IsUuid(t) <==> IsUuidText(t)
  {
    if |t| == 36 {
      forall u: CodeUnit ensures OfClass(u, 'h') <==> IsHex(u) {
        HexClass(u);
      }
      VersionClass(t[14]);
      VersionClass(t[19]);
      assert |UUID_FORM| == 36 && UUID_FORM[14] == 'v' && UUID_FORM[19] == 'y';
      assert forall i :: 0 <= i < 36 && i != 14 && i != 19 ==>
               UUID_FORM[i] == if i == 8 || i == 13 || i == 18 || i == 23 then '-' else 'h';
    }
  }

  /** Letter by letter the same, in whatever case, and id has no upper-case letter. */
  ghost predicate LowerCaseOf(id: Text, raw: Text) {
    && |id| == |raw|
    && forall k :: 0 <= k < |id| ==>
         !(65 <= id[k] <= 90) && (raw[k] == id[k] || (97 <= id[k] <= 122 && id[k] as int - raw[k] as int == 32))
  }

  /** The list names the id: one of its recognised texts is that id in some case. */
  ghost predicate NamesId(values: seq<Text>, id: Text) {
    exists i :: 0 <= i < |values| && IsUuidText(Trim(values[i])) && LowerCaseOf(id, Trim(values[i]))
  }

  ghost predicate NamesNone(values: seq<Text>) {
    forall i :: 0 <= i < |values| ==> !IsUuidText(Trim(values[i]))
  }

  lemma LowerIs(raw: Text, id: Text)
    ensures Lower(raw) == id <==> LowerCaseOf(id, raw)
  {
  }

  lemma SelectionFromTexts(values: seq<Text>, id: Text)
    ensures NormalizePackageIds(values) == Everything <==> NamesNone(values)
    ensures NormalizePackageIds(values) != Everything ==> (id in NormalizePackageIds(values).ids <==> NamesId(values, id))
  {
    UnrecognisedMeansEverything(values);
    forall i | 0 <= i < |values| ensures IsUuid(Trim(values[i])) <==> IsUuidText(Trim(values[i])) {
      UuidIff(Trim(values[i]));
    }
    if NormalizePackageIds(values) != Everything {
      if i :| 0 <= i < |values| && IsUuidText(Trim(values[i])) && LowerCaseOf(id, Trim(values[i])) {
        LowerIs(Trim(values[i]), id);
      }
      if id in NormalizePackageIds(values).ids {
        var i :| 0 <= i < |values| && IsUuid(Trim(values[i])) && Lower(Trim(values[i])) == id;
        LowerIs(Trim(values[i]), id);
      }
    }
  }

  /** The page size is a hundred when none is given, and otherwise the nearest one between 1 and 500. */
  lemma LimitIsNearest(limit: Limit, m: nat)
    requires 1 <= m <= 500
    ensures limit.NotAnInteger? ==> NormalizeLimit(limit) == 100
    ensures limit.Integer? ==>
              var r := NormalizeLimit(limit);
              1 <= r <= 500 && (if r >= limit.n then r - limit.n else limit.n - r) <= if m >= limit.n then m - limit.n else limit.n - m
  {
  }

  // ---- The rows of a run ----

  /** The row is one the list names, or, when it names none, one whose id comes after the cursor, if there is one. */
  ghost predicate Wanted(cursor: Text, values: seq<Text>, d: Document) {
    if NamesNone(values) then Trim(cursor) == [] || (TextLe(Trim(cursor), d.id) && Trim(cursor) != d.id)
    else NamesId(values, d.id)
  }

  /** The i-th row is wanted, and fewer rows before it than the page has room for. */
  ghost predicate OnPage(catalog: Docs, cursor: Text, values: seq<Text>, size: nat, i: nat) {
    && i < |catalog| && Wanted(cursor, values, catalog[i])
    && |set j | 0 <= j < i && Wanted(cursor, values, catalog[j])| < size
  }

  ghost function KeptAt(p: Document -> bool, s: Docs, i: nat): set<int>
    requires i <= |s|
  {
    set j | 0 <= j < i && p(s[j])
  }

  lemma OneMoreKept(p: Document -> bool, s: Docs, i: nat)
    requires 0 < i <= |s|
    ensures |KeptAt(p, s, i)| == |KeptAt(p, s, i - 1)| + if p(s[i - 1]) then 1 else 0
  {
    assert KeptAt(p, s, i) == KeptAt(p, s, i - 1) + if p(s[i - 1]) then {i - 1} else {};
  }

  lemma {:induction false} KeptBefore(p: Document -> bool, s: Docs, i: nat)
    requires i <= |s|
    ensures |Filter(p, s[..i])| == |KeptAt(p, s, i)|
  {
    if i > 0 {
      KeptBefore(p, s, i - 1);
      OneMoreKept(p, s, i);
      assert s[..i] == s[..i - 1] + [s[i - 1]];
      FilterLast(p, s[..i - 1], s[i - 1]);
    }
  }

  /** Of an ordered list, a filter's first n elements are those it keeps with fewer than n kept ones before. */
  lemma FirstKept(p: Document -> bool, s: Docs, n: nat, i: nat)
    requires Ordered(s) && i < |s|
    ensures var kept := Filter(p, s);
            s[i] in (if |kept| <= n then kept else kept[..n]) <==> p(s[i]) && |Filter(p, s[..i])| < n
  {
    var kept, before := Filter(p, s), Filter(p, s[..i]);
    assert s == s[..i] + ([s[i]] + s[i + 1..]);
    FilterConcat(p, s[..i], [s[i]] + s[i + 1..]);
    FilterUnfolds(p, s[i], s[i + 1..]);
    if p(s[i]) {
      assert kept == before + ([s[i]] + Filter(p, s[i + 1..]));
      assert kept[|before|] == s[i];
      FilterOrdered(p, s);
      forall k | 0 <= k < |kept| && kept[k] == s[i] ensures k == |before| {
        OrderedIdsDiffer(kept, k, |before|);
      }
    }
  }

  /** The predicate by which a run lists rows says which rows are wanted. */
  function ListedBy(cursor: Text, values: seq<Text>): Document -> bool {
    match NormalizePackageIds(values)
    case Everything => Beyond(NormalizeCursor(cursor))
    case Chosen(ids) => (d: Document) => d.id in ids
  }

  lemma ListedIsWanted(cursor: Text, values: seq<Text>, d: Document)
    ensures ListedBy(cursor, values)(d) <==> Wanted(cursor, values, d)
  {
    SelectionFromTexts(values, d.id);
    if TextLe(Trim(cursor), d.id) && TextLe(d.id, Trim(cursor)) {
      TextLeAntisymmetric(Trim(cursor), d.id);
    }
    TextLeTotal(Trim(cursor), d.id);
  }

  /** The rows of a run are the wanted ones, from the first on, as many as fit the page. */
  lemma BatchFromArguments(catalog: Docs, cursor: Text, values: seq<Text>, size: nat, i: nat)
    requires Ordered(catalog) && i < |catalog|
    ensures catalog[i] in Batch(catalog, NormalizeCursor(cursor), NormalizePackageIds(values), size)
       <==> OnPage(catalog, cursor, values, size, i)
  {
    var p := ListedBy(cursor, values);
    FirstKept(p, catalog, size, i);
    KeptBefore(p, catalog, i);
    forall j | 0 <= j <= i ensures p(catalog[j]) <==> Wanted(cursor, values, catalog[j]) {
      ListedIsWanted(cursor, values, catalog[j]);
    }
    assert KeptAt(p, catalog, i) == set j | 0 <= j < i && Wanted(cursor, values, catalog[j]);
    assert Listed(catalog, NormalizeCursor(cursor), NormalizePackageIds(values)) == Filter(p, catalog);
  }

  // ---- What a run leaves ----

  /** The state table holds the hash of the row, under an id that is recognised. */
  ghost predicate UpToDate(store: Store, hash: Hash, d: Document) {
    IsUuidText(d.id) && d.id in store.state && store.state[d.id] == hash(d)
  }

  /** The two tables have for the id what they had before. */
  ghost predicate KeptFor(before: Store, after: Store, id: Text) {
    && (id in after.index <==> id in before.index) && (id in after.index ==> after.index[id] == before.index[id])
    && (id in after.state <==> id in before.state) && (id in after.state ==> after.state[id] == before.state[id])
  }

  /**
   * A run whose writes go through leaves, for each row on its page that is not up to date, the row in the index and its hash
   * in the state table, and changes nothing else; a dry run changes nothing at all.
   */
  lemma RunFromArguments(catalog: Docs, store: Store, mode: Mode, cursor: Text, values: seq<Text>, limit: Limit, hash: Hash,
                         i: nat)
    requires Ordered(catalog) && i < |catalog|
    ensures var d := catalog[i];
            var (after, reply) := RunOn(catalog, store, mode, NormalizeCursor(cursor), NormalizePackageIds(values),
                                        NormalizeLimit(limit), NoFault, hash);
            && reply.Completed?
            && (if mode.Apply? && OnPage(catalog, cursor, values, NormalizeLimit(limit), i) && !UpToDate(store, hash, d) then
                  d.id in after.index && after.index[d.id] == d && d.id in after.state && after.state[d.id] == hash(d)
                else KeptFor(store, after, d.id))
  {
    var d := catalog[i];
    var batch := Batch(catalog, NormalizeCursor(cursor), NormalizePackageIds(values), NormalizeLimit(limit));
    BatchFromArguments(catalog, cursor, values, NormalizeLimit(limit), i);
    UuidIff(d.id);
    BatchIsOrdered(catalog, cursor, values, NormalizeLimit(limit));
    RunSyncs(store, batch, hash, d.id);
    if k :| 0 <= k < |batch| && batch[k].id == d.id {
      SameRow(catalog, cursor, values, NormalizeLimit(limit), i, k);
    }
  }

  lemma BatchIsOrdered(catalog: Docs, cursor: Text, values: seq<Text>, size: nat)
    requires Ordered(catalog)
    ensures Ordered(Batch(catalog, NormalizeCursor(cursor), NormalizePackageIds(values), size))
    ensures forall d :: d in Batch(catalog, NormalizeCursor(cursor), NormalizePackageIds(values), size) ==> d in catalog
  {
    FilterOrdered(ListedBy(cursor, values), catalog);
    assert Listed(catalog, NormalizeCursor(cursor), NormalizePackageIds(values)) == Filter(ListedBy(cursor, values), catalog);
  }

  /** Ids are the primary key. */
  lemma SameRow(catalog: Docs, cursor: Text, values: seq<Text>, size: nat, i: nat, k: nat)
    requires Ordered(catalog) && i < |catalog|
    requires var batch := Batch(catalog, NormalizeCursor(cursor), NormalizePackageIds(values), size);
             k < |batch| && batch[k].id == catalog[i].id
    ensures Batch(catalog, NormalizeCursor(cursor), NormalizePackageIds(values), size)[k] == catalog[i]
  {
    BatchIsOrdered(catalog, cursor, values, size);
    var d := Batch(catalog, NormalizeCursor(cursor), NormalizePackageIds(values), size)[k];
    assert d in Batch(catalog, NormalizeCursor(cursor), NormalizePackageIds(values), size);
    var j: nat :| j < |catalog| && catalog[j] == d;
    OrderedIdsDiffer(catalog, i, j);
  }
}
