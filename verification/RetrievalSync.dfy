// The retrieval sync: a paged walk over the catalog that writes changed documents to a search index and
// remembers their hashes in a state table.
module RetrievalSync {
  import opened JsText
  import opened Sorting

  /** The projection of one package: what is indexed for it. */
  datatype Document = Document(id: Text, text: Text, metadata: Text, sourceUpdatedAt: Text)

  type Docs = seq<Document>

  /** payload_sha256, not interpreted further. */
  type Hash = Document -> Text

  datatype Mode = DryRun | Apply

  datatype Cursor = Start | AfterId(id: Text)

  datatype Limit = NotAnInteger | Integer(n: int)

  datatype Selection = Everything | Chosen(ids: set<Text>)

  datatype Store = Store(index: map<Text, Document>, state: map<Text, Text>)

  datatype NextCursor = NoNext | Next(id: Text)

  datatype Counts = Counts(candidates: nat, unchangedCount: nat, upserted: nat, persisted: nat, next: NextCursor)

  /** How the writes of a run break down: in the index, having written some documents, or in the state table after a few rows. */
  datatype Fault = NoFault | IndexFails(written: Document -> bool) | StateFails(rows: nat)

  datatype Reply = Completed(counts: Counts) | Failed

  // ---- Inputs ----

  /** normalizeLimit. */
  function NormalizeLimit(limit: Limit): (r: nat)
    ensures 1 <= r <= 500
    ensures limit.Integer? && 1 <= limit.n <= 500 ==> r == limit.n
  {
    if limit.NotAnInteger? then 100
    else if limit.n < 1 then 1
    else if limit.n > 500 then 500
    else limit.n
  }

  predicate IsHex(u: CodeUnit) {
    48 <= u <= 57 || 97 <= u <= 102 || 65 <= u <= 70
  }

  /** The expression isUuid tests: versions 1 to 8 of the RFC 9562 variant, in any letter case. */
  predicate IsUuid(t: Text) {
    && |t| == 36
    && (forall i :: 0 <= i < 36 ==> if i == 8 || i == 13 || i == 18 || i == 23 then t[i] == 45 else IsHex(t[i]))
    && 49 <= t[14] <= 56
    && (56 <= t[19] <= 57 || 97 <= t[19] <= 98 || 65 <= t[19] <= 66)
  }

  function Lower(t: Text): (r: Text)
    ensures |r| == |t|
  {
    seq(|t|, i requires 0 <= i < |t| => if 65 <= t[i] <= 90 then t[i] + 32 else t[i])
  }

  /** normalizePackageIds, with the ids as the uuid type compares them. */
  function NormalizePackageIds(values: seq<Text>): Selection {
    var ids := set i | 0 <= i < |values| && IsUuid(Trim(values[i])) :: Lower(Trim(values[i]));
    if ids == {} then Everything else Chosen(ids)
  }

  function NormalizeCursor(cursor: Text): Cursor {
    if Trim(cursor) == [] then Start else AfterId(Trim(cursor))
  }

  // ---- One run ----

  /** The catalog table in id order; ids are the primary key. */
  ghost predicate Ordered(catalog: Docs) {
    forall i, j :: 0 <= i < j < |catalog| ==> TextLt(catalog[i].id, catalog[j].id)
  }

  function Beyond(cursor: Cursor): Document -> bool {
    (d: Document) => cursor.Start? || TextLt(cursor.id, d.id)
  }

  /** The rows a run may list: those after the cursor, or the chosen ones wherever the cursor is. */
  function Listed(catalog: Docs, cursor: Cursor, selection: Selection): Docs {
    match selection
    case Everything => Filter(Beyond(cursor), catalog)
    case Chosen(ids) => Filter((d: Document) => d.id in ids, catalog)
  }

  function Batch(catalog: Docs, cursor: Cursor, selection: Selection, limit: nat): (r: Docs)
    ensures |r| <= limit
  {
    var rows := Listed(catalog, cursor, selection);
    if |rows| <= limit then rows else rows[..limit]
  }

  function NextOf(batch: Docs, selection: Selection, limit: nat): NextCursor {
    if selection.Everything? && |batch| == limit && limit > 0 then Next(batch[limit - 1].id) else NoNext
  }

  /** The state table has the document's hash, and getHashes finds it. */
  predicate Known(state: map<Text, Text>, hash: Hash, d: Document) {
    IsUuid(d.id) && d.id in state && state[d.id] == hash(d)
  }

  function Changed(docs: Docs, state: map<Text, Text>, hash: Hash): Docs {
    Filter((d: Document) => !Known(state, hash, d), docs)
  }

  function IndexWith(index: map<Text, Document>, docs: Docs): map<Text, Document> {
    if docs == [] then index
    else
      var n := |docs| - 1;
      IndexWith(index, docs[..n])[docs[n].id := docs[n]]
  }

  function StateWith(state: map<Text, Text>, docs: Docs, hash: Hash): map<Text, Text> {
    if docs == [] then state
    else
      var n := |docs| - 1;
      StateWith(state, docs[..n], hash)[docs[n].id := hash(docs[n])]
  }

  function Min(a: nat, b: nat): nat {
    if a <= b then a else b
  }

  /** What the two writes leave, the index first. */
  function Wrote(store: Store, changed: Docs, fault: Fault, hash: Hash): Store {
    match fault
    case IndexFails(written) => store.(index := IndexWith(store.index, Filter(written, changed)))
    case StateFails(rows) =>
      Store(IndexWith(store.index, changed), StateWith(store.state, changed[..Min(rows, |changed|)], hash))
    case NoFault => Store(IndexWith(store.index, changed), StateWith(store.state, changed, hash))
  }

  /** A run over its batch: retrieval-sync.ts, lines 363-396. */
  function RunBatchOn(batch: Docs, store: Store, mode: Mode, next: NextCursor, fault: Fault, hash: Hash): (Store, Reply) {
    var changed := Changed(batch, store.state, hash);
    if mode.DryRun? || changed == [] then
      (store, Completed(Counts(|batch|, |batch| - |changed|, 0, 0, next)))
    else
      (Wrote(store, changed, fault, hash),
       if fault.NoFault? then Completed(Counts(|batch|, |batch| - |changed|, |changed|, |changed|, next)) else Failed)
  }

  /** retrieval-sync.ts, lines 354-396. */
  function RunOn(catalog: Docs, store: Store, mode: Mode, cursor: Cursor, selection: Selection, limit: nat,
                 fault: Fault,
                 hash: Hash): (Store, Reply) {
    var batch := Batch(catalog, cursor, selection, limit);
    RunBatchOn(batch, store, mode, NextOf(batch, selection, limit), fault, hash)
  }

  /** The index and the state table behind the service. */
  class SyncService {
    const hash: Hash
    var index: map<Text, Document>
    var state: map<Text, Text>

    constructor (hash: Hash)
      ensures this.hash == hash && index == map[] && state == map[]
    {
      this.hash, index, state := hash, map[], map[];
    }

    method UpsertDocuments(docs: Docs)
      modifies this`index
      ensures index == IndexWith(old(index), docs)
    {
      for i := 0 to |docs|
        invariant index == IndexWith(old(index), docs[..i])
      {
        index := index[docs[i].id := docs[i]];
        assert docs[..i + 1][..i] == docs[..i];
      }
      assert docs[..|docs|] == docs;
    }

    /** One INSERT ... ON CONFLICT DO UPDATE per document. */
    method UpsertState(docs: Docs)
      modifies this`state
      ensures state == StateWith(old(state), docs, hash)
    {
      for i := 0 to |docs|
        invariant state == StateWith(old(state), docs[..i], hash)
      {
        state := state[docs[i].id := hash(docs[i])];
        assert docs[..i + 1][..i] == docs[..i];
      }
      assert docs[..|docs|] == docs;
    }

    /** The two writes of a run, up to the one that fails. */
    method Write(changed: Docs, fault: Fault)
      modifies this
      ensures Store(index, state) == Wrote(Store(old(index), old(state)), changed, fault, hash)
    {
      match fault {
        case IndexFails(written) =>
          UpsertDocuments(Filter(written, changed));
        case StateFails(rows) =>
          UpsertDocuments(changed);
          UpsertState(changed[..Min(rows, |changed|)]);
        case NoFault =>
          UpsertDocuments(changed);
          UpsertState(changed);
      }
    }

    method Run(catalog: Docs, mode: Mode, cursor: Text, limit: Limit, packageIds: seq<Text>,
               fault: Fault) returns (reply: Reply)
      modifies this
      ensures (Store(index, state), reply)
           == RunOn(catalog, Store(old(index), old(state)), mode, NormalizeCursor(cursor), NormalizePackageIds(packageIds),
                    NormalizeLimit(limit), fault, hash)
    {
      var from, size, selection := NormalizeCursor(cursor), NormalizeLimit(limit), NormalizePackageIds(packageIds);
      reply := RunBatch(Batch(catalog, from, selection, size), selection, size, mode, fault);
    }

    method RunBatch(batch: Docs, selection: Selection, size: nat, mode: Mode, fault: Fault) returns (reply: Reply)
      modifies this
      ensures (Store(index, state), reply)
           == RunBatchOn(batch, Store(old(index), old(state)), mode, NextOf(batch, selection, size), fault, hash)
    {
      var changed := Changed(batch, state, hash);
      var unchangedCount := |batch| - |changed|;
      var upserted, persisted := 0, 0;
      if mode.Apply? && changed != [] {
        Write(changed, fault);
        if !fault.NoFault? {
          return Failed;
        }
        upserted, persisted := |changed|, |changed|;
      }
      reply := Completed(Counts(|batch|, unchangedCount, upserted, persisted, NextOf(batch, selection, size)));
    }
  }

  // ---- Paging ----

  /** In id order, the rows beyond row k's id are those after row k. */
  lemma BeyondRow(docs: Docs, k: nat)
    requires Ordered(docs) && k < |docs|
    ensures Filter(Beyond(AfterId(docs[k].id)), docs) == docs[k + 1..]
  {
    var p := Beyond(AfterId(docs[k].id));
    var a, b := docs[..k + 1], docs[k + 1..];
    assert docs == a + b;
    FilterConcat(p, a, b);
    forall i | 0 <= i < |a| ensures !p(a[i]) {
      NotBeyond(docs, i, k);
    }
    FilterNone(p, a);
    forall i | 0 <= i < |b| ensures p(b[i]) {
      assert TextLt(docs[k].id, docs[k + 1 + i].id);
    }
    FilterAll(p, b);
  }

  lemma NotBeyond(docs: Docs, i: nat, k: nat)
    requires Ordered(docs) && i <= k < |docs|
    ensures !TextLt(docs[k].id, docs[i].id)
  {
    assert i < k ==> TextLt(docs[i].id, docs[k].id);
    if TextLe(docs[k].id, docs[i].id) && TextLe(docs[i].id, docs[k].id) {
      TextLeAntisymmetric(docs[k].id, docs[i].id);
    }
  }

  lemma {:induction false} FilterOrdered(p: Document -> bool, docs: Docs)
    requires Ordered(docs)
    ensures Ordered(Filter(p, docs))
  {
    if docs != [] {
      FilterOrdered(p, docs[1..]);
      var rest := Filter(p, docs[1..]);
      forall j | 0 <= j < |rest| ensures TextLt(docs[0].id, rest[j].id) {
        assert rest[j] in docs[1..];
        var i :| 0 <= i < |docs[1..]| && docs[1..][i] == rest[j];
        assert TextLt(docs[0].id, docs[i + 1].id);
      }
    }
  }

  /** Moving the cursor to the k-th listed row leaves the rows listed after it. */
  lemma NextPage(catalog: Docs, cursor: Cursor, k: nat)
    requires Ordered(catalog) && k < |Listed(catalog, cursor, Everything)|
    ensures var rows := Listed(catalog, cursor, Everything);
            Listed(catalog, AfterId(rows[k].id), Everything) == rows[k + 1..]
  {
    var rows := Listed(catalog, cursor, Everything);
    FilterOrdered(Beyond(cursor), catalog);
    BeyondRow(rows, k);
    assert rows[k] in rows;
    forall d: Document | Beyond(AfterId(rows[k].id))(d) ensures Beyond(cursor)(d) {
      if cursor.AfterId? {
        TextLeTransitive(cursor.id, rows[k].id, d.id);
        if cursor.id == d.id {
          TextLeAntisymmetric(rows[k].id, d.id);
        }
      }
    }
    FilterFilter(Beyond(AfterId(rows[k].id)), Beyond(cursor), catalog);
  }

  /** The batches of a walk that follows next_cursor to its end; that it ends is this function's termination. */
  function Pages(catalog: Docs, cursor: Cursor, limit: nat): seq<Docs>
    requires Ordered(catalog) && limit >= 1
    decreases |Listed(catalog, cursor, Everything)|
  {
    var batch := Batch(catalog, cursor, Everything, limit);
    match NextOf(batch, Everything, limit)
    case NoNext => [batch]
    case Next(id) =>
      NextPage(catalog, cursor, limit - 1);
      [batch] + Pages(catalog, AfterId(id), limit)
  }

  function Concat(pages: seq<Docs>): Docs {
    if pages == [] then [] else pages[0] + Concat(pages[1..])
  }

  lemma {:induction false} PagesCover(catalog: Docs, cursor: Cursor, limit: nat)
    requires Ordered(catalog) && limit >= 1
    ensures Concat(Pages(catalog, cursor, limit)) == Listed(catalog, cursor, Everything)
    decreases |Listed(catalog, cursor, Everything)|
  {
    var rows := Listed(catalog, cursor, Everything);
    var batch := Batch(catalog, cursor, Everything, limit);
    if |batch| == limit {
      NextPage(catalog, cursor, limit - 1);
      PagesCover(catalog, AfterId(batch[limit - 1].id), limit);
      assert rows == batch + rows[limit..];
    } else {
      assert [batch][1..] == [];
    }
  }

  lemma {:induction false} PagesCount(catalog: Docs, cursor: Cursor, limit: nat)
    requires Ordered(catalog) && limit >= 1
    ensures (|Pages(catalog, cursor, limit)| - 1) * limit <= |Listed(catalog, cursor, Everything)|
          < |Pages(catalog, cursor, limit)| * limit
    decreases |Listed(catalog, cursor, Everything)|
  {
    var batch := Batch(catalog, cursor, Everything, limit);
    if |batch| == limit {
      NextPage(catalog, cursor, limit - 1);
      PagesCount(catalog, AfterId(batch[limit - 1].id), limit);
      OneMorePage(|Pages(catalog, AfterId(batch[limit - 1].id), limit)|, limit);
    }
  }

  lemma OneMorePage(pages: int, limit: nat)
    ensures (pages + 1) * limit == pages * limit + limit && pages * limit == (pages - 1) * limit + limit
  {
  }

  /** From no cursor, every package is listed exactly once and in id order, in floor(|catalog| / limit) + 1 runs. */
  lemma EveryPackageOnce(catalog: Docs, limit: nat)
    requires Ordered(catalog) && limit >= 1
    ensures Concat(Pages(catalog, Start, limit)) == catalog
    ensures (|Pages(catalog, Start, limit)| - 1) * limit <= |catalog| < |Pages(catalog, Start, limit)| * limit
  {
    PagesCover(catalog, Start, limit);
    PagesCount(catalog, Start, limit);
    FilterAll(Beyond(Start), catalog);
  }

  // ---- A whole apply pass ----

  /** Apply runs that follow next_cursor to the end, each with writes that succeed. */
  function Pass(catalog: Docs, store: Store, cursor: Cursor, limit: nat, hash: Hash): Store
    requires Ordered(catalog) && limit >= 1
    decreases |Listed(catalog, cursor, Everything)|
  {
    var after := RunOn(catalog, store, Apply, cursor, Everything, limit, NoFault, hash).0;
    match NextOf(Batch(catalog, cursor, Everything, limit), Everything, limit)
    case NoNext => after
    case Next(id) =>
      NextPage(catalog, cursor, limit - 1);
      Pass(catalog, after, AfterId(id), limit, hash)
  }

  function Upserts(catalog: Docs, store: Store, cursor: Cursor, limit: nat, hash: Hash): nat
    requires Ordered(catalog) && limit >= 1
    decreases |Listed(catalog, cursor, Everything)|
  {
    var (after, reply) := RunOn(catalog, store, Apply, cursor, Everything, limit, NoFault, hash);
    var count := if reply.Completed? then reply.counts.upserted else 0;
    match NextOf(Batch(catalog, cursor, Everything, limit), Everything, limit)
    case NoNext => count
    case Next(id) =>
      NextPage(catalog, cursor, limit - 1);
      count + Upserts(catalog, after, AfterId(id), limit, hash)
  }

  ghost predicate Has(docs: Docs, id: Text) {
    exists i :: 0 <= i < |docs| && docs[i].id == id
  }

  lemma OrderedIdsDiffer(docs: Docs, i: nat, j: nat)
    requires Ordered(docs) && i < |docs| && j < |docs|
    ensures docs[i].id == docs[j].id ==> i == j
  {
  }

  lemma {:induction false} WritesAt(store: Store, docs: Docs, hash: Hash, id: Text)
    requires Ordered(docs)
    ensures var index, state := IndexWith(store.index, docs), StateWith(store.state, docs, hash);
            && (!Has(docs, id) ==> (id in index <==> id in store.index) && (id in index ==> index[id] == store.index[id]))
            && (!Has(docs, id) ==> (id in state <==> id in store.state) && (id in state ==> state[id] == store.state[id]))
            && forall i :: 0 <= i < |docs| && docs[i].id == id ==>
                 id in index && index[id] == docs[i] && id in state && state[id] == hash(docs[i])
  {
    if docs != [] {
      var n := |docs| - 1;
      WritesAt(store, docs[..n], hash, id);
      if Has(docs[..n], id) {
        var i :| 0 <= i < n && docs[..n][i].id == id;
        assert docs[i].id == id;
      }
      forall i | 0 <= i < |docs| && docs[i].id == id ensures i < n ==> docs[..n][i].id == id && docs[n].id != id {
        if docs[n].id == id {
          OrderedIdsDiffer(docs, i, n);
        }
      }
    }
  }

  /** What one write run, or a whole pass, over the rows leaves for the package with one id. */
  ghost predicate Synced(before: Store, after: Store, rows: Docs, hash: Hash, id: Text) {
    && (!Has(rows, id) ==>
          && (id in after.index <==> id in before.index) && (id in after.index ==> after.index[id] == before.index[id])
          && (id in after.state <==> id in before.state) && (id in after.state ==> after.state[id] == before.state[id]))
    && forall i :: 0 <= i < |rows| && rows[i].id == id ==>
         && id in after.state && after.state[id] == hash(rows[i])
         && (if Known(before.state, hash, rows[i]) then
               (id in after.index <==> id in before.index) && (id in after.index ==> after.index[id] == before.index[id])
             else id in after.index && after.index[id] == rows[i])
  }

  lemma RunSyncs(before: Store, rows: Docs, hash: Hash, id: Text)
    requires Ordered(rows)
    ensures Synced(before, Written(before, rows, hash), rows, hash, id)
  {
    var unknown := (d: Document) => !Known(before.state, hash, d);
    var changed := Changed(rows, before.state, hash);
    FilterOrdered(unknown, rows);
    WritesAt(before, changed, hash, id);
    forall i | 0 <= i < |changed| ensures Has(rows, changed[i].id) {
      assert changed[i] in rows;
      var j :| 0 <= j < |rows| && rows[j] == changed[i];
      assert rows[j].id == changed[i].id;
    }
    forall i | 0 <= i < |rows| && rows[i].id == id ensures !Known(before.state, hash, rows[i]) ==> Has(changed, id)
    ensures Known(before.state, hash, rows[i]) ==> !Has(changed, id) {
      if !Known(before.state, hash, rows[i]) {
        assert rows[i] in changed;
        var j :| 0 <= j < |changed| && changed[j] == rows[i];
        assert changed[j].id == id;
      } else if Has(changed, id) {
        var j :| 0 <= j < |changed| && changed[j].id == id;
        assert changed[j] in rows;
        var k :| 0 <= k < |rows| && rows[k] == changed[j];
        OrderedIdsDiffer(rows, i, k);
      }
    }
    forall j | 0 <= j < |changed| && changed[j].id == id
      ensures forall i :: 0 <= i < |rows| && rows[i].id == id ==> rows[i] == changed[j]
    {
      assert changed[j] in rows;
      var k :| 0 <= k < |rows| && rows[k] == changed[j];
      forall i | 0 <= i < |rows| && rows[i].id == id ensures rows[i] == changed[j] {
        OrderedIdsDiffer(rows, i, k);
      }
    }
  }

  /** The store after an apply run over a batch whose writes succeed. */
  function Written(store: Store, batch: Docs, hash: Hash): Store {
    var changed := Changed(batch, store.state, hash);
    Store(IndexWith(store.index, changed), StateWith(store.state, changed, hash))
  }

  lemma SyncedInTwo(a: Store, b: Store, c: Store, rows: Docs, k: nat, hash: Hash, id: Text)
    requires Ordered(rows) && k <= |rows|
    requires Synced(a, b, rows[..k], hash, id) && Synced(b, c, rows[k..], hash, id)
    ensures Synced(a, c, rows, hash, id)
  {
  }

  /** A pass over the rows that are left, without the cursors. */
  function PassRows(rows: Docs, store: Store, limit: nat, hash: Hash): Store
    requires limit >= 1
    decreases |rows|
  {
    var after := Written(store, rows[..Min(limit, |rows|)], hash);
    if |rows| >= limit then PassRows(rows[limit..], after, limit, hash) else after
  }

  lemma PassStep(catalog: Docs, store: Store, cursor: Cursor, limit: nat, hash: Hash)
    requires Ordered(catalog) && limit >= 1
    ensures var batch := Batch(catalog, cursor, Everything, limit);
            var after := Written(store, batch, hash);
            Pass(catalog, store, cursor, limit, hash)
            == if |batch| == limit then Pass(catalog, after, AfterId(batch[limit - 1].id), limit, hash) else after
  {
  }

  /** The batch of a run and the rows listed after it. */
  lemma NextRows(catalog: Docs, cursor: Cursor, limit: nat, rows: Docs)
    requires Ordered(catalog) && limit >= 1 && rows == Listed(catalog, cursor, Everything)
    ensures Batch(catalog, cursor, Everything, limit) == rows[..Min(limit, |rows|)]
    ensures |rows| >= limit ==> Listed(catalog, AfterId(rows[..limit][limit - 1].id), Everything) == rows[limit..]
  {
    if |rows| >= limit {
      NextPage(catalog, cursor, limit - 1);
    }
  }

  lemma {:induction false} PassWithoutCursors(catalog: Docs, store: Store, cursor: Cursor, limit: nat, hash: Hash,
                                              rows: Docs)
    requires Ordered(catalog) && limit >= 1 && rows == Listed(catalog, cursor, Everything)
    ensures Pass(catalog, store, cursor, limit, hash) == PassRows(rows, store, limit, hash)
    decreases |rows|
  {
    var batch := rows[..Min(limit, |rows|)];
    NextRows(catalog, cursor, limit, rows);
    PassStep(catalog, store, cursor, limit, hash);
    if |rows| >= limit {
      PassWithoutCursors(catalog, Written(store, batch, hash), AfterId(batch[limit - 1].id), limit, hash, rows[limit..]);
    }
  }

  lemma {:induction false} PassRowsSync(rows: Docs, store: Store, limit: nat, hash: Hash, id: Text)
    requires Ordered(rows) && limit >= 1
    ensures Synced(store, PassRows(rows, store, limit, hash), rows, hash, id)
    decreases |rows|
  {
    var k := Min(limit, |rows|);
    var after := Written(store, rows[..k], hash);
    RunSyncs(store, rows[..k], hash, id);
    if |rows| >= limit {
      PassRowsSync(rows[limit..], after, limit, hash, id);
      SyncedInTwo(store, after, PassRows(rows, store, limit, hash), rows, limit, hash, id);
    } else {
      assert rows[..k] == rows;
    }
  }

  lemma PassSyncs(catalog: Docs, store: Store, cursor: Cursor, limit: nat, hash: Hash, id: Text)
    requires Ordered(catalog) && limit >= 1
    ensures Synced(store, Pass(catalog, store, cursor, limit, hash), Listed(catalog, cursor, Everything), hash, id)
  {
    FilterOrdered(Beyond(cursor), catalog);
    PassWithoutCursors(catalog, store, cursor, limit, hash, Listed(catalog, cursor, Everything));
    PassRowsSync(Listed(catalog, cursor, Everything), store, limit, hash, id);
  }

  predicate IndexAgrees(store: Store, d: Document) {
    d.id in store.index && store.index[d.id] == d
  }

  predicate StateAgrees(store: Store, d: Document, hash: Hash) {
    d.id in store.state && store.state[d.id] == hash(d)
  }

  /**
   * After a full apply pass the state table agrees with every package. The index agrees with a package exactly when
   * it did before the pass or the state table did not already know the package's hash.
   */
  lemma PassAgreesIff(catalog: Docs, store: Store, limit: nat, hash: Hash, i: nat)
    requires Ordered(catalog) && limit >= 1 && i < |catalog|
    ensures StateAgrees(Pass(catalog, store, Start, limit, hash), catalog[i], hash)
    ensures IndexAgrees(Pass(catalog, store, Start, limit, hash), catalog[i])
        <==> IndexAgrees(store, catalog[i]) || !Known(store.state, hash, catalog[i])
  {
    PassSyncs(catalog, store, Start, limit, hash, catalog[i].id);
    FilterAll(Beyond(Start), catalog);
  }

  // ---- Failures in between ----

  /** Wherever the state table knows a package's present hash, the index holds its present document. */
  ghost predicate Trustworthy(store: Store, catalog: Docs, hash: Hash) {
    forall i :: 0 <= i < |catalog| && StateAgrees(store, catalog[i], hash) ==> IndexAgrees(store, catalog[i])
  }

  lemma {:induction false} IndexWritesAgree(index: map<Text, Document>, docs: Docs, catalog: Docs, i: nat)
    requires Ordered(catalog) && i < |catalog|
    requires forall j :: 0 <= j < |docs| ==> docs[j] in catalog
    ensures var after := IndexWith(index, docs);
            && (catalog[i] in docs ==> catalog[i].id in after && after[catalog[i].id] == catalog[i])
            && (catalog[i].id in index && index[catalog[i].id] == catalog[i] ==>
                  catalog[i].id in after && after[catalog[i].id] == catalog[i])
  {
    if docs != [] {
      var n := |docs| - 1;
      assert docs[..n] + [docs[n]] == docs;
      IndexWritesAgree(index, docs[..n], catalog, i);
      assert docs[n] in catalog;
      var k :| 0 <= k < |catalog| && catalog[k] == docs[n];
      if docs[n].id == catalog[i].id {
        OrderedIdsDiffer(catalog, i, k);
      }
    }
  }

  lemma {:induction false} StateWritesOnly(state: map<Text, Text>, docs: Docs, hash: Hash, catalog: Docs, i: nat)
    requires Ordered(catalog) && i < |catalog|
    requires forall j :: 0 <= j < |docs| ==> docs[j] in catalog
    ensures var after := StateWith(state, docs, hash);
            catalog[i] !in docs ==>
              (catalog[i].id in after <==> catalog[i].id in state)
              && (catalog[i].id in after ==> after[catalog[i].id] == state[catalog[i].id])
  {
    if docs != [] {
      var n := |docs| - 1;
      assert docs[..n] + [docs[n]] == docs;
      StateWritesOnly(state, docs[..n], hash, catalog, i);
      assert docs[n] in catalog;
      var k :| 0 <= k < |catalog| && catalog[k] == docs[n];
      if docs[n].id == catalog[i].id {
        OrderedIdsDiffer(catalog, i, k);
      }
    }
  }

  /** Over a fixed catalog a run keeps the store trustworthy, whatever its mode, selection and fault. */
  lemma RunKeepsTrust(catalog: Docs, store: Store, mode: Mode, cursor: Cursor, selection: Selection, limit: nat,
                      fault: Fault, hash: Hash)
    requires Ordered(catalog) && Trustworthy(store, catalog, hash)
    ensures Trustworthy(RunOn(catalog, store, mode, cursor, selection, limit, fault, hash).0, catalog, hash)
  {
    var after := RunOn(catalog, store, mode, cursor, selection, limit, fault, hash).0;
    var batch := Batch(catalog, cursor, selection, limit);
    var changed := Changed(batch, store.state, hash);
    forall d | d in changed ensures d in catalog {
      assert d in Listed(catalog, cursor, selection);
    }
    if mode.Apply? && changed != [] {
      var indexed := if fault.IndexFails? then Filter(fault.written, changed) else changed;
      var stated := if fault.IndexFails? then [] else if fault.StateFails? then changed[..Min(fault.rows, |changed|)] else changed;
      assert after == Store(IndexWith(store.index, indexed), StateWith(store.state, stated, hash));
      WritesKeepTrust(catalog, store, indexed, stated, hash);
    }
  }

  /** Writes of present documents, no hash without its document, keep the store trustworthy. */
  lemma WritesKeepTrust(catalog: Docs, store: Store, indexed: Docs, stated: Docs, hash: Hash)
    requires Ordered(catalog) && Trustworthy(store, catalog, hash)
    requires (forall d :: d in indexed ==> d in catalog) && forall d :: d in stated ==> d in indexed
    ensures Trustworthy(Store(IndexWith(store.index, indexed), StateWith(store.state, stated, hash)), catalog, hash)
  {
    var after := Store(IndexWith(store.index, indexed), StateWith(store.state, stated, hash));
    assert forall j :: 0 <= j < |indexed| ==> indexed[j] in indexed;
    assert forall j :: 0 <= j < |stated| ==> stated[j] in stated;
    forall i | 0 <= i < |catalog| && StateAgrees(after, catalog[i], hash) ensures IndexAgrees(after, catalog[i]) {
      IndexWritesAgree(store.index, indexed, catalog, i);
      StateWritesOnly(store.state, stated, hash, catalog, i);
    }
  }

  datatype Request = Request(mode: Mode, cursor: Cursor, selection: Selection, limit: nat, fault: Fault)

  function AfterRuns(catalog: Docs, store: Store, runs: seq<Request>, hash: Hash): Store
    decreases |runs|
  {
    if runs == [] then store
    else
      var r := runs[0];
      AfterRuns(catalog, RunOn(catalog, store, r.mode, r.cursor, r.selection, r.limit, r.fault, hash).0, runs[1..], hash)
  }

  lemma {:induction false} RunsKeepTrust(catalog: Docs, store: Store, runs: seq<Request>, hash: Hash)
    requires Ordered(catalog) && Trustworthy(store, catalog, hash)
    ensures Trustworthy(AfterRuns(catalog, store, runs, hash), catalog, hash)
    decreases |runs|
  {
    if runs != [] {
      var r := runs[0];
      RunKeepsTrust(catalog, store, r.mode, r.cursor, r.selection, r.limit, r.fault, hash);
      RunsKeepTrust(catalog, RunOn(catalog, store, r.mode, r.cursor, r.selection, r.limit, r.fault, hash).0, runs[1..], hash);
    }
  }

  /**
   * From an empty store, and over a catalog that does not change meanwhile: after any runs, with any failures, one
   * full apply pass leaves index and state table in agreement with every package.
   */
  lemma PassRepairs(catalog: Docs, runs: seq<Request>, limit: nat, hash: Hash, i: nat)
    requires Ordered(catalog) && limit >= 1 && i < |catalog|
    ensures var store := Pass(catalog, AfterRuns(catalog, Store(map[], map[]), runs, hash), Start, limit, hash);
            IndexAgrees(store, catalog[i]) && StateAgrees(store, catalog[i], hash)
  {
    var before := AfterRuns(catalog, Store(map[], map[]), runs, hash);
    RunsKeepTrust(catalog, Store(map[], map[]), runs, hash);
    PassAgreesIff(catalog, before, limit, hash, i);
    assert Known(before.state, hash, catalog[i]) ==> StateAgrees(before, catalog[i], hash);
  }

  /**
   * When the catalog does change this fails: the state write of a new version breaks down, the package goes back
   * to its old version, and every later pass takes the stale index entry for current.
   */
  lemma RevertLeavesIndexStale(v1: Document, v2: Document, limit: nat, hash: Hash)
    requires IsUuid(v1.id) && v2.id == v1.id && hash(v1) != hash(v2) && limit >= 1
    ensures var first := Pass([v1], Store(map[], map[]), Start, limit, hash);
            var broken := RunOn([v2], first, Apply, Start, Everything, limit, StateFails(0), hash).0;
            var last := Pass([v1], broken, Start, limit, hash);
            StateAgrees(last, v1, hash) && !IndexAgrees(last, v1)
  {
    var first := Pass([v1], Store(map[], map[]), Start, limit, hash);
    PassAgreesIff([v1], Store(map[], map[]), limit, hash, 0);
    var rows := Batch([v2], Start, Everything, limit);
    FilterAll(Beyond(Start), [v2]);
    assert rows == [v2];
    var changed := Changed(rows, first.state, hash);
    assert !Known(first.state, hash, v2);
    FilterAll((d: Document) => !Known(first.state, hash, d), rows);
    assert changed == [v2];
    var broken := RunOn([v2], first, Apply, Start, Everything, limit, StateFails(0), hash).0;
    assert changed[..Min(0, |changed|)] == [];
    assert IndexWith(first.index, [v2]) == first.index[v2.id := v2] by {
      assert [v2][..0] == [];
    }
    assert broken == Store(first.index[v2.id := v2], first.state);
    PassAgreesIff([v1], broken, limit, hash, 0);
  }

  // ---- Second passes and dry runs ----

  function UpsertsOfRows(rows: Docs, store: Store, limit: nat, hash: Hash): nat
    requires limit >= 1
    decreases |rows|
  {
    var batch := rows[..Min(limit, |rows|)];
    |Changed(batch, store.state, hash)|
    + if |rows| >= limit then UpsertsOfRows(rows[limit..], Written(store, batch, hash), limit, hash) else 0
  }

  lemma UpsertsStep(catalog: Docs, store: Store, cursor: Cursor, limit: nat, hash: Hash)
    requires Ordered(catalog) && limit >= 1
    ensures var batch := Batch(catalog, cursor, Everything, limit);
            Upserts(catalog, store, cursor, limit, hash)
            == |Changed(batch, store.state, hash)|
               + if |batch| == limit then Upserts(catalog, Written(store, batch, hash), AfterId(batch[limit - 1].id), limit, hash) else 0
  {
  }

  lemma {:induction false} UpsertsWithoutCursors(catalog: Docs, store: Store, cursor: Cursor, limit: nat, hash: Hash,
                                                 rows: Docs)
    requires Ordered(catalog) && limit >= 1 && rows == Listed(catalog, cursor, Everything)
    ensures Upserts(catalog, store, cursor, limit, hash) == UpsertsOfRows(rows, store, limit, hash)
    decreases |rows|
  {
    var batch := rows[..Min(limit, |rows|)];
    NextRows(catalog, cursor, limit, rows);
    UpsertsStep(catalog, store, cursor, limit, hash);
    if |rows| >= limit {
      UpsertsWithoutCursors(catalog, Written(store, batch, hash), AfterId(batch[limit - 1].id), limit, hash, rows[limit..]);
    }
  }

  lemma {:induction false} UpsertsOfRowsAreChanged(rows: Docs, store: Store, limit: nat, hash: Hash)
    requires Ordered(rows) && limit >= 1
    ensures UpsertsOfRows(rows, store, limit, hash) == |Changed(rows, store.state, hash)|
    decreases |rows|
  {
    if |rows| >= limit {
      UpsertsOfRowsAreChanged(rows[limit..], Written(store, rows[..limit], hash), limit, hash);
      SplitChanged(store, rows, limit, hash);
    } else {
      assert rows[..Min(limit, |rows|)] == rows;
    }
  }

  /** A pass writes the documents that were changed when it began. */
  lemma UpsertsAreChanged(catalog: Docs, store: Store, cursor: Cursor, limit: nat, hash: Hash)
    requires Ordered(catalog) && limit >= 1
    ensures Upserts(catalog, store, cursor, limit, hash)
         == |Changed(Listed(catalog, cursor, Everything), store.state, hash)|
  {
    FilterOrdered(Beyond(cursor), catalog);
    UpsertsWithoutCursors(catalog, store, cursor, limit, hash, Listed(catalog, cursor, Everything));
    UpsertsOfRowsAreChanged(Listed(catalog, cursor, Everything), store, limit, hash);
  }

  lemma SplitChanged(store: Store, rows: Docs, k: nat, hash: Hash)
    requires Ordered(rows) && k <= |rows|
    ensures |Changed(rows, store.state, hash)|
         == |Changed(rows[..k], store.state, hash)| + |Changed(rows[k..], Written(store, rows[..k], hash).state, hash)|
  {
    assert rows == rows[..k] + rows[k..];
    FilterConcat((d: Document) => !Known(store.state, hash, d), rows[..k], rows[k..]);
    LaterRowsStillChanged(store, rows, k, hash);
  }

  /** Writing the first rows does not change which of the later rows are known. */
  lemma LaterRowsStillChanged(store: Store, rows: Docs, k: nat, hash: Hash)
    requires Ordered(rows) && k <= |rows|
    ensures var state := StateWith(store.state, Changed(rows[..k], store.state, hash), hash);
            Changed(rows[k..], state, hash) == Changed(rows[k..], store.state, hash)
  {
    LaterRowsStillKnown(store, rows, k, hash);
    var state := Written(store, rows[..k], hash).state;
    FilterSame((d: Document) => !Known(state, hash, d), (d: Document) => !Known(store.state, hash, d), rows[k..]);
  }

  lemma LaterRowsStillKnown(store: Store, rows: Docs, k: nat, hash: Hash)
    requires Ordered(rows) && k <= |rows|
    ensures SameKnown(Written(store, rows[..k], hash), store, rows[k..], hash)
  {
    var changed := Changed(rows[..k], store.state, hash);
    var state := StateWith(store.state, changed, hash);
    FilterOrdered((d: Document) => !Known(store.state, hash, d), rows[..k]);
    forall i | 0 <= i < |rows[k..]| ensures Known(state, hash, rows[k..][i]) <==> Known(store.state, hash, rows[k..][i]) {
      var id := rows[k..][i].id;
      WritesAt(store, changed, hash, id);
      forall j | 0 <= j < |changed| ensures changed[j].id != id {
        assert changed[j] in rows[..k];
        var m :| 0 <= m < k && rows[..k][m] == changed[j];
        OrderedIdsDiffer(rows, m, k + i);
      }
    }
  }

  /** The two stores take the same rows for known. */
  ghost predicate SameKnown(a: Store, b: Store, rows: Docs, hash: Hash) {
    forall i :: 0 <= i < |rows| ==> (Known(a.state, hash, rows[i]) <==> Known(b.state, hash, rows[i]))
  }

  /** A second pass upserts exactly the packages whose ids isUuid does not recognise, so none iff there are none. */
  lemma SecondPassUpserts(catalog: Docs, store: Store, limit: nat, hash: Hash)
    requires Ordered(catalog) && limit >= 1
    ensures var once := Pass(catalog, store, Start, limit, hash);
            && Upserts(catalog, once, Start, limit, hash) == |Filter((d: Document) => !IsUuid(d.id), catalog)|
            && (Upserts(catalog, once, Start, limit, hash) == 0 <==> forall i :: 0 <= i < |catalog| ==> IsUuid(catalog[i].id))
  {
    var once := Pass(catalog, store, Start, limit, hash);
    var odd := (d: Document) => !IsUuid(d.id);
    UpsertsAreChanged(catalog, once, Start, limit, hash);
    FilterAll(Beyond(Start), catalog);
    forall i | 0 <= i < |catalog| ensures Known(once.state, hash, catalog[i]) <==> IsUuid(catalog[i].id) {
      PassAgreesIff(catalog, store, limit, hash, i);
    }
    FilterSame((d: Document) => !Known(once.state, hash, d), odd, catalog);
    if Filter(odd, catalog) == [] {
      forall i | 0 <= i < |catalog| ensures IsUuid(catalog[i].id) {
        assert catalog[i] in catalog && catalog[i] !in Filter(odd, catalog);
      }
    }
    if forall i :: 0 <= i < |catalog| ==> IsUuid(catalog[i].id) {
      FilterNone(odd, catalog);
    }
  }

  /** A dry run changes nothing and reports the counts an apply run would, its writes aside. */
  lemma DryRunForetells(catalog: Docs, store: Store, cursor: Cursor, selection: Selection, limit: nat, fault: Fault,
                        hash: Hash)
    ensures var (after, reply) := RunOn(catalog, store, DryRun, cursor, selection, limit, fault, hash);
            var applied := RunOn(catalog, store, Apply, cursor, selection, limit, NoFault, hash).1;
            && after == store
            && reply.Completed? && applied.Completed?
            && reply.counts == applied.counts.(upserted := 0, persisted := 0)
            && applied.counts.upserted == applied.counts.candidates - applied.counts.unchangedCount == applied.counts.persisted
  {
  }

  // ---- A whole dry pass ----

  function CountsOf(store: Store, mode: Mode, batch: Docs, limit: nat, hash: Hash): Counts {
    var changed := |Changed(batch, store.state, hash)|;
    var writes := if mode.DryRun? then 0 else changed;
    Counts(|batch|, |batch| - changed, writes, writes, NextOf(batch, Everything, limit))
  }

  /** The counts reported by the runs that follow next_cursor to the end, with writes that succeed. */
  function Reports(catalog: Docs, store: Store, mode: Mode, cursor: Cursor, limit: nat, hash: Hash): seq<Counts>
    requires Ordered(catalog) && limit >= 1
    decreases |Listed(catalog, cursor, Everything)|
  {
    var (after, reply) := RunOn(catalog, store, mode, cursor, Everything, limit, NoFault, hash);
    var here := if reply.Completed? then [reply.counts] else [];
    match NextOf(Batch(catalog, cursor, Everything, limit), Everything, limit)
    case NoNext => here
    case Next(id) =>
      NextPage(catalog, cursor, limit - 1);
      here + Reports(catalog, after, mode, AfterId(id), limit, hash)
  }

  lemma ReportsStep(catalog: Docs, store: Store, mode: Mode, cursor: Cursor, limit: nat, hash: Hash)
    requires Ordered(catalog) && limit >= 1
    ensures var batch := Batch(catalog, cursor, Everything, limit);
            var after := if mode.DryRun? then store else Written(store, batch, hash);
            Reports(catalog, store, mode, cursor, limit, hash)
            == [CountsOf(store, mode, batch, limit, hash)]
               + if |batch| == limit then Reports(catalog, after, mode, AfterId(batch[limit - 1].id), limit, hash) else []
  {
  }

  /** The store after one run over a batch. */
  function Ran(store: Store, mode: Mode, batch: Docs, hash: Hash): Store {
    if mode.DryRun? then store else Written(store, batch, hash)
  }

  /** The reports over the rows that are left, without the cursors. */
  function ReportsOfRows(rows: Docs, store: Store, mode: Mode, limit: nat, hash: Hash): seq<Counts>
    requires limit >= 1
    decreases |rows|
  {
    var batch := rows[..Min(limit, |rows|)];
    [CountsOf(store, mode, batch, limit, hash)]
    + if |rows| >= limit then ReportsOfRows(rows[limit..], Ran(store, mode, batch, hash), mode, limit, hash) else []
  }

  lemma {:induction false} ReportsWithoutCursors(catalog: Docs, store: Store, mode: Mode, cursor: Cursor, limit: nat, hash: Hash,
                                                 rows: Docs)
    requires Ordered(catalog) && limit >= 1 && rows == Listed(catalog, cursor, Everything)
    ensures Reports(catalog, store, mode, cursor, limit, hash) == ReportsOfRows(rows, store, mode, limit, hash)
    decreases |rows|
  {
    var batch := rows[..Min(limit, |rows|)];
    NextRows(catalog, cursor, limit, rows);
    ReportsStep(catalog, store, mode, cursor, limit, hash);
    if |rows| >= limit {
      ReportsWithoutCursors(catalog, Ran(store, mode, batch, hash), mode, AfterId(batch[limit - 1].id), limit, hash, rows[limit..]);
    }
  }

  function WithoutWrites(reports: seq<Counts>): seq<Counts> {
    seq(|reports|, i requires 0 <= i < |reports| => reports[i].(upserted := 0, persisted := 0))
  }

  lemma WithoutWritesConcat(first: Counts, rest: seq<Counts>)
    ensures WithoutWrites([first] + rest) == [first.(upserted := 0, persisted := 0)] + WithoutWrites(rest)
  {
  }

  lemma SameKnownCounts(dry: Store, live: Store, rows: Docs, k: nat, limit: nat, hash: Hash)
    requires SameKnown(dry, live, rows, hash) && k <= |rows|
    ensures CountsOf(dry, DryRun, rows[..k], limit, hash)
         == CountsOf(live, Apply, rows[..k], limit, hash).(upserted := 0, persisted := 0)
  {
    FilterSame((d: Document) => !Known(dry.state, hash, d), (d: Document) => !Known(live.state, hash, d), rows[..k]);
  }

  lemma SameKnownAfter(dry: Store, live: Store, rows: Docs, k: nat, hash: Hash)
    requires Ordered(rows) && SameKnown(dry, live, rows, hash) && k <= |rows|
    ensures SameKnown(dry, Written(live, rows[..k], hash), rows[k..], hash)
  {
    LaterRowsStillKnown(live, rows, k, hash);
    forall i | 0 <= i < |rows[k..]| ensures Known(dry.state, hash, rows[k..][i]) <==> Known(live.state, hash, rows[k..][i]) {
      assert rows[k..][i] == rows[k + i];
    }
  }

  /** From stores that know the same of the rows still to come, dry runs report what apply runs do. */
  lemma {:induction false} DryRunsForetell(dry: Store, live: Store, limit: nat, hash: Hash, rows: Docs)
    requires Ordered(rows) && limit >= 1 && SameKnown(dry, live, rows, hash)
    ensures ReportsOfRows(rows, dry, DryRun, limit, hash) == WithoutWrites(ReportsOfRows(rows, live, Apply, limit, hash))
    decreases |rows|
  {
    var k := Min(limit, |rows|);
    SameKnownCounts(dry, live, rows, k, limit, hash);
    var first := CountsOf(live, Apply, rows[..k], limit, hash);
    if |rows| >= limit {
      SameKnownAfter(dry, live, rows, limit, hash);
      DryRunsForetell(dry, Written(live, rows[..limit], hash), limit, hash, rows[limit..]);
      WithoutWritesConcat(first, ReportsOfRows(rows[limit..], Written(live, rows[..limit], hash), Apply, limit, hash));
    } else {
      WithoutWritesConcat(first, []);
    }
  }

  /** A dry pass over all pages foretells every report of the apply pass, its writes aside, though that pass writes meanwhile. */
  lemma DryPassForetells(catalog: Docs, store: Store, limit: nat, hash: Hash)
    requires Ordered(catalog) && limit >= 1
    ensures Reports(catalog, store, DryRun, Start, limit, hash)
         == WithoutWrites(Reports(catalog, store, Apply, Start, limit, hash))
  {
    var rows := Listed(catalog, Start, Everything);
    FilterOrdered(Beyond(Start), catalog);
    ReportsWithoutCursors(catalog, store, DryRun, Start, limit, hash, rows);
    ReportsWithoutCursors(catalog, store, Apply, Start, limit, hash, rows);
    DryRunsForetell(store, store, limit, hash, rows);
  }

  // ---- Chosen packages ----

  /** A list of package ids in which isUuid recognises none is taken for no list at all. */
  lemma UnrecognisedMeansEverything(values: seq<Text>)
    ensures NormalizePackageIds(values) == Everything <==> forall i :: 0 <= i < |values| ==> !IsUuid(Trim(values[i]))
  {
    var ids := set i | 0 <= i < |values| && IsUuid(Trim(values[i])) :: Lower(Trim(values[i]));
    forall i | 0 <= i < |values| && IsUuid(Trim(values[i])) ensures ids != {} {
      assert Lower(Trim(values[i])) in ids;
    }
  }

  /** A run for chosen packages gives no cursor, so it covers them all exactly when they fit one batch. */
  lemma ChosenCoveredIff(catalog: Docs, cursor: Cursor, ids: set<Text>, limit: nat)
    ensures NextOf(Batch(catalog, cursor, Chosen(ids), limit), Chosen(ids), limit) == NoNext
    ensures Batch(catalog, cursor, Chosen(ids), limit) == Listed(catalog, cursor, Chosen(ids))
        <==> |Listed(catalog, cursor, Chosen(ids))| <= limit
  {
  }
}
