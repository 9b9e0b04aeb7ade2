// What a Copilot scope file holds, and what reading, writing and removing one server entry does to it.
module ScopeFiles {
  import opened JsText
  import opened Sorting

  datatype Entry = Entry(packageId: Text, packageSlug: Text, trustState: Text)

  /** One element of the parsed "servers" array; a foreign one is dropped when the file is read. */
  datatype Item = Server(entry: Entry) | Foreign

  /** The parts of the parsed record that decide ownership (copilot-vscode-adapter/src/index.ts, lines 211-225). */
  datatype Header = Header(managedByForge: bool, schemaOne: bool, ownershipStamped: bool)

  datatype Content =
    | Absent
    | Blank
    | NotAnObject
    | Document(header: Header, servers: seq<Item>)

  /** The scope files by path. */
  type Files = map<Text, Content>

  function FileAt(files: Files, path: Text): Content {
    if path in files then files[path] else Absent
  }

  datatype AdapterError = ScopeNotDaemonOwned | ScopeReadInvalidJson

  datatype Result<T> = Ok(value: T) | Err(error: AdapterError)

  datatype ScopeState = ScopeState(exists_: bool, daemonOwned: bool, servers: seq<Entry>)

  const FORGE := Header(true, true, true)

  function EntriesOf(items: seq<Item>): (r: seq<Entry>)
    ensures |r| <= |items|
  {
    if items == [] then []
    else (if items[0].Server? then [items[0].entry] else []) + EntriesOf(items[1..])
  }

  function ItemsOf(entries: seq<Entry>): (r: seq<Item>)
    ensures |r| == |entries|
  {
    seq(|entries|, i requires 0 <= i < |entries| => Server(entries[i]))
  }

  /** copilot-vscode-adapter/src/index.ts, lines 227-303. */
  function ReadScopeFile(content: Content): Result<ScopeState> {
    match content
    case Absent => Ok(ScopeState(false, true, []))
    case Blank => Ok(ScopeState(true, true, []))
    case NotAnObject => Err(ScopeReadInvalidJson)
    case Document(header, servers) => Ok(ScopeState(true, header == FORGE, EntriesOf(servers)))
  }

  predicate ByPackageId(a: Entry, b: Entry) {
    TextLe(a.packageId, b.packageId)
  }

  function Others(entries: seq<Entry>, packageId: Text): seq<Entry> {
    Filter((e: Entry) => e.packageId != packageId, entries)
  }

  function ForgeFile(entries: seq<Entry>): Content {
    Document(FORGE, ItemsOf(entries))
  }

  /** Lines 515-531 there: the content that writing an entry commits, or the error that leaves the file alone. */
  function WriteEntry(content: Content, entry: Entry): Result<Content> {
    match ReadScopeFile(content)
    case Err(e) => Err(e)
    case Ok(state) =>
      if !state.daemonOwned then Err(ScopeNotDaemonOwned)
      else Ok(ForgeFile(Sort(ByPackageId, Others(state.servers, entry.packageId) + [entry])))
  }

  /** Lines 539-557 there: removing rewrites the file only when it holds the package. */
  function RemoveEntry(content: Content, packageId: Text): Result<Content> {
    match ReadScopeFile(content)
    case Err(e) => Err(e)
    case Ok(state) =>
      if !state.exists_ then Ok(content)
      else if !state.daemonOwned then Err(ScopeNotDaemonOwned)
      else
        var remaining := Sort(ByPackageId, Others(state.servers, packageId));
        if |remaining| == |state.servers| then Ok(content) else Ok(ForgeFile(remaining))
  }

  datatype Request = Write(entry: Entry) | Remove(packageId: Text)
  {
    function Target(): Text {
      if Write? then entry.packageId else packageId
    }
  }

  function Effect(content: Content, request: Request): Result<Content> {
    if request.Write? then WriteEntry(content, request.entry) else RemoveEntry(content, request.packageId)
  }

  /** Owned by Forge, or free to be taken: exactly the contents that may be written. */
  predicate Mutable(content: Content) {
    content.Absent? || content.Blank? || (content.Document? && content.header == FORGE)
  }

  function Servers(content: Content): seq<Entry> {
    if content.Document? then EntriesOf(content.servers) else []
  }

  /** All entries of one package, in file order. */
  function EntriesFor(content: Content, packageId: Text): seq<Entry> {
    Filter((e: Entry) => e.packageId == packageId, Servers(content))
  }

  lemma {:induction false} EntriesOfItems(entries: seq<Entry>)
    ensures EntriesOf(ItemsOf(entries)) == entries
  {
    if entries != [] {
      EntriesOfItems(entries[1..]);
      assert ItemsOf(entries) == [Server(entries[0])] + ItemsOf(entries[1..]);
      assert entries == [entries[0]] + entries[1..];
    }
  }

  lemma SortedEntriesFor(entries: seq<Entry>, q: Text)
    ensures EntriesFor(ForgeFile(Sort(ByPackageId, entries)), q) == Filter((e: Entry) => e.packageId == q, entries)
  {
    EntriesOfItems(Sort(ByPackageId, entries));
    forall a: Entry, b: Entry | a.packageId == q && b.packageId == q ensures ByPackageId(a, b) {
      TextLeTotal(q, q);
    }
    SortStable(ByPackageId, entries, (e: Entry) => e.packageId == q);
  }

  /** A file is foreign when one of its three marks is missing. */
  ghost predicate IsForeign(content: Content) {
    match content
    case Document(header, _) => !header.managedByForge || !header.schemaOne || !header.ownershipStamped
    case _ => false
  }

  /** Both requests are refused, each with its own error, for a text that is no object and for a foreign file, and only then. */
  lemma RefusedIff(content: Content, request: Request)
    ensures Effect(content, request) == Err(ScopeReadInvalidJson) <==> content.NotAnObject?
    ensures Effect(content, request) == Err(ScopeNotDaemonOwned) <==> IsForeign(content)
    ensures Effect(content, request).Err? <==> content.NotAnObject? || IsForeign(content)
  {
  }

  /**
   * Writing succeeds exactly on mutable contents. It then leaves one entry for the target, the one
   * written, and every other package's entries as they were, in the same order.
   */
  lemma WriteEffect(content: Content, entry: Entry)
    ensures WriteEntry(content, entry).Ok? <==> Mutable(content)
    ensures WriteEntry(content, entry).Ok? ==>
              var next := WriteEntry(content, entry).value;
              && Mutable(next)
              && EntriesFor(next, entry.packageId) == [entry]
              && forall q :: q != entry.packageId ==> EntriesFor(next, q) == EntriesFor(content, q)
  {
    if Mutable(content) {
      var servers := Servers(content);
      var others := Others(servers, entry.packageId);
      forall q ensures EntriesFor(WriteEntry(content, entry).value, q)
                    == if q == entry.packageId then [entry] else EntriesFor(content, q) {
        var p := (e: Entry) => e.packageId == q;
        SortedEntriesFor(others + [entry], q);
        FilterConcat(p, others, [entry]);
        FilterFilter(p, (e: Entry) => e.packageId != entry.packageId, servers);
      }
    }
  }

  /** Removing: the target is gone, every other package's entries are as they were. */
  lemma RemoveEffect(content: Content, packageId: Text)
    ensures RemoveEntry(content, packageId).Ok? <==> Mutable(content)
    ensures RemoveEntry(content, packageId).Ok? ==>
              var next := RemoveEntry(content, packageId).value;
              && Mutable(next)
              && EntriesFor(next, packageId) == []
              && (forall q :: q != packageId ==> EntriesFor(next, q) == EntriesFor(content, q))
              && (EntriesFor(content, packageId) == [] ==> next == content)
  {
    if Mutable(content) && !content.Absent? {
      var servers := Servers(content);
      var keep := (e: Entry) => e.packageId != packageId;
      var others := Others(servers, packageId);
      FilterAll(keep, servers);
      var next := RemoveEntry(content, packageId).value;
      forall q ensures EntriesFor(next, q) == if q == packageId then [] else EntriesFor(content, q) {
        var p := (e: Entry) => e.packageId == q;
        SortedEntriesFor(others, q);
        FilterFilter(p, keep, servers);
        if q == packageId && others == servers {
          assert forall x :: x in servers ==> keep(x);
        }
      }
      if EntriesFor(content, packageId) == [] {
        forall x | x in servers ensures keep(x) {
          assert !keep(x) ==> x in EntriesFor(content, packageId);
        }
      }
    }
  }

  lemma ByPackageIdOrder()
    ensures TotalPreorder(ByPackageId)
  {
    forall a: Entry, b: Entry ensures ByPackageId(a, b) || ByPackageId(b, a) {
      TextLeTotal(a.packageId, b.packageId);
    }
    forall a: Entry, b: Entry, c: Entry | ByPackageId(a, b) && ByPackageId(b, c) ensures ByPackageId(a, c) {
      TextLeTransitive(a.packageId, b.packageId, c.packageId);
    }
  }

  /** Whatever a request rewrites is a Forge-owned file sorted by package id. */
  lemma RewrittenIsSorted(content: Content, request: Request)
    requires Effect(content, request).Ok? && Effect(content, request).value != content
    ensures Effect(content, request).value.Document? && Effect(content, request).value.header == FORGE
    ensures SortedBy(ByPackageId, Servers(Effect(content, request).value))
  {
    ByPackageIdOrder();
    var kept := Others(Servers(content), request.Target());
    var entries := Sort(ByPackageId, if request.Write? then kept + [request.entry] else kept);
    EntriesOfItems(entries);
    SortSorts(ByPackageId, if request.Write? then kept + [request.entry] else kept);
  }

  /** A request never touches another package's entries, and never a file that Forge does not own. */
  lemma EffectFrame(content: Content, request: Request)
    ensures Effect(content, request).Ok? <==> Mutable(content)
    ensures Effect(content, request).Ok? ==>
              && Mutable(Effect(content, request).value)
              && forall q :: q != request.Target() ==>
                   EntriesFor(Effect(content, request).value, q) == EntriesFor(content, q)
  {
    if request.Write? {
      WriteEffect(content, request.entry);
    } else {
      RemoveEffect(content, request.packageId);
    }
  }

  /** What a request leaves of one package's entries. */
  lemma EffectEntries(content: Content, request: Request, q: Text)
    ensures Effect(content, request).Ok? <==> Mutable(content)
    ensures Mutable(content) ==>
              var next := Effect(content, request).value;
              && Mutable(next)
              && EntriesFor(next, q) == if q != request.Target() then EntriesFor(content, q)
                                        else if request.Write? then [request.entry] else []
  {
    if request.Write? {
      WriteEffect(content, request.entry);
    } else {
      RemoveEffect(content, request.packageId);
    }
  }

  /** Removing what was just written restores every package's entries, except earlier ones of the target. */
  lemma RemoveUndoesWrite(content: Content, entry: Entry)
    requires Mutable(content)
    ensures var written := WriteEntry(content, entry).value;
            && RemoveEntry(written, entry.packageId).Ok?
            && var removed := RemoveEntry(written, entry.packageId).value;
            && EntriesFor(removed, entry.packageId) == []
            && forall q :: q != entry.packageId ==> EntriesFor(removed, q) == EntriesFor(content, q)
  {
    WriteEffect(content, entry);
    RemoveEffect(WriteEntry(content, entry).value, entry.packageId);
  }

  // ---- Reads that are misled ----

  /**
   * What a request does to a file when the access check of its read may fail: fileExists then answers that the
   * file is missing (lines 202-209 of the adapter), so a write starts from nothing and a removal has nothing to do.
   */
  function SeenEffect(content: Content, request: Request, misled: bool): Result<Content> {
    if !misled then Effect(content, request)
    else if request.Write? then WriteEntry(Absent, request.entry)
    else Ok(content)
  }

  /** The file has something to lose: it is not Forge's, or it holds another package's entries. */
  ghost predicate Precious(content: Content, packageId: Text) {
    !Mutable(content) || exists q :: q != packageId && EntriesFor(content, q) != []
  }

  /** The package's entries in a file are what the request asks for. */
  predicate Achieved(content: Content, request: Request) {
    EntriesFor(content, request.Target()) == if request.Write? then [request.entry] else []
  }

  /** A foreign or unreadable file stays as it is, and no other package's entries change. */
  ghost predicate Respects(before: Content, after: Content, packageId: Text) {
    && (if Mutable(before) then Mutable(after) else after == before)
    && forall q :: q != packageId ==> EntriesFor(after, q) == EntriesFor(before, q)
  }

  /** A misled write succeeds on every file and leaves the written entry alone in it. */
  lemma MisledWrite(content: Content, entry: Entry)
    ensures var r := SeenEffect(content, Write(entry), true);
            && r.Ok? && Mutable(r.value)
            && forall q :: EntriesFor(r.value, q) == if q == entry.packageId then [entry] else []
  {
    WriteEffect(Absent, entry);
  }

  /** With or without a misled read: when a request succeeds. */
  lemma SucceedsIff(content: Content, request: Request, misled: bool)
    ensures SeenEffect(content, request, misled).Ok? <==> misled || Mutable(content)
  {
    EffectFrame(content, request);
  }

  /** A request harms other packages or foreign files exactly when it is a misled write of a file with something to lose. */
  lemma RespectsIff(content: Content, request: Request, misled: bool)
    requires SeenEffect(content, request, misled).Ok?
    ensures Respects(content, SeenEffect(content, request, misled).value, request.Target())
       <==> !(misled && request.Write? && Precious(content, request.Target()))
    ensures Mutable(content) ==> Mutable(SeenEffect(content, request, misled).value)
  {
    EffectFrame(content, request);
    if misled && request.Write? {
      MisledWrite(content, request.entry);
    }
  }

  /** A request that succeeds fails to do its work exactly when it is a misled removal of a package that is there. */
  lemma AchievesIff(content: Content, request: Request, misled: bool)
    requires SeenEffect(content, request, misled).Ok?
    ensures Achieved(SeenEffect(content, request, misled).value, request)
       <==> !(misled && !request.Write? && EntriesFor(content, request.Target()) != [])
  {
    EffectEntries(content, request, request.Target());
    if misled && request.Write? {
      MisledWrite(content, request.entry);
    }
  }

  /** The read was truthful, or had nothing to miss: nothing a write would lose, nothing a removal should remove. */
  ghost predicate HarmlessRead(content: Content, request: Request, misled: bool) {
    misled ==>
      if request.Write? then !Precious(content, request.Target())
      else Mutable(content) ==> EntriesFor(content, request.Target()) == []
  }

  /** What a request promises of package q's entries. */
  function Wanted(content: Content, request: Request, q: Text): seq<Entry> {
    if q != request.Target() then EntriesFor(content, q) else if request.Write? then [request.entry] else []
  }

  /** A request does what it promises, and no more, exactly when its read is harmless. */
  lemma DoneAsWantedIff(content: Content, request: Request, misled: bool)
    requires Mutable(content)
    ensures SeenEffect(content, request, misled).Ok?
    ensures var after := SeenEffect(content, request, misled).value;
            && Mutable(after)
            && ((forall q :: EntriesFor(after, q) == Wanted(content, request, q)) <==> HarmlessRead(content, request, misled))
  {
    SucceedsIff(content, request, misled);
    RespectsIff(content, request, misled);
    AchievesIff(content, request, misled);
    var after, target := SeenEffect(content, request, misled).value, request.Target();
    assert Achieved(after, request) <==> EntriesFor(after, target) == Wanted(content, request, target);
    assert forall q :: q != target ==> Wanted(content, request, q) == EntriesFor(content, q);
  }

  // ---- What becomes of a file over many requests for one package ----

  /** Nothing another package has lost comes back, and a file that is Forge's stays so. */
  ghost predicate NeverRestored(a: Content, b: Content, packageId: Text) {
    (Mutable(a) ==> Mutable(b)) && forall q :: q != packageId && EntriesFor(a, q) == [] ==> EntriesFor(b, q) == []
  }

  /** A foreign file was taken over, or a package lost its entries. */
  ghost predicate Damaged(a: Content, b: Content, packageId: Text) {
    (!Mutable(a) && Mutable(b)) || exists q :: q != packageId && EntriesFor(a, q) != [] && EntriesFor(b, q) == []
  }

  /** From a to b by requests for a package; hit says that one of them was a misled write. */
  ghost predicate Fate(a: Content, b: Content, packageId: Text, hit: bool) {
    && NeverRestored(a, b, packageId)
    && if hit && Precious(a, packageId) then Damaged(a, b, packageId) else Respects(a, b, packageId)
  }

  lemma EffectFate(content: Content, request: Request, misled: bool)
    requires SeenEffect(content, request, misled).Ok?
    ensures Fate(content, SeenEffect(content, request, misled).value, request.Target(), misled && request.Write?)
  {
    RespectsIff(content, request, misled);
    if misled && request.Write? {
      MisledWrite(content, request.entry);
    }
  }

  /** Damage is for good, and harmless requests leave what there is to lose as it was. */
  lemma FateComposes(a: Content, b: Content, c: Content, packageId: Text, first: bool, second: bool)
    requires Fate(a, b, packageId, first) && Fate(b, c, packageId, second)
    ensures Fate(a, c, packageId, first || second)
  {
    if Respects(a, b, packageId) {
      assert Precious(a, packageId) <==> Precious(b, packageId);
    }
  }

  lemma FateDecides(a: Content, b: Content, packageId: Text, hit: bool)
    requires Fate(a, b, packageId, hit)
    ensures Respects(a, b, packageId) <==> !(hit && Precious(a, packageId))
  {
  }
}
