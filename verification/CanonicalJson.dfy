// stableCanonicalJson: the text that is hashed and signed, and what exactly it identifies.
module CanonicalJson {
  import opened JsText
  import opened Sorting
  import opened JsNumbers
  import opened JsonStrings

  /** A JavaScript value. Opaque stands for functions, symbols and bigints. Objects list their own entries in order. */
  datatype Value =
    | Undefined
    | Null
    | Bool(b: bool)
    | Num(n: Number)
    | Str(s: Text)
    | Arr(items: seq<Value>)
    | Obj(entries: seq<Entry>)
    | Opaque

  datatype Entry = Entry(key: Text, value: Value)

  /** NFC normalisation, and "a.localeCompare(b) <= 0". */
  datatype Locale = Locale(nfc: Text -> Text, le: (Text, Text) -> bool)

  const NULL: Text := [110, 117, 108, 108]
  const TRUE: Text := [116, 114, 117, 101]
  const FALSE: Text := [102, 97, 108, 115, 101]
  const COMMA: CodeUnit := 44
  const OPEN_ARRAY: CodeUnit := 91
  const CLOSE_ARRAY: CodeUnit := 93
  const OPEN_OBJECT: CodeUnit := 123
  const CLOSE_OBJECT: CodeUnit := 125

  function ByKey(loc: Locale): (Entry, Entry) -> bool {
    (a: Entry, b: Entry) => loc.le(a.key, b.key)
  }

  ghost function SortedEntries(loc: Locale, entries: seq<Entry>): (r: seq<Entry>)
    ensures forall e :: e in r ==> e in entries && !e.value.Undefined?
  {
    var defined := Filter((e: Entry) => !e.value.Undefined?, entries);
    SortPermutes(ByKey(loc), defined);
    Sort(ByKey(loc), defined)
  }

  // ---- The printer (security-governance/src/index.ts, lines 146-183) ----

  ghost function Canonical(loc: Locale, v: Value): Text
    decreases v, 0
  {
    match v
    case Null => NULL
    case Str(s) => QuotedBefore(loc.nfc(s), [])
    case Num(n) => if n.NaN? || n.Infinite? then NULL else NumberText(n)
    case Bool(b) => if b then TRUE else FALSE
    case Arr(items) => [OPEN_ARRAY] + CanonicalItems(loc, items, v) + [CLOSE_ARRAY]
    case Obj(entries) => [OPEN_OBJECT] + CanonicalEntries(loc, SortedEntries(loc, entries), v) + [CLOSE_OBJECT]
    case Undefined => NULL
    case Opaque => NULL
  }

  ghost function CanonicalItems(loc: Locale, items: seq<Value>, bound: Value): Text
    requires forall i :: 0 <= i < |items| ==> items[i] < bound
    decreases bound, 0, |items|
  {
    if items == [] then [] else
    var first := if items[0].Undefined? then NULL else Canonical(loc, items[0]);
    if |items| == 1 then first else first + [COMMA] + CanonicalItems(loc, items[1..], bound)
  }

  ghost function CanonicalEntries(loc: Locale, entries: seq<Entry>, bound: Value): Text
    requires forall i :: 0 <= i < |entries| ==> entries[i].value < bound
    decreases bound, 0, |entries|
  {
    if entries == [] then [] else
    var first := QuotedBefore(loc.nfc(entries[0].key), []) + [COLON] + Canonical(loc, entries[0].value);
    if |entries| == 1 then first else first + [COMMA] + CanonicalEntries(loc, entries[1..], bound)
  }

  // ---- Normal forms ----

  type Numeral = n: Number | n.Finite? || n == Zero(false) witness Zero(false)

  datatype Tree =
    | TNull
    | TBool(b: bool)
    | TNumber(n: Numeral)
    | TString(s: Text)
    | TArray(items: seq<Tree>)
    | TObject(members: seq<Member>)

  datatype Member = Member(key: Text, value: Tree)

  ghost function Norm(loc: Locale, v: Value): Tree
    decreases v, 0
  {
    match v
    case Str(s) => TString(loc.nfc(s))
    case Num(n) => if n.NaN? || n.Infinite? then TNull else TNumber(PositiveZero(n))
    case Bool(b) => TBool(b)
    case Arr(items) => TArray(NormItems(loc, items, v))
    case Obj(entries) => TObject(NormEntries(loc, SortedEntries(loc, entries), v))
    case _ => TNull
  }

  ghost function NormItems(loc: Locale, items: seq<Value>, bound: Value): seq<Tree>
    requires forall i :: 0 <= i < |items| ==> items[i] < bound
    decreases bound, 0, |items|
  {
    if items == [] then [] else [Norm(loc, items[0])] + NormItems(loc, items[1..], bound)
  }

  ghost function NormEntries(loc: Locale, entries: seq<Entry>, bound: Value): seq<Member>
    requires forall i :: 0 <= i < |entries| ==> entries[i].value < bound
    decreases bound, 0, |entries|
  {
    if entries == [] then [] else
    [Member(loc.nfc(entries[0].key), Norm(loc, entries[0].value))] + NormEntries(loc, entries[1..], bound)
  }

  // ---- Printing a normal form in front of the text that follows it ----

  function RenderBefore(t: Tree, rest: Text): Text
    decreases t, 0
  {
    match t
    case TNull => NULL + rest
    case TBool(b) => (if b then TRUE else FALSE) + rest
    case TNumber(n) => NumberText(n) + rest
    case TString(s) => QuotedBefore(s, rest)
    case TArray(items) => [OPEN_ARRAY] + ItemsBefore(items, [CLOSE_ARRAY] + rest)
    case TObject(members) => [OPEN_OBJECT] + MembersBefore(members, [CLOSE_OBJECT] + rest)
  }

  function ItemsBefore(items: seq<Tree>, rest: Text): Text
    decreases items, 1
  {
    if items == [] then rest else RenderBefore(items[0], TailBefore(items[1..], rest))
  }

  function TailBefore(items: seq<Tree>, rest: Text): Text
    decreases items, 1
  {
    if items == [] then rest else [COMMA] + RenderBefore(items[0], TailBefore(items[1..], rest))
  }

  function MemberBefore(m: Member, rest: Text): Text
    decreases m, 1
  {
    QuotedBefore(m.key, [COLON] + RenderBefore(m.value, rest))
  }

  function MembersBefore(members: seq<Member>, rest: Text): Text
    decreases members, 2
  {
    if members == [] then rest else MemberBefore(members[0], MemberTailBefore(members[1..], rest))
  }

  function MemberTailBefore(members: seq<Member>, rest: Text): Text
    decreases members, 2
  {
    if members == [] then rest else [COMMA] + MemberBefore(members[0], MemberTailBefore(members[1..], rest))
  }

  // ---- Unique decodability ----

  /** No number can be continued by this text. */
  predicate Ends(rest: Text) {
    rest == [] || !IsNumberUnit(rest[0])
  }

  lemma MaximalMunch(a: Text, b: Text, x: Text, y: Text)
    requires a + x == b + y
    requires (forall i :: 0 <= i < |a| ==> IsNumberUnit(a[i])) && forall i :: 0 <= i < |b| ==> IsNumberUnit(b[i])
    requires Ends(x) && Ends(y)
    ensures a == b && x == y
  {
    if |a| <= |b| {
      MunchLength(a, b, x, y);
    } else {
      MunchLength(b, a, y, x);
    }
    assert (a + x)[..|a|] == a && (b + y)[..|b|] == b;
    assert (a + x)[|a|..] == x && (b + y)[|b|..] == y;
  }

  lemma MunchLength(a: Text, b: Text, x: Text, y: Text)
    requires a + x == b + y && |a| <= |b| && Ends(x)
    requires forall i :: 0 <= i < |b| ==> IsNumberUnit(b[i])
    ensures |a| == |b|
  {
    assert x == (a + x)[|a|..] == (b + y)[|a|..] == b[|a|..] + y;
  }

  /** The first unit of a rendered value tells which constructor printed it. */
  function Opening(t: Tree): CodeUnit {
    match t
    case TNull => 110
    case TBool(b) => if b then 116 else 102
    case TNumber(n) => NumberTextUnits(n); NumberText(n)[0]
    case TString(_) => QUOTE
    case TArray(_) => OPEN_ARRAY
    case TObject(_) => OPEN_OBJECT
  }

  lemma OpensWith(t: Tree, rest: Text)
    ensures RenderBefore(t, rest) != [] && RenderBefore(t, rest)[0] == Opening(t)
    ensures Opening(t) != CLOSE_ARRAY && Opening(t) != CLOSE_OBJECT && Opening(t) != COMMA
    ensures t.TNumber? <==> 48 <= Opening(t) < 58 || Opening(t) == MINUS
  {
    if t.TNumber? {
      NumberTextUnits(t.n);
    }
  }

  lemma SuffixOf(a: Text, x: Text, y: Text)
    requires a + x == a + y
    ensures x == y
  {
    assert (a + x)[|a|..] == x && (a + y)[|a|..] == y;
  }

  /** How the parts of an array or object begin. */
  lemma PartsOpenWith(items: seq<Tree>, members: seq<Member>, rest: Text)
    ensures ItemsBefore(items, [CLOSE_ARRAY] + rest) != []
    ensures ItemsBefore(items, [CLOSE_ARRAY] + rest)[0] == CLOSE_ARRAY <==> items == []
    ensures TailBefore(items, [CLOSE_ARRAY] + rest) != []
    ensures TailBefore(items, [CLOSE_ARRAY] + rest)[0] == if items == [] then CLOSE_ARRAY else COMMA
    ensures MembersBefore(members, [CLOSE_OBJECT] + rest) != []
    ensures MembersBefore(members, [CLOSE_OBJECT] + rest)[0] == if members == [] then CLOSE_OBJECT else QUOTE
    ensures MemberTailBefore(members, [CLOSE_OBJECT] + rest) != []
    ensures MemberTailBefore(members, [CLOSE_OBJECT] + rest)[0] == if members == [] then CLOSE_OBJECT else COMMA
  {
  }

  /** A rendered value is decoded uniquely in front of any text that cannot continue a number. */
  lemma {:induction false} RenderDetermined(a: Tree, b: Tree, x: Text, y: Text)
    requires RenderBefore(a, x) == RenderBefore(b, y)
    requires Ends(x) && Ends(y)
    ensures a == b && x == y
    decreases a, 0
  {
    OpensWith(a, x);
    OpensWith(b, y);
    match a
    case TNull =>
      SuffixOf(NULL, x, y);
    case TBool(v) =>
      SuffixOf(if v then TRUE else FALSE, x, y);
    case TNumber(m) =>
      NumberTextUnits(m);
      NumberTextUnits(b.n);
      MaximalMunch(NumberText(m), NumberText(b.n), x, y);
      NumberTextInjective(m, b.n);
    case TString(s) =>
      SuffixOf([QUOTE], EscapeBefore(s, [QUOTE] + x), EscapeBefore(b.s, [QUOTE] + y));
      EscapeDetermined(s, b.s, x, y);
    case TArray(items) =>
      SuffixOf([OPEN_ARRAY], ItemsBefore(items, [CLOSE_ARRAY] + x), ItemsBefore(b.items, [CLOSE_ARRAY] + y));
      ItemsDetermined(items, b.items, x, y);
    case TObject(members) =>
      SuffixOf([OPEN_OBJECT], MembersBefore(members, [CLOSE_OBJECT] + x), MembersBefore(b.members, [CLOSE_OBJECT] + y));
      MembersDetermined(members, b.members, x, y);
  }

  lemma {:induction false} ItemsDetermined(s: seq<Tree>, t: seq<Tree>, x: Text, y: Text)
    requires ItemsBefore(s, [CLOSE_ARRAY] + x) == ItemsBefore(t, [CLOSE_ARRAY] + y)
    ensures s == t && x == y
    decreases s, 1
  {
    PartsOpenWith(s, [], x);
    PartsOpenWith(t, [], y);
    if s == [] {
      SuffixOf([CLOSE_ARRAY], x, y);
    } else {
      PartsOpenWith(s[1..], [], x);
      PartsOpenWith(t[1..], [], y);
      RenderDetermined(s[0], t[0], TailBefore(s[1..], [CLOSE_ARRAY] + x), TailBefore(t[1..], [CLOSE_ARRAY] + y));
      TailDetermined(s[1..], t[1..], x, y);
      assert s == [s[0]] + s[1..] && t == [t[0]] + t[1..];
    }
  }

  lemma {:induction false} TailDetermined(s: seq<Tree>, t: seq<Tree>, x: Text, y: Text)
    requires TailBefore(s, [CLOSE_ARRAY] + x) == TailBefore(t, [CLOSE_ARRAY] + y)
    ensures s == t && x == y
    decreases s, 1
  {
    PartsOpenWith(s, [], x);
    PartsOpenWith(t, [], y);
    if s == [] {
      SuffixOf([CLOSE_ARRAY], x, y);
    } else {
      PartsOpenWith(s[1..], [], x);
      PartsOpenWith(t[1..], [], y);
      var s1, t1 := TailBefore(s[1..], [CLOSE_ARRAY] + x), TailBefore(t[1..], [CLOSE_ARRAY] + y);
      SuffixOf([COMMA], RenderBefore(s[0], s1), RenderBefore(t[0], t1));
      RenderDetermined(s[0], t[0], s1, t1);
      TailDetermined(s[1..], t[1..], x, y);
      assert s == [s[0]] + s[1..] && t == [t[0]] + t[1..];
    }
  }

  lemma {:induction false} MemberDetermined(a: Member, b: Member, x: Text, y: Text)
    requires MemberBefore(a, x) == MemberBefore(b, y)
    requires Ends(x) && Ends(y)
    ensures a == b && x == y
    decreases a, 1
  {
    var p, q := [COLON] + RenderBefore(a.value, x), [COLON] + RenderBefore(b.value, y);
    SuffixOf([QUOTE], EscapeBefore(a.key, [QUOTE] + p), EscapeBefore(b.key, [QUOTE] + q));
    EscapeDetermined(a.key, b.key, p, q);
    SuffixOf([COLON], RenderBefore(a.value, x), RenderBefore(b.value, y));
    RenderDetermined(a.value, b.value, x, y);
  }

  lemma {:induction false} MembersDetermined(s: seq<Member>, t: seq<Member>, x: Text, y: Text)
    requires MembersBefore(s, [CLOSE_OBJECT] + x) == MembersBefore(t, [CLOSE_OBJECT] + y)
    ensures s == t && x == y
    decreases s, 2
  {
    PartsOpenWith([], s, x);
    PartsOpenWith([], t, y);
    if s == [] {
      SuffixOf([CLOSE_OBJECT], x, y);
    } else {
      PartsOpenWith([], s[1..], x);
      PartsOpenWith([], t[1..], y);
      MemberDetermined(s[0], t[0], MemberTailBefore(s[1..], [CLOSE_OBJECT] + x), MemberTailBefore(t[1..], [CLOSE_OBJECT] + y));
      MemberTailDetermined(s[1..], t[1..], x, y);
      assert s == [s[0]] + s[1..] && t == [t[0]] + t[1..];
    }
  }

  lemma {:induction false} MemberTailDetermined(s: seq<Member>, t: seq<Member>, x: Text, y: Text)
    requires MemberTailBefore(s, [CLOSE_OBJECT] + x) == MemberTailBefore(t, [CLOSE_OBJECT] + y)
    ensures s == t && x == y
    decreases s, 2
  {
    PartsOpenWith([], s, x);
    PartsOpenWith([], t, y);
    if s == [] {
      SuffixOf([CLOSE_OBJECT], x, y);
    } else {
      PartsOpenWith([], s[1..], x);
      PartsOpenWith([], t[1..], y);
      var s1, t1 := MemberTailBefore(s[1..], [CLOSE_OBJECT] + x), MemberTailBefore(t[1..], [CLOSE_OBJECT] + y);
      SuffixOf([COMMA], MemberBefore(s[0], s1), MemberBefore(t[0], t1));
      MemberDetermined(s[0], t[0], s1, t1);
      MemberTailDetermined(s[1..], t[1..], x, y);
      assert s == [s[0]] + s[1..] && t == [t[0]] + t[1..];
    }
  }

  // ---- The printer prints the normal form ----

  lemma StringRenders(s: Text, rest: Text)
    ensures QuotedBefore(s, []) + rest == QuotedBefore(s, rest)
  {
    EscapeBeforeAppends(s, [QUOTE], rest);
    assert [QUOTE] + [] == [QUOTE];
    assert QuotedBefore(s, []) + rest == [QUOTE] + (EscapeBefore(s, [QUOTE]) + rest);
  }

  lemma Enclose(open_: Text, body: Text, close: Text, rest: Text)
    ensures open_ + body + close + rest == open_ + (body + (close + rest))
  {
  }

  lemma Regroup(a: Text, b: Text, c: Text, d: Text)
    ensures a + b + c + d == a + (b + (c + d))
  {
  }

  lemma {:induction false} CanonicalRenders(loc: Locale, v: Value, rest: Text)
    ensures Canonical(loc, v) + rest == RenderBefore(Norm(loc, v), rest)
    decreases v, 0
  {
    match v
    case Str(s) =>
      StringRenders(loc.nfc(s), rest);
    case Num(n) =>
      assert n.Zero? ==> NumberText(n) == NumberText(PositiveZero(n));
    case Arr(items) =>
      ItemsRender(loc, items, v, [CLOSE_ARRAY] + rest);
      Enclose([OPEN_ARRAY], CanonicalItems(loc, items, v), [CLOSE_ARRAY], rest);
    case Obj(entries) =>
      var sorted := SortedEntries(loc, entries);
      EntriesRender(loc, sorted, v, [CLOSE_OBJECT] + rest);
      Enclose([OPEN_OBJECT], CanonicalEntries(loc, sorted, v), [CLOSE_OBJECT], rest);
    case _ =>
  }

  lemma {:induction false} ItemsRender(loc: Locale, items: seq<Value>, bound: Value, rest: Text)
    requires forall i :: 0 <= i < |items| ==> items[i] < bound
    ensures CanonicalItems(loc, items, bound) + rest == ItemsBefore(NormItems(loc, items, bound), rest)
    decreases bound, 0, |items|
  {
    if items == [] {
      assert [] + rest == rest;
    } else {
      var first := Canonical(loc, items[0]);
      var trees := NormItems(loc, items, bound);
      assert trees[1..] == NormItems(loc, items[1..], bound);
      if |items| == 1 {
        CanonicalRenders(loc, items[0], rest);
      } else {
        ItemsRender(loc, items[1..], bound, rest);
        var more := CanonicalItems(loc, items[1..], bound);
        CanonicalRenders(loc, items[0], [COMMA] + (more + rest));
        Regroup(first, [COMMA], more, rest);
        assert TailBefore(trees[1..], rest) == [COMMA] + ItemsBefore(trees[1..], rest);
      }
    }
  }

  lemma {:induction false} EntryRenders(loc: Locale, e: Entry, rest: Text)
    ensures QuotedBefore(loc.nfc(e.key), []) + [COLON] + Canonical(loc, e.value) + rest
         == MemberBefore(Member(loc.nfc(e.key), Norm(loc, e.value)), rest)
    decreases e.value, 1
  {
    CanonicalRenders(loc, e.value, rest);
    var key := loc.nfc(e.key);
    var tail := [COLON] + (Canonical(loc, e.value) + rest);
    StringRenders(key, tail);
    assert QuotedBefore(key, []) + [COLON] + Canonical(loc, e.value) + rest == QuotedBefore(key, []) + tail;
  }

  lemma {:induction false} EntriesRender(loc: Locale, entries: seq<Entry>, bound: Value, rest: Text)
    requires forall i :: 0 <= i < |entries| ==> entries[i].value < bound
    ensures CanonicalEntries(loc, entries, bound) + rest == MembersBefore(NormEntries(loc, entries, bound), rest)
    decreases bound, 0, |entries|
  {
    if entries == [] {
      assert [] + rest == rest;
    } else {
      var first := QuotedBefore(loc.nfc(entries[0].key), []) + [COLON] + Canonical(loc, entries[0].value);
      var members := NormEntries(loc, entries, bound);
      assert members[1..] == NormEntries(loc, entries[1..], bound);
      if |entries| == 1 {
        EntryRenders(loc, entries[0], rest);
      } else {
        EntriesRender(loc, entries[1..], bound, rest);
        var more := CanonicalEntries(loc, entries[1..], bound);
        EntryRenders(loc, entries[0], [COMMA] + (more + rest));
        Regroup(first, [COMMA], more, rest);
        assert MemberTailBefore(members[1..], rest) == [COMMA] + MembersBefore(members[1..], rest);
      }
    }
  }

  /** Two values print the same text exactly when they have the same normal form. */
  lemma CanonicalExact(loc: Locale, v: Value, w: Value)
    ensures Canonical(loc, v) == Canonical(loc, w) <==> Norm(loc, v) == Norm(loc, w)
  {
    CanonicalRenders(loc, v, []);
    CanonicalRenders(loc, w, []);
    assert Canonical(loc, v) + [] == Canonical(loc, v) && Canonical(loc, w) + [] == Canonical(loc, w);
    if Canonical(loc, v) == Canonical(loc, w) {
      RenderDetermined(Norm(loc, v), Norm(loc, w), [], []);
    }
  }

  // ---- When the insertion order of an object matters ----

  datatype NormEntry = NormEntry(key: Text, value: Tree)

  /** An entry with its raw key and the normal form of its value. */
  ghost function NormPairs(loc: Locale, entries: seq<Entry>): seq<NormEntry> {
    if entries == [] then [] else
    [NormEntry(entries[0].key, Norm(loc, entries[0].value))] + NormPairs(loc, entries[1..])
  }

  function ByPairKey(loc: Locale): (NormEntry, NormEntry) -> bool {
    (a: NormEntry, b: NormEntry) => loc.le(a.key, b.key)
  }

  ghost function MembersOf(loc: Locale, pairs: seq<NormEntry>): seq<Member> {
    if pairs == [] then [] else [Member(loc.nfc(pairs[0].key), pairs[0].value)] + MembersOf(loc, pairs[1..])
  }

  lemma {:induction false} InsertCommutes(loc: Locale, e: Entry, s: seq<Entry>)
    ensures NormPairs(loc, Insert(ByKey(loc), e, s))
         == Insert(ByPairKey(loc), NormEntry(e.key, Norm(loc, e.value)), NormPairs(loc, s))
  {
    if s != [] && !loc.le(e.key, s[0].key) {
      InsertCommutes(loc, e, s[1..]);
      var pairs := NormPairs(loc, s);
      assert pairs[0] == NormEntry(s[0].key, Norm(loc, s[0].value)) && pairs[1..] == NormPairs(loc, s[1..]);
      assert Insert(ByKey(loc), e, s)[1..] == Insert(ByKey(loc), e, s[1..]);
    } else {
      assert ([e] + s)[1..] == s;
    }
  }

  lemma {:induction false} SortCommutes(loc: Locale, s: seq<Entry>)
    ensures NormPairs(loc, Sort(ByKey(loc), s)) == Sort(ByPairKey(loc), NormPairs(loc, s))
  {
    if s != [] {
      SortCommutes(loc, s[1..]);
      InsertCommutes(loc, s[0], Sort(ByKey(loc), s[1..]));
      assert NormPairs(loc, s)[1..] == NormPairs(loc, s[1..]);
    }
  }

  lemma {:induction false} NormEntriesFromPairs(loc: Locale, entries: seq<Entry>, bound: Value)
    requires forall i :: 0 <= i < |entries| ==> entries[i].value < bound
    ensures NormEntries(loc, entries, bound) == MembersOf(loc, NormPairs(loc, entries))
  {
    if entries != [] {
      NormEntriesFromPairs(loc, entries[1..], bound);
      assert NormPairs(loc, entries)[1..] == NormPairs(loc, entries[1..]);
    }
  }

  ghost function DefinedPairs(loc: Locale, entries: seq<Entry>): seq<NormEntry> {
    NormPairs(loc, Filter((e: Entry) => !e.value.Undefined?, entries))
  }

  lemma ObjectNorm(loc: Locale, entries: seq<Entry>)
    ensures Norm(loc, Obj(entries)) == TObject(MembersOf(loc, Sort(ByPairKey(loc), DefinedPairs(loc, entries))))
  {
    NormEntriesFromPairs(loc, SortedEntries(loc, entries), Obj(entries));
    SortCommutes(loc, Filter((e: Entry) => !e.value.Undefined?, entries));
  }

  /**
   * The order in which fields were added does not matter, at any depth: objects with the same keys
   * and the same normal forms behind them print the same, when localeCompare tells their keys apart.
   */
  lemma InsertionOrderIrrelevant(loc: Locale, p: seq<Entry>, q: seq<Entry>)
    requires TotalPreorder(ByPairKey(loc))
    requires multiset(DefinedPairs(loc, p)) == multiset(DefinedPairs(loc, q))
    requires Separates(ByPairKey(loc), DefinedPairs(loc, p))
    ensures Canonical(loc, Obj(p)) == Canonical(loc, Obj(q))
  {
    ObjectNorm(loc, p);
    ObjectNorm(loc, q);
    SortCanonical(ByPairKey(loc), DefinedPairs(loc, p), DefinedPairs(loc, q));
    CanonicalExact(loc, Obj(p), Obj(q));
  }

  function MemberOf(loc: Locale, pair: NormEntry): Member {
    Member(loc.nfc(pair.key), pair.value)
  }

  /** Any two fields whose keys tie under localeCompare print the same member. */
  ghost predicate TiesPrintAlike(loc: Locale, pairs: seq<NormEntry>) {
    forall a, b :: a in pairs && b in pairs && loc.le(a.key, b.key) && loc.le(b.key, a.key) ==>
      MemberOf(loc, a) == MemberOf(loc, b)
  }

  /** However the fields of p were added, the text is the same. */
  ghost predicate AnyOrderPrintsAlike(loc: Locale, p: seq<Entry>) {
    forall q: seq<Entry> {:trigger Canonical(loc, Obj(q))} ::
      multiset(q) == multiset(p) ==> Canonical(loc, Obj(q)) == Canonical(loc, Obj(p))
  }

  lemma {:induction false} MembersAt(loc: Locale, pairs: seq<NormEntry>)
    ensures |MembersOf(loc, pairs)| == |pairs|
    ensures forall i :: 0 <= i < |pairs| ==> MembersOf(loc, pairs)[i] == MemberOf(loc, pairs[i])
  {
    if pairs != [] {
      MembersAt(loc, pairs[1..]);
    }
  }

  lemma {:induction false} PairsOfElements(loc: Locale, s: seq<Entry>, x: NormEntry)
    ensures |NormPairs(loc, s)| == |s|
    ensures forall i :: 0 <= i < |s| ==> NormPairs(loc, s)[i] == NormEntry(s[i].key, Norm(loc, s[i].value))
    ensures x in NormPairs(loc, s) <==> exists e :: e in s && NormEntry(e.key, Norm(loc, e.value)) == x
  {
    if s != [] {
      PairsOfElements(loc, s[1..], x);
      assert s == [s[0]] + s[1..];
      assert NormPairs(loc, s)[0] == NormEntry(s[0].key, Norm(loc, s[0].value));
    }
  }

  /** The normal pairs of a permutation are a permutation of the normal pairs. */
  lemma {:induction false} PairsPermute(loc: Locale, s: seq<Entry>, t: seq<Entry>)
    requires multiset(s) == multiset(t)
    ensures multiset(NormPairs(loc, s)) == multiset(NormPairs(loc, t))
    decreases |s|
  {
    if s == [] {
      assert |multiset(t)| == 0;
    } else {
      assert s[0] in multiset(t);
      var i := PairsTakeOut(loc, t, s[0]);
      TailElements(s);
      PairsPermute(loc, s[1..], t[..i] + t[i + 1..]);
    }
  }

  lemma PairsTakeOut(loc: Locale, t: seq<Entry>, e: Entry) returns (i: nat)
    requires e in t
    ensures i < |t| && multiset(t) == multiset(t[..i] + t[i + 1..]) + multiset{e}
    ensures multiset(NormPairs(loc, t))
         == multiset(NormPairs(loc, t[..i] + t[i + 1..])) + multiset{NormEntry(e.key, Norm(loc, e.value))}
  {
    i :| 0 <= i < |t| && t[i] == e;
    var tail := [e] + t[i + 1..];
    assert t == t[..i] + tail && tail[1..] == t[i + 1..];
    PairsConcat(loc, t[..i], tail);
    PairsConcat(loc, t[..i], t[i + 1..]);
  }

  lemma {:induction false} PairsConcat(loc: Locale, s: seq<Entry>, t: seq<Entry>)
    ensures NormPairs(loc, s + t) == NormPairs(loc, s) + NormPairs(loc, t)
  {
    if s == [] {
      assert s + t == t;
    } else {
      PairsConcat(loc, s[1..], t);
      assert (s + t)[1..] == s[1..] + t;
    }
  }

  /** Objects with the same normal pairs print the same when ties print alike. */
  lemma TiesAlikeSuffices(loc: Locale, p: seq<Entry>, q: seq<Entry>)
    requires TotalPreorder(ByPairKey(loc))
    requires multiset(DefinedPairs(loc, p)) == multiset(DefinedPairs(loc, q))
    requires TiesPrintAlike(loc, DefinedPairs(loc, p))
    ensures Canonical(loc, Obj(p)) == Canonical(loc, Obj(q))
  {
    var le, a, b := ByPairKey(loc), DefinedPairs(loc, p), DefinedPairs(loc, q);
    var s, t := Sort(le, a), Sort(le, b);
    SortSorts(le, a);
    SortSorts(le, b);
    SortPermutes(le, a);
    SortPermutes(le, b);
    assert |multiset(s)| == |s| && |multiset(t)| == |t|;
    assert forall x :: x in t <==> x in multiset(t);
    assert forall x :: x in s <==> x in multiset(s);
    MembersAt(loc, s);
    MembersAt(loc, t);
    forall i | 0 <= i < |s| ensures MembersOf(loc, s)[i] == MembersOf(loc, t)[i] {
      SortedTie(le, s, t, i);
      SortedTie(le, t, s, i);
      assert s[i] in a && t[i] in multiset(t);
    }
    assert MembersOf(loc, s) == MembersOf(loc, t);
    ObjectNorm(loc, p);
    ObjectNorm(loc, q);
    CanonicalExact(loc, Obj(p), Obj(q));
  }

  lemma DefinedPairsOpen(loc: Locale, e: Entry, rest: seq<Entry>)
    requires !e.value.Undefined?
    ensures DefinedPairs(loc, [e] + rest) == [NormEntry(e.key, Norm(loc, e.value))] + DefinedPairs(loc, rest)
  {
    var defined := (e: Entry) => !e.value.Undefined?;
    assert ([e] + rest)[1..] == rest;
    assert Filter(defined, [e] + rest) == [e] + Filter(defined, rest);
    assert ([e] + Filter(defined, rest))[1..] == Filter(defined, rest);
  }

  /** Two tying fields put first in the two orders print alike only if they are the same member. */
  lemma FirstTwoDecide(loc: Locale, e: Entry, f: Entry, rest: seq<Entry>)
    requires TotalPreorder(ByPairKey(loc))
    requires !e.value.Undefined? && !f.value.Undefined? && loc.le(e.key, f.key) && loc.le(f.key, e.key)
    requires Canonical(loc, Obj([e] + ([f] + rest))) == Canonical(loc, Obj([f] + ([e] + rest)))
    ensures MemberOf(loc, NormEntry(e.key, Norm(loc, e.value))) == MemberOf(loc, NormEntry(f.key, Norm(loc, f.value)))
  {
    var a, b := NormEntry(e.key, Norm(loc, e.value)), NormEntry(f.key, Norm(loc, f.value));
    var le, pairs := ByPairKey(loc), DefinedPairs(loc, rest);
    var sorted := Sort(le, pairs);
    DefinedPairsOpen(loc, e, [f] + rest);
    DefinedPairsOpen(loc, f, rest);
    DefinedPairsOpen(loc, f, [e] + rest);
    DefinedPairsOpen(loc, e, rest);
    var s, t := [a] + ([b] + pairs), [b] + ([a] + pairs);
    assert s[1..] == [b] + pairs && t[1..] == [a] + pairs && ([b] + pairs)[1..] == pairs && ([a] + pairs)[1..] == pairs;
    assert Sort(le, s) == Insert(le, a, Insert(le, b, sorted));
    assert Sort(le, t) == Insert(le, b, Insert(le, a, sorted));
    var k := Slot(le, a, sorted);
    InsertTwo(le, a, b, sorted);
    InsertTwo(le, b, a, sorted);
    SameSlot(le, a, b, sorted);
    ObjectNorm(loc, [e] + ([f] + rest));
    ObjectNorm(loc, [f] + ([e] + rest));
    CanonicalExact(loc, Obj([e] + ([f] + rest)), Obj([f] + ([e] + rest)));
    MembersAt(loc, Sort(le, s));
    MembersAt(loc, Sort(le, t));
    assert MembersOf(loc, Sort(le, s))[k] == MemberOf(loc, a);
    assert MembersOf(loc, Sort(le, t))[k] == MemberOf(loc, b);
  }

  lemma TiesAlikeKeeps(loc: Locale, p: seq<Entry>, q: seq<Entry>)
    requires TotalPreorder(ByPairKey(loc)) && TiesPrintAlike(loc, DefinedPairs(loc, p)) && multiset(q) == multiset(p)
    ensures Canonical(loc, Obj(q)) == Canonical(loc, Obj(p))
  {
    var defined := (e: Entry) => !e.value.Undefined?;
    FilterMultiset(defined, p, q);
    PairsPermute(loc, Filter(defined, p), Filter(defined, q));
    TiesAlikeSuffices(loc, p, q);
  }

  lemma EntryOfPair(loc: Locale, p: seq<Entry>, x: NormEntry) returns (e: Entry)
    requires x in DefinedPairs(loc, p)
    ensures e in p && !e.value.Undefined? && NormEntry(e.key, Norm(loc, e.value)) == x
  {
    var defined := (e: Entry) => !e.value.Undefined?;
    PairsOfElements(loc, Filter(defined, p), x);
    e :| e in Filter(defined, p) && NormEntry(e.key, Norm(loc, e.value)) == x;
  }

  /** Two fields of an object can be put first in either order. */
  lemma TwoFirst(p: seq<Entry>, e: Entry, f: Entry) returns (rest: seq<Entry>)
    requires e in p && f in p && e != f
    ensures multiset([e] + ([f] + rest)) == multiset(p) && multiset([f] + ([e] + rest)) == multiset(p)
  {
    var without := TakeOut(p, e);
    assert f in multiset(p);
    assert f in multiset(without);
    rest := TakeOut(without, f);
  }

  lemma UnlikeTieShows(loc: Locale, p: seq<Entry>, a: NormEntry, b: NormEntry)
    requires TotalPreorder(ByPairKey(loc))
    requires a in DefinedPairs(loc, p) && b in DefinedPairs(loc, p) && loc.le(a.key, b.key) && loc.le(b.key, a.key)
    requires AnyOrderPrintsAlike(loc, p)
    ensures MemberOf(loc, a) == MemberOf(loc, b)
  {
    if a != b {
      var e := EntryOfPair(loc, p, a);
      var f := EntryOfPair(loc, p, b);
      var rest := TwoFirst(p, e, f);
      FirstTwoDecide(loc, e, f, rest);
    }
  }

  /** The text of an object is independent of insertion order exactly when fields whose keys tie print the same member. */
  lemma OrderIrrelevantIff(loc: Locale, p: seq<Entry>)
    requires TotalPreorder(ByPairKey(loc))
    ensures AnyOrderPrintsAlike(loc, p) <==> TiesPrintAlike(loc, DefinedPairs(loc, p))
  {
    if TiesPrintAlike(loc, DefinedPairs(loc, p)) {
      forall q: seq<Entry> | multiset(q) == multiset(p) ensures Canonical(loc, Obj(q)) == Canonical(loc, Obj(p)) {
        TiesAlikeKeeps(loc, p, q);
      }
    }
    if AnyOrderPrintsAlike(loc, p) {
      forall a, b | a in DefinedPairs(loc, p) && b in DefinedPairs(loc, p) && loc.le(a.key, b.key) && loc.le(b.key, a.key)
        ensures MemberOf(loc, a) == MemberOf(loc, b)
      {
        UnlikeTieShows(loc, p, a, b);
      }
    }
  }

  /** Exactly when two fields can be swapped: their keys do not tie, or they print the same member. */
  lemma SwapIrrelevantIff(loc: Locale, e: Entry, f: Entry)
    requires loc.le(e.key, f.key) || loc.le(f.key, e.key)
    requires !e.value.Undefined? && !f.value.Undefined?
    ensures Canonical(loc, Obj([e, f])) == Canonical(loc, Obj([f, e]))
       <==> !(loc.le(e.key, f.key) && loc.le(f.key, e.key))
            || (loc.nfc(e.key) == loc.nfc(f.key) && Norm(loc, e.value) == Norm(loc, f.value))
  {
    var a, b := NormEntry(e.key, Norm(loc, e.value)), NormEntry(f.key, Norm(loc, f.value));
    TwoPairs(loc, e, f);
    TwoPairs(loc, f, e);
    ObjectNorm(loc, [e, f]);
    ObjectNorm(loc, [f, e]);
    TwoMembers(loc, a, b);
    TwoMembers(loc, b, a);
    CanonicalExact(loc, Obj([e, f]), Obj([f, e]));
  }

  lemma TwoPairs(loc: Locale, e: Entry, f: Entry)
    requires !e.value.Undefined? && !f.value.Undefined?
    ensures DefinedPairs(loc, [e, f])
         == [NormEntry(e.key, Norm(loc, e.value)), NormEntry(f.key, Norm(loc, f.value))]
  {
    var defined := (e: Entry) => !e.value.Undefined?;
    assert [e, f][1..] == [f] && [f][1..] == [];
    assert Filter(defined, [f]) == [f];
    assert Filter(defined, [e, f]) == [e, f];
    assert NormPairs(loc, [f]) == [NormEntry(f.key, Norm(loc, f.value))];
  }

  lemma TwoMembers(loc: Locale, a: NormEntry, b: NormEntry)
    ensures var first, second := Member(loc.nfc(a.key), a.value), Member(loc.nfc(b.key), b.value);
            MembersOf(loc, Sort(ByPairKey(loc), [a, b])) == if loc.le(a.key, b.key) then [first, second] else [second, first]
  {
    assert [a, b][1..] == [b] && [b][1..] == [] && [a][1..] == [] && [b, a][1..] == [a];
    assert Sort(ByPairKey(loc), [b]) == [b];
    assert MembersOf(loc, [b]) == [Member(loc.nfc(b.key), b.value)];
    assert MembersOf(loc, [a]) == [Member(loc.nfc(a.key), a.value)];
    assert Insert(ByPairKey(loc), a, [b]) == if loc.le(a.key, b.key) then [a, b] else [b, a];
  }
}
