// Which JavaScript values have the same canonical text, told from the values themselves.
module CanonicalSame {
  import opened JsText
  import opened Sorting
  import opened CanonicalJson

  /** What prints as null: everything that is neither a string, a boolean, a finite number, a list nor an object. */
  predicate IsVoid(v: Value) {
    match v
    case Num(n) => !n.Finite? && !n.Zero?
    case Str(_) => false
    case Bool(_) => false
    case Arr(_) => false
    case Obj(_) => false
    case _ => true
  }

  /**
   * Strings count as equal when their NFC forms are, numbers when they are equal as numbers, lists item by item, and objects
   * when their fields with a value, sorted by key, have pairwise equal keys and the same values.
   */
  ghost predicate Same(loc: Locale, v: Value, w: Value)
    decreases v, 0
  {
    if IsVoid(v) || IsVoid(w) then IsVoid(v) && IsVoid(w)
    else
      match v
      case Str(s) => w.Str? && loc.nfc(s) == loc.nfc(w.s)
      case Bool(b) => w.Bool? && b == w.b
      case Num(n) => w.Num? && (n == w.n || (n.Zero? && w.n.Zero?))
      case Arr(items) => w.Arr? && |w.items| == |items| && forall i :: 0 <= i < |items| ==> Same(loc, items[i], w.items[i])
      case Obj(entries) => w.Obj? && SameFields(loc, v, SortedEntries(loc, entries), SortedEntries(loc, w.entries))
      case _ => false
  }

  ghost predicate SameFields(loc: Locale, bound: Value, s: seq<Entry>, t: seq<Entry>)
    requires forall i :: 0 <= i < |s| ==> s[i].value < bound
    decreases bound, 0, |s|
  {
    |s| == |t| && forall i :: 0 <= i < |s| ==> loc.nfc(s[i].key) == loc.nfc(t[i].key) && Same(loc, s[i].value, t[i].value)
  }

  function KeyTies(loc: Locale, key: Text): Entry -> bool {
    (e: Entry) => loc.le(e.key, key) && loc.le(key, e.key)
  }

  /** The fields of an object in printing order: those with a value, sorted by key, and in order of insertion where keys tie. */
  lemma SortedEntriesAre(loc: Locale, entries: seq<Entry>)
    requires TotalPreorder(loc.le)
    ensures var r := SortedEntries(loc, entries);
            && (forall e :: e in r <==> e in entries && e.value != Undefined)
            && (forall i, j :: 0 <= i < j < |r| ==> loc.le(r[i].key, r[j].key))
            && forall key: Text {:trigger KeyTies(loc, key)} ::
                 Filter(KeyTies(loc, key), r) == Filter(KeyTies(loc, key), Filter((e: Entry) => e.value != Undefined, entries))
  {
    var kept := Filter((e: Entry) => !e.value.Undefined?, entries);
    assert kept == Filter((e: Entry) => e.value != Undefined, entries) by {
      FilterSame((e: Entry) => !e.value.Undefined?, (e: Entry) => e.value != Undefined, entries);
    }
    SortSorts(ByKey(loc), kept);
    SortPermutes(ByKey(loc), kept);
    var r := SortedEntries(loc, entries);
    forall i, j | 0 <= i < j < |r| ensures loc.le(r[i].key, r[j].key) {
      assert ByKey(loc)(r[i], r[j]);
    }
    forall key: Text ensures Filter(KeyTies(loc, key), r) == Filter(KeyTies(loc, key), kept) {
      SortStable(ByKey(loc), kept, KeyTies(loc, key));
    }
  }

  lemma ConsEqual<T>(a: T, x: seq<T>, b: T, y: seq<T>)
    ensures [a] + x == [b] + y <==> a == b && x == y
  {
    assert ([a] + x)[0] == a && ([b] + y)[0] == b && ([a] + x)[1..] == x && ([b] + y)[1..] == y;
  }

  lemma {:induction false} SameIsNorm(loc: Locale, v: Value, w: Value)
    ensures Same(loc, v, w) <==> Norm(loc, v) == Norm(loc, w)
    decreases v, 1
  {
    match v
    case Arr(items) =>
      if w.Arr? {
        SameItemsIsNorm(loc, items, w.items, v, w);
      }
    case Obj(entries) =>
      if w.Obj? {
        SameFieldsIsNorm(loc, SortedEntries(loc, entries), SortedEntries(loc, w.entries), v, w);
      }
    case _ =>
  }

  lemma {:induction false} SameItemsIsNorm(loc: Locale, s: seq<Value>, t: seq<Value>, v: Value, w: Value)
    requires (forall i :: 0 <= i < |s| ==> s[i] < v) && forall i :: 0 <= i < |t| ==> t[i] < w
    ensures NormItems(loc, s, v) == NormItems(loc, t, w)
       <==> |s| == |t| && forall i :: 0 <= i < |s| ==> Same(loc, s[i], t[i])
    decreases v, 0, |s|
  {
    if s != [] && t != [] {
      SameIsNorm(loc, s[0], t[0]);
      SameItemsIsNorm(loc, s[1..], t[1..], v, w);
      ConsEqual(Norm(loc, s[0]), NormItems(loc, s[1..], v), Norm(loc, t[0]), NormItems(loc, t[1..], w));
      if |s| == |t| {
        assert forall i :: 0 < i < |s| ==> s[i] == s[1..][i - 1] && t[i] == t[1..][i - 1];
      }
    }
  }

  lemma {:induction false} SameFieldsIsNorm(loc: Locale, s: seq<Entry>, t: seq<Entry>, v: Value, w: Value)
    requires (forall i :: 0 <= i < |s| ==> s[i].value < v) && forall i :: 0 <= i < |t| ==> t[i].value < w
    ensures NormEntries(loc, s, v) == NormEntries(loc, t, w) <==> SameFields(loc, v, s, t)
    decreases v, 0, |s|
  {
    if s != [] && t != [] {
      SameIsNorm(loc, s[0].value, t[0].value);
      SameFieldsIsNorm(loc, s[1..], t[1..], v, w);
      ConsEqual(Member(loc.nfc(s[0].key), Norm(loc, s[0].value)), NormEntries(loc, s[1..], v),
                Member(loc.nfc(t[0].key), Norm(loc, t[0].value)), NormEntries(loc, t[1..], w));
      if |s| == |t| {
        assert forall i :: 0 < i < |s| ==> s[i] == s[1..][i - 1] && t[i] == t[1..][i - 1];
      }
    }
  }

  /** For all values: the same canonical text exactly for the same value in that sense. */
  lemma SameTextIff(loc: Locale, v: Value, w: Value)
    ensures Canonical(loc, v) == Canonical(loc, w) <==> Same(loc, v, w)
  {
    CanonicalExact(loc, v, w);
    SameIsNorm(loc, v, w);
  }
}
