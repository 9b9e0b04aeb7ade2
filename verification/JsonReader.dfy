// A reader of JSON texts without white space (RFC 8259), and that it reads a canonical text back as what was printed.
module JsonReader {
  import opened JsText
  import opened JsNumbers
  import opened JsonStrings
  import opened CanonicalJson

  datatype Read<T> = Bad | Read(value: T, rest: Text)

  // ---- Strings (section 7 of RFC 8259) ----

  /** What the letter of a two-unit escape stands for; none for any other letter. */
  function Unescaped(letter: CodeUnit): Read<CodeUnit> {
    if letter == '"' as int || letter == '\\' as int || letter == '/' as int then Read(letter, [])
    else if letter == 'b' as int then Read(0x08, [])
    else if letter == 'f' as int then Read(0x0C, [])
    else if letter == 'n' as int then Read(0x0A, [])
    else if letter == 'r' as int then Read(0x0D, [])
    else if letter == 't' as int then Read(0x09, [])
    else Bad
  }

  /** The value of a hexadecimal digit, in either case. */
  function HexValue(u: CodeUnit): (r: nat)
    ensures r <= 16
  {
    if '0' as int <= u <= '9' as int then u - '0' as int
    else if 'a' as int <= u <= 'f' as int then u - 'a' as int + 10
    else if 'A' as int <= u <= 'F' as int then u - 'A' as int + 10
    else 16
  }

  function ReadHex4(t: Text): Read<CodeUnit> {
    if |t| < 4 || exists i :: 0 <= i < 4 && HexValue(t[i]) == 16 then Bad
    else Read(HexValue(t[0]) * 4096 + HexValue(t[1]) * 256 + HexValue(t[2]) * 16 + HexValue(t[3]), t[4..])
  }

  /** One unit of a string, escaped or not. */
  function ReadUnit(t: Text): (r: Read<CodeUnit>)
    ensures r.Read? ==> |r.rest| < |t|
  {
    if t == [] || t[0] < 0x20 || t[0] == '"' as int then Bad
    else if t[0] != '\\' as int then Read(t[0], t[1..])
    else if |t| == 1 then Bad
    else if t[1] == 'u' as int then ReadHex4(t[2..])
    else
      match Unescaped(t[1])
      case Bad => Bad
      case Read(u, _) => Read(u, t[2..])
  }

  /** The units up to the closing quote. */
  function ReadUnits(t: Text): (r: Read<Text>)
    ensures r.Read? ==> |r.rest| < |t|
    decreases |t|
  {
    if t == [] then Bad
    else if t[0] == '"' as int then Read([], t[1..])
    else
      match ReadUnit(t)
      case Bad => Bad
      case Read(u, after) =>
        match ReadUnits(after)
        case Bad => Bad
        case Read(s, rest) => Read([u] + s, rest)
  }

  lemma HexReads(u: CodeUnit, rest: Text)
    ensures ReadHex4(Hex4(u) + rest) == Read(u, rest)
  {
    var t := Hex4(u) + rest;
    assert t[..4] == Hex4(u) && t[4..] == rest;
    forall d: nat | d < 16 ensures HexValue(HexDigit(d)) == d {
    }
    var high, mid := u / 16 / 16, u / 16;
    assert high < 256 && mid % 16 < 16;
    assert u == high / 16 * 4096 + high % 16 * 256 + mid % 16 * 16 + u % 16;
  }

  lemma UnitReads(u: CodeUnit, rest: Text)
    ensures ReadUnit(EscapeUnit(u) + rest) == Read(u, rest)
  {
    var t := EscapeUnit(u) + rest;
    if HasShortEscape(u) {
      assert t[2..] == rest;
    } else if NeedsHex(u) {
      assert t == [BACKSLASH, 117] + (Hex4(u) + rest);
      assert t[2..] == Hex4(u) + rest;
      HexReads(u, rest);
    } else {
      assert t[1..] == rest;
    }
  }

  lemma OneMoreUnit(u: CodeUnit, t: Text, after: Text, s: Text, rest: Text)
    requires ReadUnit(t) == Read(u, after) && ReadUnits(after) == Read(s, rest)
    requires t != [] && t[0] != QUOTE
    ensures ReadUnits(t) == Read([u] + s, rest)
  {
  }

  lemma PairReads(lead: CodeUnit, trail: CodeUnit, after: Text, s: Text, rest: Text)
    requires IsLead(lead) && IsTrail(trail) && ReadUnits(after) == Read(s, rest)
    ensures ReadUnits([lead, trail] + after) == Read([lead, trail] + s, rest)
  {
    var t := [lead, trail] + after;
    assert t[1..] == [trail] + after && ([trail] + after)[1..] == after;
    OneMoreUnit(trail, [trail] + after, after, s, rest);
    OneMoreUnit(lead, t, [trail] + after, [trail] + s, rest);
    assert [lead] + ([trail] + s) == [lead, trail] + s;
  }

  /** A quoted string reads back as itself, with the text that follows it left over. */
  lemma {:induction false} StringReadsBack(s: Text, rest: Text)
    ensures ReadUnits(EscapeBefore(s, [QUOTE] + rest)) == Read(s, rest)
    decreases |s|
  {
    if s == [] {
      assert ([QUOTE] + rest)[1..] == rest;
    } else if StartsWithPair(s) {
      StringReadsBack(s[2..], rest);
      PairReads(s[0], s[1], EscapeBefore(s[2..], [QUOTE] + rest), s[2..], rest);
      assert [s[0], s[1]] + s[2..] == s;
    } else {
      StringReadsBack(s[1..], rest);
      var after := EscapeBefore(s[1..], [QUOTE] + rest);
      UnitReads(s[0], after);
      OneMoreUnit(s[0], EscapeUnit(s[0]) + after, after, s[1..], rest);
      assert [s[0]] + s[1..] == s;
    }
  }

  // ---- Surrogates ----

  predicate IsHighSurrogate(u: CodeUnit) {
    0xD800 <= u <= 0xDBFF
  }

  predicate IsLowSurrogate(u: CodeUnit) {
    0xDC00 <= u <= 0xDFFF
  }

  /** Surrogates come in pairs, so that the text has a UTF-8 form. */
  ghost predicate WellFormed(t: Text) {
    && (forall i :: 0 <= i < |t| && IsHighSurrogate(t[i]) ==> i + 1 < |t| && IsLowSurrogate(t[i + 1]))
    && forall i :: 0 <= i < |t| && IsLowSurrogate(t[i]) ==> i > 0 && IsHighSurrogate(t[i - 1])
  }

  lemma WellFormedConcat(a: Text, b: Text)
    requires WellFormed(a) && WellFormed(b)
    ensures WellFormed(a + b)
  {
    var t := a + b;
    forall i | 0 <= i < |t| && IsHighSurrogate(t[i]) ensures i + 1 < |t| && IsLowSurrogate(t[i + 1]) {
      assert i >= |a| ==> t[i] == b[i - |a|];
    }
    forall i | 0 <= i < |t| && IsLowSurrogate(t[i]) ensures i > 0 && IsHighSurrogate(t[i - 1]) {
      assert i >= |a| ==> t[i] == b[i - |a|];
    }
  }

  /** Whatever string is printed, lone surrogates included, what comes out is well-formed. */
  lemma {:induction false} EscapedIsWellFormed(s: Text, rest: Text)
    requires WellFormed(rest)
    ensures WellFormed(EscapeBefore(s, rest))
    decreases |s|
  {
    if s != [] {
      if StartsWithPair(s) {
        EscapedIsWellFormed(s[2..], rest);
        WellFormedConcat([s[0], s[1]], EscapeBefore(s[2..], rest));
      } else {
        EscapedIsWellFormed(s[1..], rest);
        WellFormedConcat(EscapeUnit(s[0]), EscapeBefore(s[1..], rest));
      }
    }
  }

  ghost predicate IsPlain(s: Text) {
    forall i :: 0 <= i < |s| ==> s[i] >= 32 && s[i] != '"' as int && s[i] != '\\' as int
  }

  /** A well-formed string without control units, quotes and backslashes is printed as it is. */
  lemma {:induction false} PlainStays(s: Text, rest: Text)
    requires WellFormed(s) && IsPlain(s)
    ensures EscapeBefore(s, rest) == s + rest
    decreases |s|
  {
    if s == [] {
      assert s + rest == rest;
    } else if StartsWithPair(s) {
      RestIsWellFormed(s, 2);
      PlainStays(s[2..], rest);
      assert [s[0], s[1]] + (s[2..] + rest) == s + rest;
    } else {
      RestIsWellFormed(s, 1);
      PlainStays(s[1..], rest);
      assert [s[0]] + (s[1..] + rest) == s + rest;
    }
  }

  lemma RestIsWellFormed(s: Text, k: nat)
    requires 0 < k <= |s| && WellFormed(s) && !IsHighSurrogate(s[k - 1])
    ensures WellFormed(s[k..])
  {
    var t := s[k..];
    forall i | 0 <= i < |t| && IsHighSurrogate(t[i]) ensures i + 1 < |t| && IsLowSurrogate(t[i + 1]) {
      assert t[i] == s[k + i];
    }
    forall i | 0 <= i < |t| && IsLowSurrogate(t[i]) ensures i > 0 && IsHighSurrogate(t[i - 1]) {
      assert t[i] == s[k + i];
    }
  }

  // ---- Numbers (section 6 of RFC 8259) ----

  predicate IsDigit(u: CodeUnit) {
    '0' as int <= u <= '9' as int
  }

  /** What is before the first mark, and after it. */
  function Before(t: Text, mark: CodeUnit): Text {
    if t == [] || t[0] == mark then [] else [t[0]] + Before(t[1..], mark)
  }

  function After(t: Text, mark: CodeUnit): Text {
    if t == [] then [] else if t[0] == mark then t[1..] else After(t[1..], mark)
  }

  function Digits(t: Text): seq<Digit> {
    seq(|t|, i requires 0 <= i < |t| => if IsDigit(t[i]) then t[i] - '0' as int else 0)
  }

  function ReadDecimal(t: Text): nat {
    if t == [] then 0 else ReadDecimal(t[..|t| - 1]) * 10 + Digits(t)[|t| - 1]
  }

  function ReadExponent(t: Text): int {
    if t == [] then 0
    else if t[0] == '-' as int then -(ReadDecimal(t[1..]) as int)
    else if t[0] == '+' as int then ReadDecimal(t[1..])
    else ReadDecimal(t)
  }

  /** 0.d1d2... * 10^point without its leading zeros, and then without its trailing ones. */
  function Leading(neg: bool, digits: seq<Digit>, point: int): Numeral {
    if digits == [] then Zero(false)
    else if digits[0] == 0 then Leading(neg, digits[1..], point - 1)
    else Trailing(neg, digits, point)
  }

  function Trailing(neg: bool, digits: seq<Digit>, point: int): Numeral
    requires digits != [] && digits[0] != 0
  {
    if digits[|digits| - 1] == 0 then Trailing(neg, digits[..|digits| - 1], point) else Finite(neg, digits, point)
  }

  /** int[.frac][e exponent] with a sign, as a number. */
  function ReadMagnitude(neg: bool, t: Text): Numeral {
    var mantissa, exponent := Before(t, 'e' as int), After(t, 'e' as int);
    var whole, fraction := Before(mantissa, '.' as int), After(mantissa, '.' as int);
    Leading(neg, Digits(whole) + Digits(fraction), |whole| + ReadExponent(exponent))
  }

  function ReadNumber(t: Text): Numeral {
    if t != [] && t[0] == '-' as int then ReadMagnitude(true, t[1..]) else ReadMagnitude(false, t)
  }

  lemma {:induction false} CutAt(a: Text, mark: CodeUnit, b: Text)
    requires mark !in a
    ensures Before(a + [mark] + b, mark) == a && After(a + [mark] + b, mark) == b
  {
    if a != [] {
      CutAt(a[1..], mark, b);
      assert (a + [mark] + b)[1..] == a[1..] + [mark] + b;
    }
  }

  lemma {:induction false} NoMark(a: Text, mark: CodeUnit)
    requires mark !in a
    ensures Before(a, mark) == a && After(a, mark) == []
  {
    if a != [] {
      NoMark(a[1..], mark);
    }
  }

  lemma DigitsBack(digits: seq<Digit>)
    ensures Digits(DigitText(digits)) == digits
    ensures forall u :: u in DigitText(digits) ==> IsDigit(u)
  {
  }

  lemma {:induction false} DecimalReads(n: nat)
    ensures ReadDecimal(DecimalText(n)) == n
  {
    var t := DecimalText(n);
    if n < 10 {
      assert ReadDecimal([]) == 0;
      assert t[..0] == [];
    } else {
      DecimalReads(n / 10);
      assert t[..|t| - 1] == DecimalText(n / 10);
    }
  }

  lemma ExponentReads(e: int)
    ensures ReadExponent(ExponentText(e)) == e
  {
    var t := ExponentText(e);
    DecimalReads(if e < 0 then -e else e);
    assert t[1..] == DecimalText(if e < 0 then -e else e);
  }

  lemma {:induction false} LeadingDrops(neg: bool, n: nat, digits: seq<Digit>, point: int)
    requires digits != [] && digits[0] != 0 && digits[|digits| - 1] != 0
    ensures Leading(neg, seq(n, _ => 0) + digits, point) == Finite(neg, digits, point - n)
  {
    var all: seq<Digit> := seq(n, _ => 0) + digits;
    if n == 0 {
      assert all == digits;
    } else {
      assert all[1..] == seq(n - 1, _ => 0) + digits;
      LeadingDrops(neg, n - 1, digits, point - 1);
    }
  }

  lemma {:induction false} TrailingDrops(neg: bool, n: nat, digits: seq<Digit>, point: int)
    requires digits != [] && digits[0] != 0 && digits[|digits| - 1] != 0
    ensures Trailing(neg, digits + seq(n, _ => 0), point) == Finite(neg, digits, point)
  {
    var all: seq<Digit> := digits + seq(n, _ => 0);
    if n == 0 {
      assert all == digits;
    } else {
      assert all[..|all| - 1] == digits + seq(n - 1, _ => 0);
      TrailingDrops(neg, n - 1, digits, point);
    }
  }

  ghost predicate ReadsAs(t: Text, digits: seq<Digit>, point: int) {
    forall neg :: ReadMagnitude(neg, t) == Finite(neg, digits, point)
  }

  lemma WholeReads(digits: seq<Digit>, point: int)
    requires digits != [] && digits[0] != 0 && digits[|digits| - 1] != 0 && FormOf(digits, point).Whole?
    ensures ReadsAs(Magnitude(digits, point), digits, point)
  {
    var t := Magnitude(digits, point);
    DigitsBack(digits);
    forall neg ensures ReadMagnitude(neg, t) == Finite(neg, digits, point) {
      DigitsRead(t, neg);
      assert Digits(t) == digits + seq(point - |digits|, _ => 0);
      TrailingDrops(neg, point - |digits|, digits, point);
    }
  }

  lemma DigitsRead(t: Text, neg: bool)
    requires DigitsOnly(t)
    ensures ReadMagnitude(neg, t) == Leading(neg, Digits(t), |t|)
  {
    NoMark(t, 'e' as int);
    NoMark(t, '.' as int);
    assert Digits(t) + Digits([]) == Digits(t);
  }

  /** A text without an exponent and with the fraction b. */
  lemma PointReads(a: Text, b: Text, neg: bool)
    requires EXPONENT !in a && EXPONENT !in b && POINT !in a
    ensures ReadMagnitude(neg, a + [POINT] + b) == Leading(neg, Digits(a) + Digits(b), |a|)
  {
    NoMark(a + [POINT] + b, 'e' as int);
    CutAt(a, POINT, b);
  }

  lemma FractionReads(digits: seq<Digit>, point: int)
    requires digits != [] && digits[0] != 0 && digits[|digits| - 1] != 0 && FormOf(digits, point).Fraction?
    ensures ReadsAs(Magnitude(digits, point), digits, point)
  {
    var a, b := DigitText(digits[..point]), DigitText(digits[point..]);
    DigitsBack(digits[..point]);
    DigitsBack(digits[point..]);
    assert digits[..point] + digits[point..] == digits;
    PointReadsAs(a, b, digits, point);
  }

  lemma PointReadsAs(a: Text, b: Text, digits: seq<Digit>, point: int)
    requires EXPONENT !in a && EXPONENT !in b && POINT !in a
    requires forall neg :: Leading(neg, Digits(a) + Digits(b), |a|) == Finite(neg, digits, point)
    ensures ReadsAs(a + [POINT] + b, digits, point)
  {
    forall neg ensures ReadMagnitude(neg, a + [POINT] + b) == Finite(neg, digits, point) {
      PointReads(a, b, neg);
    }
  }

  lemma ZerosRead(n: nat, digits: seq<Digit>)
    ensures Digits([ZERO]) + Digits(Zeros(n) + DigitText(digits)) == seq(n + 1, _ => 0) + digits
    ensures EXPONENT !in Zeros(n) + DigitText(digits)
  {
  }

  lemma SmallReads(digits: seq<Digit>, point: int)
    requires digits != [] && digits[0] != 0 && digits[|digits| - 1] != 0 && FormOf(digits, point).Small?
    ensures ReadsAs(Magnitude(digits, point), digits, point)
  {
    var b := Zeros(-point) + DigitText(digits);
    ZerosRead(-point, digits);
    forall neg ensures Leading(neg, Digits([ZERO]) + Digits(b), 1) == Finite(neg, digits, point) {
      LeadingDrops(neg, 1 - point, digits, 1);
    }
    PointReadsAs([ZERO], b, digits, point);
    assert Magnitude(digits, point) == [ZERO] + [POINT] + b;
  }

  lemma MantissaReads(digits: seq<Digit>)
    requires digits != []
    ensures var m := Mantissa(digits);
            |Before(m, '.' as int)| == 1 && Digits(Before(m, '.' as int)) + Digits(After(m, '.' as int)) == digits
  {
    MantissaUnits(digits);
    DigitsBack(digits);
    if |digits| == 1 {
      NoMark(Mantissa(digits), POINT);
      assert Digits(Mantissa(digits)) + Digits([]) == digits;
    } else {
      var a, b := DigitText(digits[..1]), DigitText(digits[1..]);
      DigitsBack(digits[..1]);
      DigitsBack(digits[1..]);
      CutAt(a, POINT, b);
      assert Digits(a) + Digits(b) == digits;
    }
  }

  lemma MarkedReads(m: Text, x: Text, digits: seq<Digit>, point: int)
    requires digits != [] && digits[0] != 0 && digits[|digits| - 1] != 0
    requires EXPONENT !in m && |Before(m, '.' as int)| == 1 && ReadExponent(x) == point - 1
    requires Digits(Before(m, '.' as int)) + Digits(After(m, '.' as int)) == digits
    ensures ReadsAs(m + [EXPONENT] + x, digits, point)
  {
    CutAt(m, EXPONENT, x);
  }

  lemma ScientificReads(digits: seq<Digit>, point: int)
    requires digits != [] && digits[0] != 0 && digits[|digits| - 1] != 0 && FormOf(digits, point).Scientific?
    ensures ReadsAs(Magnitude(digits, point), digits, point)
  {
    MantissaUnits(digits);
    MantissaReads(digits);
    ExponentReads(point - 1);
    MarkedReads(Mantissa(digits), ExponentText(point - 1), digits, point);
    assert Magnitude(digits, point) == Mantissa(digits) + [EXPONENT] + ExponentText(point - 1);
  }

  lemma MagnitudeReads(digits: seq<Digit>, point: int)
    requires digits != [] && digits[0] != 0 && digits[|digits| - 1] != 0
    ensures ReadsAs(Magnitude(digits, point), digits, point)
  {
    match FormOf(digits, point)
    case Whole => WholeReads(digits, point);
    case Fraction => FractionReads(digits, point);
    case Small => SmallReads(digits, point);
    case Scientific => ScientificReads(digits, point);
  }

  lemma ZeroReads()
    ensures ReadNumber([ZERO]) == Zero(false)
  {
    NoMark([ZERO], 'e' as int);
    NoMark([ZERO], '.' as int);
    assert Digits([ZERO]) + Digits([]) == [0];
    assert Leading(false, [0], 1) == Leading(false, [], 0);
  }

  lemma SignedReads(t: Text, neg: bool)
    requires t != [] && (neg <==> t[0] == MINUS)
    ensures ReadNumber(t) == ReadMagnitude(neg, t[(if neg then 1 else 0)..])
  {
    assert t[0..] == t;
  }

  lemma FiniteReadsBack(n: Number)
    requires n.Finite?
    ensures ReadNumber(NumberText(n)) == n
  {
    var u := Magnitude(n.digits, n.point);
    SignShows(n);
    SignedReads(NumberText(n), n.neg);
    MagnitudeReads(n.digits, n.point);
    SignedMagnitude(u, n);
  }

  lemma SignedMagnitude(u: Text, n: Number)
    requires n.Finite? && ReadsAs(u, n.digits, n.point)
    ensures ReadMagnitude(n.neg, u) == n
  {
  }

  /** The text of a finite number reads back as the number, negative zero as zero. */
  lemma NumberReadsBack(n: Number)
    requires n.Zero? || n.Finite?
    ensures ReadNumber(NumberText(n)) == PositiveZero(n)
  {
    if n.Zero? {
      ZeroReads();
    } else {
      FiniteReadsBack(n);
    }
  }

  // ---- Values ----

  predicate IsNumberPart(u: CodeUnit) {
    IsDigit(u) || u == '-' as int || u == '+' as int || u == '.' as int || u == 'e' as int
  }

  /** How many units a number may go on for. */
  function NumberLength(t: Text): (n: nat)
    ensures n <= |t|
  {
    if t == [] || !IsNumberPart(t[0]) then 0 else 1 + NumberLength(t[1..])
  }

  predicate Opens(t: Text, word: string) {
    |word| <= |t| && t[..|word|] == Ascii(word)
  }

  /** A value at the head of a text, with what follows it. */
  function ReadValue(t: Text): (r: Read<Tree>)
    ensures r.Read? ==> |r.rest| < |t|
    decreases |t|, 0
  {
    if t == [] then Bad
    else if Opens(t, "null") then Read(TNull, t[4..])
    else if Opens(t, "true") then Read(TBool(true), t[4..])
    else if Opens(t, "false") then Read(TBool(false), t[5..])
    else if t[0] == '"' as int then
      match ReadUnits(t[1..])
      case Bad => Bad
      case Read(s, rest) => Read(TString(s), rest)
    else if t[0] == '[' as int then
      match ReadItems(t[1..])
      case Bad => Bad
      case Read(items, rest) => Read(TArray(items), rest)
    else if t[0] == '{' as int then
      match ReadMembers(t[1..])
      case Bad => Bad
      case Read(members, rest) => Read(TObject(members), rest)
    else if NumberLength(t) > 0 then Read(TNumber(ReadNumber(t[..NumberLength(t)])), t[NumberLength(t)..])
    else Bad
  }

  /** The items of a list after its bracket, and those after one of them. */
  function ReadItems(t: Text): (r: Read<seq<Tree>>)
    ensures r.Read? ==> |r.rest| < |t|
    decreases |t|, 1
  {
    if t != [] && t[0] == ']' as int then Read([], t[1..])
    else
      match ReadValue(t)
      case Bad => Bad
      case Read(v, after) =>
        match ReadMoreItems(after)
        case Bad => Bad
        case Read(items, rest) => Read([v] + items, rest)
  }

  function ReadMoreItems(t: Text): (r: Read<seq<Tree>>)
    ensures r.Read? ==> |r.rest| < |t|
    decreases |t|, 1
  {
    if t == [] then Bad
    else if t[0] == ']' as int then Read([], t[1..])
    else if t[0] != ',' as int then Bad
    else
      match ReadValue(t[1..])
      case Bad => Bad
      case Read(v, after) =>
        match ReadMoreItems(after)
        case Bad => Bad
        case Read(items, rest) => Read([v] + items, rest)
  }

  function ReadMember(t: Text): (r: Read<Member>)
    ensures r.Read? ==> |r.rest| < |t|
    decreases |t|, 1
  {
    if t == [] || t[0] != '"' as int then Bad
    else
      match ReadUnits(t[1..])
      case Bad => Bad
      case Read(key, after) =>
        if after == [] || after[0] != ':' as int then Bad
        else
          match ReadValue(after[1..])
          case Bad => Bad
          case Read(v, rest) => Read(Member(key, v), rest)
  }

  function ReadMembers(t: Text): (r: Read<seq<Member>>)
    ensures r.Read? ==> |r.rest| < |t|
    decreases |t|, 2
  {
    if t != [] && t[0] == '}' as int then Read([], t[1..])
    else
      match ReadMember(t)
      case Bad => Bad
      case Read(m, after) =>
        match ReadMoreMembers(after)
        case Bad => Bad
        case Read(members, rest) => Read([m] + members, rest)
  }

  function ReadMoreMembers(t: Text): (r: Read<seq<Member>>)
    ensures r.Read? ==> |r.rest| < |t|
    decreases |t|, 2
  {
    if t == [] then Bad
    else if t[0] == '}' as int then Read([], t[1..])
    else if t[0] != ',' as int then Bad
    else
      match ReadMember(t[1..])
      case Bad => Bad
      case Read(m, after) =>
        match ReadMoreMembers(after)
        case Bad => Bad
        case Read(members, rest) => Read([m] + members, rest)
  }

  // ---- A rendered value reads back ----

  lemma {:induction false} NumberLengthIs(a: Text, rest: Text)
    requires forall i :: 0 <= i < |a| ==> IsNumberUnit(a[i])
    requires Ends(rest)
    ensures NumberLength(a + rest) == |a|
  {
    if a == [] {
      assert a + rest == rest;
    } else {
      NumberLengthIs(a[1..], rest);
      assert (a + rest)[1..] == a[1..] + rest;
    }
  }

  lemma WordReads(t: Tree, rest: Text)
    requires t.TNull? || t.TBool?
    ensures ReadValue(RenderBefore(t, rest)) == Read(t, rest)
  {
    var word := if t.TNull? then "null" else if t.b then "true" else "false";
    var u := RenderBefore(t, rest);
    assert Ascii("null") == NULL && Ascii("true") == TRUE && Ascii("false") == FALSE;
    assert u[..|word|] == Ascii(word) && u[|word|..] == rest;
    assert !t.TNull? ==> u[0] != 110;
    assert !t.TNull? && !t.b ==> u[0] != 116;
    assert Ascii("null")[0] == 110 && Ascii("true")[0] == 116;
  }

  lemma NumberIsNoWord(t: Text)
    requires t != [] && (48 <= t[0] < 58 || t[0] == MINUS)
    ensures !Opens(t, "null") && !Opens(t, "true") && !Opens(t, "false")
    ensures NumberLength(t) > 0 && ReadValue(t) == Read(TNumber(ReadNumber(t[..NumberLength(t)])), t[NumberLength(t)..])
  {
    assert Ascii("null")[0] == 110 && Ascii("true")[0] == 116 && Ascii("false")[0] == 102;
  }

  lemma NumberReads(n: Numeral, rest: Text)
    requires Ends(rest)
    ensures ReadValue(RenderBefore(TNumber(n), rest)) == Read(TNumber(n), rest)
  {
    var a := NumberText(n);
    var t := a + rest;
    NumberTextUnits(n);
    NumberLengthIs(a, rest);
    NumberIsNoWord(t);
    NumberReadsBack(n);
    assert t[..|a|] == a && t[|a|..] == rest;
  }

  lemma MarkIsNoWord(mark: CodeUnit, body: Text)
    requires mark != 110 && mark != 116 && mark != 102
    ensures var t := [mark] + body; !Opens(t, "null") && !Opens(t, "true") && !Opens(t, "false") && t[1..] == body
  {
    assert Ascii("null")[0] == 110 && Ascii("true")[0] == 116 && Ascii("false")[0] == 102;
  }

  /** A rendered value reads back as itself, with the text that follows it left over. */
  lemma {:induction false} ReadsBack(t: Tree, rest: Text)
    requires Ends(rest)
    ensures ReadValue(RenderBefore(t, rest)) == Read(t, rest)
    decreases t, 0
  {
    match t
    case TNull => WordReads(t, rest);
    case TBool(_) => WordReads(t, rest);
    case TNumber(n) => NumberReads(n, rest);
    case TString(s) =>
      MarkIsNoWord(QUOTE, EscapeBefore(s, [QUOTE] + rest));
      StringReadsBack(s, rest);
    case TArray(items) =>
      MarkIsNoWord(OPEN_ARRAY, ItemsBefore(items, [CLOSE_ARRAY] + rest));
      ItemsReadBack(items, rest);
    case TObject(members) =>
      MarkIsNoWord(OPEN_OBJECT, MembersBefore(members, [CLOSE_OBJECT] + rest));
      MembersReadBack(members, rest);
  }

  lemma {:induction false} ItemsReadBack(items: seq<Tree>, rest: Text)
    ensures ReadItems(ItemsBefore(items, [CLOSE_ARRAY] + rest)) == Read(items, rest)
    decreases items, 1
  {
    if items == [] {
      assert ([CLOSE_ARRAY] + rest)[1..] == rest;
    } else {
      var after := TailBefore(items[1..], [CLOSE_ARRAY] + rest);
      PartsOpenWith(items[1..], [], rest);
      OpensWith(items[0], after);
      ReadsBack(items[0], after);
      MoreItemsReadBack(items[1..], rest);
      assert [items[0]] + items[1..] == items;
    }
  }

  lemma {:induction false} MoreItemsReadBack(items: seq<Tree>, rest: Text)
    ensures ReadMoreItems(TailBefore(items, [CLOSE_ARRAY] + rest)) == Read(items, rest)
    decreases items, 1
  {
    if items == [] {
      assert ([CLOSE_ARRAY] + rest)[1..] == rest;
    } else {
      var after := TailBefore(items[1..], [CLOSE_ARRAY] + rest);
      var t := TailBefore(items, [CLOSE_ARRAY] + rest);
      assert t[1..] == RenderBefore(items[0], after);
      PartsOpenWith(items[1..], [], rest);
      ReadsBack(items[0], after);
      MoreItemsReadBack(items[1..], rest);
      assert [items[0]] + items[1..] == items;
    }
  }

  lemma {:induction false} MemberReadsBack(m: Member, rest: Text)
    requires Ends(rest)
    ensures ReadMember(MemberBefore(m, rest)) == Read(m, rest)
    decreases m, 1
  {
    var after := [COLON] + RenderBefore(m.value, rest);
    var t := MemberBefore(m, rest);
    assert t[1..] == EscapeBefore(m.key, [QUOTE] + after);
    StringReadsBack(m.key, after);
    assert after[1..] == RenderBefore(m.value, rest);
    ReadsBack(m.value, rest);
  }

  lemma {:induction false} MembersReadBack(members: seq<Member>, rest: Text)
    ensures ReadMembers(MembersBefore(members, [CLOSE_OBJECT] + rest)) == Read(members, rest)
    decreases members, 2
  {
    if members == [] {
      assert ([CLOSE_OBJECT] + rest)[1..] == rest;
    } else {
      var after := MemberTailBefore(members[1..], [CLOSE_OBJECT] + rest);
      PartsOpenWith([], members[1..], rest);
      PartsOpenWith([], members, rest);
      MemberReadsBack(members[0], after);
      MoreMembersReadBack(members[1..], rest);
      assert [members[0]] + members[1..] == members;
    }
  }

  lemma {:induction false} MoreMembersReadBack(members: seq<Member>, rest: Text)
    ensures ReadMoreMembers(MemberTailBefore(members, [CLOSE_OBJECT] + rest)) == Read(members, rest)
    decreases members, 2
  {
    if members == [] {
      assert ([CLOSE_OBJECT] + rest)[1..] == rest;
    } else {
      var after := MemberTailBefore(members[1..], [CLOSE_OBJECT] + rest);
      var t := MemberTailBefore(members, [CLOSE_OBJECT] + rest);
      assert t[1..] == MemberBefore(members[0], after);
      PartsOpenWith([], members[1..], rest);
      MemberReadsBack(members[0], after);
      MoreMembersReadBack(members[1..], rest);
      assert [members[0]] + members[1..] == members;
    }
  }

  /** The canonical text of a value is JSON, and reads back as the value's normal form. */
  lemma CanonicalReadsBack(loc: Locale, v: Value)
    ensures ReadValue(Canonical(loc, v)) == Read(Norm(loc, v), [])
  {
    CanonicalRenders(loc, v, []);
    assert Canonical(loc, v) + [] == Canonical(loc, v);
    ReadsBack(Norm(loc, v), []);
  }
}
