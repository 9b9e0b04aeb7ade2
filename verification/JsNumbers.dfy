// How JavaScript prints a finite number (Number::toString, section 6.1.6.1.20 of ECMA-262), with the
// number given by its shortest round-trip decimal: digits d1..dk and the position of the decimal point.
module JsNumbers {
  import opened JsText

  type Digit = d: int | 0 <= d < 10

  /** Finite numbers are Zero or (-1)^neg * 0.d1d2..dk * 10^point, with no leading or trailing zero digit. */
  datatype Raw =
    | NaN
    | Infinite(neg: bool)
    | Zero(neg: bool)
    | Finite(neg: bool, digits: seq<Digit>, point: int)

  predicate ValidNumber(n: Raw) {
    n.Finite? ==> n.digits != [] && n.digits[0] != 0 && n.digits[|n.digits| - 1] != 0
  }

  type Number = n: Raw | ValidNumber(n) witness NaN

  const ZERO: CodeUnit := 48
  const POINT: CodeUnit := 46
  const EXPONENT: CodeUnit := 101
  const PLUS: CodeUnit := 43
  const MINUS: CodeUnit := 45

  function DigitUnit(d: Digit): CodeUnit {
    48 + d
  }

  function DigitText(digits: seq<Digit>): (r: Text)
    ensures |r| == |digits|
    ensures forall i :: 0 <= i < |r| ==> r[i] == DigitUnit(digits[i])
  {
    seq(|digits|, i requires 0 <= i < |digits| => DigitUnit(digits[i]))
  }

  function Zeros(n: nat): (r: Text)
    ensures |r| == n && forall i :: 0 <= i < n ==> r[i] == ZERO
  {
    seq(n, _ => ZERO)
  }

  function DecimalText(n: nat): (r: Text)
    ensures r != [] && forall i :: 0 <= i < |r| ==> 48 <= r[i] < 58
  {
    if n < 10 then [DigitUnit(n)] else DecimalText(n / 10) + [DigitUnit(n % 10)]
  }

  function ExponentText(e: int): Text {
    if e < 0 then [MINUS] + DecimalText(-e) else [PLUS] + DecimalText(e)
  }

  function Magnitude(digits: seq<Digit>, point: int): Text
    requires digits != []
  {
    var k := |digits|;
    if k <= point <= 21 then DigitText(digits) + Zeros(point - k)
    else if 0 < point <= 21 then DigitText(digits[..point]) + [POINT] + DigitText(digits[point..])
    else if -6 < point <= 0 then [ZERO, POINT] + Zeros(-point) + DigitText(digits)
    else if k == 1 then DigitText(digits) + [EXPONENT] + ExponentText(point - 1)
    else DigitText(digits[..1]) + [POINT] + DigitText(digits[1..]) + [EXPONENT] + ExponentText(point - 1)
  }

  /** The text of a finite number; negative zero prints as zero. */
  function NumberText(n: Number): Text
    requires n.Zero? || n.Finite?
  {
    if n.Zero? then [ZERO]
    else (if n.neg then [MINUS] else []) + Magnitude(n.digits, n.point)
  }

  predicate IsNumberUnit(u: CodeUnit) {
    48 <= u < 58 || u == POINT || u == EXPONENT || u == PLUS || u == MINUS
  }

  predicate DigitsOnly(t: Text) {
    forall i :: 0 <= i < |t| ==> 48 <= t[i] < 58
  }

  lemma {:induction false} DecimalTextInjective(m: nat, n: nat)
    requires DecimalText(m) == DecimalText(n)
    ensures m == n
  {
    var s, t := DecimalText(m), DecimalText(n);
    if m >= 10 && n >= 10 {
      assert s[..|s| - 1] == DecimalText(m / 10) && t[..|t| - 1] == DecimalText(n / 10);
      DecimalTextInjective(m / 10, n / 10);
      assert s[|s| - 1] == DigitUnit(m % 10) && t[|t| - 1] == DigitUnit(n % 10);
    }
  }

  lemma DigitTextInjective(a: seq<Digit>, b: seq<Digit>)
    requires DigitText(a) == DigitText(b)
    ensures a == b
  {
  }

  datatype Form = Whole | Fraction | Small | Scientific

  function FormOf(digits: seq<Digit>, point: int): Form {
    if |digits| <= point <= 21 then Whole
    else if 0 < point <= 21 then Fraction
    else if -6 < point <= 0 then Small
    else Scientific
  }

  /** The mantissa of the scientific form. */
  function Mantissa(digits: seq<Digit>): Text
    requires digits != []
  {
    if |digits| == 1 then DigitText(digits) else DigitText(digits[..1]) + [POINT] + DigitText(digits[1..])
  }

  lemma ExponentUnits(e: int)
    ensures ExponentText(e) != []
    ensures forall u :: u in ExponentText(e) ==> IsNumberUnit(u) && u != EXPONENT && u != POINT
  {
  }

  /** Which form a text has can be read off the text: its first unit, and whether it has a point or an e. */
  ghost predicate Shows(t: Text, form: Form) {
    && t != []
    && (forall i :: 0 <= i < |t| ==> IsNumberUnit(t[i]))
    && t[0] != MINUS
    && (t[0] == ZERO <==> form.Small?)
    && (EXPONENT in t <==> form.Scientific?)
    && (form.Whole? ==> DigitsOnly(t))
    && (form.Fraction? ==> !DigitsOnly(t))
    && (form.Small? ==> |t| > 1)
  }

  lemma PlainFormShows(digits: seq<Digit>, point: int)
    requires digits != [] && digits[0] != 0 && !FormOf(digits, point).Scientific?
    ensures Shows(Magnitude(digits, point), FormOf(digits, point))
  {
    var t := Magnitude(digits, point);
    match FormOf(digits, point)
    case Whole =>
      assert t[0] == DigitUnit(digits[0]);
    case Fraction =>
      assert t == DigitText(digits[..point]) + [POINT] + DigitText(digits[point..]);
      assert t[0] == DigitUnit(digits[0]);
      assert t[point] == POINT;
    case Small =>
      assert t[0] == ZERO;
  }

  lemma ScientificShows(digits: seq<Digit>, point: int)
    requires digits != [] && digits[0] != 0 && FormOf(digits, point).Scientific?
    ensures Shows(Magnitude(digits, point), Scientific)
  {
    var t := Magnitude(digits, point);
    var mantissa, exponent := Mantissa(digits), ExponentText(point - 1);
    ExponentUnits(point - 1);
    assert t == mantissa + [EXPONENT] + exponent;
    assert t[0] == mantissa[0] == DigitUnit(digits[0]);
    assert t[|mantissa|] == EXPONENT;
    forall i | 0 <= i < |t| ensures IsNumberUnit(t[i]) {
      if i < |mantissa| {
        assert t[i] == mantissa[i];
      } else if i > |mantissa| {
        assert t[i] == exponent[i - |mantissa| - 1];
        assert exponent[i - |mantissa| - 1] in exponent;
      }
    }
  }

  lemma FormShows(digits: seq<Digit>, point: int)
    requires digits != [] && digits[0] != 0
    ensures Shows(Magnitude(digits, point), FormOf(digits, point))
  {
    if FormOf(digits, point).Scientific? {
      ScientificShows(digits, point);
    } else {
      PlainFormShows(digits, point);
    }
  }

  /** Stripping the trailing zeros recovers the digits of a whole number. */
  lemma WholeInjective(a: seq<Digit>, p: int, b: seq<Digit>, q: int)
    requires a != [] && a[|a| - 1] != 0 && b != [] && b[|b| - 1] != 0
    requires FormOf(a, p).Whole? && FormOf(b, q).Whole?
    requires Magnitude(a, p) == Magnitude(b, q)
    ensures a == b && p == q
  {
    var s, t := Magnitude(a, p), Magnitude(b, q);
    assert p == |s| == |t| == q;
    assert s[|a| - 1] == DigitUnit(a[|a| - 1]) && t[|b| - 1] == DigitUnit(b[|b| - 1]);
    assert forall i :: |a| <= i < p ==> s[i] == ZERO;
    assert forall i :: |b| <= i < q ==> t[i] == ZERO;
    assert |a| == |b|;
    assert s[..|a|] == DigitText(a) && t[..|b|] == DigitText(b);
    DigitTextInjective(a, b);
  }

  lemma FractionInjective(a: seq<Digit>, p: int, b: seq<Digit>, q: int)
    requires a != [] && b != []
    requires FormOf(a, p).Fraction? && FormOf(b, q).Fraction?
    requires Magnitude(a, p) == Magnitude(b, q)
    ensures a == b && p == q
  {
    CutAtMark(DigitText(a[..p]), DigitText(a[p..]), DigitText(b[..q]), DigitText(b[q..]), POINT);
    DigitTextInjective(a[..p], b[..q]);
    DigitTextInjective(a[p..], b[q..]);
    assert a == a[..p] + a[p..] && b == b[..q] + b[q..];
  }

  lemma SmallInjective(a: seq<Digit>, p: int, b: seq<Digit>, q: int)
    requires a != [] && a[0] != 0 && b != [] && b[0] != 0
    requires FormOf(a, p).Small? && FormOf(b, q).Small?
    requires Magnitude(a, p) == Magnitude(b, q)
    ensures a == b && p == q
  {
    var s, t := Magnitude(a, p), Magnitude(b, q);
    assert s[2 - p] == DigitUnit(a[0]) && t[2 - q] == DigitUnit(b[0]);
    assert forall i :: 2 <= i < 2 - p ==> s[i] == ZERO;
    assert forall i :: 2 <= i < 2 - q ==> t[i] == ZERO;
    assert p == q;
    assert s[2 - p..] == DigitText(a) && t[2 - q..] == DigitText(b);
    DigitTextInjective(a, b);
  }

  lemma MantissaUnits(digits: seq<Digit>)
    requires digits != []
    ensures EXPONENT !in Mantissa(digits)
    ensures POINT in Mantissa(digits) <==> |digits| > 1
  {
  }

  lemma MantissaInjective(a: seq<Digit>, b: seq<Digit>)
    requires a != [] && b != [] && Mantissa(a) == Mantissa(b)
    ensures a == b
  {
    MantissaUnits(a);
    MantissaUnits(b);
    if |a| == 1 {
      DigitTextInjective(a, b);
    } else {
      CutAtMark(DigitText(a[..1]), DigitText(a[1..]), DigitText(b[..1]), DigitText(b[1..]), POINT);
      DigitTextInjective(a[..1], b[..1]);
      DigitTextInjective(a[1..], b[1..]);
      assert a == a[..1] + a[1..] && b == b[..1] + b[1..];
    }
  }

  lemma ScientificInjective(a: seq<Digit>, p: int, b: seq<Digit>, q: int)
    requires a != [] && b != []
    requires FormOf(a, p).Scientific? && FormOf(b, q).Scientific?
    requires Magnitude(a, p) == Magnitude(b, q)
    ensures a == b && p == q
  {
    MantissaUnits(a);
    MantissaUnits(b);
    var s, t := ExponentText(p - 1), ExponentText(q - 1);
    CutAtMark(Mantissa(a), s, Mantissa(b), t, EXPONENT);
    MantissaInjective(a, b);
    assert s[0] == t[0];
    if p - 1 < 0 {
      assert s[1..] == DecimalText(-(p - 1)) && t[1..] == DecimalText(-(q - 1));
      DecimalTextInjective(-(p - 1), -(q - 1));
    } else {
      assert s[1..] == DecimalText(p - 1) && t[1..] == DecimalText(q - 1);
      DecimalTextInjective(p - 1, q - 1);
    }
  }

  lemma MagnitudeInjective(a: seq<Digit>, p: int, b: seq<Digit>, q: int)
    requires a != [] && a[0] != 0 && a[|a| - 1] != 0
    requires b != [] && b[0] != 0 && b[|b| - 1] != 0
    requires Magnitude(a, p) == Magnitude(b, q)
    ensures a == b && p == q
  {
    FormShows(a, p);
    FormShows(b, q);
    match FormOf(a, p)
    case Whole => WholeInjective(a, p, b, q);
    case Fraction => FractionInjective(a, p, b, q);
    case Small => SmallInjective(a, p, b, q);
    case Scientific => ScientificInjective(a, p, b, q);
  }

  function PositiveZero(n: Number): Number {
    if n.Zero? then Zero(false) else n
  }

  lemma SignShows(n: Number)
    requires n.Finite?
    ensures NumberText(n) != [] && (n.neg <==> NumberText(n)[0] == MINUS)
    ensures NumberText(n)[(if n.neg then 1 else 0)..] == Magnitude(n.digits, n.point)
  {
  }

  lemma FiniteIsNotZero(n: Number)
    requires n.Finite?
    ensures NumberText(n) != [ZERO]
  {
    SignShows(n);
    FormShows(n.digits, n.point);
  }

  lemma FiniteTextInjective(m: Number, n: Number)
    requires m.Finite? && n.Finite? && NumberText(m) == NumberText(n)
    ensures m == n
  {
    SignShows(m);
    SignShows(n);
    MagnitudeInjective(m.digits, m.point, n.digits, n.point);
  }

  /** Two finite numbers print the same text exactly when they are equal, negative zero counting as zero. */
  lemma NumberTextInjective(m: Number, n: Number)
    requires (m.Zero? || m.Finite?) && (n.Zero? || n.Finite?)
    ensures NumberText(m) == NumberText(n) <==> PositiveZero(m) == PositiveZero(n)
  {
    if m.Finite? {
      FiniteIsNotZero(m);
    }
    if n.Finite? {
      FiniteIsNotZero(n);
    }
    if m.Finite? && n.Finite? && NumberText(m) == NumberText(n) {
      FiniteTextInjective(m, n);
    }
  }

  lemma NumberTextUnits(n: Number)
    requires n.Zero? || n.Finite?
    ensures NumberText(n) != []
    ensures forall i :: 0 <= i < |NumberText(n)| ==> IsNumberUnit(NumberText(n)[i])
    ensures 48 <= NumberText(n)[0] < 58 || NumberText(n)[0] == MINUS
  {
    if n.Finite? {
      FormShows(n.digits, n.point);
      FirstUnit(n.digits, n.point);
    }
  }

  lemma FirstUnit(digits: seq<Digit>, point: int)
    requires digits != []
    ensures Magnitude(digits, point) != [] && 48 <= Magnitude(digits, point)[0] < 58
  {
  }
}
