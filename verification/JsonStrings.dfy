// JSON.stringify of a string (QuoteJSONString, section 25.5.2.3 of ECMA-262; the escapes are those of
// section 7 of RFC 8259), and why a quoted string can be read back in one way only.
module JsonStrings {
  import opened JsText

  const QUOTE: CodeUnit := 34
  const BACKSLASH: CodeUnit := 92

  predicate IsLead(u: CodeUnit) {
    0xD800 <= u < 0xDC00
  }

  predicate IsTrail(u: CodeUnit) {
    0xDC00 <= u < 0xE000
  }

  /** The letter of a two-unit escape, for the seven units that have one. */
  function ShortEscape(u: CodeUnit): CodeUnit {
    if u == 8 then 98 else if u == 9 then 116 else if u == 10 then 110
    else if u == 12 then 102 else if u == 13 then 114 else u
  }

  predicate HasShortEscape(u: CodeUnit) {
    u == 8 || u == 9 || u == 10 || u == 12 || u == 13 || u == QUOTE || u == BACKSLASH
  }

  predicate NeedsHex(u: CodeUnit) {
    !HasShortEscape(u) && (u < 32 || IsLead(u) || IsTrail(u))
  }

  function HexDigit(d: nat): CodeUnit
    requires d < 16
  {
    if d < 10 then 48 + d else 87 + d
  }

  function Hex4(u: CodeUnit): (r: Text)
    ensures |r| == 4
  {
    var high, mid := u / 16 / 16, u / 16;
    [HexDigit(high / 16), HexDigit(high % 16), HexDigit(mid % 16), HexDigit(u % 16)]
  }

  lemma Hex4Injective(u: CodeUnit, v: CodeUnit)
    requires Hex4(u) == Hex4(v)
    ensures u == v
  {
  }

  predicate StartsWithPair(s: Text) {
    |s| >= 2 && IsLead(s[0]) && IsTrail(s[1])
  }

  /** The escape of one unit that is not part of a surrogate pair. */
  function EscapeUnit(u: CodeUnit): Text {
    if HasShortEscape(u) then [BACKSLASH, ShortEscape(u)]
    else if NeedsHex(u) then [BACKSLASH, 117] + Hex4(u)
    else [u]
  }

  /** The escaped string in front of the text that follows it. */
  function EscapeBefore(s: Text, rest: Text): Text {
    if s == [] then rest
    else if StartsWithPair(s) then [s[0], s[1]] + EscapeBefore(s[2..], rest)
    else EscapeUnit(s[0]) + EscapeBefore(s[1..], rest)
  }

  function QuotedBefore(s: Text, rest: Text): Text {
    [QUOTE] + EscapeBefore(s, [QUOTE] + rest)
  }

  lemma {:induction false} EscapeBeforeAppends(s: Text, rest: Text, more: Text)
    ensures EscapeBefore(s, rest) + more == EscapeBefore(s, rest + more)
  {
    if s != [] {
      if StartsWithPair(s) {
        EscapeBeforeAppends(s[2..], rest, more);
        assert EscapeBefore(s, rest) + more == [s[0], s[1]] + (EscapeBefore(s[2..], rest) + more);
      } else {
        EscapeBeforeAppends(s[1..], rest, more);
        assert EscapeBefore(s, rest) + more == EscapeUnit(s[0]) + (EscapeBefore(s[1..], rest) + more);
      }
    }
  }

  /** What the first piece of an escaped string can look like. */
  datatype Piece = End | Pair(lead: CodeUnit, trail: CodeUnit) | Single(u: CodeUnit)

  function FirstPiece(s: Text): Piece {
    if s == [] then End else if StartsWithPair(s) then Pair(s[0], s[1]) else Single(s[0])
  }

  function PieceText(p: Piece): Text {
    match p
    case End => [QUOTE]
    case Pair(a, b) => [a, b]
    case Single(u) => EscapeUnit(u)
  }

  predicate ValidPiece(p: Piece) {
    p.Pair? ==> IsLead(p.lead) && IsTrail(p.trail)
  }

  /** Pieces form a prefix code: equal texts that start with pieces start with the same piece. */
  lemma PieceDetermined(p: Piece, q: Piece, x: Text, y: Text)
    requires ValidPiece(p) && ValidPiece(q)
    requires PieceText(p) + x == PieceText(q) + y
    ensures p == q && x == y
  {
    var s := PieceText(p) + x;
    var t := PieceText(q) + y;
    assert s[0] == PieceText(p)[0] && t[0] == PieceText(q)[0];
    if s[0] == BACKSLASH {
      var u, v := p.u, q.u;
      assert s[1] == EscapeUnit(u)[1] && t[1] == EscapeUnit(v)[1];
      if NeedsHex(u) {
        assert s[2..6] == Hex4(u) && t[2..6] == Hex4(v);
        Hex4Injective(u, v);
      }
      assert u == v;
    } else if p.Pair? {
      assert s[1] == p.trail && t[1] == q.trail;
    }
    assert p == q;
    assert s[|PieceText(p)|..] == x && t[|PieceText(q)|..] == y;
  }

  function AfterPiece(s: Text): Text
    requires s != []
  {
    if StartsWithPair(s) then s[2..] else s[1..]
  }

  lemma EscapeByPieces(s: Text, rest: Text)
    ensures EscapeBefore(s, [QUOTE] + rest)
         == PieceText(FirstPiece(s)) + if s == [] then rest else EscapeBefore(AfterPiece(s), [QUOTE] + rest)
    ensures ValidPiece(FirstPiece(s))
  {
  }

  /** A quoted string is decoded uniquely, whatever text follows it. */
  lemma {:induction false} EscapeDetermined(s: Text, t: Text, x: Text, y: Text)
    requires EscapeBefore(s, [QUOTE] + x) == EscapeBefore(t, [QUOTE] + y)
    ensures s == t && x == y
    decreases |s|
  {
    EscapeByPieces(s, x);
    EscapeByPieces(t, y);
    var s1 := if s == [] then x else EscapeBefore(AfterPiece(s), [QUOTE] + x);
    var t1 := if t == [] then y else EscapeBefore(AfterPiece(t), [QUOTE] + y);
    PieceDetermined(FirstPiece(s), FirstPiece(t), s1, t1);
    if s != [] {
      EscapeDetermined(AfterPiece(s), AfterPiece(t), x, y);
      PutBack(s, t);
    }
  }

  lemma PutBack(s: Text, t: Text)
    requires s != [] && FirstPiece(s) == FirstPiece(t) && t != [] && AfterPiece(s) == AfterPiece(t)
    ensures s == t
  {
  }
}
