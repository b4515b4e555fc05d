/**
  The UTF-8 length of a UTF-16 text, counted without an encoder (packages/api-types/src/ai-credits.ts),
  against the encoding of section 3 of RFC 3629.
 */
module Utf8Length {

  /** A UTF-16 code unit. */
  type Unit = u: int | 0 <= u < 0x1_0000

  predicate High(u: int) { 0xD800 <= u <= 0xDBFF }

  predicate Low(u: int) { 0xDC00 <= u <= 0xDFFF }

  predicate Scalar(v: int) { 0 <= v <= 0x10_FFFF && !High(v) && !Low(v) }

  // ---------------------------------------------------------------- reference: decode UTF-16, encode UTF-8

  /** The characters of a text, each lone surrogate replaced by U+FFFD. */
  function Characters(units: seq<Unit>): seq<int>
  {
    if units == [] then []
    else if |units| >= 2 && High(units[0]) && Low(units[1]) then
      [0x1_0000 + (units[0] - 0xD800) * 0x400 + (units[1] - 0xDC00)] + Characters(units[2..])
    else
      [if High(units[0]) || Low(units[0]) then 0xFFFD else units[0]] + Characters(units[1..])
  }

  /** One character as bytes. */
  function Encode(v: int): seq<int>
  {
    if v < 0x80 then [v]
    else if v < 0x800 then [0xC0 + v / 0x40, 0x80 + v % 0x40]
    else if v < 0x1_0000 then [0xE0 + v / 0x1000, 0x80 + v / 0x40 % 0x40, 0x80 + v % 0x40]
    else [0xF0 + v / 0x4_0000, 0x80 + v / 0x1000 % 0x40, 0x80 + v / 0x40 % 0x40, 0x80 + v % 0x40]
  }

  function EncodeAll(characters: seq<int>): seq<int>
  {
    if characters == [] then [] else Encode(characters[0]) + EncodeAll(characters[1..])
  }

  /** The bytes a text has on the wire. */
  function Utf8(units: seq<Unit>): seq<int>
  {
    EncodeAll(Characters(units))
  }

  /** Reads one encoded character back. */
  function Decode(b: seq<int>): seq<int>
  {
    if |b| >= 1 && 0 <= b[0] < 0x80 then [b[0]]
    else if |b| >= 2 && 0xC0 <= b[0] < 0xE0 then [(b[0] - 0xC0) * 0x40 + (b[1] - 0x80)]
    else if |b| >= 3 && 0xE0 <= b[0] < 0xF0 then
      [(b[0] - 0xE0) * 0x1000 + (b[1] - 0x80) * 0x40 + (b[2] - 0x80)]
    else if |b| >= 4 && 0xF0 <= b[0] < 0xF8 then
      [(b[0] - 0xF0) * 0x4_0000 + (b[1] - 0x80) * 0x1000 + (b[2] - 0x80) * 0x40 + (b[3] - 0x80)]
    else []
  }

  /** The length a lead byte announces. */
  function Announced(lead: int): nat
  {
    if lead < 0x80 then 1 else if lead < 0xE0 then 2 else if lead < 0xF0 then 3 else 4
  }

  /** The reference is sound: bytes are bytes, the lead byte gives the length, and the character can be read back. */
  lemma EncodeRoundTrip(v: int)
    requires 0 <= v <= 0x10_FFFF
    ensures Decode(Encode(v)) == [v]
    ensures |Encode(v)| == Announced(Encode(v)[0])
    ensures forall b :: b in Encode(v) ==> 0 <= b < 0x100
  {
    SixBits(v);
  }

  /** Six bits at a time. */
  lemma SixBits(v: int)
    requires 0 <= v <= 0x10_FFFF
    ensures v / 0x1000 == v / 0x40 / 0x40 && v / 0x4_0000 == v / 0x1000 / 0x40
    ensures v == v / 0x40 * 0x40 + v % 0x40
    ensures v / 0x40 == v / 0x1000 * 0x40 + v / 0x40 % 0x40
    ensures v / 0x1000 == v / 0x4_0000 * 0x40 + v / 0x1000 % 0x40
  {
  }

  lemma {:induction false} CharactersAreScalars(units: seq<Unit>)
    ensures forall v :: v in Characters(units) ==> Scalar(v)
  {
    if units != [] {
      CharactersAreScalars(units[1..]);
      if |units| >= 2 { CharactersAreScalars(units[2..]); }
    }
  }

  /** A piece of a text: a character, or half of a surrogate pair on its own. */
  datatype Piece = Character(value: int) | Lone(surrogate: Unit)

  predicate ValidPiece(p: Piece)
  {
    match p case Character(v) => Scalar(v) case Lone(u) => High(u) || Low(u)
  }

  /** A character in UTF-16, as section 2.1 of RFC 2781 writes it. */
  function Units(p: Piece): seq<Unit>
    requires ValidPiece(p)
  {
    match p
    case Lone(u) => [u]
    case Character(v) =>
      if v < 0x1_0000 then [v] else [0xD800 + (v - 0x1_0000) / 0x400, 0xDC00 + (v - 0x1_0000) % 0x400]
  }

  /** Pieces of which no two halves meet. */
  ghost predicate ValidText(pieces: seq<Piece>)
  {
    && (forall i :: 0 <= i < |pieces| ==> ValidPiece(pieces[i]))
    && (forall i :: 0 < i < |pieces| ==>
          !(pieces[i - 1].Lone? && High(pieces[i - 1].surrogate) && pieces[i].Lone? && Low(pieces[i].surrogate)))
  }

  function AllUnits(pieces: seq<Piece>): seq<Unit>
    requires forall i :: 0 <= i < |pieces| ==> ValidPiece(pieces[i])
  {
    if pieces == [] then [] else Units(pieces[0]) + AllUnits(pieces[1..])
  }

  function Values(pieces: seq<Piece>): seq<int>
  {
    if pieces == [] then []
    else [if pieces[0].Character? then pieces[0].value else 0xFFFD] + Values(pieces[1..])
  }

  /** Characters written in UTF-16 are read back, each half on its own as U+FFFD. */
  lemma {:induction false} Utf16RoundTrip(pieces: seq<Piece>)
    requires ValidText(pieces)
    ensures Characters(AllUnits(pieces)) == Values(pieces)
  {
    if pieces != [] {
      Utf16RoundTrip(pieces[1..]);
      FirstPiece(pieces[0], AllUnits(pieces[1..]));
      if |pieces| > 1 {
        FirstUnit(pieces[1], AllUnits(pieces[2..]));
        assert pieces[1..][1..] == pieces[2..];
      }
    }
  }

  lemma FirstUnit(p: Piece, rest: seq<Unit>)
    requires ValidPiece(p)
    ensures var units := Units(p) + rest; units != [] && (Low(units[0]) <==> p.Lone? && Low(p.surrogate))
  {
  }

  lemma FirstPiece(p: Piece, rest: seq<Unit>)
    requires ValidPiece(p)
    ensures (p.Lone? && High(p.surrogate) && rest != [] && Low(rest[0]))
            || Characters(Units(p) + rest) == [if p.Character? then p.value else 0xFFFD] + Characters(rest)
  {
    var units := Units(p) + rest;
    if |Units(p)| == 2 {
      assert units[2..] == rest;
    } else {
      assert units[1..] == rest;
    }
  }

  // ---------------------------------------------------------------- the counter

  method Utf8ByteLength(text: seq<Unit>) returns (bytes: nat)
    ensures bytes == |Utf8(text)|
  {
    bytes := 0;
    var i := 0;
    while i < |text|
      invariant 0 <= i <= |text|
      invariant bytes + |Utf8(text[i..])| == |Utf8(text)|
    {
      var unit := text[i];
      NextCharacter(text[i..]);
      assert i + 1 < |text| ==> text[i..][1] == text[i + 1] && text[i..][2..] == text[i + 2..];
      if unit < 0x80 {
        bytes := bytes + 1;
      } else if unit < 0x800 {
        bytes := bytes + 2;
      } else if 0xD800 <= unit <= 0xDBFF {
        var next := if i + 1 < |text| then text[i + 1] else 0;
        if 0xDC00 <= next <= 0xDFFF {
          bytes := bytes + 4;
          i := i + 1;
        } else {
          bytes := bytes + 3;
        }
      } else {
        bytes := bytes + 3;
      }
      i := i + 1;
    }
  }

  predicate StartsPair(units: seq<Unit>)
  {
    |units| >= 2 && High(units[0]) && Low(units[1])
  }

  /** How the first character adds to the length. */
  lemma NextCharacter(units: seq<Unit>)
    requires units != []
    ensures |Utf8(units)| ==
            if StartsPair(units) then 4 + |Utf8(units[2..])|
            else (if units[0] < 0x80 then 1 else if units[0] < 0x800 then 2 else 3) + |Utf8(units[1..])|
  {
    var n := if StartsPair(units) then 2 else 1;
    var cs := Characters(units);
    assert cs == [cs[0]] + Characters(units[n..]);
    assert cs[1..] == Characters(units[n..]);
  }

  lemma EmptyText()
    ensures Utf8([]) == []
  {
  }

  lemma {:induction false} LengthBounds(units: seq<Unit>)
    ensures |units| <= |Utf8(units)| <= 3 * |units|
    decreases |units|
  {
    if units != [] {
      NextCharacter(units);
      LengthBounds(units[if StartsPair(units) then 2 else 1..]);
    }
  }

  /**
    The length is additive over concatenation, except that joining a high and a low surrogate into a pair
    turns three plus three bytes into four.
   */
  lemma {:induction false} LengthOfConcatenation(x: seq<Unit>, y: seq<Unit>)
    ensures |Utf8(x + y)| == |Utf8(x)| + |Utf8(y)|
            - (if x != [] && High(x[|x| - 1]) && y != [] && Low(y[0]) then 2 else 0)
    decreases |x|
  {
    hide Utf8;
    if x == [] {
      EmptyText();
      assert x + y == y;
    } else if |x| == 1 {
      NextCharacter(x);
      NextCharacter(x + y);
      assert (x + y)[1..] == y && x[1..] == [];
      EmptyText();
      if StartsPair(x + y) {
        NextCharacter(y);
        assert (x + y)[2..] == y[1..];
      }
    } else {
      var n := if StartsPair(x) then 2 else 1;
      NextCharacter(x);
      NextCharacter(x + y);
      assert (x + y)[n..] == x[n..] + y;
      LengthOfConcatenation(x[n..], y);
    }
  }
}
