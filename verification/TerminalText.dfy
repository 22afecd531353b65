/** Terminal-safe escaping (`sanitize_text`, `has_unsafe_characters`) and a decoder that inverts it. */
module TerminalText {
  import opened Basics

  // Python text is a sequence of code points, lone surrogates included.
  type CodePoint = c: int | 0 <= c < 0x110000
  type Text = seq<CodePoint>

  const BACKSLASH: CodePoint := 0x5C
  const LOWER_X: CodePoint := 0x78
  const LOWER_U: CodePoint := 0x75
  const UPPER_U: CodePoint := 0x55

  predicate PrintableAscii(c: CodePoint) {
    0x20 <= c <= 0x7E
  }

  /**
   * `escaped(c)` stands for `unicodedata.category(c) in ESCAPED_CATEGORIES`. The Unicode database is not part of
   * this model; these are the only facts about it that the results use.
   */
  ghost predicate UnicodeCategories(escaped: CodePoint -> bool) {
    && (forall c: CodePoint | PrintableAscii(c) :: !escaped(c))
    && (forall c: CodePoint | 0xD800 <= c <= 0xDFFF :: escaped(c))
  }

  // ----- lower-case fixed-width hexadecimal, as in f"{value:04x}"

  function Digit(d: int): CodePoint
    requires 0 <= d < 16
  {
    if d < 10 then 0x30 + d else 0x61 + d - 10
  }

  function Power16(width: nat): nat {
    if width == 0 then 1 else 16 * Power16(width - 1)
  }

  function Hex(value: nat, width: nat): (t: Text)
    requires value < Power16(width)
    ensures |t| == width
  {
    if width == 0 then [] else Hex(value / 16, width - 1) + [Digit(value % 16)]
  }

  function DigitValue(c: CodePoint): Option<nat> {
    if 0x30 <= c <= 0x39 then Some(c - 0x30)
    else if 0x61 <= c <= 0x66 then Some(c - 0x61 + 10)
    else None
  }

  function HexValue(t: Text): Option<nat> {
    if t == [] then Some(0)
    else match (HexValue(t[..|t| - 1]), DigitValue(t[|t| - 1]))
      case (Some(high), Some(low)) => Some(16 * high + low)
      case _ => None
  }

  lemma {:induction false} HexRoundTrip(value: nat, width: nat)
    requires value < Power16(width)
    ensures HexValue(Hex(value, width)) == Some(value)
    ensures forall c | c in Hex(value, width) :: PrintableAscii(c)
  {
    if width > 0 {
      HexRoundTrip(value / 16, width - 1);
      var t := Hex(value, width);
      assert t[..|t| - 1] == Hex(value / 16, width - 1);
    }
  }

  // ----- the encoder

  function Piece(escaped: CodePoint -> bool, c: CodePoint): (t: Text)
    ensures t != []
  {
    if c == BACKSLASH then [BACKSLASH, BACKSLASH]
    else if 0xDC80 <= c <= 0xDCFF then assert Power16(2) == 256; [BACKSLASH, LOWER_X] + Hex(c - 0xDC00, 2)
    else if escaped(c) then
      if c < 0x80 then assert Power16(2) == 256; [BACKSLASH, LOWER_X] + Hex(c, 2)
      else if c <= 0xFFFF then assert Power16(4) == 0x10000; [BACKSLASH, LOWER_U] + Hex(c, 4)
      else assert Power16(8) == 0x1_0000_0000; [BACKSLASH, UPPER_U] + Hex(c, 8)
    else [c]
  }

  function Sanitized(escaped: CodePoint -> bool, text: Text): Text {
    if text == [] then [] else Sanitized(escaped, text[..|text| - 1]) + Piece(escaped, text[|text| - 1])
  }

  predicate FastPath(text: Text) {
    forall c | c in text :: PrintableAscii(c) && c != BACKSLASH
  }

  lemma PlainPiece(escaped: CodePoint -> bool, c: CodePoint)
    requires UnicodeCategories(escaped) && PrintableAscii(c) && c != BACKSLASH
    ensures Piece(escaped, c) == [c]
  {}

  lemma {:induction false} FastPathAgrees(escaped: CodePoint -> bool, text: Text)
    requires UnicodeCategories(escaped) && FastPath(text)
    ensures Sanitized(escaped, text) == text
  {
    if text != [] {
      var init, c := text[..|text| - 1], text[|text| - 1];
      assert text == init + [c];
      PlainPiece(escaped, c);
      hide Piece;
      FastPathAgrees(escaped, init);
    }
  }

  predicate HasUnsafeCharacters(escaped: CodePoint -> bool, text: Text) {
    exists c | c in text :: escaped(c)
  }

  /** Nothing that could drive a terminal survives. */
  lemma {:induction false} OutputIsSafe(escaped: CodePoint -> bool, text: Text)
    requires UnicodeCategories(escaped)
    ensures !HasUnsafeCharacters(escaped, Sanitized(escaped, text))
  {
    if text != [] {
      OutputIsSafe(escaped, text[..|text| - 1]);
      PieceIsSafe(escaped, text[|text| - 1]);
    }
  }

  lemma PieceIsSafe(escaped: CodePoint -> bool, c: CodePoint)
    requires UnicodeCategories(escaped)
    ensures forall x | x in Piece(escaped, c) :: !escaped(x)
  {
    assert Power16(2) == 256 && Power16(4) == 0x10000 && Power16(8) == 0x1_0000_0000;
    if 0xDC80 <= c <= 0xDCFF {
      HexRoundTrip(c - 0xDC00, 2);
    } else if escaped(c) {
      if c < 0x80 { HexRoundTrip(c, 2); } else if c <= 0xFFFF { HexRoundTrip(c, 4); } else { HexRoundTrip(c, 8); }
    }
  }

  // ----- the decoder

  /** The first encoded character of `t` and the number of code points it takes. */
  function DecodeOne(t: Text): Option<(CodePoint, nat)>
    requires t != []
  {
    if t[0] != BACKSLASH then Some((t[0], 1))
    else if |t| >= 2 && t[1] == BACKSLASH then Some((BACKSLASH, 2))
    else if |t| >= 4 && t[1] == LOWER_X then
      match HexValue(t[2..4])
      case Some(v) => if v < 0x80 then Some((v, 4)) else if v < 0x100 then Some((0xDC00 + v, 4)) else None
      case None => None
    else if |t| >= 6 && t[1] == LOWER_U then
      match HexValue(t[2..6])
      case Some(v) => if v < 0x110000 then Some((v, 6)) else None
      case None => None
    else if |t| >= 10 && t[1] == UPPER_U then
      match HexValue(t[2..10])
      case Some(v) => if v < 0x110000 then Some((v, 10)) else None
      case None => None
    else None
  }

  function Decode(t: Text): Option<Text>
    decreases |t|
  {
    if t == [] then Some([])
    else match DecodeOne(t)
      case None => None
      case Some((c, n)) =>
        if n > |t| then None
        else match Decode(t[n..])
          case None => None
          case Some(rest) => Some([c] + rest)
  }

  lemma DecodePiece(escaped: CodePoint -> bool, c: CodePoint, rest: Text)
    ensures DecodeOne(Piece(escaped, c) + rest) == Some((c, |Piece(escaped, c)|))
  {
    var t := Piece(escaped, c) + rest;
    assert Power16(2) == 256 && Power16(4) == 0x10000 && Power16(8) == 0x1_0000_0000;
    if 0xDC80 <= c <= 0xDCFF {
      HexRoundTrip(c - 0xDC00, 2);
      assert t[2..4] == Hex(c - 0xDC00, 2);
    } else if c != BACKSLASH && escaped(c) {
      if c < 0x80 {
        HexRoundTrip(c, 2);
        assert t[2..4] == Hex(c, 2);
      } else if c <= 0xFFFF {
        HexRoundTrip(c, 4);
        assert t[2..6] == Hex(c, 4);
      } else {
        HexRoundTrip(c, 8);
        assert t[2..10] == Hex(c, 8);
      }
    }
  }

  lemma {:induction false} SanitizedCons(escaped: CodePoint -> bool, c: CodePoint, text: Text)
    ensures Sanitized(escaped, [c] + text) == Piece(escaped, c) + Sanitized(escaped, text)
  {
    hide Piece;
    var whole := [c] + text;
    if text == [] {
      assert whole[..|whole| - 1] == [];
    } else {
      var init := text[..|text| - 1];
      assert whole[..|whole| - 1] == [c] + init;
      SanitizedCons(escaped, c, init);
    }
  }

  /** Escaping loses nothing: the decoder recovers every text, whatever the categories are. */
  lemma {:induction false} RoundTrip(escaped: CodePoint -> bool, text: Text)
    ensures Decode(Sanitized(escaped, text)) == Some(text)
    decreases |text|
  {
    if text != [] {
      var c, rest := text[0], text[1..];
      assert text == [c] + rest;
      SanitizedCons(escaped, c, rest);
      DecodePiece(escaped, c, Sanitized(escaped, rest));
      RoundTrip(escaped, rest);
      var t := Sanitized(escaped, text);
      assert t[|Piece(escaped, c)|..] == Sanitized(escaped, rest);
    }
  }

  /** Two texts that print alike are the same text. */
  lemma Injective(escaped: CodePoint -> bool, a: Text, b: Text)
    requires Sanitized(escaped, a) == Sanitized(escaped, b)
    ensures a == b
  {
    RoundTrip(escaped, a);
    RoundTrip(escaped, b);
  }

  /** The texts left as they are: exactly those with nothing unsafe and no backslash. */
  lemma {:induction false} FixedPoints(escaped: CodePoint -> bool, text: Text)
    requires UnicodeCategories(escaped)
    ensures Sanitized(escaped, text) == text <==> !HasUnsafeCharacters(escaped, text) && BACKSLASH !in text
    decreases |text|
  {
    if text != [] {
      var c, rest := text[0], text[1..];
      assert text == [c] + rest;
      SanitizedCons(escaped, c, rest);
      FixedPoints(escaped, rest);
      Lengthens(escaped, rest);
      if |Piece(escaped, c)| > 1 {
        assert c == BACKSLASH || escaped(c);
      } else {
        assert Piece(escaped, c) == [c];
        assert c != BACKSLASH && !escaped(c);
        assert Sanitized(escaped, text)[1..] == Sanitized(escaped, rest);
      }
    }
  }

  lemma {:induction false} Lengthens(escaped: CodePoint -> bool, text: Text)
    ensures |Sanitized(escaped, text)| >= |text|
  {
    if text != [] { Lengthens(escaped, text[..|text| - 1]); }
  }

  // ----- how long the escapes are

  predicate LowerHex(c: CodePoint) {
    0x30 <= c <= 0x39 || 0x61 <= c <= 0x66
  }

  /** The escape of one character: a backslash doubled, two digits for a byte, four or eight for a code point. */
  function Width(escaped: CodePoint -> bool, c: CodePoint): nat {
    if c == BACKSLASH then 2
    else if 0xDC80 <= c <= 0xDCFF || (escaped(c) && c < 0x80) then 4
    else if escaped(c) && c <= 0xFFFF then 6
    else if escaped(c) then 10
    else 1
  }

  function WidthOf(escaped: CodePoint -> bool, text: Text): nat {
    if text == [] then 0 else WidthOf(escaped, text[..|text| - 1]) + Width(escaped, text[|text| - 1])
  }

  lemma {:induction false} HexDigits(value: nat, width: nat)
    requires value < Power16(width)
    ensures forall d | d in Hex(value, width) :: LowerHex(d)
  {
    if width > 0 { HexDigits(value / 16, width - 1); }
  }

  /** An escape has its width, starts with a backslash, spells the character in lower-case digits and nothing else. */
  lemma PieceShape(escaped: CodePoint -> bool, c: CodePoint)
    ensures
      var t := Piece(escaped, c);
      && |t| == Width(escaped, c) && (|t| == 1 ==> t == [c]) && (|t| > 1 ==> t[0] == BACKSLASH)
      && (|t| > 2 ==> forall d | d in t[2..] :: LowerHex(d)) && DecodeOne(t) == Some((c, |t|))
  {
    DecodePiece(escaped, c, []);
    assert Piece(escaped, c) + [] == Piece(escaped, c);
    assert Power16(2) == 256 && Power16(4) == 0x10000 && Power16(8) == 0x1_0000_0000;
    if 0xDC80 <= c <= 0xDCFF {
      HexDigits(c - 0xDC00, 2);
    } else if c != BACKSLASH && escaped(c) {
      if c < 0x80 { HexDigits(c, 2); } else if c <= 0xFFFF { HexDigits(c, 4); } else { HexDigits(c, 8); }
    }
  }

  lemma {:induction false} SanitizedWidth(escaped: CodePoint -> bool, text: Text)
    ensures |Sanitized(escaped, text)| == WidthOf(escaped, text)
  {
    hide Piece, Width;
    if text != [] {
      SanitizedWidth(escaped, text[..|text| - 1]);
      PieceShape(escaped, text[|text| - 1]);
    }
  }

  /** `sanitize_text`, with its early return and its loop over the characters. */
  method Sanitize(escaped: CodePoint -> bool, text: Text) returns (safe: Text)
    requires UnicodeCategories(escaped)
    ensures safe == Sanitized(escaped, text)
    ensures Decode(safe) == Some(text) && !HasUnsafeCharacters(escaped, safe) && |safe| == WidthOf(escaped, text)
  {
    RoundTrip(escaped, text);
    OutputIsSafe(escaped, text);
    SanitizedWidth(escaped, text);
    hide Decode, HasUnsafeCharacters, WidthOf, Piece;
    if FastPath(text) {
      FastPathAgrees(escaped, text);
      return text;
    }
    safe := [];
    for i := 0 to |text|
      invariant safe == Sanitized(escaped, text[..i])
    {
      assert text[..i + 1][..i] == text[..i];
      safe := safe + Piece(escaped, text[i]);
    }
    assert text[..|text|] == text;
  }
}
