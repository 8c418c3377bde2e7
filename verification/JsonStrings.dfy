// The string literals of section 7 of RFC 8259, and what the parser makes of them
// (lib/writer/parse.c): it reads every one of them, and nothing else.
module JsonStrings {
  import opened Wrappers
  import opened Bytes
  import opened Utf8
  import opened Escape

  // ---------- The standard ----------

  // A character of a literal: itself, or one of the three kinds of escapes. A character that
  // is not ASCII consists of several bytes here.
  datatype Piece =
    | Unescaped(c: byte)
    | Short(letter: byte)
    | Unicode(code: nat, hex: bytes)
    | Surrogates(high: nat, highHex: bytes, low: nat, lowHex: bytes)

  // The two-character escapes: quotation mark, reverse solidus, solidus, b, f, n, r and t.
  function ShortEscape(letter: byte): Option<byte> {
    match letter
    case 0x22 => Some(0x22)
    case 0x5C => Some(0x5C)
    case 0x2F => Some(0x2F)
    case 0x62 => Some(0x08)
    case 0x66 => Some(0x0C)
    case 0x6E => Some(0x0A)
    case 0x72 => Some(0x0D)
    case 0x74 => Some(0x09)
    case _ => None
  }

  // A hexadecimal digit, in upper or lower case.
  predicate HexFor(c: byte, v: nat) {
    if v < 10 then c == 0x30 + v else v < 16 && (c == 0x41 + (v - 10) || c == 0x61 + (v - 10))
  }

  predicate Spells(hex: bytes, code: nat) {
    && |hex| == 4 && code < 0x10000
    && HexFor(hex[0], code / 0x1000) && HexFor(hex[1], code / 0x100 % 0x10)
    && HexFor(hex[2], code / 0x10 % 0x10) && HexFor(hex[3], code % 0x10)
  }

  // The first half of a surrogate pair does not stand alone.
  predicate PieceOk(p: Piece) {
    match p
    case Unescaped(c) => c >= 0x20 && c != 0x22 && c != 0x5C
    case Short(letter) => ShortEscape(letter).Some?
    case Unicode(code, hex) => Spells(hex, code) && !(0xD800 <= code < 0xDC00)
    case Surrogates(high, highHex, low, lowHex) =>
      Spells(highHex, high) && Spells(lowHex, low) && 0xD800 <= high < 0xDC00 && 0xDC00 <= low < 0xE000
  }

  predicate PiecesOk(pieces: seq<Piece>) {
    forall i :: 0 <= i < |pieces| ==> PieceOk(pieces[i])
  }

  function PieceText(p: Piece): (s: bytes)
    requires PieceOk(p)
    ensures s != []
  {
    match p
    case Unescaped(c) => [c]
    case Short(letter) => [0x5C, letter]
    case Unicode(_, hex) => [0x5C, 0x75] + hex
    case Surrogates(_, highHex, _, lowHex) => [0x5C, 0x75] + highHex + [0x5C, 0x75] + lowHex
  }

  // What the parser takes it for: a pair of surrogates for 0x10000 less than what it stands for.
  function PieceValue(p: Piece): (s: bytes)
    requires PieceOk(p)
  {
    match p
    case Unescaped(c) => [c]
    case Short(letter) => [ShortEscape(letter).value]
    case Unicode(code, _) => EncodeScalar(code)
    case Surrogates(high, _, low, _) => EncodeScalar(SurrogatePair(high, low) - 0x10000)
  }

  function PiecesText(pieces: seq<Piece>): bytes
    requires PiecesOk(pieces)
  {
    if pieces == [] then [] else PieceText(pieces[0]) + PiecesText(pieces[1..])
  }

  function PiecesValue(pieces: seq<Piece>): bytes
    requires PiecesOk(pieces)
  {
    if pieces == [] then [] else PieceValue(pieces[0]) + PiecesValue(pieces[1..])
  }

  // ---------- Hexadecimal digits ----------

  lemma {:induction false} HexForMeans(c: byte, v: nat)
    ensures v < 16 ==> (HexFor(c, v) <==> HexValue(c) == Some(v))
    ensures HexFor(c, v) ==> v < 16
  {
  }

  lemma {:induction false} FourDigits(a: nat, b: nat, c: nat, d: nat)
    requires a < 16 && b < 16 && c < 16 && d < 16
    ensures var v := 16 * (16 * (16 * a + b) + c) + d;
      v < 0x10000 && v / 0x1000 == a && v / 0x100 % 0x10 == b && v / 0x10 % 0x10 == c && v % 0x10 == d
  {
  }

  lemma {:induction false} HexNumberOfFour(hex: bytes)
    requires |hex| == 4
    ensures HexNumber(hex) ==
      if HexValue(hex[0]).Some? && HexValue(hex[1]).Some? && HexValue(hex[2]).Some? && HexValue(hex[3]).Some? then
        Some(16 * (16 * (16 * HexValue(hex[0]).value + HexValue(hex[1]).value) + HexValue(hex[2]).value)
             + HexValue(hex[3]).value)
      else None
  {
    hide HexValue;
    assert hex[..3][..2] == hex[..2] && hex[..2][..1] == hex[..1] && hex[..1][..0] == [];
    assert HexNumber([]) == Some(0);
    assert HexNumber(hex[..1]) == HexValue(hex[0]);
    assert HexNumber(hex[..2]).Some? <==> HexValue(hex[0]).Some? && HexValue(hex[1]).Some?;
    assert HexNumber(hex[..3]).Some? <==> HexNumber(hex[..2]).Some? && HexValue(hex[2]).Some?;
  }

  lemma {:induction false} HexIsBelow(c: byte)
    ensures HexValue(c).Some? ==> HexValue(c).value < 16
  {
  }

  // Four digits spell the number that the parser reads.
  lemma {:induction false} SpellsMeans(hex: bytes, code: nat)
    requires |hex| == 4
    ensures Spells(hex, code) <==> HexNumber(hex) == Some(code)
  {
    hide HexNumber, HexValue, HexFor;
    HexNumberOfFour(hex);
    HexIsBelow(hex[0]);
    HexIsBelow(hex[1]);
    HexIsBelow(hex[2]);
    HexIsBelow(hex[3]);
    if HexNumber(hex) == Some(code) {
      FourDigits(HexValue(hex[0]).value, HexValue(hex[1]).value, HexValue(hex[2]).value, HexValue(hex[3]).value);
    }
    if code < 0x10000 {
      DigitsOfFour(code);
    }
    HexForMeans(hex[0], code / 0x1000);
    HexForMeans(hex[1], code / 0x100 % 0x10);
    HexForMeans(hex[2], code / 0x10 % 0x10);
    HexForMeans(hex[3], code % 0x10);
  }

  lemma {:induction false} DigitsOfFour(v: nat)
    requires v < 0x10000
    ensures v == 16 * (16 * (16 * (v / 0x1000) + v / 0x100 % 0x10) + v / 0x10 % 0x10) + v % 0x10
    ensures v / 0x1000 < 16 && v / 0x100 % 0x10 < 16 && v / 0x10 % 0x10 < 16 && v % 0x10 < 16
  {
  }

  // ---------- Every literal is read ----------

  lemma {:induction false} ByteOf(buf: bytes, pos: nat, s: bytes, i: nat)
    requires At(buf, pos, s) && i < |s|
    ensures pos + |s| <= |buf| && buf[pos + i] == s[i]
  {
    assert buf[pos..pos + |s|][i] == buf[pos + i];
  }

  lemma {:induction false} HexAt(buf: bytes, pos: nat, s: bytes, i: nat, hex: bytes)
    requires At(buf, pos, s) && i + 4 <= |s| && s[i..i + 4] == hex
    ensures pos + |s| <= |buf| && buf[pos + i..pos + i + 4] == hex
  {
    var part := buf[pos + i..pos + i + 4];
    forall j | 0 <= j < 4
      ensures part[j] == hex[j]
    {
      assert part[j] == buf[pos + (i + j)] == buf[pos..pos + |s|][i + j] == s[i + j];
    }
  }

  lemma {:induction false} ShortReads(letter: byte, buf: bytes, pos: nat)
    requires ShortEscape(letter).Some? && At(buf, pos, [0x5C, letter])
    ensures pos < |buf| && EscapeAt(buf, pos) == Some(([ShortEscape(letter).value], 2))
  {
    hide At;
    ByteOf(buf, pos, [0x5C, letter], 0);
    ByteOf(buf, pos, [0x5C, letter], 1);
  }

  lemma {:induction false} UnicodeReads(code: nat, hex: bytes, buf: bytes, pos: nat)
    requires Spells(hex, code) && !(0xD800 <= code < 0xDC00) && At(buf, pos, [0x5C, 0x75] + hex)
    ensures pos < |buf| && EscapeAt(buf, pos) == Some((EncodeScalar(code), 6))
  {
    hide At, HexNumber, Spells, EncodeScalar;
    var s := [0x5C, 0x75] + hex;
    SpellsFour(hex, code);
    SpellsMeans(hex, code);
    ByteOf(buf, pos, s, 0);
    ByteOf(buf, pos, s, 1);
    HexAt(buf, pos, s, 2, hex);
  }

  lemma {:induction false} SpellsFour(hex: bytes, code: nat)
    requires Spells(hex, code)
    ensures |hex| == 4 && code < 0x10000
  {
  }

  lemma {:induction false} SurrogatesRead(p: Piece, buf: bytes, pos: nat)
    requires p.Surrogates? && PieceOk(p) && At(buf, pos, PieceText(p))
    ensures pos < |buf| && EscapeAt(buf, pos) == Some((PieceValue(p), 12))
  {
    hide At, HexNumber, Spells, EncodeScalar, HexFor;
    var s := PieceText(p);
    SpellsFour(p.highHex, p.high);
    SpellsFour(p.lowHex, p.low);
    SpellsMeans(p.highHex, p.high);
    SpellsMeans(p.lowHex, p.low);
    ByteOf(buf, pos, s, 0);
    ByteOf(buf, pos, s, 1);
    ByteOf(buf, pos, s, 6);
    ByteOf(buf, pos, s, 7);
    HexAt(buf, pos, s, 2, p.highHex);
    HexAt(buf, pos, s, 8, p.lowHex);
    SurrogatesMisread(p.high, p.low);
  }

  lemma {:induction false} PieceReads(p: Piece, buf: bytes, pos: nat)
    requires PieceOk(p) && At(buf, pos, PieceText(p))
    ensures Unescape(buf, pos) == Prepend(PieceValue(p), Unescape(buf, pos + |PieceText(p)|))
  {
    hide At, EscapeAt, EncodeScalar, Spells;
    ByteOf(buf, pos, PieceText(p), 0);
    match p
    case Unescaped(_) =>
    case Short(letter) => ShortReads(letter, buf, pos);
    case Unicode(code, hex) => SpellsFour(hex, code); UnicodeReads(code, hex, buf, pos);
    case Surrogates(high, highHex, low, lowHex) =>
      SpellsFour(highHex, high);
      SpellsFour(lowHex, low);
      SurrogatesRead(p, buf, pos);
  }

  // What stands between quotation marks is read as the text that its pieces make up.
  lemma {:induction false} PiecesRead(pieces: seq<Piece>, buf: bytes, pos: nat)
    requires PiecesOk(pieces) && At(buf, pos, PiecesText(pieces) + [0x22])
    ensures Unescape(buf, pos) == Some((PiecesValue(pieces), pos + |PiecesText(pieces)| + 1))
  {
    hide At, PieceText, PieceValue, PieceOk;
    if pieces == [] {
      assert PiecesText([]) + [0x22] == [0x22];
      ByteOf(buf, pos, [0x22], 0);
    } else {
      var first, rest := PieceText(pieces[0]), PiecesText(pieces[1..]);
      assert PiecesText(pieces) + [0x22] == first + (rest + [0x22]);
      AtSplit(buf, pos, first, rest + [0x22]);
      PieceReads(pieces[0], buf, pos);
      PiecesRead(pieces[1..], buf, pos + |first|);
    }
  }

  // ---------- Nothing else is read ----------

  lemma {:induction false} TakenAt(buf: bytes, pos: nat, n: nat)
    requires pos + n <= |buf|
    ensures At(buf, pos, buf[pos..pos + n])
  {
  }

  lemma {:induction false} EscapeIsPiece(buf: bytes, pos: nat) returns (p: Piece)
    requires pos < |buf| && buf[pos] == BACKSLASH && EscapeAt(buf, pos).Some?
    ensures PieceOk(p) && At(buf, pos, PieceText(p))
    ensures EscapeAt(buf, pos) == Some((PieceValue(p), |PieceText(p)|))
  {
    hide At, HexNumber, EncodeScalar, Spells;
    if buf[pos + 1] == LOWER_U {
      var hex := buf[pos + 2..pos + 6];
      var code := HexNumber(hex).value;
      SpellsMeans(hex, code);
      if 0xD800 <= code < 0xDC00 {
        var lowHex := buf[pos + 8..pos + 12];
        var low := HexNumber(lowHex).value;
        SpellsMeans(lowHex, low);
        SurrogatesMisread(code, low);
        p := Surrogates(code, hex, low, lowHex);
        assert buf[pos..pos + 12] == [0x5C, 0x75] + hex + [0x5C, 0x75] + lowHex;
        TakenAt(buf, pos, 12);
      } else {
        p := Unicode(code, hex);
        assert buf[pos..pos + 6] == [0x5C, 0x75] + hex;
        TakenAt(buf, pos, 6);
      }
    } else {
      p := Short(buf[pos + 1]);
      assert buf[pos..pos + 2] == [0x5C, buf[pos + 1]];
      TakenAt(buf, pos, 2);
    }
  }

  lemma {:induction false} OnlyPiecesRead(buf: bytes, pos: nat) returns (pieces: seq<Piece>)
    requires Unescape(buf, pos).Some?
    ensures PiecesOk(pieces) && At(buf, pos, PiecesText(pieces) + [0x22])
    ensures Unescape(buf, pos) == Some((PiecesValue(pieces), pos + |PiecesText(pieces)| + 1))
    decreases |buf| - pos
  {
    hide At, PieceText, PieceValue, PieceOk, EscapeAt;
    if buf[pos] == QUOTE {
      pieces := [];
      TakenAt(buf, pos, 1);
      assert buf[pos..pos + 1] == [0x22] == PiecesText([]) + [0x22];
    } else {
      var p;
      if buf[pos] == BACKSLASH {
        p := EscapeIsPiece(buf, pos);
      } else {
        p := Unescaped(buf[pos]);
        PlainPiece(buf[pos]);
        TakenAt(buf, pos, 1);
        assert buf[pos..pos + 1] == [buf[pos]];
      }
      var n := |PieceText(p)|;
      PieceReads(p, buf, pos);
      var rest := OnlyPiecesRead(buf, pos + n);
      pieces := [p] + rest;
      assert pieces[1..] == rest;
      assert PiecesText(pieces) + [0x22] == PieceText(p) + (PiecesText(rest) + [0x22]);
      AtSplit(buf, pos, PieceText(p), PiecesText(rest) + [0x22]);
    }
  }

  lemma {:induction false} PlainPiece(c: byte)
    requires c >= 0x20 && c != 0x22 && c != 0x5C
    ensures PieceOk(Unescaped(c)) && PieceText(Unescaped(c)) == PieceValue(Unescaped(c)) == [c]
  {
  }
}
