// Inputs for which the code does not do what the format and RFC 8259 ask for, one for each
// property that holds only under a condition. The conditions are stated where the properties
// are proved.
module Departures {
  import opened Wrappers
  import opened Arithmetic
  import opened Bytes
  import opened Digits
  import opened Words
  import opened DecimalText
  import opened Shifting
  import opened Sums
  import opened Differences
  import opened DecimalSyntax
  import opened Decimals
  import opened DecimalStorage
  import opened Grammar
  import opened Tree
  import opened Document
  import opened Escape
  import opened Utf8
  import opened Retrieve
  import opened Json

  // 2^32 is written in four bytes, as zero.
  lemma {:induction false} WordTruncated()
    ensures FitUint64(0x1_0000_0000) == 4
    ensures FromLittleEndian(LittleEndian(0x1_0000_0000, FitUint64(0x1_0000_0000))) == 0
  {
    Pow256Values();
    LittleEndianHolds(0x1_0000_0000, 4);
    assert LittleEndian(0x1_0000_0000, 4) == [0, 0, 0, 0];
    assert FromLittleEndian([0]) == 0;
    assert FromLittleEndian([0, 0]) == 0;
    assert FromLittleEndian([0, 0, 0]) == 0;
  }

  // The example of the format description, README.md:185-187, denotes what is said there, but
  // printing puts one zero too many in front of each of its lower words.
  lemma {:induction false} PaddedTooFar(b: bytes)
    requires b == LittleEndian(1, 8) + LittleEndian(2, 8) + [3]
    ensures StoredNumber(b) == 400000000000000000020000000000000000001
    ensures PartText(b).Ok?
    ensures NumberOf(PartText(b).value) == 40000000000000000000200000000000000000001
  {
    hide LittleEndian, FromLittleEndian, Padded, Pow10, NumberOf, Raw, PartText, StoredNumber;
    LastWord();
    OneWordMore(2, [3]);
    OneWordMore(1, LittleEndian(2, 8) + [3]);
    assert b == LittleEndian(1, 8) + (LittleEndian(2, 8) + [3]);
  }

  lemma {:induction false} LastWord()
    ensures StoredNumber([3]) == 4
    ensures PartText([3]).Ok? && NumberOf(PartText([3]).value) == 4
  {
    assert FromLittleEndian([3]) == 3;
    assert PartText([3]) == Ok(Raw(4));
  }

  lemma {:induction false} OneWordMore(word: nat, b: bytes)
    requires word < BASE && b != [] && PartText(b).Ok?
    ensures var more := LittleEndian(word, 8) + b;
      && StoredNumber(more) == word + BASE * StoredNumber(b)
      && PartText(more).Ok? && NumberOf(PartText(more).value) == 10 * BASE * NumberOf(PartText(b).value) + word
  {
    hide LittleEndian, FromLittleEndian, Padded, NumberOf, Raw;
    Pow256Values();
    Pow10Small();
    LittleEndianHolds(word, 8);
    var more := LittleEndian(word, 8) + b;
    assert more[..8] == LittleEndian(word, 8) && more[8..] == b;
    NumberOfPadded(PartText(b).value, word, 20);
  }

  const TEN_E8: bytes := [0x31, 0x30, 0x65, 0x38]
  const TEN_E8_PARTS := Parts([0x31], 2, [0x38], false, 1, false)

  // "10e8" has one zero more than its significand "1". The sum of 8 and 1 is stored as 10, and
  // no other split is better: what is written denotes 10^10.
  lemma {:induction false} SumNotReduced()
    ensures WellFormedDecimal(TEN_E8) && NumberOfText(TEN_E8) == Scientific(10, 8)
    ensures DecimalOf(TEN_E8) == Ok(Number(4, [0x20, 0, 9, 0]))
    ensures JsonOf([0x20, 0, 9, 0]) == Ok([0x31, 0x65, 0x31, 0x30])
  {
    hide NumberOfText, DecimalOf, WellFormedDecimal, DecimalTextOf, PartsOf, PartsOk;
    TenWellFormed();
    TenParts(AnalysisOf(TEN_E8));
    TenEncoded();
    TenPrinted();
  }

  lemma {:induction false} TenEncoded()
    ensures DecimalOf(TEN_E8) == Ok(Number(4, [0x20, 0, 9, 0]))
  {
    hide IsBest, TotalSize, ExponentSize, ExponentWritten, DecimalBytes, WellFormedDecimal, NumberOfText, PartsOf, DecimalOf;
    TenWellFormed();
    TenParts(AnalysisOf(TEN_E8));
    DecimalOfIsChosen(TEN_E8);
    var k := BestOf(TEN_E8_PARTS);
    TenBest();
    BestIsUnique(TEN_E8_PARTS, 0, k, 11);
    var exponent := if ExponentSize(TEN_E8_PARTS, k) > 0 then ExponentBytes(TEN_E8_PARTS, k) else [];
    TenWritten(exponent, DecimalOf(TEN_E8).value.data);
  }

  lemma {:induction false} TenWellFormed()
    ensures WellFormedDecimal(TEN_E8) && AnalysisOf(TEN_E8).significandStart != AnalysisOf(TEN_E8).significandEnd
  {
    TenPositions();
    SkipsRun(TEN_E8, 3, 4);
  }

  lemma {:induction false} TenParts(a: Analysis)
    requires WellFormedDecimal(TEN_E8) && Analyzed(TEN_E8, a) && a.significandStart != a.significandEnd
    ensures a == Analysis(0, 1, 2, 3, 4, false, false)
    ensures PartsOf(TEN_E8, a) == TEN_E8_PARTS && PartsOk(TEN_E8_PARTS)
    ensures NumberOfText(TEN_E8) == Scientific(10, 8)
  {
    hide NumberOf;
    TenPositions();
    assert TEN_E8[a.significandStart..a.significandEnd] == [0x31] by {
      assert a.significandStart == 0;
      assert a.significandEnd == 1;
    }
    assert TEN_E8[3..4] == [0x38];
    TenNumber();
  }

  lemma {:induction false} TenPositions()
    ensures WholeStart(TEN_E8) == 0 && WholeEnd(TEN_E8) == FractionStop(TEN_E8) == 2
    ensures HasExponent(TEN_E8) && ExponentDigits(TEN_E8) == 3 && !ExponentIsNegative(TEN_E8)
  {
    assert SkipDigits(TEN_E8, 2) == 2 && SkipDigits(TEN_E8, 1) == 2 && SkipDigits(TEN_E8, 0) == 2;
  }

  lemma {:induction false} TenNumber()
    ensures NumberOfText(TEN_E8) == Scientific(10, 8)
  {
    TenPositions();
    var ten, eight := TEN_E8[0..2], TEN_E8[3..4];
    assert ten == [0x31, 0x30] && eight == [0x38] && TEN_E8[3..] == eight;
    assert ten[..1] == [0x31] && ten[..1][..0] == [] && eight[..0] == [];
    assert NumberOf(ten[..1]) == 1;
    assert NumberOf(ten) == 10 && NumberOf(eight) == 8;
    assert ten + [] == ten;
  }

  lemma {:induction false} TenMantissa(k: nat)
    requires k <= 10
    ensures PartsOk(TEN_E8_PARTS) && MantissaSize(TEN_E8_PARTS, k) == FitUint64(Pow10(k) - 1)
    ensures AllDigits([0x31]) && ShiftedWords([0x31], k) == [Pow10(k)]
  {
    hide Pow10, FitUint64, PackedSize, Rest;
    var one: bytes := [0x31];
    assert Without(one, 2) == one && one[1..] == [];
    RestOf(one, 2);
    PackedSizeIs(one, k);
    assert Pack([], k) == Packing([], 0, k);
    assert Pack(one, k) == Packing([], Pow10(k), k + 1);
    assert Zeroes(0) + [Pow10(k)] == [Pow10(k)];
  }

  lemma {:induction false} TenExponent(k: nat)
    requires k <= 10
    ensures PartsOk(TEN_E8_PARTS)
    ensures ExponentSize(TEN_E8_PARTS, k) == 0 <==> k == 9
    ensures ExponentSize(TEN_E8_PARTS, 0) == 1
  {
    hide ExponentSize, SumBytes, CompareDigits;
    var p := TEN_E8_PARTS;
    assert p.exponent[..0] == [] && NumberOf(p.exponent) == 8;
    if ExponentSize(p, k) == 0 {
      NoExponentIsZero(p, k);
    }
    TenFirstExponent();
    TenNinthExponent();
  }

  lemma {:induction false} TenFirstExponent()
    ensures PartsOk(TEN_E8_PARTS) && ExponentSize(TEN_E8_PARTS, 0) == 1
  {
    var p := TEN_E8_PARTS;
    assert p.exponent[..0] == [] && NumberOf(p.exponent) == 8;
    assert BaseWords(9) == [9];
    assert |SumBytes(9)| == 1;
  }

  lemma {:induction false} TenNinthExponent()
    ensures PartsOk(TEN_E8_PARTS) && ExponentSize(TEN_E8_PARTS, 9) == 0
  {
    hide CompareDigits;
    var p := TEN_E8_PARTS;
    assert p.exponent[..0] == [] && NumberOf(p.exponent) == 8;
    CompareOrders(p.exponent, AdjustedText(p, 9));
  }

  lemma {:induction false} TenBest()
    ensures PartsOk(TEN_E8_PARTS) && IsBest(TEN_E8_PARTS, 0, 11) && TotalSize(TEN_E8_PARTS, 0) == 4
  {
    hide Better, TotalSize;
    forall k | 0 <= k < 11
      ensures !Better(TEN_E8_PARTS, k, 0)
    {
      TenNotBetter(k);
    }
    TenNotBetter(0);
  }

  lemma {:induction false} TenNotBetter(k: nat)
    requires k <= 10
    ensures PartsOk(TEN_E8_PARTS) && TotalSize(TEN_E8_PARTS, 0) == 4 && !Better(TEN_E8_PARTS, k, 0)
  {
    hide ExponentSize, MantissaSize, FitUint64, Pow10;
    TenSizes();
    TenMantissa(0);
    TenExponent(0);
    TenMantissa(k);
    TenExponent(k);
  }

  lemma {:induction false} TenSizes()
    ensures FitUint64(Pow10(0) - 1) == 1 && FitUint64(Pow10(9) - 1) == 4
  {
    assert Pow10(3) == 1000;
    assert Pow10(6) == 1_000_000;
    assert Pow10(9) == 1_000_000_000;
  }

  lemma {:induction false} TenWritten(exponent: bytes, data: bytes)
    requires PartsOk(TEN_E8_PARTS)
    requires if ExponentSize(TEN_E8_PARTS, 0) > 0 then ExponentWritten(TEN_E8_PARTS, 0, exponent) else exponent == []
    requires data == DecimalBytes(TEN_E8_PARTS, 0, false, exponent)
    ensures data == [0x20, 0, 9, 0]
  {
  }

  lemma {:induction false} TenPrinted()
    ensures DecimalTextOf([0x20, 0, 9, 0]) == Ok([0x31, 0x65, 0x31, 0x30])
  {
    hide DecimalAnalyze, PartText, LengthBytes, Decimals.DecimalType;
    TenHead();
    ExponentReadsBack(false, false, [9], [0]);
    TenPartTexts();
    assert [] + [0x31] + [LOWER_E] + [] + [0x31, 0x30] == [0x31, 0x65, 0x31, 0x30];
  }

  lemma {:induction false} TenHead()
    ensures [Decimals.DecimalType(false, 1, false)] + LengthBytes(1) + [9] + [0] == [0x20, 0, 9, 0]
  {
    assert LengthBytes(1) == [0];
  }

  lemma {:induction false} TenPartTexts()
    ensures PartText([0]) == Ok([0x31]) && PartText([9]) == Ok([0x31, 0x30])
  {
    assert FromLittleEndian([9]) == 9 && FromLittleEndian([0]) == 0;
    assert Raw(1) == [0x31];
    assert Raw(10) == [0x31, 0x30];
  }

  // The middle word of the difference 10^38 + 1 is lost.
  lemma {:induction false} ZeroWordLost()
    ensures StoredNumber(DifferenceBytes(BASE * BASE + 1)) == BASE + 1
  {
    var v := BASE * BASE + 1;
    DivMod(v, BASE, BASE, 1);
    DivMod(BASE, BASE, 1, 0);
    assert BaseWords(1) == [1];
    assert BaseWords(BASE) == [0, 1];
    assert BaseWords(v) == [1, 0, 1];
    assert NonZeroes([1]) == [1];
    assert [0, 1][1..] == [1] && [1, 0, 1][1..] == [0, 1];
    assert NonZeroes([0, 1]) == [1];
    assert Kept(BaseWords(v)) == [1, 1];
    Pow256Values();
    Pow256All();
    LittleEndianHolds(1, 8);
    var b := StoreWords([1, 1]);
    assert [1, 1][..1] == [1];
    assert FullWords([1]) == LittleEndian(1, 8) by { assert [1][1..] == []; assert FullWords([]) == []; }
    assert LittleEndian(0, 1) == [0];
    assert b == LittleEndian(1, 8) + [0];
    assert b[..8] == LittleEndian(1, 8) && b[8..] == [0];
    assert FromLittleEndian([0]) == 0;
  }

  // Twenty-one digits: their top one weighs a tenth of what it should.
  lemma {:induction false} TooManyDigits(d: bytes)
    requires |d| == 21 && AllDigits(d) && d[0] == ZERO + 1
    ensures ShiftedWords(d, 0)[|ShiftedWords(d, 0)| - 1] > 0
    ensures StoredNumber(StoreWords(ShiftedWords(d, 0))) < NumberOf(d)
  {
    ShiftExact(d, 0);
    assert Pow10(0) == 1;
  }

  // The text "true" is not accepted on its own; with a space behind it, it is.
  lemma {:induction false} TrueRefused(decimals: Document.Decimals)
    ensures ParseValue(decimals, [0x74, 0x72, 0x75, 0x65], 0) == None
    ensures ParseValue(decimals, [0x74, 0x72, 0x75, 0x65, 0x20], 0) == Some((Scalar([TRUE]), 4))
  {
    var long := [0x74, 0x72, 0x75, 0x65, 0x20];
    assert long[0..4] == TRUE_TEXT;
  }

  // The escaped surrogate pair of U+1F600 is read as U+F600.
  lemma {:induction false} SmileyMisread(buf: bytes)
    requires buf == [BACKSLASH, LOWER_U, 0x64, 0x38, 0x33, 0x64, BACKSLASH, LOWER_U, 0x64, 0x65, 0x30, 0x30, QUOTE]
    ensures SurrogatePair(0xD83D, 0xDE00) == 0x1F600
    ensures Unescape(buf, 0) == Some((EncodeScalar(0xF600), 13))
  {
    hide EncodeScalar;
    var high, low := buf[2..6], buf[8..12];
    HexFour(high, 0xD, 8, 3, 0xD);
    HexFour(low, 0xD, 0xE, 0, 0);
    var c := EncodeScalar(0xF600);
    assert EscapeAt(buf, 0) == Some((c, 12));
    assert Unescape(buf, 12) == Some(([], 13));
    assert c + [] == c;
  }

  lemma {:induction false} HexFour(s: bytes, a: nat, b: nat, c: nat, d: nat)
    requires |s| == 4
    requires HexValue(s[0]) == Some(a) && HexValue(s[1]) == Some(b) && HexValue(s[2]) == Some(c) && HexValue(s[3]) == Some(d)
    ensures HexNumber(s) == Some(((a * 16 + b) * 16 + c) * 16 + d)
  {
    assert s[..3][..2] == s[..2] && s[..2][..1] == s[..1] && s[..1][..0] == [];
    assert HexNumber(s[..1]) == Some(a);
    assert HexNumber(s[..2]) == Some(a * 16 + b);
  }

  // The writer's "undefined" is read as a reserved type; the reader's is another byte.
  lemma {:induction false} UndefinedDisagrees()
    ensures GetValueType([UNDEFINED]) == Err(UnsupportedDataType)
    ensures GetValueType([0x05]) == Ok(UndefinedType) && UNDEFINED != 0x05
  {
  }
}
