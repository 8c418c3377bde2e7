// From text to text: when a number that is written and printed again is the same number. A
// number that is printed right need not have been stored right.
module DecimalRoundTrip {
  import opened Wrappers
  import opened Bytes
  import opened Document
  import opened Grammar
  import opened Digits
  import opened Words
  import opened DecimalText
  import opened Json
  import opened Shifting
  import opened Sums
  import opened Differences
  import opened DecimalSyntax
  import opened Decimals
  import opened DecimalStorage
  import opened Counting
  import opened DecimalCounts
  import opened DecimalPrinting
  import opened PrintedDecimals
  import opened DecimalTexts

  // Both texts have the same sign and denote the same number.
  predicate SameText(text: bytes, printed: bytes)
    requires text != [] && WellFormedDecimal(text)
  {
    && printed != [] && WellFormedDecimal(printed)
    && (printed[0] == MINUS <==> text[0] == MINUS)
    && SameNumber(NumberOfText(text), NumberOfText(printed))
  }

  // The text is stored with its right size, and what is printed is the same number.
  predicate RoundTrips(text: bytes)
    requires DecimalOf(text).Ok?
  {
    var n := DecimalOf(text).value;
    var r := JsonOf(n.data);
    !Miscounted(n) && r.Ok? && SameText(text, r.value)
  }

  // ---------- What is printed for a plain text ----------

  // The part of the text that is printed for the mantissa, and for the number of digits behind
  // the point.
  lemma {:induction false} ExponentPrinted(shift: nat)
    requires 0 < shift < Pow10(18)
    ensures Numeral(Raw(shift)) && AloneBytes(Raw(shift)) != []
    ensures var r := PartText(AloneBytes(Raw(shift)));
      && r.Ok? && NumberOf(r.value) <= shift
      && (NumberOf(r.value) == shift <==> !Misfit(shift - 1))
  {
    hide NumberOf, Pow10, Raw, ShiftedWords, StoreWords, StoredNumber, FromLittleEndian, FitUint64, CountedSize;
    var s, b := Raw(shift), AloneBytes(Raw(shift));
    RawLength(shift, 18);
    Pow10Small();
    Pow10Grows(18, 19);
    AloneSize(shift);
    AloneAgainstWritten(s);
    NumeralSignificand(s);
    PowZero();
    ShiftExact(s, 0);
    AloneShort(b);
    PartTextDenotes(b);
  }

  lemma {:induction false} AloneShort(b: bytes)
    requires b != [] && |b| <= 8 && StoredNumber(b) < Pow10(19)
    ensures PartText(b).Ok?
  {
    hide Raw;
    Pow10Small();
  }

  lemma {:induction false} PlainSign(p: Parts)
    requires PlainSplit(p) && p.shift > 0
    ensures ExponentSign(p, 0) && ExponentBytes(p, 0) == AloneBytes(Raw(p.shift))
  {
    hide PartsOk, NumberOf, Raw, AloneBytes;
    RawNothing(p.shift);
    CompareOrders([], Raw(p.shift));
    NumberOfNothing();
  }

  lemma {:induction false} PlainPrints(p: Parts, negative: bool)
    requires PlainSplit(p) && SplitCounted(p, 0)
    ensures p.shift == 0 || p.shift < Pow10(18)
    ensures var r, m := JsonOf(ChosenNumber(p, 0, negative).data), PartText(MantissaBytes(p, 0));
      && (r.Ok? <==> m.Ok?)
      && (m.Ok? ==>
            if p.shift == 0 then r.value == Sign(negative) + m.value
            else
              AloneBytes(Raw(p.shift)) != [] && PartText(AloneBytes(Raw(p.shift))).Ok?
              && r.value == Sign(negative) + m.value + [LOWER_E] + Sign(true) + PartText(AloneBytes(Raw(p.shift))).value)
  {
    hide PartsOk, NumberOf, Pow10, Raw, AloneBytes, MantissaBytes, PartText, LengthBytes, ExponentSign, ExponentBytes;
    hide ExponentSize;
    hide CountedRight, ChosenNumber, CountedAlone, DecimalAnalyze, ExponentCounted;
    var mantissa := MantissaBytes(p, 0);
    PlainCounted(p);
    PlainBest(p);
    DataIs(p, 0, negative);
    var data := ChosenNumber(p, 0, negative).data;
    if p.shift == 0 {
      assert data[1..] == mantissa;
      assert data[0] == if negative then 0x1B else 0x1A;
    } else {
      var exponent := ExponentBytes(p, 0);
      PlainSign(p);
      ExponentPrinted(p.shift);
      ExponentAgainstWritten(p, 0);
      PlainSmall(p);
      assert data == [DecimalType(negative, |exponent|, true)] + LengthBytes(|exponent|) + exponent + mantissa;
      ExponentReadsBack(negative, true, exponent, mantissa);
      DecimalTypeBits(negative, |exponent|, true);
      assert data[0] == DecimalType(negative, |exponent|, true);
    }
  }

  lemma {:induction false} PlainSmall(p: Parts)
    requires PlainSplit(p) && 0 < p.shift
    ensures PartsOk(p) && 0 < ExponentSize(p, 0) <= 16
  {
    hide PartsOk, NumberOf, Raw, ExponentSize, CountedAlone;
    PlainBest(p);
    AloneGrows(p.shift, p.shift);
  }

  lemma {:induction false} PlainCounted(p: Parts)
    requires PlainSplit(p)
    ensures PartsOk(p)
    ensures SplitCounted(p, 0) <==>
      CountedRight(p.significand, p.point, 0) && (p.shift == 0 || p.shift < Pow10(18))
  {
    hide PartsOk, NumberOf, Pow10, Raw, Pack;
    RawNothing(p.shift);
    RawLength(p.shift, 18);
    RawLength(p.shift, 19);
    Pow10Small();
    CompareOrders([], Raw(p.shift));
    NumberOfNothing();
    if p.shift > 0 {
      NumeralSignificand(Raw(p.shift));
    }
  }

  // A plain text comes back as the same number exactly if its size is counted right, every
  // twentieth of its digits, from the right, is zero, and neither the top word nor the number
  // of digits behind the point is one of the misfits.
  lemma {:induction false} PlainRoundTrips(text: bytes)
    requires Plain(text)
    ensures NonZero(text)
    ensures var p := TextParts(text);
      && Pack(MantissaDigitsOf(p), 0).word > 0
      && (RoundTrips(text) <==>
            && CountedRight(p.significand, p.point, 0)
            && TwentiethsZero(MantissaDigitsOf(p), 0) && !Misfit(Pack(MantissaDigitsOf(p), 0).word - 1)
            && (p.shift == 0 || (p.shift < Pow10(18) && !Misfit(p.shift - 1))))
  {
    hide NonZero, Plain, NumberOf, Misfit, Pow10, PlainSplit, TextParts, MantissaDigitsOf, CountedRight, SplitCounted;
    hide ChosenNumber, TwentiethsZero, Pack, SameText, JsonOf, BestOf;
    PlainMeans(text);
    var p := TextParts(text);
    PlainParts(text);
    PlainCounted(p);
    PlainBest(p);
    TextIsChosen(text);
    SplitAgainstWritten(p, 0, AnalysisOf(text).mantissaNegative);
    PackShape(MantissaDigitsOf(p), 0);
    if SplitCounted(p, 0) {
      PlainSame(text, p);
    }
  }

  lemma {:induction false} PlainSame(text: bytes, p: Parts)
    requires text != [] && WellFormedDecimal(text)
    requires NonZero(text) && p == TextParts(text) && PlainSplit(p) && SplitCounted(p, 0)
    ensures Pack(MantissaDigitsOf(p), 0).word > 0
    ensures var r := JsonOf(ChosenNumber(p, 0, text[0] == MINUS).data);
      (r.Ok? && SameText(text, r.value)) <==>
        && TwentiethsZero(MantissaDigitsOf(p), 0) && !Misfit(Pack(MantissaDigitsOf(p), 0).word - 1)
        && (p.shift == 0 || !Misfit(p.shift - 1))
  {
    hide NonZero, NumberOf, Misfit, Pow10, TextParts, MantissaDigitsOf, SplitCounted, WellFormedDecimal;
    hide ChosenNumber, TwentiethsZero, Pack, JsonOf, PartText, NumberOfText, Scaled, SameNumber, AloneBytes;
    hide MantissaBytes, TrueExponent, Raw;
    var negative, d := text[0] == MINUS, MantissaDigitsOf(p);
    var n := TextNumber(text);
    PlainPrints(p, negative);
    PlainExponent(p);
    MantissaPrinted(p);
    ScaledNothing(NumberOf(d));
    var m := PartText(MantissaBytes(p, 0));
    if m.Ok? {
      var v := NumberOf(m.value);
      if p.shift == 0 {
        IntegerText(negative, m.value);
        SameOnlyAsItself(NumberOf(d), n, TrueExponent(p, 0), v, 0);
      } else {
        ExponentPrinted(p.shift);
        var e := PartText(AloneBytes(Raw(p.shift))).value;
        ScientificText(negative, m.value, true, e);
        SameOnlyAsItself(NumberOf(d), n, TrueExponent(p, 0), v, 0 - NumberOf(e));
      }
    }
  }

  lemma {:induction false} PlainExponent(p: Parts)
    requires PlainSplit(p)
    ensures PartsOk(p) && TrueExponent(p, 0) == 0 - p.shift
  {
    hide PartsOk;
    NumberOfNothing();
  }

  lemma {:induction false} MantissaPrinted(p: Parts)
    requires PartsOk(p)
    ensures var d, m := MantissaDigitsOf(p), PartText(MantissaBytes(p, 0));
      && Pack(d, 0).word > 0
      && ((m.Ok? && NumberOf(m.value) == Scaled(NumberOf(d), 0)) <==> TwentiethsZero(d, 0) && !Misfit(Pack(d, 0).word - 1))
  {
    hide PartsOk, NumberOf, Scaled, TwentiethsZero, Misfit, Pack, PartText, StoreWords, ShiftedWords, Without;
    PrintedExactly(MantissaDigitsOf(p), 0);
  }

  // With up to eighteen characters only the misfits are left to fear.
  lemma {:induction false} ShortRoundTrips(text: bytes)
    requires Plain(text) && |TextParts(text).significand| < 19
    ensures var p := TextParts(text);
      RoundTrips(text) <==>
        !Misfit(NumberOf(MantissaDigitsOf(p)) - 1) && (p.shift == 0 || (p.shift < Pow10(18) && !Misfit(p.shift - 1)))
  {
    hide NonZero, Plain, NumberOf, Misfit, Pow10, PlainSplit, TextParts, RoundTrips, Pack;
    PlainMeans(text);
    var p := TextParts(text);
    var d := MantissaDigitsOf(p);
    PlainRoundTrips(text);
    WithoutDigits(p.significand, p.point);
    TopWord(d, 0);
    PowZero();
  }

  // ---------- Integers ----------

  lemma {:induction false} IntegerParts(text: bytes)
    requires text != [] && AllDigits(text) && text[0] != ZERO && NumberOf(text) % 10 != 0 && |text| <= PTRDIFF_MAX
    ensures Plain(text) && TextParts(text) == Parts(text, |text|, [], false, 0, false)
    ensures MantissaDigitsOf(TextParts(text)) == text
    ensures !AnalysisOf(text).mantissaNegative
  {
    hide SkipDigits, NumberOf;
    SkipsRun(text, 0, |text|);
    LastOfNumber(text);
    assert WholeStart(text) == 0 && WholeEnd(text) == FractionStop(text) == |text|;
    var a := AnalysisOf(text);
    assert text[a.significandStart..a.significandEnd] == text by {
      assert a.significandStart == 0;
      assert a.significandEnd == |text|;
    }
  }

  lemma {:induction false} PlainIsStored(text: bytes)
    requires Plain(text)
    ensures NonZero(text) && DecimalOf(text).Ok?
  {
  }

  // An integer that ends in no zero is stored right exactly with twenty digits, or with fewer
  // than nineteen unless it is one more than a misfit.
  lemma {:induction false} IntegersStored(text: bytes)
    requires text != [] && AllDigits(text) && text[0] != ZERO && NumberOf(text) % 10 != 0 && |text| <= PTRDIFF_MAX
    ensures DecimalOf(text).Ok?
    ensures StoredRight(text) <==> |text| == 20 || (|text| < 19 && !Misfit(NumberOf(text) - 1))
  {
    hide NumberOf, Plain, NonZero, TextParts, StoredRight, Misfit, MantissaDigitsOf, DecimalOf, Pow10;
    IntegerParts(text);
    PlainIsStored(text);
    PlainStoredExactly(text);
  }

  // It comes back as itself exactly in these cases.
  lemma {:induction false} IntegersRoundTrip(text: bytes)
    requires text != [] && AllDigits(text) && text[0] != ZERO && NumberOf(text) % 10 != 0 && |text| <= PTRDIFF_MAX
    ensures DecimalOf(text).Ok? && Significand(text, |text|) && Pack(text, 0).word > 0
    ensures RoundTrips(text) <==>
      CountedRight(text, |text|, 0) && TwentiethsZero(text, 0) && !Misfit(Pack(text, 0).word - 1)
  {
    hide NumberOf, Plain, NonZero, TextParts, RoundTrips, Misfit, MantissaDigitsOf, DecimalOf, Pow10, Pack;
    hide CountedRight, TwentiethsZero;
    IntegerParts(text);
    PlainIsStored(text);
    PlainRoundTrips(text);
  }

  // Every way of writing zero comes back as zero.
  lemma {:induction false} ZeroRoundTrips(text: bytes)
    requires DecimalOf(text).Ok? && !NonZero(text)
    ensures RoundTrips(text)
  {
    hide NumberOf, WholeStart, WholeEnd, FractionStop, Exponent, ExponentTrimmed;
    var a := AnalysisOf(text);
    ZeroMantissa(text, a);
    var negative := text[0] == MINUS;
    ZeroDigit();
    IntegerText(negative, [ZERO]);
    ZeroIsZero(NumberOfText(text).scale);
  }

  lemma {:induction false} ZeroIsZero(scale: int)
    ensures SameNumber(Scientific(0, scale), Scientific(0, 0))
  {
  }
}
