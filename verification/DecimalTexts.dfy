// When a decimal text is stored as the number that it denotes: exactly, in terms of the text,
// wherever no zeroes are moved into the mantissa.
module DecimalTexts {
  import opened Wrappers
  import opened Bytes
  import opened Document
  import opened Digits
  import opened Words
  import opened DecimalText
  import opened Shifting
  import opened Sums
  import opened Differences
  import opened DecimalSyntax
  import opened Decimals
  import opened DecimalStorage
  import opened Counting
  import opened DecimalCounts

  // The sign and the number that the file format gives to the bytes of a decimal.
  function StoredIn(data: bytes): Option<(bool, Scientific)> {
    if data == [] then None
    else if data[0] / 2 == 13 then Some((data[0] == 0x1B, Scientific(StoredNumber(data[1..]), 0)))
    else
      var r := DecimalAnalyze(data);
      if data[0] / 16 == 2 && r.Ok? then Some((r.value.significandNegative, NumberRead(r.value))) else None
  }

  // The text is stored with its right size, its sign and its number.
  predicate StoredRight(text: bytes)
    requires DecimalOf(text).Ok?
  {
    var n := DecimalOf(text).value;
    var r := StoredIn(n.data);
    && !Miscounted(n)
    && r.Some? && r.value.0 == (text[0] == MINUS) && SameNumber(NumberOfText(text), r.value.1)
  }

  // ---------- What is found in the file ----------

  predicate NonZero(text: bytes) {
    DecimalOf(text).Ok? && AnalysisOf(text).significandStart != AnalysisOf(text).significandEnd
  }

  function TextParts(text: bytes): (p: Parts)
    requires NonZero(text)
    ensures PartsOk(p)
  {
    PartsAreOk(text, AnalysisOf(text));
    PartsOf(text, AnalysisOf(text))
  }

  function MantissaDigitsOf(p: Parts): (d: bytes)
    requires PartsOk(p)
    ensures AllDigits(d) && d != [] && d[0] != ZERO
  {
    WithoutDigits(p.significand, p.point);
    Without(p.significand, p.point)
  }

  function MantissaBytes(p: Parts, k: nat): (b: bytes)
    requires PartsOk(p)
    ensures b != []
  {
    var d := MantissaDigitsOf(p);
    ShiftedShape(d, k);
    StoreWords(ShiftedWords(d, k))
  }

  lemma {:induction false} ChosenData(p: Parts, k: nat, negative: bool)
    requires PartsOk(p) && SplitCounted(p, k) && ExponentSize(p, k) <= SIZE_MAX
    ensures StoredIn(ChosenNumber(p, k, negative).data)
         == Some((negative, Scientific(StoredNumber(MantissaBytes(p, k)),
              if ExponentSize(p, k) > 0 then Signed(ExponentSign(p, k), StoredNumber(ExponentBytes(p, k))) else 0)))
  {
    hide PartsOk, CountedRight, ExponentCounted, ExponentSign, ExponentBytes, ExponentSize, DecimalAnalyze;
    hide LengthBytes, StoredNumber;
    hide MantissaBytes;
    var size, sign, exponent, mantissa := ExponentSize(p, k), ExponentSign(p, k), ExponentBytes(p, k), MantissaBytes(p, k);
    DataIs(p, k, negative);
    ExponentAgainstWritten(p, k);
    var data := ChosenNumber(p, k, negative).data;
    if size > 0 {
      ExponentReadsBack(negative, sign, exponent, mantissa);
      DecimalTypeBits(negative, size, sign);
      assert data == [DecimalType(negative, size, sign)] + LengthBytes(size) + exponent + mantissa;
      assert data[0] == DecimalType(negative, size, sign);
    } else {
      assert data[1..] == mantissa;
      assert data[0] == if negative then 0x1B else 0x1A;
    }
  }

  lemma {:induction false} DataIs(p: Parts, k: nat, negative: bool)
    requires PartsOk(p)
    ensures var size := ExponentSize(p, k);
      ChosenNumber(p, k, negative).data
      == [DecimalType(negative, size, ExponentSign(p, k))]
         + (if size > 0 then LengthBytes(size) + ExponentBytes(p, k) else []) + MantissaBytes(p, k)
  {
    hide ExponentSign, ExponentBytes, ExponentSize, ShiftedWords, StoreWords, Without, DecimalType, LittleEndian;
    var size := ExponentSize(p, k);
    if size == 0 {
      assert LengthBytes(size) == [];
    }
  }

  // ---------- The number ----------

  lemma {:induction false} TextNumber(text: bytes) returns (n: nat)
    requires NonZero(text)
    ensures var p := TextParts(text);
      && NumberOfText(text) == Scientific(Scaled(NumberOf(MantissaDigitsOf(p)), n), TrueExponent(p, 0) - n)
      && NumberOf(MantissaDigitsOf(p)) % 10 != 0
  {
    hide NumberOf, WellFormedDecimal, Scaled, NumberOfText, Analyzed, Without, PartsOf, TrueExponent;
    n := AnalyzedNumber(text, AnalysisOf(text));
  }

  lemma {:induction false} AnalyzedNumber(text: bytes, a: Analysis) returns (n: nat)
    requires text != [] && WellFormedDecimal(text) && Analyzed(text, a) && a.significandStart != a.significandEnd
    ensures a.significandStart < a.significandEnd <= |text| && a.exponentStart <= a.exponentEnd <= |text|
    ensures PartsOk(PartsOf(text, a))
    ensures var p := PartsOf(text, a);
      && NumberOfText(text) == Scientific(Scaled(NumberOf(MantissaDigitsOf(p)), n), TrueExponent(p, 0) - n)
      && NumberOf(MantissaDigitsOf(p)) % 10 != 0
  {
    hide Mantissa, Exponent, NumberOf, WellFormedDecimal, Scaled, NumberOfText, Analyzed, Without, Significand;
    hide Shift, Signed, Numeral, ExponentText;
    PartsAreOk(text, a);
    n := TrimmedMantissa(text, a);
    TextIs(text, NumberOf(Without(SignificandText(text, a), a.decimalPoint - a.significandStart)), n, Shift(a));
    LastDigitCounts(text, a);
  }

  lemma {:induction false} LastDigitCounts(text: bytes, a: Analysis)
    requires text != [] && Analyzed(text, a) && a.significandStart != a.significandEnd
    ensures a.significandStart < a.significandEnd <= |text|
    ensures var d := Without(SignificandText(text, a), a.decimalPoint - a.significandStart);
      AllDigits(d) && NumberOf(d) % 10 != 0
  {
    hide NumberOf, WholeStart, WholeEnd, FractionStop;
    SignificandIs(text, a);
    var s, point := SignificandText(text, a), a.decimalPoint - a.significandStart;
    WithoutDigits(s, point);
    var d := Without(s, point);
    assert s[|s| - 1] == text[a.significandEnd - 1];
    PointIsNoDigit(text);
    assert d[|d| - 1] == s[|s| - 1];
    LastOfNumber(d);
  }

  lemma {:induction false} LastOfNumber(d: bytes)
    requires AllDigits(d) && d != []
    ensures NumberOf(d) % 10 == d[|d| - 1] - ZERO
  {
  }

  // With as many digits or fewer, or with the same power of ten or a larger one, nothing is the
  // same number but the number itself.
  lemma {:induction false} SameOnlyAsItself(v: nat, n: nat, t: int, m: nat, e: int)
    requires v % 10 != 0 && (m <= v || e >= t)
    ensures SameNumber(Scientific(Scaled(v, n), t - n), Scientific(m, e)) <==> m == v && e == t
  {
    hide Pow10;
    if e >= t {
      var x := e - t;
      ScaledTwice(m, x, n);
      RaiseIsScaled(m, e - (t - n));
      RaiseIsScaled(Scaled(v, n), 0);
      ScaledInjective(v, Scaled(m, x), n);
      ScaledNothing(Scaled(v, n));
      ScaledNothing(m);
      if x > 0 {
        ScaledNext(m, x - 1);
        TenDivides(m, x);
      }
    } else if e >= t - n {
      var x := t - e;
      RaiseIsScaled(m, n - x);
      RaiseIsScaled(Scaled(v, n), 0);
      ScaledNothing(Scaled(v, n));
      ScaledGrows(m, v, n - x);
      ScaledLess(v, n - x, n);
    } else {
      var x := t - n - e;
      RaiseIsScaled(Scaled(v, n), x);
      ScaledTwice(v, n, x);
      ScaledNothing(v);
      ScaledLess(v, 0, n + x);
    }
  }

  lemma {:induction false} RaiseIsScaled(v: nat, n: nat)
    ensures Raise(v, n) == Scaled(v, n)
  {
  }

  lemma {:induction false} ScaledNothing(v: nat)
    ensures Scaled(v, 0) == v
  {
    PowZero();
  }

  lemma {:induction false} ScaledInjective(a: nat, b: nat, n: nat)
    ensures Scaled(a, n) == Scaled(b, n) <==> a == b
  {
    hide Scaled;
    if a < b {
      ScaledGrows(a, b, n);
    } else if b < a {
      ScaledGrows(b, a, n);
    }
  }

  lemma {:induction false} TenDivides(m: nat, x: nat)
    requires x > 0
    ensures Scaled(m, x) % 10 == 0
  {
    assert Scaled(m, x) == 10 * (m * Pow10(x - 1));
  }

  lemma {:induction false} ScaledLess(v: nat, a: nat, b: nat)
    requires v > 0 && a < b
    ensures Scaled(v, a) < Scaled(v, b)
  {
    hide Pow10;
    Pow10Grows(a, b);
    Scale(v, Pow10(a), Pow10(b));
  }

  // ---------- No zeroes are moved ----------

  lemma {:induction false} StoredMantissaSmall(p: Parts)
    requires PartsOk(p)
    ensures StoredNumber(MantissaBytes(p, 0)) <= NumberOf(MantissaDigitsOf(p))
  {
    hide NumberOf, StoredNumber, StoreWords, ShiftedWords, Misfit;
    PowZero();
    ShiftExact(MantissaDigitsOf(p), 0);
  }

  lemma {:induction false} MantissaFitsMeans(p: Parts)
    requires PartsOk(p)
    ensures MantissaFits(p, 0) <==>
      StoredNumber(MantissaBytes(p, 0)) == NumberOf(MantissaDigitsOf(p)) && CountedRight(p.significand, p.point, 0)
  {
    hide NumberOf, StoredNumber, StoreWords, ShiftedWords, Misfit, Without, MantissaFits, CountedSize;
    MantissaStoredAndCounted(p, 0);
    ScaledNothing(NumberOf(MantissaDigitsOf(p)));
    WithoutDigits(p.significand, p.point);
    CountedAgainstWritten(p.significand, p.point, 0);
    PackedSizeMeans(MantissaDigitsOf(p), 0);
  }

  lemma {:induction false} ExponentFitsMeans(p: Parts, k: nat)
    requires PartsOk(p)
    ensures ExponentFits(p, k) <==> StoredNumber(ExponentBytes(p, k)) == ExponentValue(p, k) && ExponentCounted(p, k)
  {
    hide ExponentFits, ExponentBytes, ExponentValue, ExponentCounted, ExponentSize, ExponentWritten, StoredNumber;
    ExponentWrittenOnce(p, k, ExponentBytes(p, k));
    ExponentStoredAndCounted(p, k, ExponentBytes(p, k));
    ExponentAgainstWritten(p, k);
  }

  // Whenever no zeroes are moved into the mantissa, a text is stored right exactly if both of
  // its parts are: no error makes up for another one.
  lemma {:induction false} StoredExactly(text: bytes)
    requires NonZero(text) && BestOf(TextParts(text)) == 0
    ensures var p := TextParts(text);
      StoredRight(text) <==> MantissaFits(p, 0) && (ExponentSize(p, 0) > 0 ==> ExponentFits(p, 0))
  {
    hide WellFormedDecimal, Analyzed, PartsOk, NumberOfText, NumberOf, StoredNumber, Scaled, SameNumber, MantissaBytes;
    hide MantissaFits;
    hide ExponentFits, ExponentSign, ExponentSize, ExponentBytes, ExponentValue, TrueExponent, ChosenNumber;
    hide CountedRight, ExponentCounted;
    hide StoredIn, MantissaDigitsOf, BestOf, PartsOf;
    var p, negative := TextParts(text), AnalysisOf(text).mantissaNegative;
    var n := TextNumber(text);
    TextIsChosen(text);
    SplitAgainstWritten(p, 0, negative);
    StoredMantissaSmall(p);
    MantissaFitsMeans(p);
    ExponentFitsMeans(p, 0);
    BestOfIsBest(p);
    BestHasRightSign(p, 0);
    var m, sign := StoredNumber(MantissaBytes(p, 0)), ExponentSign(p, 0);
    var e := if ExponentSize(p, 0) > 0 then Signed(sign, StoredNumber(ExponentBytes(p, 0))) else 0;
    SameOnlyAsItself(NumberOf(MantissaDigitsOf(p)), n, TrueExponent(p, 0), m, e);
    ExponentAgainstWritten(p, 0);
    if ExponentSize(p, 0) == 0 {
      NoExponentIsZero(p, 0);
    }
    if SplitCounted(p, 0) {
      ChosenData(p, 0, negative);
    }
  }

  lemma {:induction false} TextIsChosen(text: bytes)
    requires NonZero(text)
    ensures var p, a := TextParts(text), AnalysisOf(text);
      && DecimalOf(text) == Ok(ChosenNumber(p, BestOf(p), a.mantissaNegative))
      && ExponentSize(p, BestOf(p)) <= SIZE_MAX
      && a.mantissaNegative == (text[0] == MINUS)
  {
    hide WellFormedDecimal, PartsOk, ChosenNumber, ExponentSize;
    var a := AnalysisOf(text);
    PartsSmall(text, a);
    BestOfIsBest(TextParts(text));
    ExponentSmall(TextParts(text), BestOf(TextParts(text)));
  }

  // ---------- Texts without an exponent ----------

  // No exponent, and no zeroes between the last digit that is not zero and the point, or the
  // end: "120.5", "0.07" and "1001", but not "1000".
  predicate Plain(text: bytes) {
    && NonZero(text)
    && FractionStop(text) == |text| && AnalysisOf(text).decimalPoint <= AnalysisOf(text).significandEnd
  }

  predicate PlainSplit(p: Parts) {
    && PartsOk(p) && p.exponent == [] && !p.exponentNegative
    && (p.shiftNegative || p.shift == 0) && p.shift <= PTRDIFF_MAX
  }

  lemma {:induction false} PlainParts(text: bytes)
    requires Plain(text)
    ensures var p := TextParts(text);
      PlainSplit(p)
  {
    hide WellFormedDecimal, PartsOk, WholeStart, WholeEnd, FractionStop;
    PartsSmall(text, AnalysisOf(text));
  }

  lemma {:induction false} RawLength(v: nat, n: nat)
    ensures |Raw(v)| <= n <==> v < Pow10(n)
  {
    hide NumberOf, Pow10, Raw;
    if v < Pow10(n) {
      RawShort(v, n);
    } else {
      NumberBound(Raw(v));
      if |Raw(v)| <= n {
        Pow10Grows(|Raw(v)|, n);
      }
    }
  }

  // The counted size of a number that is written alone.
  lemma {:induction false} AloneSize(v: nat)
    requires 0 < v < BASE
    ensures CountedAlone(Raw(v)) == if v < Pow10(18) then FitUint64(v - 1) else 16
  {
    hide NumberOf, Pow10, Raw, Pack, FitUint64, PackedSize;
    var s := Raw(v);
    Pow10Small();
    RawLength(v, 18);
    RawLength(v, 19);
    NumeralSignificand(s);
    RestOf(s, -1);
    if |s| < 19 {
      PackedSizeIs(s, 0);
      TopWord(s, 0);
      PowZero();
    }
  }

  lemma {:induction false} AloneGrows(a: nat, b: nat)
    requires a <= b && 0 < b < BASE
    ensures CountedAlone(Raw(a)) <= CountedAlone(Raw(b)) <= 16 && CountedAlone(Raw(b)) > 0
  {
    hide NumberOf, Pow10, CountedAlone, FitUint64;
    AloneSize(b);
    if a > 0 {
      AloneSize(a);
      FitGrows(a - 1, b - 1);
    } else {
      assert Raw(0) == [];
      NothingCounted();
    }
  }

  // Without an exponent there is nothing to be gained from moving zeroes.
  lemma {:induction false} PlainSizes(p: Parts, k: nat)
    requires PlainSplit(p) && k <= 10
    ensures ExponentSize(p, k) == if p.shift + k == 0 then 0 else CountedAlone(Raw(p.shift + k))
    ensures !Better(p, k, 0)
  {
    hide NumberOf, Pow10, CountedAlone, CompareDigits, Raw, CountedSize, PartsOk;
    MantissaGrows(p, 0, k);
    CompareOrders([], AdjustedText(p, 0));
    CompareOrders([], AdjustedText(p, k));
    NumberOfNothing();
    RawNothing(p.shift);
    RawNothing(p.shift + k);
    if p.shift + k > 0 {
      AloneGrows(p.shift, p.shift + k);
    }
    NothingCounted();
  }

  lemma {:induction false} RawNothing(v: nat)
    ensures Raw(v) == [] <==> v == 0
  {
  }

  lemma {:induction false} PlainBest(p: Parts)
    requires PlainSplit(p)
    ensures PartsOk(p) && BestOf(p) == 0
    ensures ExponentSize(p, 0) == if p.shift == 0 then 0 else CountedAlone(Raw(p.shift))
  {
    hide ExponentSize, PartsOk, Better, BestOf, Raw, CountedAlone;
    PlainSizes(p, 0);
    forall k | 0 <= k < 11
      ensures !Better(p, k, 0)
    {
      PlainSizes(p, k);
    }
    ZeroIsBest(p);
  }

  lemma {:induction false} ZeroIsBest(p: Parts)
    requires PartsOk(p) && forall k :: 0 <= k < 11 ==> !Better(p, k, 0)
    ensures BestOf(p) == 0
  {
    hide PartsOk, Better, BestOf;
    BestOfIsBest(p);
    BestIsUnique(p, 0, BestOf(p), MaxAdjustment(p) + 1);
  }

  // A plain text is stored right exactly in these cases. The first line is about its digits
  // with the point, the second about the number of digits behind the point.
  lemma {:induction false} PlainStoredExactly(text: bytes)
    requires Plain(text)
    ensures var p := TextParts(text);
      var s, d := p.significand, MantissaDigitsOf(p);
      StoredRight(text) <==>
        && (|d| == 20 || (|s| < 19 && !Misfit(NumberOf(d) - 1)))
        && (p.shift == 0 || (p.shift < Pow10(18) && !Misfit(p.shift - 1)))
  {
    hide NonZero, Plain, PartsOk, NumberOf, StoredRight, Misfit, Pow10, TextParts, MantissaFits, ExponentFits;
    hide PlainSplit, BestOf;
    hide ExponentSize, MantissaDigitsOf;
    PlainMeans(text);
    var p := TextParts(text);
    PlainParts(text);
    PlainBest(p);
    StoredExactly(text);
    PlainMantissaFits(p);
    PlainExponentFits(p);
  }

  lemma {:induction false} PlainMeans(text: bytes)
    requires Plain(text)
    ensures NonZero(text)
  {
  }

  lemma {:induction false} PlainMantissaFits(p: Parts)
    requires PartsOk(p)
    ensures var s, d := p.significand, MantissaDigitsOf(p);
      MantissaFits(p, 0) <==> |d| == 20 || (|s| < 19 && !Misfit(NumberOf(d) - 1))
  {
    hide NumberOf, Misfit, Without;
    PowZero();
    WithoutDigits(p.significand, p.point);
  }

  lemma {:induction false} PlainExponentFits(p: Parts)
    requires PlainSplit(p)
    ensures ExponentFits(p, 0) <==> p.shift == 0 || (p.shift < Pow10(18) && !Misfit(p.shift - 1))
    ensures ExponentSize(p, 0) > 0 <==> p.shift > 0
  {
    hide PartsOk, NumberOf, Pow10, Raw, Misfit, ExponentSize, CountedAlone;
    PlainBest(p);
    RawLength(p.shift, 18);
    RawLength(p.shift, 19);
    Pow10Small();
    RawNothing(p.shift);
    if p.shift > 0 {
      AloneGrows(p.shift, p.shift);
    }
  }

  // ---------- Texts with a fraction and a negative exponent ----------

  // Such a text is never stored right: the two powers of ten are added, and the sum is not
  // reduced by one.
  lemma {:induction false} NegativeFractionsFail(text: bytes)
    requires NonZero(text)
    requires var p := TextParts(text); p.shiftNegative && p.shift > 0 && p.exponentNegative && p.exponent != []
    ensures !StoredRight(text)
  {
    hide NonZero, PartsOk, StoredRight, TextParts, MantissaFits, ExponentFits, ExponentSize, BestOf;
    var p := TextParts(text);
    BestOfIsBest(p);
    StoredExactly(text);
    AddedExponentFails(p);
  }

  lemma {:induction false} AddedExponentFails(p: Parts)
    requires PartsOk(p) && p.shiftNegative && p.shift > 0 && p.exponentNegative && p.exponent != []
    ensures !ExponentFits(p, 0) && ExponentSize(p, 0) > 0
  {
    hide Significand, NumberOf, Raw, SumBytes, CompareDigits;
    RawNothing(p.shift);
    FirstDigitCounts(p.exponent);
    SumPositive(NumberOf(p.exponent) + p.shift);
  }
}
