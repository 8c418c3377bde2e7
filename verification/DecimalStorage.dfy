// What the bytes of a written decimal stand for.
module DecimalStorage {
  import opened Wrappers
  import opened Arithmetic
  import opened Bytes
  import opened Storage
  import opened Tree
  import opened Digits
  import opened Words
  import opened Shifting
  import opened Sums
  import opened Differences
  import opened DecimalSyntax
  import opened Decimals
  import opened DecimalText

  // The number that a text denotes: its mantissa, moved by its exponent.
  function NumberOfText(text: bytes): Scientific
    requires text != [] && WellFormedDecimal(text)
  {
    Scientific(Mantissa(text).digits, Mantissa(text).scale + Exponent(text))
  }

  // The number that the chosen split denotes: k zeroes are moved into the mantissa.
  function NumberOfSplit(p: Parts, k: nat): Scientific
    requires PartsOk(p)
  {
    var d := Without(p.significand, p.point);
    WithoutDigits(p.significand, p.point);
    Scientific(Scaled(NumberOf(d), k), Signed(ExponentSign(p, k), ExponentValue(p, k)))
  }

  lemma {:induction false} SameAcross(v: nat, n: nat, k: nat, scale: int)
    ensures SameNumber(Scientific(Scaled(v, n), scale - n), Scientific(Scaled(v, k), scale - k))
  {
    hide Pow10;
    if n <= k {
      ScaledTwice(v, n, k - n);
    } else {
      ScaledTwice(v, k, n - k);
    }
  }

  lemma {:induction false} ScaledTwice(v: nat, a: nat, b: nat)
    ensures Scaled(v, a) * Pow10(b) == Scaled(v, a + b)
  {
    Pow10Sum(a, b);
    hide Pow10;
    Associative(v, Pow10(a), Pow10(b));
  }

  // The best split is tried among the candidates, and it denotes the number of the text: for
  // every placement of the point and of zeroes, and every sign and size of the exponent.
  lemma {:induction false} ChoiceKeepsNumber(text: bytes, a: Analysis, k: nat, exponent: bytes, size: nat, data: bytes)
    requires text != [] && WellFormedDecimal(text) && Chosen(text, a, k, exponent, size, data)
    ensures a.significandStart <= a.significandEnd <= |text| && a.exponentStart <= a.exponentEnd <= |text|
    ensures PartsOk(PartsOf(text, a))
    ensures SameNumber(NumberOfText(text), NumberOfSplit(PartsOf(text, a), k))
  {
    hide Mantissa, Exponent, NumberOf, WellFormedDecimal, IsBest, ExponentWritten, DecimalBytes, TotalSize, SameNumber;
    hide Scaled;
    hide ExponentValue, ExponentSign, PartsOk, Without, NumberOfText, NumberOfSplit, PartsOf, ExponentSize, Analyzed;
    hide Shift, TrueExponent;
    PartsAreOk(text, a);
    var n := TrimmedMantissa(text, a);
    var d := Without(SignificandText(text, a), a.decimalPoint - a.significandStart);
    SplitIs(text, a, k);
    TextIs(text, NumberOf(d), n, Shift(a));
    SameAcross(NumberOf(d), n, k, Shift(a) + Exponent(text));
  }

  lemma {:induction false} TextIs(text: bytes, v: nat, n: nat, shift: int)
    requires text != [] && WellFormedDecimal(text) && Mantissa(text) == Scientific(Scaled(v, n), shift - n)
    ensures NumberOfText(text) == Scientific(Scaled(v, n), shift + Exponent(text) - n)
  {
    hide Mantissa, Exponent, Scaled;
  }

  lemma {:induction false} SplitIs(text: bytes, a: Analysis, k: nat)
    requires text != [] && WellFormedDecimal(text) && Analyzed(text, a) && a.significandStart != a.significandEnd
    requires a.significandStart <= a.significandEnd <= |text| && a.exponentStart <= a.exponentEnd <= |text|
    requires PartsOk(PartsOf(text, a)) && IsBest(PartsOf(text, a), k, MaxAdjustment(PartsOf(text, a)) + 1)
    ensures var d := Without(SignificandText(text, a), a.decimalPoint - a.significandStart);
      && AllDigits(d)
      && NumberOfSplit(PartsOf(text, a), k) == Scientific(Scaled(NumberOf(d), k), Shift(a) + Exponent(text) - k)
  {
    hide Exponent, NumberOf, WellFormedDecimal, IsBest, Scaled, ExponentValue, ExponentSign, Without, Analyzed, Shift;
    hide MaxAdjustment;
    PartsAreOk(text, a);
    BestHasRightSign(PartsOf(text, a), k);
    WithoutDigits(SignificandText(text, a), a.decimalPoint - a.significandStart);
  }

  // When the exponent is stored as the right number and in as many bytes as were counted.
  predicate ExponentFits(p: Parts, k: nat)
    requires PartsOk(p)
  {
    var e, adjusted := p.exponent, AdjustedText(p, k);
    if e == [] then AloneFits(adjusted)
    else if adjusted == [] then AloneFits(e)
    else ExponentExact(p, k)
  }

  predicate AloneFits(s: bytes)
    requires Numeral(s)
  {
    s == [] || |s| == 20 || (|s| < 19 && !Misfit(NumberOf(s) - 1))
  }

  // The same for the mantissa.
  predicate MantissaFits(p: Parts, k: nat)
    requires PartsOk(p)
  {
    var s, d := p.significand, Without(p.significand, p.point);
    WithoutDigits(s, p.point);
    || (|d| + k == 20 && |s| != 19)
    || (|d| + k < 20 && |s| < 19 && !Misfit(NumberOf(d) * Pow10(k) - 1))
  }

  lemma {:induction false} AloneStored(s: bytes, out: bytes)
    requires Numeral(s) && WrittenAlone(s, out)
    ensures AloneFits(s) <==> StoredNumber(out) == NumberOf(s) && |out| == CountedAlone(s)
  {
    hide NumberOf, ShiftedWords, StoreWords, StoredNumber, CountedSize, Misfit;
    NumberOfNothing();
    if s != [] {
      NumeralSignificand(s);
      ShiftStoredAndCounted(s, -1, 0);
      TimesOne(NumberOf(s));
    }
  }

  // The exponent that is written is the right number in the counted size exactly then.
  lemma {:induction false} ExponentStoredAndCounted(p: Parts, k: nat, out: bytes)
    requires PartsOk(p) && ExponentWritten(p, k, out)
    ensures ExponentFits(p, k) <==> StoredNumber(out) == ExponentValue(p, k) && |out| == ExponentSize(p, k)
  {
    hide NumberOf, Significand, Shifted, DifferenceBytes, SumBytes, CompareDigits, StoredNumber, Raw, AloneFits;
    hide CountedAlone;
    hide ExponentExact;
    var e, adjusted := p.exponent, AdjustedText(p, k);
    CompareOrders(e, adjusted);
    CompareOrders(adjusted, e);
    NumberOfNothing();
    if e == [] {
      ExponentAlone(p, k, adjusted, out);
      AloneStored(adjusted, out);
      NothingCounted();
    } else if adjusted == [] {
      FirstDigitCounts(e);
      ExponentAlone(p, k, e, out);
      AloneStored(e, out);
    } else {
      ExponentStored(p, k, out);
    }
  }

  lemma {:induction false} NothingCounted()
    ensures CountedAlone([]) == 0
  {
  }

  lemma {:induction false} MantissaStoredAndCounted(p: Parts, k: nat)
    requires PartsOk(p) && k <= 10
    ensures var d := Without(p.significand, p.point);
      && AllDigits(d) && ShiftedWords(d, k)[|ShiftedWords(d, k)| - 1] > 0
      && (MantissaFits(p, k) <==>
            StoredNumber(StoreWords(ShiftedWords(d, k))) == Scaled(NumberOf(d), k)
            && |StoreWords(ShiftedWords(d, k))| == MantissaSize(p, k))
  {
    hide NumberOf, ShiftedWords, StoreWords, StoredNumber, CountedSize, Without, Pow10, Misfit, Significand;
    ShiftStoredAndCounted(p.significand, p.point, k);
  }

  // ---------- Reading back ----------

  // The type byte and the length integer are taken apart again by the reader.
  lemma {:induction false} ExponentReadsBack(negative: bool, exponentNegative: bool, exponent: bytes, mantissa: bytes)
    requires 0 < |exponent| <= SIZE_MAX && mantissa != []
    ensures var size := |exponent|;
      DecimalAnalyze([DecimalType(negative, size, exponentNegative)] + LengthBytes(size) + exponent + mantissa)
      == Ok(DecimalAnalysis(exponent, mantissa, exponentNegative, negative))
  {
    hide LittleEndian, FromLittleEndian, StorageSize, StorageSize1;
    var size := |exponent|;
    var length := LengthBytes(size);
    var data := [DecimalType(negative, size, exponentNegative)] + length + exponent + mantissa;
    StorageSizesAgree(size);
    DecimalTypeBits(negative, size, exponentNegative);
    WidthHolds(size - 1, size - 1);
    var w := |length|;
    assert data[1..1 + w] == length;
    assert data[1 + w..1 + w + size] == exponent && data[1 + w + size..] == mantissa;
  }

  lemma {:induction false} DecimalTypeBits(negative: bool, size: nat, exponentNegative: bool)
    requires size > 0
    ensures var t := DecimalType(negative, size, exponentNegative);
      && t / 16 == 2 && t % 4 == StorageSize1(size)
      && (t / 4 % 2 == 1 <==> negative) && (t / 8 % 2 == 1 <==> exponentNegative)
  {
    hide StorageSize1;
    if negative && exponentNegative {
      FourBits(StorageSize1(size), 1, 1);
    } else if negative {
      FourBits(StorageSize1(size), 1, 0);
    } else if exponentNegative {
      FourBits(StorageSize1(size), 0, 1);
    } else {
      FourBits(StorageSize1(size), 0, 0);
    }
  }

  lemma {:induction false} FourBits(w: nat, a: nat, b: nat)
    requires w < 4 && a <= 1 && b <= 1
    ensures var t := 0x20 + w + 4 * a + 8 * b;
      t / 16 == 2 && t % 4 == w && t / 4 % 2 == a && t / 8 % 2 == b
  {
  }

  // What the reader makes of the bytes of a decimal with an exponent, and without one.
  function NumberRead(a: DecimalAnalysis): Scientific {
    Scientific(StoredNumber(a.significand), Signed(a.exponentNegative, StoredNumber(a.exponent)))
  }

  // A decimal text is stored faithfully when its mantissa and its exponent are: the size in the
  // spool is the real one, and the reader finds the text's sign and number.
  lemma {:induction false} DecimalFaithful(text: bytes, a: Analysis, k: nat, exponent: bytes, size: nat, data: bytes)
    requires text != [] && |text| <= PTRDIFF_MAX && WellFormedDecimal(text) && Chosen(text, a, k, exponent, size, data)
    requires a.significandStart <= a.significandEnd <= |text| && a.exponentStart <= a.exponentEnd <= |text|
    requires var p := PartsOf(text, a);
      PartsOk(p) && MantissaFits(p, k) && (ExponentSize(p, k) > 0 ==> ExponentFits(p, k))
    ensures |data| == size
    ensures
      if ExponentSize(PartsOf(text, a), k) > 0 then
        && DecimalAnalyze(data).Ok?
        && DecimalAnalyze(data).value.significandNegative == (text[0] == MINUS)
        && SameNumber(NumberOfText(text), NumberRead(DecimalAnalyze(data).value))
      else
        && data[0] == 0x1A + (if text[0] == MINUS then 1 else 0)
        && SameNumber(NumberOfText(text), Scientific(StoredNumber(data[1..]), 0))
  {
    hide NumberOfText, NumberOf, StoredNumber, ExponentWritten, IsBest, Scaled, SameNumber, WellFormedDecimal;
    hide ExponentFits, MantissaFits;
    hide ExponentSign, ExponentValue, ExponentSize, MantissaSize, ShiftedWords, StoreWords, Without, DecimalAnalyze;
    hide LengthBytes;
    var p := PartsOf(text, a);
    ChoiceKeepsNumber(text, a, k, exponent, size, data);
    AdjustmentsFew(p, k);
    MantissaStoredAndCounted(p, k);
    var mantissa := StoreWords(ShiftedWords(Without(p.significand, p.point), k));
    LengthBytesSize(ExponentSize(p, k));
    if ExponentSize(p, k) > 0 {
      ExponentStoredAndCounted(p, k, exponent);
      PartsSmall(text, a);
      ExponentSmall(p, k);
      ExponentReadsBack(a.mantissaNegative, ExponentSign(p, k), exponent, mantissa);
    } else {
      assert data[1..] == mantissa;
      NoExponentIsZero(p, k);
    }
  }

  lemma {:induction false} AdjustmentsFew(p: Parts, k: nat)
    requires PartsOk(p) && IsBest(p, k, MaxAdjustment(p) + 1)
    ensures k <= 10
  {
    hide PartsOk, TotalSize, ExponentSize;
  }

  lemma {:induction false} LengthBytesSize(size: nat)
    ensures |LengthBytes(size)| + size == LengthAndExponent(size)
  {
    if size > 0 {
      StorageSizesAgree(size);
    }
  }

  // No bytes are counted for an exponent only if it is zero.
  lemma {:induction false} NoExponentIsZero(p: Parts, k: nat)
    requires PartsOk(p) && ExponentSize(p, k) == 0
    ensures ExponentValue(p, k) == 0
  {
    hide NumberOf, Significand, CountedAlone, SumBytes, DifferenceBytes, CompareDigits, Raw;
    var e, adjusted := p.exponent, AdjustedText(p, k);
    CompareOrders(e, adjusted);
    CompareOrders(adjusted, e);
    NumberOfNothing();
    if e != [] {
      CountedPositive(e);
      FirstDigitCounts(e);
    }
    if adjusted != [] {
      CountedPositive(adjusted);
      FirstDigitCounts(adjusted);
    }
    SumPositive(NumberOf(e) + NumberOf(adjusted));
    if NumberOf(e) > NumberOf(adjusted) {
      DifferencePositive(NumberOf(e) - NumberOf(adjusted));
    }
    if NumberOf(adjusted) > NumberOf(e) {
      DifferencePositive(NumberOf(adjusted) - NumberOf(e));
    }
  }

  lemma {:induction false} SumPositive(v: nat)
    ensures v > 0 ==> |SumBytes(v)| > 0
  {
    hide BaseWords, LittleEndian;
  }

  // Whatever is written is a scalar of the file format, so that a tree can hold it.
  lemma {:induction false} DecimalIsScalar(text: bytes, a: Analysis, k: nat, exponent: bytes, size: nat, data: bytes)
    requires text != [] && WellFormedDecimal(text)
    requires
      || data == [DecimalType(a.mantissaNegative, 0, false)]
      || Chosen(text, a, k, exponent, size, data)
    ensures WrittenScalar(data) && 0x1A <= data[0] <= 0x2F
  {
    hide ExponentWritten, IsBest, WellFormedDecimal, Analyzed, ExponentSize, ShiftedWords, StoreWords, Without;
    hide LengthBytes, TotalSize;
    if data != [DecimalType(a.mantissaNegative, 0, false)] {
      PartsAreOk(text, a);
      assert data[0] == DecimalType(a.mantissaNegative, ExponentSize(PartsOf(text, a), k), ExponentSign(PartsOf(text, a), k));
    }
  }
}
