// The split that is stored, stated apart from the search for it (lib/writer/decimal.c:336-413):
// no split that moves up to ten zeroes into the mantissa is smaller.
module DecimalChoice {
  import opened Wrappers
  import opened Bytes
  import opened Digits
  import opened Words
  import opened Sums
  import opened Grammar
  import opened DecimalSyntax
  import opened Decimals
  import opened DecimalTexts

  lemma {:induction false} BaseWordsGrow(a: nat, b: nat)
    requires 0 < a <= b
    ensures var v, w := BaseWords(a), BaseWords(b);
      |v| < |w| || (|v| == |w| && v[|v| - 1] <= w[|w| - 1])
  {
    if b >= BASE && a >= BASE {
      assert a / BASE <= b / BASE;
      BaseWordsGrow(a / BASE, b / BASE);
    }
  }

  // A larger sum never takes fewer bytes.
  lemma {:induction false} SumGrows(a: nat, b: nat)
    requires 0 < a <= b
    ensures 0 < |SumBytes(a)| <= |SumBytes(b)|
  {
    hide BaseWords, FitUint64;
    BaseWordsGrow(a, b);
    var v, w := BaseWords(a), BaseWords(b);
    if |v| == |w| {
      FitGrows(v[|v| - 1] - 1, w[|w| - 1] - 1);
    }
  }

  // Where both powers of ten are negative nothing is gained from moving zeroes, so that it
  // does no harm that only one split is tried.
  lemma {:induction false} BothNegative(p: Parts, k: nat)
    requires PartsOk(p) && p.shiftNegative && p.exponentNegative && 0 < p.shift <= PTRDIFF_MAX && k <= 10
    ensures 0 < ExponentSize(p, 0) <= ExponentSize(p, k)
  {
    hide NumberOf, CountedAlone, Raw, Pow10, SumBytes, PartsOk;
    RawNothing(p.shift);
    RawNothing(p.shift + k);
    AloneGrows(p.shift, p.shift + k);
    AloneGrows(p.shift, p.shift);
    if p.exponent != [] {
      PartsNumeral(p);
      FirstDigitCounts(p.exponent);
      SumGrows(NumberOf(p.exponent) + p.shift, NumberOf(p.exponent) + p.shift + k);
    }
  }

  lemma {:induction false} PartsNumeral(p: Parts)
    requires PartsOk(p)
    ensures Numeral(p.exponent)
  {
  }

  lemma {:induction false} NoneSmaller(p: Parts, k: nat)
    requires PartsOk(p) && k <= 10 && p.shift <= PTRDIFF_MAX && (p.shiftNegative ==> p.shift > 0)
    ensures TotalSize(p, BestOf(p)) <= TotalSize(p, k)
    ensures TotalSize(p, BestOf(p)) == TotalSize(p, k) && ExponentSize(p, k) == 0 ==> ExponentSize(p, BestOf(p)) == 0
    ensures k < BestOf(p) ==>
      TotalSize(p, BestOf(p)) < TotalSize(p, k) || (ExponentSize(p, k) > 0 && ExponentSize(p, BestOf(p)) == 0)
  {
    hide ExponentSize, MantissaSize, PartsOk, BestOf;
    BestOfIsBest(p);
    var best := BestOf(p);
    if p.shiftNegative && p.exponentNegative {
      BothNegative(p, k);
      MantissaGrows(p, 0, k);
      LengthGrows(ExponentSize(p, 0), ExponentSize(p, k));
    } else {
      assert !Better(p, k, best);
      assert k < best ==> Better(p, best, k);
    }
  }

  lemma {:induction false} LengthGrows(a: nat, b: nat)
    requires a <= b
    ensures LengthAndExponent(a) <= LengthAndExponent(b)
  {
  }

  lemma {:induction false} ShiftsSmall(text: bytes)
    requires NonZero(text)
    ensures var p := TextParts(text); p.shift <= PTRDIFF_MAX && (p.shiftNegative ==> p.shift > 0)
  {
    hide WellFormedDecimal, PartsOk, SkipDigits;
    PartsSmall(text, AnalysisOf(text));
    LastIsDigit(text, AnalysisOf(text));
  }

  // The significand does not end with the point.
  lemma {:induction false} LastIsDigit(text: bytes, a: Analysis)
    requires text != [] && Analyzed(text, a) && a.significandStart != a.significandEnd
    ensures a.decimalPoint < a.significandEnd ==> a.significandEnd - a.decimalPoint - 1 > 0
  {
    hide SkipDigits;
    if a.decimalPoint == a.significandEnd - 1 {
      PointIsNoDigit(text);
    }
  }

  // What is stored for a text is never larger than any of the splits that move up to ten
  // zeroes into the mantissa. Among those of the same size it is one without an exponent, if
  // there is one.
  lemma {:induction false} SmallestIsStored(text: bytes, k: nat)
    requires NonZero(text) && k <= 10
    ensures var p, n := TextParts(text), DecimalOf(text).value;
      && n.size <= TotalSize(p, k)
      && n.data != []
      && (n.size == TotalSize(p, k) && ExponentSize(p, k) == 0 ==> n.data[0] in {0x1A, 0x1B})
  {
    hide ExponentSize, TotalSize, PartsOk, BestOf, DecimalOf, TextParts, ExponentSign, ExponentBytes, MantissaBytes;
    NonZeroIsStored(text);
    var p, negative := TextParts(text), AnalysisOf(text).mantissaNegative;
    TextIsChosen(text);
    ShiftsSmall(text);
    NoneSmaller(p, k);
    DataIs(p, BestOf(p), negative);
  }

  lemma {:induction false} NonZeroIsStored(text: bytes)
    requires NonZero(text)
    ensures DecimalOf(text).Ok? && text != [] && WellFormedDecimal(text)
  {
  }
}
