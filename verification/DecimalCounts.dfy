// The size that is put into the spool for a number, against the number of bytes that follow
// (lib/writer/decimal.c:415-469, which asserts in the end that both are the same).
module DecimalCounts {
  import opened Wrappers
  import opened Bytes
  import opened Tree
  import opened Document
  import opened Digits
  import opened Words
  import opened Shifting
  import opened Sums
  import opened Differences
  import opened DecimalSyntax
  import opened Decimals
  import opened DecimalStorage
  import opened Counting

  predicate AloneCounted(s: bytes)
    requires Numeral(s)
  {
    s == [] || (NumeralSignificand(s); CountedRight(s, -1, 0))
  }

  // A sum or a difference is counted as it is written. What is written alone is packed.
  predicate ExponentCounted(p: Parts, k: nat)
    requires PartsOk(p)
  {
    var e, adjusted := p.exponent, AdjustedText(p, k);
    if AdjustedNegative(p, k) == p.exponentNegative then
      (e == [] ==> AloneCounted(adjusted)) && (adjusted == [] ==> AloneCounted(e))
    else if CompareDigits(e, adjusted) < 0 then e == [] ==> AloneCounted(adjusted)
    else if CompareDigits(e, adjusted) > 0 then adjusted == [] ==> AloneCounted(e)
    else true
  }

  predicate SplitCounted(p: Parts, k: nat)
    requires PartsOk(p)
  {
    CountedRight(p.significand, p.point, k) && ExponentCounted(p, k)
  }

  lemma {:induction false} AloneAgainstWritten(s: bytes)
    requires Numeral(s)
    ensures |AloneBytes(s)| <= CountedAlone(s)
    ensures |AloneBytes(s)| == CountedAlone(s) <==> AloneCounted(s)
  {
    hide CountedRight, CountedSize, ShiftedWords, StoreWords;
    if s != [] {
      NumeralSignificand(s);
      CountedAgainstWritten(s, -1, 0);
    }
  }

  lemma {:induction false} ExponentAgainstWritten(p: Parts, k: nat)
    requires PartsOk(p)
    ensures |ExponentBytes(p, k)| <= ExponentSize(p, k)
    ensures |ExponentBytes(p, k)| == ExponentSize(p, k) <==> ExponentCounted(p, k)
  {
    hide NumberOf, Significand, AloneBytes, CountedAlone, AloneCounted, DifferenceBytes, SumBytes, CompareDigits, Raw;
    var e, adjusted := p.exponent, AdjustedText(p, k);
    NumberOfNothing();
    CompareOrders(e, adjusted);
    CompareOrders(adjusted, e);
    AloneAgainstWritten(e);
    AloneAgainstWritten(adjusted);
    NothingAlone();
  }

  lemma {:induction false} NothingAlone()
    ensures AloneBytes([]) == [] && CountedAlone([]) == 0 && AloneCounted([])
  {
  }

  // Neither count falls short, so the two cannot make up for each other: the size of the whole
  // is right exactly if both counts are.
  lemma {:induction false} SplitAgainstWritten(p: Parts, k: nat, mantissaNegative: bool)
    requires PartsOk(p)
    ensures var n := ChosenNumber(p, k, mantissaNegative);
      |n.data| <= n.size && (Miscounted(n) <==> !SplitCounted(p, k))
  {
    hide Significand, CountedRight, ExponentCounted, ExponentBytes, ExponentSize, CountedSize, ShiftedWords;
    hide StoreWords, Without;
    WithoutDigits(p.significand, p.point);
    CountedAgainstWritten(p.significand, p.point, k);
    ExponentAgainstWritten(p, k);
    LengthBytesSize(ExponentSize(p, k));
    PackedSizeMeans(Without(p.significand, p.point), k);
  }

  lemma {:induction false} PackedSizeMeans(d: bytes, k: nat)
    requires AllDigits(d) && d != [] && d[0] != ZERO
    ensures ShiftedWords(d, k)[|ShiftedWords(d, k)| - 1] > 0
    ensures PackedSize(d, k) == |StoreWords(ShiftedWords(d, k))|
  {
    hide StoreWords;
    ShiftedShape(d, k);
  }

  // When a text is stored with its right size.
  predicate TextCounted(text: bytes)
    requires text != [] && |text| <= PTRDIFF_MAX && WellFormedDecimal(text)
  {
    var a := AnalysisOf(text);
    a.significandStart != a.significandEnd ==>
      (PartsAreOk(text, a); SplitCounted(PartsOf(text, a), BestOf(PartsOf(text, a))))
  }

  // The size is never too small, and it is right exactly for these texts.
  lemma {:induction false} SizeAgainstWritten(text: bytes)
    requires DecimalOf(text).Ok?
    ensures var n := DecimalOf(text).value;
      |n.data| <= n.size && (Miscounted(n) <==> !TextCounted(text))
  {
    hide WellFormedDecimal, Analyzed, PartsOk, SplitCounted, ChosenNumber;
    var a := AnalysisOf(text);
    if a.significandStart != a.significandEnd {
      PartsAreOk(text, a);
      var p := PartsOf(text, a);
      SplitAgainstWritten(p, BestOf(p), a.mantissaNegative);
    }
  }

  // Everything that is stored is a scalar of the file format, with a size below 2^64.
  lemma {:induction false} DecimalOfIsOk()
    ensures DecimalsOk(DecimalOf)
  {
    forall text | DecimalOf(text).Ok?
      ensures NumberOk(DecimalOf(text).value)
    {
      NumberIsOk(text);
    }
  }

  lemma {:induction false} NumberIsOk(text: bytes)
    requires DecimalOf(text).Ok?
    ensures NumberOk(DecimalOf(text).value)
  {
    hide WellFormedDecimal, Analyzed, PartsOk, Chosen, WrittenScalar, TotalSize, IsBest, DecimalBytes;
    var a, n := AnalysisOf(text), DecimalOf(text).value;
    if a.significandStart == a.significandEnd {
      DecimalIsScalar(text, a, 0, [], n.size, n.data);
    } else {
      DecimalOfIsChosen(text);
      var p := PartsOf(text, a);
      DecimalIsScalar(text, a, BestOf(p), if ExponentSize(p, BestOf(p)) > 0 then ExponentBytes(p, BestOf(p)) else [], n.size, n.data);
      PartsSmall(text, a);
      BestOfIsBest(p);
      TotalSmall(p, BestOf(p));
    }
  }
}
