// From text to text for every decimal text, with or without an exponent: when what is printed
// for it is the same number.
module ScientificRoundTrip {
  import opened Wrappers
  import opened Arithmetic
  import opened Bytes
  import opened Document
  import opened Digits
  import opened Words
  import opened DecimalText
  import opened Json
  import opened Shifting
  import opened Sums
  import opened Differences
  import opened DecimalSyntax
  import opened Decimals
  import opened DecimalStorage
  import opened Counting
  import opened DecimalCounts
  import opened DecimalPrinting
  import opened PrintedDecimals
  import opened DecimalTexts
  import opened DecimalRoundTrip

  // ---------- What is printed for a split ----------

  // The exponent that is printed, and zero where there is none.
  function PrintedExponent(p: Parts, k: nat): Result<int>
    requires PartsOk(p) && SplitCounted(p, k)
  {
    if ExponentSize(p, k) == 0 then Ok(0)
    else
      ExponentAgainstWritten(p, k);
      var text :- PartText(ExponentBytes(p, k));
      Ok(Signed(ExponentSign(p, k), NumberOf(text)))
  }

  lemma {:induction false} SplitPrints(p: Parts, k: nat, negative: bool)
    requires PartsOk(p) && SplitCounted(p, k) && ExponentSize(p, k) <= SIZE_MAX
    ensures var r, m, e := JsonOf(ChosenNumber(p, k, negative).data), PartText(MantissaBytes(p, k)), PrintedExponent(p, k);
      && (r.Ok? <==> m.Ok? && e.Ok?)
      && (r.Ok? ==>
            && r.value != [] && WellFormedDecimal(r.value) && (r.value[0] == MINUS <==> negative)
            && NumberOfText(r.value) == Scientific(NumberOf(m.value), e.value))
  {
    hide PartsOk, CountedRight, ExponentCounted, ExponentSign, ExponentBytes, ExponentSize, DecimalAnalyze, JsonOf;
    hide LengthBytes, MantissaBytes, PartText, ChosenNumber, WellFormedDecimal, NumberOfText, NumberOf;
    var size, sign, exponent, mantissa := ExponentSize(p, k), ExponentSign(p, k), ExponentBytes(p, k), MantissaBytes(p, k);
    DataIs(p, k, negative);
    ExponentAgainstWritten(p, k);
    var data := ChosenNumber(p, k, negative).data;
    if size > 0 {
      ExponentReadsBack(negative, sign, exponent, mantissa);
      DecimalTypeBits(negative, size, sign);
      assert data == [DecimalType(negative, size, sign)] + LengthBytes(size) + exponent + mantissa;
      assert data[0] == DecimalType(negative, size, sign);
      PrintedScientific(data);
    } else {
      assert data[1..] == mantissa;
      assert data[0] == if negative then 0x1B else 0x1A;
      PrintedInteger(data);
    }
  }

  // A number that is no multiple of ten can be written with a smaller power of ten only.
  lemma {:induction false} SameMeans(v: nat, n: nat, t: int, m: nat, e: int)
    requires v % 10 != 0
    ensures SameNumber(Scientific(Scaled(v, n), t - n), Scientific(m, e)) <==> e <= t && m == Scaled(v, t - e)
  {
    hide Pow10, Scaled;
    if e > t || (e == t && m == v) {
      SameOnlyAsItself(v, n, t, m, e);
      ScaledNothing(v);
    } else if e >= t - n {
      var x := t - e;
      RaiseIsScaled(m, n - x);
      RaiseIsScaled(Scaled(v, n), 0);
      ScaledNothing(Scaled(v, n));
      ScaledTwice(v, x, n - x);
      ScaledIs(Scaled(v, x), n - x);
      ScaledInjective(m, Scaled(v, x), n - x);
    } else {
      var x := t - n - e;
      RaiseIsScaled(Scaled(v, n), x);
      ScaledIs(Scaled(v, n), x);
      ScaledTwice(v, n, x);
    }
  }

  // For every text: it comes back exactly if its size is right and what is printed for the two
  // parts makes up its number.
  lemma {:induction false} ComesBack(text: bytes)
    requires NonZero(text)
    ensures DecimalOf(text).Ok?
    ensures var p := TextParts(text);
      var k, d := BestOf(p), MantissaDigitsOf(p);
      var m := PartText(MantissaBytes(p, k));
      RoundTrips(text) <==>
        SplitCounted(p, k) && m.Ok? && PrintedExponent(p, k).Ok?
        && var e := PrintedExponent(p, k).value;
           e <= TrueExponent(p, 0) && NumberOf(m.value) == Scaled(NumberOf(d), TrueExponent(p, 0) - e)
  {
    hide NumberOf, TextParts, MantissaDigitsOf, SplitCounted, ChosenNumber, JsonOf, PartText, NumberOfText, Scaled;
    hide SameNumber, MantissaBytes, TrueExponent, BestOf, PrintedExponent, ExponentSize, PartsOk, DecimalOf, Miscounted;
    hide WellFormedDecimal;
    TextIsStored(text);
    var p, negative := TextParts(text), text[0] == MINUS;
    var k := BestOf(p);
    TextIsChosen(text);
    SplitAgainstWritten(p, k, negative);
    var n := TextNumber(text);
    if SplitCounted(p, k) {
      SplitPrints(p, k, negative);
      if PartText(MantissaBytes(p, k)).Ok? && PrintedExponent(p, k).Ok? {
        SameMeans(NumberOf(MantissaDigitsOf(p)), n, TrueExponent(p, 0),
                  NumberOf(PartText(MantissaBytes(p, k)).value), PrintedExponent(p, k).value);
      }
    }
  }

  lemma {:induction false} TextIsStored(text: bytes)
    requires NonZero(text)
    ensures DecimalOf(text).Ok? && text != [] && WellFormedDecimal(text)
  {
  }

  // ---------- The mantissa ----------

  // The digits that are packed at a tenth of their weight never make the number ten times as
  // large, since the last digit is not one of them.
  lemma {:induction false} ExcessBelow(d: bytes, k: nat)
    requires AllDigits(d) && k < 19
    ensures Excess(d, k) <= 9 * Scaled(NumberOf(d), k)
    ensures d != [] && d[|d| - 1] != ZERO ==> Excess(d, k) < 9 * Scaled(NumberOf(d), k)
  {
    hide Pow10, NumberOf, Scaled;
    if d != [] {
      ExcessBelow(d[1..], k);
      PackNext(d, k);
      if |d| == 1 {
        ScaledIs(d[0] - ZERO, k);
        NotZero(d[0] - ZERO, Pow10(k));
        NothingPrinted(k);
        assert d[1..] == [];
      }
    } else {
      NothingPrinted(k);
    }
  }

  lemma {:induction false} MantissaBelow(p: Parts, k: nat)
    requires PartsOk(p) && k < 19 && NumberOf(MantissaDigitsOf(p)) % 10 != 0
    ensures var d, m := MantissaDigitsOf(p), PartText(MantissaBytes(p, k));
      m.Ok? ==> NumberOf(m.value) < 10 * Scaled(NumberOf(d), k)
  {
    hide Pow10, NumberOf, Pack, Scaled, PrintedWords, PartText, StoreWords, StoredTop, Excess, PartsOk, MantissaDigitsOf;
    var d := MantissaDigitsOf(p);
    var q, words := Pack(d, k), ShiftedWords(d, k);
    LastOfNumber(d);
    PackShape(d, k);
    assert words == q.words + [q.word];
    StoredPrints(q.words, q.word);
    StoredTopIs(q.word);
    PackedPrints(d, k);
    ExcessBelow(d, k);
    PrintedSnoc(q.words, q.word);
    PrintedSnoc(q.words, StoredTop(q.word));
    Multiples(Pow10(20 * |q.words|), StoredTop(q.word), q.word);
  }

  // What moving k zeroes into the mantissa must not spoil.
  predicate MantissaComesBack(p: Parts, k: nat)
    requires PartsOk(p) && k < 19
  {
    PackShape(MantissaDigitsOf(p), k);
    TwentiethsZero(MantissaDigitsOf(p), k) && !Misfit(Pack(MantissaDigitsOf(p), k).word - 1)
  }

  lemma {:induction false} MantissaPrints(p: Parts, k: nat)
    requires PartsOk(p) && k < 19
    ensures var d, m := MantissaDigitsOf(p), PartText(MantissaBytes(p, k));
      m.Ok? && NumberOf(m.value) == Scaled(NumberOf(d), k) <==> MantissaComesBack(p, k)
  {
    hide PartsOk, NumberOf, Scaled, TwentiethsZero, Misfit, Pack, PartText, StoreWords, ShiftedWords, Without;
    PrintedExactly(MantissaDigitsOf(p), k);
  }

  // ---------- The exponent ----------

  // The exponent is stored as a sum, which is not reduced.
  predicate Summed(p: Parts, k: nat) {
    p.exponent != [] && Adjusted(p, k) > 0 && AdjustedNegative(p, k) == p.exponentNegative
  }

  lemma {:induction false} ShortNumeral(s: bytes)
    requires Numeral(s) && s != [] && NumberOf(s) < Pow10(18)
    ensures |s| <= 18
  {
    hide NumberOf, Pow10;
    NumberCons(s);
    Multiples(Pow10(|s| - 1), 1, s[0] - ZERO);
    if |s| > 18 {
      Pow10Grows(18, |s| - 1);
    }
  }

  // A number below 10^18 is one word, and is stored as that.
  lemma {:induction false} AloneIsWord(s: bytes)
    requires Numeral(s) && 0 < NumberOf(s) < Pow10(18)
    ensures AloneBytes(s) == LittleEndian(NumberOf(s) - 1, FitUint64(NumberOf(s) - 1))
  {
    hide NumberOf, Pow10, Pack, LittleEndian, FitUint64;
    NumberOfNothing();
    ShortNumeral(s);
    NumeralSignificand(s);
    StoredForm(s, 0);
    PackShape(s, 0);
    TopWord(s, 0);
    PowZero();
    assert FullWords([]) == [];
    assert Pack(s, 0).words == [];
  }

  lemma {:induction false} OneBaseWord(v: nat)
    requires 0 < v < Pow10(18)
    ensures v < BASE && BaseWords(v) == [v]
    ensures DifferenceBytes(v) == LittleEndian(v - 1, FitUint64(v - 1))
    ensures SumBytes(v) == LittleEndian(v, FitUint64(v - 1))
  {
    hide LittleEndian, FitUint64;
    Pow10Small();
    Pow10Grows(18, 19);
    hide Pow10;
    assert NonZeroes([]) == [];
    assert [v][1..] == [] && [v][..0] == [];
    assert Kept([v]) == [v];
    assert FullWords([]) == [];
  }

  lemma {:induction false} ExponentWord(p: Parts, k: nat)
    requires PartsOk(p) && 0 < ExponentValue(p, k) < Pow10(18)
    ensures var v := ExponentValue(p, k);
      ExponentBytes(p, k) == LittleEndian(if Summed(p, k) then v else v - 1, FitUint64(v - 1))
  {
    hide NumberOf, Pow10, Raw, LittleEndian, FitUint64, AloneBytes, DifferenceBytes, SumBytes, CompareDigits, Significand;
    var e, adjusted, v := p.exponent, AdjustedText(p, k), ExponentValue(p, k);
    CompareOrders(e, adjusted);
    NumberOfNothing();
    RawNothing(Adjusted(p, k));
    OneBaseWord(v);
    if e == [] {
      AloneIsWord(adjusted);
      assert !Summed(p, k);
    } else {
      FirstDigitCounts(e);
      if adjusted == [] {
        AloneIsWord(e);
        assert !Summed(p, k);
      } else if AdjustedNegative(p, k) == p.exponentNegative {
        assert Summed(p, k);
        assert v == NumberOf(e) + NumberOf(adjusted);
        assert ExponentBytes(p, k) == SumBytes(v);
      } else {
        assert !Summed(p, k);
        assert ExponentBytes(p, k) == DifferenceBytes(v);
      }
    }
  }

  // How far the printed exponent is off: not at all, by one, or by more than any mantissa can
  // make up for.
  lemma {:induction false} ExponentPrints(p: Parts, k: nat)
    requires PartsOk(p) && SplitCounted(p, k) && 0 < ExponentValue(p, k) < Pow10(18)
    ensures ExponentSize(p, k) > 0 && ExponentBytes(p, k) != []
    ensures var v, text := ExponentValue(p, k), PartText(ExponentBytes(p, k));
      && text.Ok? && PrintedExponent(p, k) == Ok(Signed(ExponentSign(p, k), NumberOf(text.value)))
      && (if Summed(p, k) then
            if v < Pow256(FitUint64(v - 1)) then NumberOf(text.value) == v + 1 else NumberOf(text.value) + 255 <= v
          else
            if Misfit(v - 1) then NumberOf(text.value) + 256 <= v else NumberOf(text.value) == v)
  {
    hide NumberOf, Pow10, LittleEndian, FitUint64, Pow256, FromLittleEndian, ExponentBytes, ExponentSize, ExponentSign;
    hide PartText, Misfit, Signed, PartsOk, SplitCounted, ExponentValue;
    var v := ExponentValue(p, k);
    var n := FitUint64(v - 1);
    if ExponentSize(p, k) == 0 {
      NoExponentIsZero(p, k);
    }
    ExponentWord(p, k);
    Pow10Small();
    Pow10Grows(18, 19);
    WordSize(v, n);
    WordSize(v - 1, n);
    OneWord(ExponentBytes(p, k));
    TruncationGap(v, n);
    TruncationGap(v - 1, n);
    LittleEndianHolds(v, n);
    FitHolds(v - 1);
    Truncation(v, n);
    Truncation(v - 1, n);
  }

  lemma {:induction false} WordSize(v: nat, n: nat)
    requires 0 < n <= 8
    ensures |LittleEndian(v, n)| == n
    ensures StoredNumber(LittleEndian(v, n)) == FromLittleEndian(LittleEndian(v, n)) + 1
  {
    hide LittleEndian, FromLittleEndian;
  }

  // ---------- Both ----------

  lemma {:induction false} FarAboveFails(v: nat, m: nat, k: nat, j: nat)
    requires v > 0 && m < 10 * Scaled(v, k) && j > k
    ensures m != Scaled(v, j)
  {
    hide Pow10;
    Pow10Grows(k, j);
    Multiples(v, 10 * Pow10(k), Pow10(j));
    Rearranged(v, Pow10(k));
  }

  lemma {:induction false} Rearranged(v: nat, a: nat)
    ensures v * (10 * a) == 10 * (v * a)
  {
  }

  lemma {:induction false} NoExponentPrinted(p: Parts, k: nat)
    requires PartsOk(p) && SplitCounted(p, k) && ExponentValue(p, k) == 0
    ensures PrintedExponent(p, k) == Ok(0) && !Summed(p, k)
  {
    hide NumberOf, Pow10, Raw, SumBytes, DifferenceBytes, CompareDigits, Significand, SplitCounted, CountedSize;
    var e, adjusted := p.exponent, AdjustedText(p, k);
    CompareOrders(e, adjusted);
    NumberOfNothing();
    RawNothing(Adjusted(p, k));
    if e != [] {
      FirstDigitCounts(e);
    }
  }

  lemma {:induction false} SummedSign(p: Parts, k: nat)
    requires Summed(p, k)
    ensures ExponentSign(p, k) == p.exponentNegative
  {
  }

  lemma {:induction false} TrueExponentIs(p: Parts, k: nat)
    requires PartsOk(p)
    ensures TrueExponent(p, k) == TrueExponent(p, 0) - k
  {
    hide NumberOf;
  }

  lemma {:induction false} SplitComesBack(p: Parts, k: nat)
    requires PartsOk(p) && SplitCounted(p, k) && k <= 10 && NumberOf(MantissaDigitsOf(p)) % 10 != 0
    requires Signed(ExponentSign(p, k), ExponentValue(p, k)) == TrueExponent(p, k)
    requires ExponentValue(p, k) < Pow10(18)
    ensures Summed(p, k) ==> ExponentValue(p, k) > 0
    ensures var v, d, t, m := ExponentValue(p, k), NumberOf(MantissaDigitsOf(p)), TrueExponent(p, 0), PartText(MantissaBytes(p, k));
      (m.Ok? && PrintedExponent(p, k).Ok?
       && var e := PrintedExponent(p, k).value; e <= t && NumberOf(m.value) == Scaled(d, t - e))
      <==>
      (if Summed(p, k) then
         && !p.exponentNegative && k > 0 && v < Pow256(FitUint64(v - 1))
         && m.Ok? && NumberOf(m.value) == Scaled(d, k - 1)
       else MantissaComesBack(p, k) && (v == 0 || !Misfit(v - 1)))
  {
    hide NumberOf, MantissaDigitsOf, SplitCounted, PartText, Scaled, FitUint64, Pow256, Pow10, MantissaBytes;
    hide TrueExponent, PrintedExponent, ExponentSize, PartsOk, ExponentBytes, MantissaComesBack, Misfit, ExponentValue;
    hide ExponentSign, Summed;
    var v, d, t, m := ExponentValue(p, k), NumberOf(MantissaDigitsOf(p)), TrueExponent(p, 0), PartText(MantissaBytes(p, k));
    TrueExponentIs(p, k);
    MantissaPrints(p, k);
    MantissaBelow(p, k);
    if v == 0 {
      NoExponentPrinted(p, k);
    } else {
      ExponentPrints(p, k);
    }
    if Summed(p, k) {
      SummedSign(p, k);
    }
    if m.Ok? && PrintedExponent(p, k).Ok? {
      var e := PrintedExponent(p, k).value;
      if e < t - k {
        FarAboveFails(d, NumberOf(m.value), k, t - e);
      }
    }
  }

  // Where the exponent is not a sum, a text comes back exactly if its size is right, every
  // twentieth digit of its mantissa, from the right, is zero, and neither the mantissa's top
  // word nor the exponent, less one, is a misfit. Where it is a sum, the printed exponent is
  // one too far from zero. So the text comes back only if the mantissa is cut to its tenth.
  lemma {:induction false} TextRoundTrips(text: bytes)
    requires NonZero(text) && ExponentValue(TextParts(text), BestOf(TextParts(text))) < Pow10(18)
    ensures DecimalOf(text).Ok? && BestOf(TextParts(text)) <= 10
    ensures var p := TextParts(text);
      var k, v, m := BestOf(p), ExponentValue(p, BestOf(p)), PartText(MantissaBytes(p, BestOf(p)));
      RoundTrips(text) <==>
        SplitCounted(p, k)
        && if Summed(p, k) then
             && !p.exponentNegative && k > 0 && v < Pow256(FitUint64(v - 1))
             && m.Ok? && NumberOf(m.value) == Scaled(NumberOf(MantissaDigitsOf(p)), k - 1)
           else MantissaComesBack(p, k) && (v == 0 || !Misfit(v - 1))
  {
    hide NumberOf, TextParts, MantissaDigitsOf, SplitCounted, RoundTrips, PartText, Scaled, FitUint64, Pow256, Pow10;
    hide MantissaBytes, TrueExponent, BestOf, PrintedExponent, ExponentSize, PartsOk, ExponentBytes, MantissaComesBack;
    hide Misfit, ExponentValue, ExponentSign, Summed, IsBest, MaxAdjustment, DecimalOf, Signed;
    TextIsStored(text);
    var p := TextParts(text);
    var k := BestOf(p);
    BestOfIsBest(p);
    ComesBack(text);
    BestHasRightSign(p, k);
    var n := TextNumber(text);
    if SplitCounted(p, k) {
      SplitComesBack(p, k);
    }
    if Summed(p, k) {
      SummedPositive(p, k);
    }
  }

  lemma {:induction false} SummedPositive(p: Parts, k: nat)
    requires PartsOk(p) && Summed(p, k)
    ensures ExponentValue(p, k) > 0
  {
    hide NumberOf;
  }
}
