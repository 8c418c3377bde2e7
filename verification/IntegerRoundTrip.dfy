// Integers of up to eighteen digits, with any number of zeroes at the end: which split is
// stored for them, and when they come back.
module IntegerRoundTrip {
  import opened Wrappers
  import opened Bytes
  import opened Document
  import opened Grammar
  import opened Digits
  import opened Words
  import opened DecimalText
  import opened Json
  import opened Shifting
  import opened Sums
  import opened Differences
  import opened DecimalSyntax
  import opened Decimals
  import opened DecimalStorage
  import opened Counting
  import opened DecimalCounts
  import opened DecimalPrinting
  import opened DecimalTexts
  import opened DecimalRoundTrip
  import opened ScientificRoundTrip

  // A positive integer of at most eighteen digits: text is d followed by z zeroes.
  predicate ShortInteger(text: bytes, d: bytes, z: nat) {
    && AllDigits(d) && d != [] && d[0] != ZERO && d[|d| - 1] != ZERO
    && |text| == |d| + z <= 18 && text[..|d|] == d
    && forall i :: |d| <= i < |text| ==> text[i] == ZERO
  }

  lemma {:induction false} IntegerNumber(text: bytes, d: bytes, z: nat)
    requires ShortInteger(text, d, z)
    ensures AllDigits(text) && NumberOf(text) == Scaled(NumberOf(d), z) && NumberOf(d) > 0
    decreases z
  {
    hide Scaled, Pow10;
    NumberPositive(d);
    if z == 0 {
      assert text == d;
      ScaledNothing(NumberOf(d));
    } else {
      var shorter := text[..|text| - 1];
      assert shorter[..|d|] == d;
      IntegerNumber(shorter, d, z - 1);
      ScaledNext(NumberOf(d), z - 1);
      ScaledTenTimes(NumberOf(d), z - 1);
    }
  }

  lemma {:induction false} ScaledTenTimes(v: nat, n: nat)
    ensures Scaled(10 * v, n) == 10 * Scaled(v, n)
  {
    hide Pow10;
    Rearrange(v, Pow10(n));
  }

  lemma {:induction false} Rearrange(v: nat, a: nat)
    ensures 10 * v * a == 10 * (v * a)
  {
  }

  function IntegerSplit(text: bytes, d: bytes, z: nat): Parts {
    Parts(d, |text|, [], false, z, false)
  }

  lemma {:induction false} IntegerIsSplit(text: bytes, d: bytes, z: nat)
    requires ShortInteger(text, d, z)
    ensures NonZero(text) && TextParts(text) == IntegerSplit(text, d, z)
    ensures MantissaDigitsOf(TextParts(text)) == d
    ensures DecimalOf(text).Ok? && !AnalysisOf(text).mantissaNegative && text[0] != MINUS
  {
    hide SkipDigits, NumberOf;
    assert text[0] == d[0] && text[|d| - 1] == d[|d| - 1];
    assert forall i :: 0 <= i < |d| ==> text[i] == d[i];
    SkipsRun(text, 0, |text|);
    assert WholeStart(text) == 0 && WholeEnd(text) == FractionStop(text) == |text|;
    var a := AnalysisOf(text);
    assert a.significandStart == 0;
    assert a.significandEnd == |d|;
    assert text[0..|d|] == d;
  }

  // ---------- The split ----------

  // Up to z zeroes can be moved without a second word, and the exponent is gone when all are.
  lemma {:induction false} SplitSizes(text: bytes, d: bytes, z: nat, k: nat)
    requires ShortInteger(text, d, z)
    ensures PartsOk(IntegerSplit(text, d, z)) && Scaled(NumberOf(d), k) > 0
    ensures var p := IntegerSplit(text, d, z);
      && (k <= z ==> MantissaSize(p, k) == FitUint64(Scaled(NumberOf(d), k) - 1))
      && ExponentValue(p, k) == (if k <= z then z - k else k - z)
      && (k <= z ==> ExponentSize(p, k) == if k < z then 1 else 0)
      && (k > z ==> ExponentSize(p, k) > 0)
  {
    hide NumberOf, Pow10, Raw, Pack, FitUint64, PackedSize, CountedAlone, CompareDigits;
    var p := IntegerSplit(text, d, z);
    NumberPositive(d);
    ScaledIs(NumberOf(d), k);
    NotNothing(NumberOf(d), Pow10(k));
    RestOf(d, |text|);
    if k <= z {
      PackedSizeIs(d, k);
      TopWord(d, k);
    }
    NumberOfNothing();
    CompareOrders([], AdjustedText(p, k));
    CompareOrders(AdjustedText(p, k), []);
    RawNothing(Adjusted(p, k));
    NothingCounted();
    if k < z {
      SmallAlone(z - k);
    } else if k > z {
      CountedPositive(AdjustedText(p, k));
    }
  }

  lemma {:induction false} NotNothing(a: nat, b: nat)
    requires a > 0 && b > 0
    ensures a * b > 0
  {
  }

  lemma {:induction false} SmallAlone(v: nat)
    requires 0 < v <= 18
    ensures v < Pow10(18) && CountedAlone(Raw(v)) == 1
  {
    hide Raw, CountedAlone;
    Pow10Grows(2, 18);
    Hundred();
    AloneSize(v);
  }

  lemma {:induction false} Hundred()
    ensures Pow10(2) == 100
  {
  }

  // All zeroes are moved if that takes no more bytes than the exponent does, and else none.
  predicate MovesAll(d: bytes, z: nat)
    requires AllDigits(d) && NumberOf(d) > 0 && Scaled(NumberOf(d), z) > 0
  {
    z <= 10 && FitUint64(Scaled(NumberOf(d), z) - 1) <= FitUint64(NumberOf(d) - 1) + 2
  }

  lemma {:induction false} SplitTotals(text: bytes, d: bytes, z: nat, k: nat)
    requires ShortInteger(text, d, z) && k <= 10
    ensures PartsOk(IntegerSplit(text, d, z)) && NumberOf(d) > 0 && Scaled(NumberOf(d), z) > 0
    ensures var p, last := IntegerSplit(text, d, z), FitUint64(Scaled(NumberOf(d), z) - 1);
      var first := FitUint64(NumberOf(d) - 1);
      && (k == z ==> TotalSize(p, k) == 1 + last)
      && (k == 0 < z ==> TotalSize(p, k) == 3 + first)
      && (k < z ==> TotalSize(p, k) >= 3 + first)
      && (k > z ==> TotalSize(p, k) > 1 + last)
      && (ExponentSize(p, k) == 0 <==> k == z)
  {
    hide NumberOf, FitUint64, MantissaSize, ExponentSize, Scaled;
    var p := IntegerSplit(text, d, z);
    SplitSizes(text, d, z, k);
    SplitSizes(text, d, z, 0);
    SplitSizes(text, d, z, z);
    ScaledNothing(NumberOf(d));
    if k <= z {
      MantissaGrows(p, 0, k);
    } else {
      MantissaGrows(p, z, k);
    }
  }

  lemma {:induction false} SplitChosen(text: bytes, d: bytes, z: nat)
    requires ShortInteger(text, d, z)
    ensures PartsOk(IntegerSplit(text, d, z)) && NumberOf(d) > 0 && Scaled(NumberOf(d), z) > 0
    ensures BestOf(IntegerSplit(text, d, z)) == if MovesAll(d, z) then z else 0
  {
    hide NumberOf, FitUint64, TotalSize, ExponentSize, Scaled, BestOf;
    var p := IntegerSplit(text, d, z);
    SplitTotals(text, d, z, 0);
    var best := if MovesAll(d, z) then z else 0;
    SplitTotals(text, d, z, best);
    forall k | 0 <= k < 11
      ensures !Better(p, k, best)
      ensures k < best ==> Better(p, best, k)
    {
      SplitTotals(text, d, z, k);
    }
    BestOfIsBest(p);
    BestIsUnique(p, best, BestOf(p), 11);
  }

  // ---------- The bytes, and the way back ----------

  // What is stored, byte for byte.
  lemma {:induction false} IntegerStored(text: bytes, d: bytes, z: nat)
    requires ShortInteger(text, d, z)
    ensures AllDigits(text) && 0 < NumberOf(d) <= NumberOf(text) && NumberOf(text) == Scaled(NumberOf(d), z)
    ensures var whole, front := NumberOf(text) - 1, NumberOf(d) - 1;
      DecimalOf(text) ==
      if MovesAll(d, z)
      then Ok(Number(1 + FitUint64(whole), [0x1A] + LittleEndian(whole, FitUint64(whole))))
      else Ok(Number(3 + FitUint64(front), [0x20, 0, z - 1] + LittleEndian(front, FitUint64(front))))
  {
    hide NumberOf, FitUint64, TotalSize, ExponentSize, Scaled, BestOf, LittleEndian, ChosenNumber, DecimalOf, NonZero;
    hide TextParts, MantissaDigitsOf, ExponentBytes, PartsOk, MantissaBytes, ExponentSign, LengthBytes, DecimalType;
    hide MantissaSize, IntegerSplit, ExponentValue;
    IntegerNumber(text, d, z);
    IntegerIsSplit(text, d, z);
    SplitChosen(text, d, z);
    var p, k := IntegerSplit(text, d, z), if MovesAll(d, z) then z else 0;
    TextIsChosen(text);
    SplitTotals(text, d, z, k);
    SplitSizes(text, d, z, k);
    DataIs(p, k, false);
    ScaledNothing(NumberOf(d));
    MantissaIs(text, d, z, k);
    NumberIs(p, k);
    if k < z {
      SplitExponent(text, d, z);
      ZeroLength();
      assert [0x20] + ([0] + [z - 1]) + MantissaBytes(p, 0) == [0x20, 0, z - 1] + MantissaBytes(p, 0);
    } else {
      assert [0x1A] + [] + MantissaBytes(p, z) == [0x1A] + MantissaBytes(p, z);
    }
    ScaledAtLeast(NumberOf(d), z);
  }

  lemma {:induction false} SplitExponent(text: bytes, d: bytes, z: nat)
    requires ShortInteger(text, d, z) && z > 0
    ensures PartsOk(IntegerSplit(text, d, z))
    ensures var p := IntegerSplit(text, d, z); ExponentBytes(p, 0) == [z - 1] && !ExponentSign(p, 0)
  {
    hide NumberOf, ExponentBytes, ExponentSign;
    SplitDigits(text, d, z);
    ExponentIs(IntegerSplit(text, d, z), z);
  }

  lemma {:induction false} NumberIs(p: Parts, k: nat)
    requires PartsOk(p)
    ensures ChosenNumber(p, k, false).size == TotalSize(p, k)
    ensures ExponentSize(p, k) == 0 ==> DecimalType(false, 0, ExponentSign(p, k)) == 0x1A
  {
  }

  lemma {:induction false} ScaledAtLeast(v: nat, z: nat)
    ensures v <= Scaled(v, z)
  {
    hide Pow10;
    Multiplied(v, Pow10(z));
  }

  lemma {:induction false} Multiplied(a: nat, b: nat)
    requires b > 0
    ensures a <= a * b
  {
  }

  lemma {:induction false} MantissaIs(text: bytes, d: bytes, z: nat, k: nat)
    requires ShortInteger(text, d, z) && k <= z
    ensures PartsOk(IntegerSplit(text, d, z)) && Scaled(NumberOf(d), k) > 0
    ensures var m := Scaled(NumberOf(d), k) - 1;
      && MantissaBytes(IntegerSplit(text, d, z), k) == LittleEndian(m, FitUint64(m))
      && Pack(d, k).word == m + 1
  {
    hide NumberOf, Pow10, Pack, FitUint64, LittleEndian, StoreWords, ShiftedWords;
    SplitSizes(text, d, z, k);
    StoredForm(d, k);
    PackShape(d, k);
    TopWord(d, k);
    assert FullWords([]) == [];
    assert Pack(d, k).words == [];
  }

  lemma {:induction false} ExponentIs(p: Parts, z: nat)
    requires PartsOk(p) && p.exponent == [] && !p.exponentNegative && p.shift == z && !p.shiftNegative && 0 < z <= 18
    ensures ExponentBytes(p, 0) == [z - 1] && !ExponentSign(p, 0)
  {
    hide NumberOf, Pow10, Raw, AloneBytes, CompareDigits, FitUint64;
    SmallAlone(z);
    NumberOfNothing();
    RawNothing(z);
    AloneIsWord(Raw(z));
    SmallFits(z - 1);
  }

  lemma {:induction false} SmallFits(v: nat)
    requires v < 0x100
    ensures FitUint64(v) == 1 && LittleEndian(v, 1) == [v] && !Misfit(v)
  {
    assert LittleEndian(v / 256, 0) == [];
  }

  lemma {:induction false} ZeroLength()
    ensures LengthBytes(1) == [0] && DecimalType(false, 1, false) == 0x20
  {
    assert LittleEndian(0, 1) == [0];
  }

  // An integer of up to eighteen digits comes back exactly if what is stored as its mantissa,
  // less one, is no misfit. If all of it is, then what is printed is the text itself.
  lemma {:induction false} ShortIntegersRoundTrip(text: bytes, d: bytes, z: nat)
    requires ShortInteger(text, d, z)
    ensures AllDigits(text) && 0 < NumberOf(d) <= NumberOf(text) && NumberOf(text) == Scaled(NumberOf(d), z)
    ensures DecimalOf(text).Ok?
    ensures RoundTrips(text) <==> !Misfit((if MovesAll(d, z) then NumberOf(text) else NumberOf(d)) - 1)
    ensures MovesAll(d, z) && !Misfit(NumberOf(text) - 1) ==> JsonOf(DecimalOf(text).value.data) == Ok(text)
  {
    hide NumberOf, FitUint64, Scaled, BestOf, LittleEndian, DecimalOf, Misfit, JsonOf, RoundTrips, MovesAll, PartsOk;
    IntegerStored(text, d, z);
    IntegerIsSplit(text, d, z);
    SplitChosen(text, d, z);
    ScaledNothing(NumberOf(d));
    if MovesAll(d, z) {
      MovesFew(d, z);
      BestComesBack(text, d, z, z);
      if !Misfit(NumberOf(text) - 1) {
        WholePrints(text);
      }
    } else {
      BestComesBack(text, d, z, 0);
    }
  }

  lemma {:induction false} BestComesBack(text: bytes, d: bytes, z: nat, k: nat)
    requires ShortInteger(text, d, z) && k <= z && k <= 10
    requires PartsOk(IntegerSplit(text, d, z)) && BestOf(IntegerSplit(text, d, z)) == k
    ensures DecimalOf(text).Ok?
    ensures RoundTrips(text) <==> !Misfit(Scaled(NumberOf(d), k) - 1)
  {
    hide NumberOf, Scaled, BestOf, DecimalOf, NonZero, Misfit, RoundTrips, TextParts, MantissaDigitsOf, PartsOk;
    hide MantissaBytes, SplitCounted, MantissaComesBack, Pow10, ExponentValue, PartText, ExponentSize, Pow256, FitUint64;
    IntegerIsSplit(text, d, z);
    SplitSizes(text, d, z, k);
    Pow10Grows(2, 18);
    Hundred();
    TextRoundTrips(text);
    SplitIsCounted(text, d, z, k);
    IntegerComesBack(text, d, z, k);
    if z > k {
      SmallFits(z - k - 1);
    }
  }

  lemma {:induction false} MovesFew(d: bytes, z: nat)
    requires AllDigits(d) && NumberOf(d) > 0 && Scaled(NumberOf(d), z) > 0 && MovesAll(d, z)
    ensures z <= 10
  {
  }

  lemma {:induction false} SplitIsCounted(text: bytes, d: bytes, z: nat, k: nat)
    requires ShortInteger(text, d, z) && k <= z
    ensures PartsOk(IntegerSplit(text, d, z)) && SplitCounted(IntegerSplit(text, d, z), k)
  {
    hide NumberOf, Pow10, Raw, Pack, CompareDigits;
    var p := IntegerSplit(text, d, z);
    SplitSizes(text, d, z, k);
    CompareOrders([], AdjustedText(p, k));
    NumberOfNothing();
    RawNothing(z - k);
    if k < z {
      Pow10Grows(2, 18);
      Hundred();
      RawLength(z - k, 18);
      NumeralSignificand(Raw(z - k));
    }
  }

  lemma {:induction false} IntegerComesBack(text: bytes, d: bytes, z: nat, k: nat)
    requires ShortInteger(text, d, z) && k <= z
    ensures PartsOk(IntegerSplit(text, d, z)) && Scaled(NumberOf(d), k) > 0
    ensures MantissaComesBack(IntegerSplit(text, d, z), k) <==> !Misfit(Scaled(NumberOf(d), k) - 1)
  {
    hide NumberOf, Pow10, Pack, FitUint64, LittleEndian, MantissaBytes, Scaled, Misfit, TwentiethsZero, PartsOk;
    SplitSizes(text, d, z, k);
    MantissaIs(text, d, z, k);
    NoTwentieths(d, k);
    SplitDigits(text, d, z);
  }

  lemma {:induction false} SplitDigits(text: bytes, d: bytes, z: nat)
    requires ShortInteger(text, d, z)
    ensures PartsOk(IntegerSplit(text, d, z)) && MantissaDigitsOf(IntegerSplit(text, d, z)) == d
  {
    NumberOfNothing();
  }

  lemma {:induction false} NoTwentieths(d: bytes, k: nat)
    requires AllDigits(d) && |d| + k <= 18
    ensures TwentiethsZero(d, k)
  {
    forall i | 0 <= i < |d|
      ensures (|d| - 1 - i + k) % 20 == 19 ==> d[i] == ZERO
    {
      assert (|d| - 1 - i + k) % 20 == |d| - 1 - i + k;
    }
  }

  lemma {:induction false} NumeralsAreRaw(s: bytes)
    requires AllDigits(s) && (s != [] ==> s[0] != ZERO)
    ensures Raw(NumberOf(s)) == s
  {
    if s != [] {
      NumeralsAreRaw(s[..|s| - 1]);
      NumberPositive(s);
      assert s == s[..|s| - 1] + [s[|s| - 1]];
    }
  }

  lemma {:induction false} WholePrints(text: bytes)
    requires text != [] && AllDigits(text) && text[0] != ZERO && |text| <= 18 && NumberOf(text) > 0
    requires !Misfit(NumberOf(text) - 1)
    ensures var v := NumberOf(text) - 1; JsonOf([0x1A] + LittleEndian(v, FitUint64(v))) == Ok(text)
  {
    hide NumberOf, Pow10, FitUint64, LittleEndian, FromLittleEndian, Raw, Misfit;
    var v := NumberOf(text) - 1;
    NumberBound(text);
    Pow10Grows(|text|, 19);
    Pow10Small();
    FitHolds(v);
    WordSize(v, FitUint64(v));
    NumeralsAreRaw(text);
    var data := [0x1A] + LittleEndian(v, FitUint64(v));
    assert data[1..] == LittleEndian(v, FitUint64(v));
    assert Sign(false) + text == text;
  }
}
