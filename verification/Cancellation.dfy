// A text for which two errors cancel out: its mantissa is stored as a tenth of what it should
// be, and the power of ten is one too high. So a text can be stored right although neither of
// its parts is.
module Cancellation {
  import opened Bytes
  import opened Document
  import opened Grammar
  import opened Digits
  import opened Words
  import opened DecimalText
  import opened Shifting
  import opened Sums
  import opened Differences
  import opened DecimalSyntax
  import opened Decimals
  import opened DecimalStorage
  import opened DecimalCounts
  import opened DecimalTexts

  const N: nat := 4_294_967_296
  const E: nat := 9_999_999_999_999_999_998

  // 429496729600e9999999999999999998
  function CancelText(): bytes {
    Raw(N) + [ZERO, ZERO] + [LOWER_E] + Raw(E)
  }

  function CancelParts(): Parts {
    Parts(Raw(N), 12, Raw(E), false, 2, false)
  }

  lemma {:induction false} Powers()
    ensures Pow10(9) == 1_000_000_000 && Pow10(10) == 10_000_000_000 && Pow10(18) == 1_000_000_000_000_000_000
  {
    assert Pow10(3) == 1000;
    assert Pow10(6) == 1_000_000;
    assert Pow10(9) == 1_000_000_000;
    assert Pow10(12) == 1_000_000_000_000;
    assert Pow10(15) == 1_000_000_000_000_000;
  }

  lemma {:induction false} Lengths()
    ensures |Raw(N)| == 10 && |Raw(E)| == 19
    ensures Pow10(18) == 1_000_000_000_000_000_000
  {
    hide Pow10, Raw, NumberOf;
    Powers();
    Pow10Small();
    RawLength(N, 9);
    RawLength(N, 10);
    RawLength(E, 18);
    RawLength(E, 19);
  }

  lemma {:induction false} CancelIsSplit()
    ensures PartsOk(CancelParts())
    ensures MantissaDigitsOf(CancelParts()) == Raw(N)
  {
    hide Pow10, Raw;
    Lengths();
  }

  // ---------- The text ----------

  lemma {:induction false} CancelPositions()
    ensures var t := CancelText();
      && |t| == 32 && t[0..12] == Raw(N) + [ZERO, ZERO] && t[0..10] == Raw(N) && t[13..32] == t[13..] == Raw(E)
      && WholeStart(t) == 0 && WholeEnd(t) == FractionStop(t) == 12 && HasExponent(t) && ExponentDigits(t) == 13
      && !ExponentIsNegative(t) && WellFormedDecimal(t)
  {
    hide Pow10, Raw, NumberOf, SkipDigits;
    Lengths();
    var t := CancelText();
    assert forall i :: 0 <= i < 10 ==> t[i] == Raw(N)[i];
    assert t[10] == t[11] == ZERO && t[12] == LOWER_E;
    assert forall i :: 13 <= i < 32 ==> t[i] == Raw(E)[i - 13];
    SkipsRun(t, 0, 12);
    SkipsRun(t, 13, 32);
  }

  lemma {:induction false} CancelAnalyzed()
    ensures NonZero(CancelText()) && TextParts(CancelText()) == CancelParts()
    ensures !AnalysisOf(CancelText()).mantissaNegative
  {
    hide Raw, WellFormedDecimal, WholeStart, WholeEnd, FractionStop, HasExponent, ExponentDigits, ExponentIsNegative;
    hide NumberOf;
    Lengths();
    CancelPositions();
    var t := CancelText();
    LastOfNumber(Raw(N));
    assert t[0] == Raw(N)[0] && t[9] == Raw(N)[9] && t[13] == Raw(E)[0];
    var a := Analysis(0, 10, 12, 13, 32, false, false);
    assert Analyzed(t, a);
    AnalysisIsUnique(t, a);
  }

  lemma {:induction false} CancelNumber()
    ensures WellFormedDecimal(CancelText()) && CancelText() != []
    ensures NumberOfText(CancelText()) == Scientific(100 * N, E)
  {
    hide Raw, WellFormedDecimal, WholeStart, WholeEnd, FractionStop, HasExponent, ExponentDigits, ExponentIsNegative;
    hide NumberOf;
    CancelPositions();
    var s := Raw(N) + [ZERO, ZERO];
    assert s + [] == s;
    TwoZeroes(Raw(N));
  }

  lemma {:induction false} TwoZeroes(s: bytes)
    requires AllDigits(s)
    ensures AllDigits(s + [ZERO, ZERO]) && NumberOf(s + [ZERO, ZERO]) == 100 * NumberOf(s)
  {
    var t := s + [ZERO, ZERO];
    assert t[..|s| + 1] == s + [ZERO] && (s + [ZERO])[..|s|] == s;
    assert NumberOf(s + [ZERO]) == 10 * NumberOf(s);
  }

  // ---------- The choice ----------

  lemma {:induction false} CancelMantissa(k: nat)
    requires k <= 2
    ensures PartsOk(CancelParts()) && MantissaSize(CancelParts(), k) == (if k == 2 then 5 else 4)
    ensures ShiftedWords(Raw(N), k) == [N * Pow10(k)]
  {
    hide Raw, NumberOf, Pack, PackedSize, Rest;
    Lengths();
    CancelIsSplit();
    var d := Raw(N);
    RestOf(d, 12);
    PackedSizeIs(d, k);
    TopWord(d, k);
    PackShape(d, k);
    assert Pack(d, k).words == [];
    assert Zeroes(0) + [Pack(d, k).word] == [Pack(d, k).word];
  }

  lemma {:induction false} CancelExponentZero()
    ensures PartsOk(CancelParts()) && ExponentSize(CancelParts(), 0) == 9
  {
    hide Pow10;
    CancelIsSplit();
    CancelAdjusted(0);
    assert BaseWords(BASE) == [0, 1] by {
      assert BASE % BASE == 0 && BASE / BASE == 1;
      assert BaseWords(1) == [1];
    }
    assert |SumBytes(BASE)| == 9;
  }

  lemma {:induction false} CancelAdjusted(k: nat)
    requires k <= 1
    ensures Raw(2 - k) != [] && Raw(E) != []
  {
  }

  lemma {:induction false} CancelExponentOne()
    ensures PartsOk(CancelParts()) && ExponentSize(CancelParts(), 1) == 8
    ensures ExponentBytes(CancelParts(), 1) == SumBytes(BASE - 1) == LittleEndian(BASE - 1, 8)
  {
    hide Pow10, LittleEndian;
    CancelIsSplit();
    CancelAdjusted(1);
    assert BaseWords(BASE - 1) == [BASE - 1];
    assert FullWords([BASE - 1][..0]) == [];
  }

  // What is left of the exponent is counted with eight bytes at least.
  lemma {:induction false} CancelExponentMore(k: nat)
    requires 2 <= k <= 10
    ensures PartsOk(CancelParts()) && ExponentSize(CancelParts(), k) >= 8
  {
    hide Raw, Pow10, CompareDigits, NumberOf, CountedAlone, Numeral;
    CancelIsSplit();
    Lengths();
    var p, adjusted := CancelParts(), AdjustedText(CancelParts(), k);
    CompareOrders(p.exponent, adjusted);
    CompareOrders(adjusted, p.exponent);
    RawNothing(k - 2);
    if k == 2 {
      AloneSize(E);
    } else {
      LargeDifference(E - (k - 2));
    }
  }

  lemma {:induction false} LargeDifference(v: nat)
    requires BASE - 100 <= v < BASE
    ensures |DifferenceBytes(v)| == 8
  {
    hide LittleEndian;
    assert BaseWords(v) == [v];
    assert [v][1..] == [] && NonZeroes([]) == [];
    assert Kept([v]) == [v];
    assert [v][..0] == [] && FullWords([]) == [];
  }

  lemma {:induction false} CancelTotal(k: nat)
    requires k <= 10
    ensures PartsOk(CancelParts())
    ensures TotalSize(CancelParts(), 0) == 15 && TotalSize(CancelParts(), 1) == 14
    ensures k >= 2 ==> TotalSize(CancelParts(), k) >= 15
  {
    hide ExponentSize, MantissaSize, PartsOk, CancelParts, LengthAndExponent, ShiftedWords, ExponentBytes, Raw;
    hide SumBytes, LittleEndian;
    CancelIsSplit();
    LengthOf(ExponentSize(CancelParts(), k));
    CancelMantissa(0);
    CancelMantissa(1);
    CancelExponentZero();
    CancelExponentOne();
    if k >= 2 {
      CancelMantissa(2);
      CancelExponentMore(k);
      MantissaGrows(CancelParts(), 2, k);
    }
  }

  lemma {:induction false} CancelNotBetter(k: nat)
    requires k <= 10
    ensures PartsOk(CancelParts()) && !Better(CancelParts(), k, 1)
    ensures k == 0 ==> Better(CancelParts(), 1, k)
  {
    hide TotalSize, PartsOk, CancelParts, ExponentSize;
    CancelTotal(k);
  }

  lemma {:induction false} LengthOf(size: nat)
    ensures size >= 8 ==> LengthAndExponent(size) >= 9
    ensures LengthAndExponent(8) == 9 && LengthAndExponent(9) == 10
  {
  }

  lemma {:induction false} CancelBest()
    ensures PartsOk(CancelParts()) && BestOf(CancelParts()) == 1
  {
    hide Better, BestOf, PartsOk;
    CancelIsSplit();
    var p := CancelParts();
    forall k | 0 <= k < 11
      ensures !Better(p, k, 1) && (k == 0 ==> Better(p, 1, k))
    {
      CancelNotBetter(k);
    }
    BestOfIsBest(p);
    BestIsUnique(p, 1, BestOf(p), 11);
  }

  // ---------- What is stored ----------

  lemma {:induction false} CancelStored()
    ensures PartsOk(CancelParts())
    ensures StoredNumber(MantissaBytes(CancelParts(), 1)) == N
    ensures StoredNumber(ExponentBytes(CancelParts(), 1)) == BASE
  {
    hide LittleEndian, FromLittleEndian, Raw, SumBytes;
    CancelIsSplit();
    CancelMantissa(1);
    CancelExponentOne();
    PowZero();
    CutMantissa();
    Pow256Values();
    LittleEndianHolds(BASE - 1, 8);
  }

  lemma {:induction false} CutMantissa()
    ensures StoredNumber(StoreWords([10 * N])) == N
  {
    hide LittleEndian, FromLittleEndian;
    var words := [10 * N];
    assert FullWords(words[..0]) == [];
    assert FitUint64(10 * N - 1) == 4;
    assert StoreWords(words) == LittleEndian(10 * N - 1, 4);
    LowBytes();
  }

  lemma {:induction false} LowBytes()
    ensures FromLittleEndian(LittleEndian(10 * N - 1, 4)) == N - 1
  {
    Pow256Values();
    LittleEndianHolds(N - 1, 4);
    LittleEndianLow(N - 1, 9, 4);
  }

  lemma {:induction false} LittleEndianLow(v: nat, high: nat, n: nat)
    ensures LittleEndian(v + high * Pow256(n), n) == LittleEndian(v, n)
  {
    if n > 0 {
      var w := high * Pow256(n - 1);
      assert high * Pow256(n) == 256 * w;
      assert (v + 256 * w) / 256 == v / 256 + w && (v + 256 * w) % 256 == v % 256;
      LittleEndianLow(v / 256, high, n - 1);
    }
  }

  // Neither part is right, but the whole is.
  lemma {:induction false} ErrorsCancel()
    ensures NonZero(CancelText()) && StoredRight(CancelText())
    ensures TextParts(CancelText()) == CancelParts() && BestOf(CancelParts()) == 1
    ensures !MantissaFits(CancelParts(), 1) && !ExponentFits(CancelParts(), 1)
  {
    hide NonZero, TextParts, StoredNumber, NumberOfText, ExponentBytes, ExponentSize, ChosenNumber, BestOf, CancelText;
    hide StoredIn;
    hide MantissaBytes, ExponentValue, MantissaFits, ExponentFits, Raw;
    var t, p := CancelText(), CancelParts();
    CancelAnalyzed();
    CancelNumber();
    CancelBest();
    TextIsChosen(t);
    CancelStored();
    CancelSplitCounted();
    SplitAgainstWritten(p, 1, false);
    CancelExponentOne();
    ChosenData(p, 1, false);
    assert Pow10(2) == 100;
    CancelNotFits();
  }

  lemma {:induction false} CancelSplitCounted()
    ensures PartsOk(CancelParts()) && SplitCounted(CancelParts(), 1) && !ExponentSign(CancelParts(), 1)
  {
    hide Raw;
    Lengths();
    CancelIsSplit();
    CancelAdjusted(1);
  }

  lemma {:induction false} CancelNotFits()
    ensures PartsOk(CancelParts())
    ensures !MantissaFits(CancelParts(), 1) && !ExponentFits(CancelParts(), 1)
  {
    hide Raw;
    Lengths();
    CancelIsSplit();
    CancelAdjusted(1);
    PowZero();
  }
}
