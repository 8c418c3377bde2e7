// Choosing how to split a decimal into mantissa and exponent, and writing it
// (bijson_writer_add_decimal_from_string in lib/writer/decimal.c).
module Decimals {
  import opened Wrappers
  import opened Arithmetic
  import opened Bytes
  import opened Document
  import opened Storage
  import opened Digits
  import opened Words
  import opened Shifting
  import opened Sums
  import opened Differences
  import opened DecimalSyntax

  // What the analysis hands on: the significand with its point, the exponent's digits and
  // sign, and the power of ten of the significand's last digit.
  datatype Parts = Parts(
    significand: bytes,
    point: int,
    exponent: bytes,
    exponentNegative: bool,
    shift: nat,
    shiftNegative: bool)

  predicate PartsOk(p: Parts) {
    Significand(p.significand, p.point) && Numeral(p.exponent)
  }

  // ---------- One candidate: k more zeroes in the mantissa, k less in the exponent ----------

  function MaxAdjustment(p: Parts): nat {
    if p.shiftNegative && p.exponentNegative then 0 else 10
  }

  predicate AdjustedNegative(p: Parts, k: nat) {
    p.shiftNegative || p.shift < k
  }

  function Adjusted(p: Parts, k: nat): nat {
    if p.shiftNegative then p.shift + k
    else if p.shift < k then k - p.shift
    else p.shift - k
  }

  // _bijson_uint64_str_raw
  function AdjustedText(p: Parts, k: nat): (s: bytes)
    ensures Numeral(s) && NumberOf(s) == Adjusted(p, k)
  {
    Raw(Adjusted(p, k))
  }

  function CountedAlone(s: bytes): nat
    requires Numeral(s)
  {
    if s == [] then 0
    else
      NumeralSignificand(s);
      CountedSize(s, -1, 0)
  }

  function AddSize(a: bytes, b: bytes): nat
    requires Numeral(a) && Numeral(b)
  {
    if a == [] then CountedAlone(b)
    else if b == [] then CountedAlone(a)
    else
      FirstDigitCounts(a);
      |SumBytes(NumberOf(a) + NumberOf(b))|
  }

  function SubtractSize(a: bytes, b: bytes): nat
    requires Numeral(a) && Numeral(b) && CompareDigits(a, b) >= 0
  {
    CompareOrders(a, b);
    if a == [] then 0
    else if b == [] then CountedAlone(a)
    else |DifferenceBytes(NumberOf(a) - NumberOf(b))|
  }

  // The counted size of the exponent.
  function ExponentSize(p: Parts, k: nat): nat
    requires PartsOk(p)
  {
    var adjusted := AdjustedText(p, k);
    if AdjustedNegative(p, k) == p.exponentNegative then AddSize(p.exponent, adjusted)
    else
      CompareOrders(p.exponent, adjusted);
      CompareOrders(adjusted, p.exponent);
      var c := CompareDigits(p.exponent, adjusted);
      if c < 0 then SubtractSize(adjusted, p.exponent)
      else if c > 0 then SubtractSize(p.exponent, adjusted)
      else 0
  }

  // The sign that is written for it. Where the exponent is the smaller of the two, this is
  // the sign of the shift before the adjustment.
  predicate ExponentSign(p: Parts, k: nat)
  {
    if AdjustedNegative(p, k) != p.exponentNegative && CompareDigits(p.exponent, AdjustedText(p, k)) < 0
    then p.shiftNegative else p.exponentNegative
  }

  function MantissaSize(p: Parts, k: nat): nat
    requires PartsOk(p)
  {
    CountedSize(p.significand, p.point, k)
  }

  function TotalSize(p: Parts, k: nat): nat
    requires PartsOk(p)
  {
    1 + MantissaSize(p, k) + LengthAndExponent(ExponentSize(p, k))
  }

  function LengthAndExponent(size: nat): nat {
    if size > 0 then WidthBytes(StorageSize1(size)) + size else 0
  }

  // ---------- The choice ----------

  // A candidate replaces the best one so far.
  predicate Better(p: Parts, k: nat, best: nat)
    requires PartsOk(p)
  {
    || TotalSize(p, best) > TotalSize(p, k)
    || (TotalSize(p, best) == TotalSize(p, k) && ExponentSize(p, best) > 0 && ExponentSize(p, k) == 0)
  }

  // None of the first n candidates is smaller, and none of the same size has no exponent
  // while the best one has. Among equals the first is the best.
  ghost predicate IsBest(p: Parts, best: nat, n: nat)
    requires PartsOk(p)
  {
    && best < n
    && (forall k :: 0 <= k < n ==> !Better(p, k, best))
    && (forall k :: 0 <= k < best ==> Better(p, best, k))
  }

  // The candidate has the wrong sign of its exponent.
  predicate WrongSign(p: Parts, k: nat) {
    && AdjustedNegative(p, k) != p.exponentNegative
    && CompareDigits(p.exponent, AdjustedText(p, k)) < 0
    && p.shiftNegative != AdjustedNegative(p, k)
  }

  // The power of ten that belongs to the mantissa, and the one that is written.
  function TrueExponent(p: Parts, k: nat): int
    requires PartsOk(p)
  {
    Signed(p.exponentNegative, NumberOf(p.exponent)) + Signed(p.shiftNegative, p.shift) - k
  }

  function Signed(negative: bool, v: nat): int {
    if negative then 0 - v else v
  }

  function ExponentValue(p: Parts, k: nat): nat
    requires PartsOk(p)
  {
    var adjusted, e := Adjusted(p, k), NumberOf(p.exponent);
    if AdjustedNegative(p, k) == p.exponentNegative then e + adjusted
    else if e < adjusted then adjusted - e
    else e - adjusted
  }

  // What is written is right exactly for the candidates without a wrong sign.
  lemma {:induction false} SignDecides(p: Parts, k: nat)
    requires PartsOk(p)
    ensures Signed(ExponentSign(p, k), ExponentValue(p, k)) == TrueExponent(p, k) <==> !WrongSign(p, k)
  {
    hide NumberOf, CompareDigits, Raw, Significand;
    CompareOrders(p.exponent, AdjustedText(p, k));
  }

  // ---------- Sizes grow with the adjustment ----------

  function WithDigit(word: nat, value: nat, e: nat): nat {
    word + value * Pow10(e)
  }

  lemma {:induction false} PackUnfolds(d: bytes, k: nat)
    requires AllDigits(d) && d != [] && k < 19
    ensures var p, value := Pack(d[1..], k), d[0] - ZERO;
      && p.exp <= 19 && 20 * |p.words| + p.exp == |d| - 1 + k
      && (if p.exp == 19 then Pack(d, k) == Packing(p.words + [p.word], value, 0)
          else Pack(d, k) == Packing(p.words, WithDigit(p.word, value, p.exp), p.exp + 1))
  {
    PackShape(d[1..], k);
    hide Pow10;
  }

  lemma {:induction false} WithDigitGrows(a: nat, b: nat, value: nat, e: nat, f: nat)
    requires a <= b && e <= f
    ensures value <= WithDigit(a, value, e) <= WithDigit(b, value, f)
  {
    hide Pow10;
    Pow10Grows(e, f);
    Multiples(value, Pow10(e), Pow10(f));
    Multiples(value, 1, Pow10(e));
  }

  lemma {:induction false} PackGrows(d: bytes, k: nat)
    requires AllDigits(d) && k < 18
    ensures var p, q := Pack(d, k), Pack(d, k + 1);
      |q.words| > |p.words| || (|q.words| == |p.words| && q.word >= p.word)
  {
    if d != [] {
      hide Pack, WithDigit;
      PackGrows(d[1..], k);
      PackUnfolds(d, k);
      PackUnfolds(d, k + 1);
      var p, q, value := Pack(d[1..], k), Pack(d[1..], k + 1), d[0] - ZERO;
      if p.exp < 19 && q.exp < 19 && p.exp <= q.exp {
        if p.word <= q.word {
          WithDigitGrows(p.word, q.word, value, p.exp, q.exp);
        }
      } else if q.exp < 19 {
        WithDigitGrows(0, q.word, value, 0, q.exp);
      }
    }
  }

  lemma {:induction false} PackedSizeGrows(d: bytes, k: nat)
    requires AllDigits(d) && d != [] && d[0] != ZERO && k < 18
    ensures PackedSize(d, k) <= PackedSize(d, k + 1)
  {
    hide Pack, PackedSize, FitUint64;
    PackGrows(d, k);
    PackedSizeIs(d, k);
    PackedSizeIs(d, k + 1);
    if Pack(d, k).word <= Pack(d, k + 1).word {
      FitGrows(Pack(d, k).word - 1, Pack(d, k + 1).word - 1);
    }
  }

  lemma {:induction false} MantissaGrows(p: Parts, j: nat, k: nat)
    requires PartsOk(p) && j <= k <= 10
    ensures MantissaSize(p, j) <= MantissaSize(p, k)
    decreases k - j
  {
    hide PackedSize, Significand, Rest;
    if j < k {
      MantissaGrows(p, j + 1, k);
      if Rest(p.significand, p.point) != [] {
        PackedSizeGrows(Rest(p.significand, p.point), j);
      }
    }
  }

  // ---------- No candidate with a wrong sign is ever chosen ----------

  lemma {:induction false} CountedPositive(s: bytes)
    requires Numeral(s) && s != []
    ensures CountedAlone(s) > 0
  {
    hide Pack, ShiftedWords, StoreWords, Rest;
    NumeralSignificand(s);
    if Rest(s, -1) != [] {
      PackedSizeIs(Rest(s, -1), 0);
    }
  }

  lemma {:induction false} DifferencePositive(v: nat)
    requires v > 0
    ensures |DifferenceBytes(v)| > 0
  {
    hide BaseWords, Kept;
    KeptLast(BaseWords(v));
  }

  // A candidate with a wrong sign has an exponent, and an earlier one has none: that which
  // moves exactly the exponent into the mantissa.
  lemma {:induction false} WrongSignBeaten(p: Parts, k: nat)
    requires PartsOk(p) && WrongSign(p, k) && k <= 10
    ensures p.shift + NumberOf(p.exponent) < k
    ensures ExponentSize(p, p.shift + NumberOf(p.exponent)) == 0
    ensures TotalSize(p, p.shift + NumberOf(p.exponent)) < TotalSize(p, k)
  {
    hide NumberOf, CompareDigits, Significand, MantissaSize, DifferenceBytes, CountedSize, Raw;
    var j := p.shift + NumberOf(p.exponent);
    var adjusted := AdjustedText(p, k);
    CompareOrders(p.exponent, adjusted);
    CompareOrders(adjusted, p.exponent);
    NumberOfNothing();
    if p.exponent == [] {
      CountedPositive(adjusted);
    } else {
      DifferencePositive(NumberOf(adjusted) - NumberOf(p.exponent));
    }
    assert ExponentSize(p, k) > 0;
    CompareOrders(p.exponent, AdjustedText(p, j));
    NoExponentLeft(p, j);
    MantissaGrows(p, j, k);
  }

  lemma {:induction false} NoExponentLeft(p: Parts, j: nat)
    requires PartsOk(p) && !p.shiftNegative && !p.exponentNegative && j == p.shift + NumberOf(p.exponent)
    ensures ExponentSize(p, j) == 0
  {
    hide NumberOf, CompareDigits, Significand, CountedSize, DifferenceBytes, SumBytes;
    CompareOrders(p.exponent, AdjustedText(p, j));
    if NumberOf(p.exponent) == 0 {
      if p.exponent != [] {
        FirstDigitCounts(p.exponent);
      }
      RawOfZero();
    }
  }

  lemma {:induction false} RawOfZero()
    ensures Raw(0) == []
  {
  }

  lemma {:induction false} BestHasRightSign(p: Parts, best: nat)
    requires PartsOk(p) && IsBest(p, best, MaxAdjustment(p) + 1)
    ensures !WrongSign(p, best)
    ensures Signed(ExponentSign(p, best), ExponentValue(p, best)) == TrueExponent(p, best)
  {
    hide TotalSize, ExponentSize, CompareDigits, Significand, NumberOf;
    SignDecides(p, best);
    if WrongSign(p, best) {
      WrongSignBeaten(p, best);
      NotBest(p, best, p.shift + NumberOf(p.exponent), MaxAdjustment(p) + 1);
    }
  }

  lemma {:induction false} NotBest(p: Parts, best: nat, j: nat, n: nat)
    requires PartsOk(p) && j < n && TotalSize(p, j) < TotalSize(p, best)
    ensures !IsBest(p, best, n)
  {
    hide TotalSize, ExponentSize;
    assert Better(p, j, best);
  }

  // One round of the loop over the adjustments: the counted sizes of a candidate.
  method CountCandidate(p: Parts, k: nat) returns (total: nat, exponentSize: nat)
    requires PartsOk(p)
    ensures total == TotalSize(p, k) && exponentSize == ExponentSize(p, k)
  {
    hide NumberOf, Significand, CountedSize, DifferenceBytes, SumBytes, Raw, Numeral;
    exponentSize := CountExponent(p, k);
    var out, skipped := ShiftDigits(p.significand, p.point, k, true);
    SignificandNotEmpty(p.significand, p.point);
    var mantissaSize := skipped + |out|;
    total := 1 + mantissaSize;
    if exponentSize > 0 {
      total := total + (WidthBytes(StorageSize1(exponentSize)) + exponentSize);
    }
  }

  lemma {:induction false} SignificandNotEmpty(s: bytes, point: int)
    requires Significand(s, point)
    ensures s != []
  {
  }

  method CountExponent(p: Parts, k: nat) returns (size: nat)
    requires PartsOk(p)
    ensures size == ExponentSize(p, k)
  {
    hide NumberOf, Significand, CountedSize, DifferenceBytes, SumBytes, CompareDigits, Raw;
    var out, skipped;
    var adjustedNegative, adjusted := AdjustedNegative(p, k), AdjustedText(p, k);
    CompareOrders(p.exponent, adjusted);
    CompareOrders(adjusted, p.exponent);
    if adjustedNegative == p.exponentNegative {
      out, skipped := AddDigits(p.exponent, adjusted, true);
    } else {
      var c := CompareDigits(p.exponent, adjusted);
      if c < 0 {
        out, skipped := SubtractDigits(adjusted, p.exponent, true);
      } else if c > 0 {
        out, skipped := SubtractDigits(p.exponent, adjusted, true);
      } else {
        return 0;
      }
    }
    size := skipped + |out|;
  }

  // The loop over the adjustments. It starts from SIZE_MAX, above all sizes of a text that
  // fits in memory.
  method ChooseAdjustment(p: Parts) returns (best: nat, total: nat, exponentSize: nat)
    requires PartsOk(p) && forall k :: 0 <= k <= MaxAdjustment(p) ==> TotalSize(p, k) < SIZE_MAX
    ensures IsBest(p, best, MaxAdjustment(p) + 1)
    ensures total == TotalSize(p, best) && exponentSize == ExponentSize(p, best)
  {
    hide TotalSize, ExponentSize, PartsOk, MaxAdjustment;
    best, total, exponentSize := 0, SIZE_MAX, 0;
    for k := 0 to MaxAdjustment(p) + 1
      invariant k == 0 ==> total == SIZE_MAX && exponentSize == 0
      invariant k > 0 ==> IsBest(p, best, k) && total == TotalSize(p, best) && exponentSize == ExponentSize(p, best)
    {
      var size, exponent := CountCandidate(p, k);
      if k > 0 {
        BestOfMore(p, best, k);
      }
      if total > size || (total == size && exponentSize > 0 && exponent == 0) {
        best, total, exponentSize := k, size, exponent;
      }
    }
  }

  lemma {:induction false} BestOfMore(p: Parts, best: nat, k: nat)
    requires PartsOk(p) && IsBest(p, best, k)
    ensures IsBest(p, if Better(p, k, best) then k else best, k + 1)
  {
    hide TotalSize, ExponentSize;
    forall j | 0 <= j < k && Better(p, k, best)
      ensures !Better(p, j, k)
    {
      assert !Better(p, j, best);
    }
    forall j | 0 <= j < k && Better(p, k, best)
      ensures Better(p, k, j)
    {
      assert !Better(p, j, best);
    }
  }

  // There is only one best candidate.
  lemma {:induction false} BestIsUnique(p: Parts, best: nat, other: nat, n: nat)
    requires PartsOk(p) && IsBest(p, best, n) && IsBest(p, other, n)
    ensures best == other
  {
    hide Better;
    assert !Better(p, other, best) && !Better(p, best, other);
  }

  // ---------- What is written ----------

  ghost predicate WrittenAlone(s: bytes, out: bytes)
    requires Numeral(s)
  {
    if s == [] then out == [] else Shifted(s, false, out, 0)
  }

  ghost predicate ExponentWritten(p: Parts, k: nat, out: bytes)
    requires PartsOk(p)
  {
    var e, adjusted := p.exponent, AdjustedText(p, k);
    if AdjustedNegative(p, k) == p.exponentNegative then
      if e == [] then WrittenAlone(adjusted, out)
      else if adjusted == [] then WrittenAlone(e, out)
      else
        var sum := NumberOf(e) + NumberOf(adjusted);
        sum > 0 && out == SumBytes(sum)
    else if CompareDigits(e, adjusted) < 0 then
      if e == [] then WrittenAlone(adjusted, out)
      else NumberOf(adjusted) >= NumberOf(e) && out == DifferenceBytes(NumberOf(adjusted) - NumberOf(e))
    else if CompareDigits(e, adjusted) > 0 then
      if adjusted == [] then WrittenAlone(e, out)
      else NumberOf(e) >= NumberOf(adjusted) && out == DifferenceBytes(NumberOf(e) - NumberOf(adjusted))
    else out == []
  }

  method WriteExponent(p: Parts, k: nat) returns (out: bytes)
    requires PartsOk(p)
    ensures ExponentWritten(p, k, out)
  {
    hide NumberOf, Significand, Shifted, DifferenceBytes, SumBytes, CompareDigits, Raw;
    var skipped;
    var adjusted := AdjustedText(p, k);
    NumberOfNothing();
    CompareOrders(p.exponent, adjusted);
    CompareOrders(adjusted, p.exponent);
    if AdjustedNegative(p, k) == p.exponentNegative {
      out, skipped := AddDigits(p.exponent, adjusted, false);
      AloneUnskipped(p.exponent, out, skipped);
      AloneUnskipped(adjusted, out, skipped);
    } else {
      var c := CompareDigits(p.exponent, adjusted);
      if c < 0 {
        out, skipped := SubtractDigits(adjusted, p.exponent, false);
        AloneUnskipped(adjusted, out, skipped);
      } else if c > 0 {
        out, skipped := SubtractDigits(p.exponent, adjusted, false);
        AloneUnskipped(p.exponent, out, skipped);
      } else {
        out := [];
      }
    }
  }

  lemma {:induction false} AloneUnskipped(s: bytes, out: bytes, skipped: nat)
    requires Numeral(s)
    ensures s != [] && Shifted(s, false, out, skipped) ==> WrittenAlone(s, out)
  {
    hide ShiftedWords, StoreWords;
  }

  // When the exponent is stored as the right number.
  predicate ExponentExact(p: Parts, k: nat)
    requires PartsOk(p)
  {
    var e, adjusted := p.exponent, AdjustedText(p, k);
    if e == [] then StoredAlone(adjusted)
    else if adjusted == [] then StoredAlone(e)
    else if AdjustedNegative(p, k) == p.exponentNegative then false
    else
      var v := ExponentValue(p, k);
      v == 0 || (NoHole(BaseWords(v)) && !Misfit(BaseWords(v)[|BaseWords(v)| - 1] - 1))
  }

  lemma {:induction false} AloneExact(s: bytes, out: bytes)
    requires Numeral(s) && WrittenAlone(s, out)
    ensures StoredNumber(out) == NumberOf(s) <==> StoredAlone(s)
  {
    hide NumberOf, ShiftedWords, StoreWords, StoredNumber, Misfit;
    NumberOfNothing();
    if s != [] {
      ShiftExact(s, 0);
      TimesOne(NumberOf(s));
    }
  }

  // A sum of two parts that are both there is never right; a difference is right unless a
  // zero word is lost or the top word does not fit.
  lemma {:induction false} ExponentStored(p: Parts, k: nat, out: bytes)
    requires PartsOk(p) && ExponentWritten(p, k, out)
    ensures StoredNumber(out) == ExponentValue(p, k) <==> ExponentExact(p, k)
  {
    hide NumberOf, Significand, Shifted, DifferenceBytes, SumBytes, CompareDigits, StoredNumber, StoredAlone, Raw;
    hide BaseWords, NoHole, Misfit;
    var e, adjusted := p.exponent, AdjustedText(p, k);
    CompareOrders(e, adjusted);
    NumberOfNothing();
    if e == [] {
      ExponentAlone(p, k, adjusted, out);
    } else if adjusted == [] {
      ExponentAlone(p, k, e, out);
    } else if AdjustedNegative(p, k) == p.exponentNegative {
      SumNeverExact(NumberOf(e) + NumberOf(adjusted));
    } else {
      DifferenceExact(ExponentValue(p, k));
      DifferenceOfEquals();
    }
  }

  lemma {:induction false} ExponentAlone(p: Parts, k: nat, s: bytes, out: bytes)
    requires PartsOk(p) && ExponentWritten(p, k, out)
    requires (p.exponent == [] && s == AdjustedText(p, k)) || (AdjustedText(p, k) == [] && s == p.exponent)
    ensures ExponentValue(p, k) == NumberOf(s) && WrittenAlone(s, out)
    ensures StoredNumber(out) == NumberOf(s) <==> StoredAlone(s)
  {
    hide NumberOf, Significand, Shifted, DifferenceBytes, SumBytes, CompareDigits, StoredNumber, StoredAlone, Raw;
    CompareOrders(p.exponent, AdjustedText(p, k));
    NumberOfNothing();
    if s != [] {
      FirstDigitCounts(s);
    }
    AloneExact(s, out);
  }

  // ---------- The whole function ----------

  function PartsOf(text: bytes, a: Analysis): (p: Parts)
    requires a.significandStart <= a.significandEnd <= |text| && a.exponentStart <= a.exponentEnd <= |text|
  {
    var negative := a.decimalPoint < a.significandEnd;
    Parts(SignificandText(text, a), a.decimalPoint - a.significandStart,
          ExponentText(text, a), a.exponentNegative,
          if negative then a.significandEnd - a.decimalPoint - 1 else a.decimalPoint - a.significandEnd,
          negative)
  }

  lemma {:induction false} PartsAreOk(text: bytes, a: Analysis)
    requires text != [] && Analyzed(text, a) && WellFormedDecimal(text) && a.significandStart != a.significandEnd
    ensures a.significandStart < a.significandEnd <= |text| && a.exponentStart <= a.exponentEnd <= |text|
    ensures PartsOk(PartsOf(text, a))
    ensures var p := PartsOf(text, a);
      && Signed(p.shiftNegative, p.shift) == Shift(a)
      && Signed(p.exponentNegative, NumberOf(p.exponent)) == Exponent(text)
  {
    hide NumberOf, Significand, Mantissa, Exponent, Numeral, WellFormedDecimal, SameNumber;
    MantissaKept(text, a);
    ExponentKept(text, a);
  }

  // The type byte of a decimal.
  function DecimalType(mantissaNegative: bool, exponentSize: nat, exponentNegative: bool): (t: byte)
    ensures 0x1A <= t <= 0x2F
  {
    if exponentSize > 0 then
      0x20 + StorageSize1(exponentSize) + (if mantissaNegative then 4 else 0) + (if exponentNegative then 8 else 0)
    else 0x1A + if mantissaNegative then 1 else 0
  }

  function LengthBytes(size: nat): bytes {
    if size > 0 then LittleEndian(size - 1, WidthBytes(StorageSize(size - 1))) else []
  }

  function DecimalBytes(p: Parts, k: nat, mantissaNegative: bool, exponent: bytes): (data: bytes)
    requires PartsOk(p)
  {
    var d := Without(p.significand, p.point);
    var size := ExponentSize(p, k);
    WithoutDigits(p.significand, p.point);
    ShiftedShape(d, k);
    [DecimalType(mantissaNegative, size, ExponentSign(p, k))] + LengthBytes(size) + exponent + StoreWords(ShiftedWords(d, k))
  }

  // What is written for a text whose mantissa is not zero, with the best adjustment k.
  ghost predicate Chosen(text: bytes, a: Analysis, k: nat, exponent: bytes, size: nat, data: bytes)
    requires text != [] && WellFormedDecimal(text)
  {
    && Analyzed(text, a) && a.significandStart != a.significandEnd
    && (PartsAreOk(text, a);
        var p := PartsOf(text, a);
        && IsBest(p, k, MaxAdjustment(p) + 1) && size == TotalSize(p, k)
        && (if ExponentSize(p, k) > 0 then ExponentWritten(p, k, exponent) else exponent == [])
        && data == DecimalBytes(p, k, a.mantissaNegative, exponent))
  }

  // ---------- All sizes fit in 64 bits ----------

  // No object in memory is larger than PTRDIFF_MAX bytes.
  const PTRDIFF_MAX: nat := SIZE_MAX / 2

  lemma {:induction false} BaseWordsLength(v: nat, n: nat)
    requires v < Pow10(n)
    ensures 19 * (|BaseWords(v)| - 1) <= n
  {
    if v >= BASE {
      Pow10Small();
      if n < 19 {
        Pow10Grows(n, 19);
      }
      BelowQuotient(v, n);
      BaseWordsLength(v / BASE, n - 19);
    }
  }

  lemma {:induction false} BelowQuotient(v: nat, n: nat)
    requires v < Pow10(n) && n >= 19
    ensures v / BASE < Pow10(n - 19)
  {
    Pow10Small();
    Pow10Sum(19, n - 19);
    hide Pow10;
    if v / BASE >= Pow10(n - 19) {
      Multiples(BASE, Pow10(n - 19), v / BASE);
    }
  }

  lemma {:induction false} SumSmall(v: nat, n: nat)
    requires 0 < v < Pow10(n)
    ensures |SumBytes(v)| <= n + 8 && |DifferenceBytes(v)| <= n + 8
  {
    hide BaseWords, FitUint64, LittleEndian, StoreWords;
    BaseWordsLength(v, n);
    KeptLast(BaseWords(v));
    KeptShorter(BaseWords(v));
  }

  lemma {:induction false} KeptShorter(words: seq<nat>)
    ensures |Kept(words)| <= |words| && |NonZeroes(words)| <= |words|
  {
    if words != [] {
      KeptShorter(words[1..]);
    }
  }

  lemma {:induction false} CountedSmall(s: bytes, point: int, k: nat)
    requires Significand(s, point) && k <= 10
    ensures CountedSize(s, point, k) <= |s| + 16
  {
    hide Pack, PackedSize, FitUint64;
    if Rest(s, point) != [] {
      PackedSizeIs(Rest(s, point), k);
      RestShort(s, point);
    }
  }

  lemma {:induction false} RestShort(s: bytes, point: int)
    requires Significand(s, point)
    ensures |Rest(s, point)| <= 18
  {
  }

  lemma {:induction false} RawShort(v: nat, n: nat)
    requires v < Pow10(n)
    ensures |Raw(v)| <= n
  {
    if v > 0 {
      if n == 0 {
        PowZero();
      } else {
        RawShort(v / 10, n - 1);
      }
    }
  }

  lemma {:induction false} AdjustedShort(p: Parts, k: nat)
    requires p.shift <= PTRDIFF_MAX && k <= 10
    ensures |AdjustedText(p, k)| <= 20
  {
    Pow10Small();
    hide Pow10, Raw;
    RawShort(Adjusted(p, k), 20);
  }

  lemma {:induction false} NumberSmall(s: bytes, n: nat)
    requires AllDigits(s) && |s| <= n
    ensures NumberOf(s) < Pow10(n)
  {
    NumberBound(s);
    Pow10Grows(|s|, n);
  }

  lemma {:induction false} ExponentSmall(p: Parts, k: nat)
    requires PartsOk(p) && p.shift <= PTRDIFF_MAX && k <= 10
    ensures ExponentSize(p, k) <= |p.exponent| + 37
  {
    hide NumberOf, CompareDigits, Raw, SumBytes, DifferenceBytes, CountedSize, Significand, Pow10;
    var e, adjusted := p.exponent, AdjustedText(p, k);
    var n := |e| + 20;
    AdjustedShort(p, k);
    CompareOrders(e, adjusted);
    CompareOrders(adjusted, e);
    NumberSmall(e, n);
    NumberSmall(adjusted, n);
    AloneSmall(e);
    AloneSmall(adjusted);
    NextPowerOfTen(n);
    DifferenceOfEquals();
    if NumberOf(e) + NumberOf(adjusted) > 0 {
      SumSmall(NumberOf(e) + NumberOf(adjusted), n + 1);
    }
    if NumberOf(e) > NumberOf(adjusted) {
      SumSmall(NumberOf(e) - NumberOf(adjusted), n);
    }
    if NumberOf(adjusted) > NumberOf(e) {
      SumSmall(NumberOf(adjusted) - NumberOf(e), n);
    }
  }

  lemma {:induction false} NextPowerOfTen(n: nat)
    ensures Pow10(n + 1) == 10 * Pow10(n)
  {
  }

  lemma {:induction false} AloneSmall(s: bytes)
    requires Numeral(s)
    ensures CountedAlone(s) <= |s| + 16
  {
    hide CountedSize;
    if s != [] {
      NumeralSignificand(s);
      CountedSmall(s, -1, 0);
    }
  }

  lemma {:induction false} TotalSmall(p: Parts, k: nat)
    requires PartsOk(p) && |p.significand| + |p.exponent| <= PTRDIFF_MAX && p.shift <= PTRDIFF_MAX && k <= 10
    ensures TotalSize(p, k) < SIZE_MAX
  {
    hide ExponentSize, CountedSize, Significand, Numeral;
    ExponentSmall(p, k);
    CountedSmall(p.significand, p.point, k);
  }

  lemma {:induction false} PartsSmall(text: bytes, a: Analysis)
    requires text != [] && Analyzed(text, a) && WellFormedDecimal(text) && a.significandStart != a.significandEnd
    requires |text| <= PTRDIFF_MAX
    ensures a.significandStart < a.significandEnd <= |text| && a.exponentStart <= a.exponentEnd <= |text|
    ensures var p := PartsOf(text, a); |p.significand| + |p.exponent| <= PTRDIFF_MAX && p.shift <= PTRDIFF_MAX
  {
    PartsAreOk(text, a);
    FractionLength(text);
  }

  // ---------- The function as a whole ----------

  function AloneBytes(s: bytes): (out: bytes)
    requires Numeral(s)
    ensures WrittenAlone(s, out)
  {
    if s == [] then []
    else
      NumeralSignificand(s);
      ShiftedShape(s, 0);
      StoreWords(ShiftedWords(s, 0))
  }

  // The bytes of the exponent that goes with the adjustment k.
  function ExponentBytes(p: Parts, k: nat): bytes
    requires PartsOk(p)
  {
    var e, adjusted := p.exponent, AdjustedText(p, k);
    if AdjustedNegative(p, k) == p.exponentNegative then
      if e == [] then AloneBytes(adjusted)
      else if adjusted == [] then AloneBytes(e)
      else
        FirstDigitCounts(e);
        SumBytes(NumberOf(e) + NumberOf(adjusted))
    else if CompareDigits(e, adjusted) < 0 then
      CompareOrders(e, adjusted);
      if e == [] then AloneBytes(adjusted) else DifferenceBytes(NumberOf(adjusted) - NumberOf(e))
    else if CompareDigits(e, adjusted) > 0 then
      CompareOrders(e, adjusted);
      if adjusted == [] then AloneBytes(e) else DifferenceBytes(NumberOf(e) - NumberOf(adjusted))
    else []
  }

  lemma {:induction false} ExponentWrittenOnce(p: Parts, k: nat, out: bytes)
    requires PartsOk(p)
    ensures ExponentWritten(p, k, out) <==> out == ExponentBytes(p, k)
  {
    hide NumberOf, Significand, DifferenceBytes, SumBytes, CompareDigits, Raw, StoreWords, ShiftedWords;
    CompareOrders(p.exponent, AdjustedText(p, k));
    NumberOfNothing();
    if p.exponent != [] {
      FirstDigitCounts(p.exponent);
    }
  }

  // The best of the first n adjustments.
  function BestUpTo(p: Parts, n: nat): nat
    requires PartsOk(p) && n > 0
  {
    if n == 1 then 0
    else
      var best := BestUpTo(p, n - 1);
      if Better(p, n - 1, best) then n - 1 else best
  }

  function BestOf(p: Parts): nat
    requires PartsOk(p)
  {
    BestUpTo(p, MaxAdjustment(p) + 1)
  }

  lemma {:induction false} BestUpToIsBest(p: Parts, n: nat)
    requires PartsOk(p) && n > 0
    ensures IsBest(p, BestUpTo(p, n), n)
  {
    hide PartsOk, TotalSize, ExponentSize;
    if n > 1 {
      BestUpToIsBest(p, n - 1);
      BestOfMore(p, BestUpTo(p, n - 1), n - 1);
    }
  }

  lemma {:induction false} BestOfIsBest(p: Parts)
    requires PartsOk(p)
    ensures IsBest(p, BestOf(p), MaxAdjustment(p) + 1) && BestOf(p) <= 10
  {
    hide PartsOk, Better;
    BestUpToIsBest(p, MaxAdjustment(p) + 1);
  }

  function ChosenNumber(p: Parts, k: nat, mantissaNegative: bool): Number
    requires PartsOk(p)
  {
    Number(TotalSize(p, k),
           DecimalBytes(p, k, mantissaNegative, if ExponentSize(p, k) > 0 then ExponentBytes(p, k) else []))
  }

  // What bijson_writer_add_decimal_from_string puts into the spool for a text. No text is
  // longer than PTRDIFF_MAX.
  function DecimalOf(text: bytes): Result<Number> {
    if text == [] then Err(ParameterIsZero)
    else if |text| > PTRDIFF_MAX then Err(OutOfVirtualMemory)
    else if !WellFormedDecimal(text) then Err(InvalidDecimalSyntax)
    else
      var a := AnalysisOf(text);
      if a.significandStart == a.significandEnd then Ok(Number(1, [DecimalType(a.mantissaNegative, 0, false)]))
      else
        PartsAreOk(text, a);
        var p := PartsOf(text, a);
        Ok(ChosenNumber(p, BestOf(p), a.mantissaNegative))
  }

  // The conditions on a choice leave only this one.
  lemma {:induction false} ChosenIsDecimalOf(text: bytes, a: Analysis, k: nat, exponent: bytes, size: nat, data: bytes)
    requires text != [] && |text| <= PTRDIFF_MAX && WellFormedDecimal(text) && Chosen(text, a, k, exponent, size, data)
    ensures DecimalOf(text) == Ok(Number(size, data))
  {
    hide WellFormedDecimal, Analyzed, IsBest, PartsOk, ExponentWritten, TotalSize, ExponentSize, DecimalBytes;
    AnalysisIsUnique(text, a);
    PartsAreOk(text, a);
    var p := PartsOf(text, a);
    BestOfIsBest(p);
    BestIsUnique(p, k, BestOf(p), MaxAdjustment(p) + 1);
    ExponentWrittenOnce(p, k, exponent);
  }

  lemma {:induction false} DecimalOfIsChosen(text: bytes)
    requires text != [] && |text| <= PTRDIFF_MAX && WellFormedDecimal(text)
    requires AnalysisOf(text).significandStart != AnalysisOf(text).significandEnd
    ensures DecimalOf(text).Ok?
    ensures var a, n := AnalysisOf(text), DecimalOf(text).value;
      && a.significandStart < a.significandEnd <= |text| && a.exponentStart <= a.exponentEnd <= |text|
      && PartsOk(PartsOf(text, a))
      && var p := PartsOf(text, a);
      && n == ChosenNumber(p, BestOf(p), a.mantissaNegative)
      && Chosen(text, a, BestOf(p), if ExponentSize(p, BestOf(p)) > 0 then ExponentBytes(p, BestOf(p)) else [], n.size, n.data)
  {
    hide WellFormedDecimal, Analyzed, IsBest, PartsOk, ExponentWritten, TotalSize, ExponentSize, DecimalBytes;
    PartsAreOk(text, AnalysisOf(text));
    var p := PartsOf(text, AnalysisOf(text));
    BestOfIsBest(p);
    ExponentWrittenOnce(p, BestOf(p), ExponentBytes(p, BestOf(p)));
  }

  // bijson_writer_add_decimal_from_string, apart from the writer: the size that is put into
  // the spool and the bytes that follow it.
  method EncodeDecimal(text: bytes) returns (r: Result<Number>)
    requires |text| <= PTRDIFF_MAX
    ensures r == DecimalOf(text)
  {
    hide WellFormedDecimal, Analyzed, IsBest, PartsOk, ExponentWritten, TotalSize, ExponentSize, Without, ShiftedWords;
    hide StoreWords;
    if text == [] {
      return Err(ParameterIsZero);
    }
    var analysis := AnalyzeString(text);
    if analysis.Err? {
      return Err(analysis.error);
    }
    var a := analysis.value;
    AnalysisIsUnique(text, a);
    if a.significandStart == a.significandEnd {
      // The number is zero.
      return Ok(Number(1, [DecimalType(a.mantissaNegative, 0, false)]));
    }
    var number := EncodeNonZero(text, a);
    return Ok(number);
  }

  // The search for the best split, and what is pushed for it.
  method EncodeNonZero(text: bytes, a: Analysis) returns (number: Number)
    requires text != [] && |text| <= PTRDIFF_MAX && WellFormedDecimal(text)
    requires Analyzed(text, a) && a.significandStart != a.significandEnd
    ensures DecimalOf(text) == Ok(number)
  {
    hide WellFormedDecimal, Analyzed, IsBest, PartsOk, ExponentWritten, TotalSize, ExponentSize, Without, ShiftedWords;
    hide StoreWords;
    hide DecimalOf;
    PartsAreOk(text, a);
    PartsSmall(text, a);
    var p := PartsOf(text, a);
    forall j | 0 <= j <= MaxAdjustment(p)
      ensures TotalSize(p, j) < SIZE_MAX
    {
      TotalSmall(p, j);
    }
    var best, total, exponentSize := ChooseAdjustment(p);
    var data: bytes := [DecimalType(a.mantissaNegative, exponentSize, ExponentSign(p, best))];
    var exponent := [];
    if exponentSize > 0 {
      var length := WriteMinimalInt(exponentSize - 1, WidthBytes(StorageSize(exponentSize - 1)));
      data := data + length;
      exponent := WriteExponent(p, best);
      data := data + exponent;
    }
    var mantissa := WriteMantissa(p, best);
    data := data + mantissa;
    ChosenIsDecimalOf(text, a, best, exponent, total, data);
    return Number(total, data);
  }

  method WriteMantissa(p: Parts, k: nat) returns (out: bytes)
    requires PartsOk(p)
    ensures AllDigits(Without(p.significand, p.point))
    ensures ShiftedWords(Without(p.significand, p.point), k)[|ShiftedWords(Without(p.significand, p.point), k)| - 1] > 0
    ensures out == StoreWords(ShiftedWords(Without(p.significand, p.point), k))
  {
    hide Without, ShiftedWords, StoreWords, Numeral;
    var skipped;
    SignificandNotEmpty(p.significand, p.point);
    out, skipped := ShiftDigits(p.significand, p.point, k, false);
  }
}
