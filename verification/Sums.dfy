// Adding and subtracting numbers that are given by their digits (_bijson_add_digits and
// _bijson_subtract_digits in lib/writer/decimal.c), and exactly when the result is stored as
// the right number.
module Sums {
  import opened Arithmetic
  import opened Bytes
  import opened Digits
  import opened Words
  import opened Shifting

  // A number without leading zeroes; none at all for zero.
  predicate Numeral(s: bytes) {
    AllDigits(s) && (s != [] ==> s[0] != ZERO)
  }

  lemma {:induction false} HighHigh(v: nat, a: nat, b: nat)
    ensures High(High(v, a), b) == High(v, a + b)
  {
    hide Pow10;
    Pow10Sum(a, b);
    DivTwice(v, Pow10(a), Pow10(b));
  }

  // The characters of a numeral are the digits of its number.
  lemma {:induction false} CharIsDigit(s: bytes, i: nat)
    requires AllDigits(s)
    ensures NumberOf(s) < Pow10(|s|)
    ensures i < |s| ==> s[|s| - 1 - i] - ZERO == DigitOf(NumberOf(s), i)
    ensures i >= |s| ==> High(NumberOf(s), i) == 0 && DigitOf(NumberOf(s), i) == 0
    decreases |s|, 1
  {
    NumberBound(s);
    if i >= |s| {
      Pow10Grows(|s|, i);
      ScaledSmall(i);
      Parts(NumberOf(s), i, 0, NumberOf(s));
    } else {
      CharIsDigitInside(s, i);
    }
  }

  lemma {:induction false} NumberBound(s: bytes)
    requires AllDigits(s)
    ensures NumberOf(s) < Pow10(|s|)
  {
    if s != [] {
      NumberBound(s[..|s| - 1]);
    }
  }

  lemma {:induction false} CharIsDigitInside(s: bytes, i: nat)
    requires AllDigits(s) && i < |s|
    ensures s[|s| - 1 - i] - ZERO == DigitOf(NumberOf(s), i)
  {
    var init := s[..|s| - 1];
    CutBelow(NumberOf(s));
    if i > 0 {
      CharIsDigitInside(init, i - 1);
      PowZero();
      HighHigh(NumberOf(s), 1, i - 1);
      assert High(NumberOf(s), 1) == NumberOf(init);
    }
  }

  // ---------- Words of a number ----------

  // Its words, least significant first, without leading zero words.
  function BaseWords(v: nat): (words: seq<nat>)
    ensures words != []
    ensures v > 0 ==> words[|words| - 1] > 0
    ensures forall i :: 0 <= i < |words| ==> words[i] < BASE
  {
    if v < BASE then [v] else [v % BASE] + BaseWords(v / BASE)
  }

  lemma {:induction false} BaseWordsValue(v: nat)
    ensures WordsValue(BaseWords(v)) == v
  {
    if v < BASE {
      assert [v][1..] == [];
    } else {
      BaseWordsValue(v / BASE);
      assert BaseWords(v)[1..] == BaseWords(v / BASE);
    }
  }

  // The first k words.
  function LowWords(v: nat, k: nat): (words: seq<nat>)
    ensures |words| == k
  {
    seq(k, i requires 0 <= i < k => Low(High(v, 19 * i), 19))
  }

  lemma {:induction false} LowWordsSnoc(v: nat, k: nat)
    ensures LowWords(v, k + 1) == LowWords(v, k) + [Low(High(v, 19 * k), 19)]
    ensures LowWords(v, 0) == []
  {
  }

  lemma {:induction false} LowWordsCons(v: nat, k: nat)
    requires k > 0
    ensures LowWords(v, k) == [v % BASE] + LowWords(v / BASE, k - 1)
  {
    hide Pow10, High, Low;
    BaseIsPower(v);
    forall i | 1 <= i < k
      ensures LowWords(v, k)[i] == LowWords(v / BASE, k - 1)[i - 1]
    {
      HighHigh(v, 19, 19 * (i - 1));
    }
  }

  lemma {:induction false} BaseIsPower(v: nat)
    ensures High(v, 19) == v / BASE && Low(v, 19) == v % BASE && High(v, 0) == v
  {
    Pow10Small();
    PowZero();
    hide Pow10;
  }

  // Once the top word is found, all words are found.
  lemma {:induction false} TopForm(v: nat, k: nat)
    requires 0 < High(v, 19 * k) < BASE
    ensures BaseWords(v) == LowWords(v, k) + [High(v, 19 * k)]
  {
    hide High, Low;
    BaseIsPower(v);
    if k > 0 {
      HighHigh(v, 19, 19 * k - 19);
      SmallHigh(v, 19 * k);
      TopForm(v / BASE, k - 1);
      LowWordsCons(v, k);
    }
  }

  lemma {:induction false} SmallHigh(v: nat, i: nat)
    requires i >= 19 && High(v, i) > 0
    ensures v >= BASE
  {
    Pow10Grows(19, i);
    Pow10Small();
    if v < BASE {
      ScaledSmall(i);
      Parts(v, i, 0, v);
    }
  }

  // ---------- Addition ----------

  // One column of an addition: the new digit is the next digit of the sum.
  lemma {:induction false} AddColumn(a: nat, b: nat, i: nat, carry: nat)
    requires Low(a, i) + Low(b, i) == Low(a + b, i) + Scaled(carry, i) && carry <= 1
    ensures var x := DigitOf(a, i) + DigitOf(b, i) + carry;
      var more := if x >= 10 then 1 else 0;
      && DigitOf(a + b, i) == x - 10 * more
      && Low(a, i + 1) + Low(b, i + 1) == Low(a + b, i + 1) + Scaled(more, i + 1)
      && High(a + b, i + 1) == High(a, i + 1) + High(b, i + 1) + more
  {
    hide High, Low, DigitOf, Scaled, Pow10;
    var x := DigitOf(a, i) + DigitOf(b, i) + carry;
    var more := if x >= 10 then 1 else 0;
    var digit, low := x - 10 * more, Low(a + b, i);
    NextDigit(a, i);
    NextDigit(b, i);
    NextDigit(a + b, i);
    Whole(a, i + 1);
    Whole(b, i + 1);
    Whole(a + b, i);
    ScaledColumn(DigitOf(a, i), DigitOf(b, i), carry, digit, more, i);
    ScaledSum(High(a, i + 1), High(b, i + 1), i + 1);
    ScaledSum(High(a, i + 1) + High(b, i + 1), more, i + 1);
    DigitFits(digit, low, i);
    Parts(a + b, i + 1, High(a, i + 1) + High(b, i + 1) + more, Scaled(digit, i) + low);
    SameDigit(DigitOf(a + b, i), digit, i);
  }

  lemma {:induction false} ScaledColumn(da: nat, db: nat, carry: nat, digit: nat, more: nat, i: nat)
    requires da + db + carry == digit + 10 * more
    ensures Scaled(da, i) + Scaled(db, i) + Scaled(carry, i) == Scaled(digit, i) + Scaled(more, i + 1)
  {
    hide Scaled;
    ScaledSum(da, db, i);
    ScaledSum(da + db, carry, i);
    ScaledSum(digit, 10 * more, i);
    ScaledNext(more, i);
  }

  lemma {:induction false} SameDigit(a: nat, b: nat, i: nat)
    requires Scaled(a, i) == Scaled(b, i)
    ensures a == b
  {
    if a < b { ScaledGrows(a, b, i); } else if b < a { ScaledGrows(b, a, i); }
  }

  // The word that is being filled: the first m digits of what lies above k words.
  function Partial(v: nat, k: nat, m: nat): nat {
    Low(High(v, 19 * k), m)
  }

  lemma {:induction false} PartialGrows(v: nat, k: nat, m: nat)
    requires m < 19
    ensures Partial(v, k, m + 1) == Partial(v, k, m) + Scaled(DigitOf(v, 19 * k + m), m)
    ensures Partial(v, k, m + 1) < Pow10(m + 1) <= BASE
    ensures Partial(v, k, 0) == 0
  {
    hide Pow10, High, Low, Scaled;
    NextDigit(High(v, 19 * k), m);
    Whole(High(v, 19 * k), m + 1);
    HighHigh(v, 19 * k, m);
    CutBelow(High(v, 19 * k));
    Pow10Grows(m + 1, 19);
    Pow10Small();
  }

  // With nothing left, or with a last carry, the word is the top word.
  lemma {:induction false} PartialEnds(v: nat, k: nat, m: nat)
    requires m <= 19 && High(v, 19 * k + m) <= 1 && (High(v, 19 * k + m) == 1 ==> m < 19)
    ensures High(v, 19 * k) == Partial(v, k, m) + Scaled(High(v, 19 * k + m), m) < BASE
    ensures High(v, 19 * k + m) == 1 ==> High(v, 19 * k) > 0
  {
    hide Pow10, High, Low, Scaled;
    Whole(High(v, 19 * k), m);
    HighHigh(v, 19 * k, m);
    ScaledSmall(m);
    Pow10Grows(m, 19);
    Pow10Small();
    if High(v, 19 * k + m) == 1 {
      Pow10Grows(m, 18);
      PowerBelow();
    }
  }

  lemma {:induction false} PowerBelow()
    ensures 2 * Pow10(18) < BASE
  {
    Pow10Small();
    assert Pow10(19) == 10 * Pow10(18);
    hide Pow10;
  }

  // What addition puts down: the top word is not reduced, although its size is chosen as if
  // it were.
  function SumBytes(v: nat): bytes
    requires v > 0
  {
    var words := BaseWords(v);
    var top := words[|words| - 1];
    FullWords(words[..|words| - 1]) + LittleEndian(top, FitUint64(top - 1))
  }

  lemma {:induction false} SumForm(v: nat, k: nat)
    requires 0 < High(v, 19 * k) < BASE
    ensures v > 0
    ensures SumBytes(v) == FullWords(LowWords(v, k)) + LittleEndian(High(v, 19 * k), FitUint64(High(v, 19 * k) - 1))
  {
    hide LittleEndian, FitUint64, FullWords, High;
    TopForm(v, k);
    ZeroHigh(19 * k);
    assert (LowWords(v, k) + [High(v, 19 * k)])[..k] == LowWords(v, k);
  }

  lemma {:induction false} ZeroHigh(i: nat)
    ensures High(0, i) == 0 && Low(0, i) == 0
  {
    ScaledSmall(i);
    Parts(0, i, 0, 0);
  }

  // The digit at place i, counted from the right, and zero beyond the first digit.
  function PlaceValue(s: bytes, i: nat): (d: nat)
    requires AllDigits(s)
    ensures d < 10
  {
    if i < |s| then s[|s| - 1 - i] - ZERO else 0
  }

  lemma {:induction false} PlaceIsDigit(s: bytes, i: nat)
    requires AllDigits(s)
    ensures PlaceValue(s, i) == DigitOf(NumberOf(s), i)
    ensures i >= |s| ==> High(NumberOf(s), i) == 0
  {
    hide High, DigitOf, NumberOf, Pow10;
    CharIsDigit(s, i);
  }

  lemma {:induction false} FirstDigitCounts(s: bytes)
    requires Numeral(s) && s != []
    ensures High(NumberOf(s), |s| - 1) > 0 && NumberOf(s) > 0
  {
    CharIsDigit(s, |s| - 1);
    if NumberOf(s) == 0 {
      ZeroHigh(|s| - 1);
    }
  }

  // The state of an addition after i columns.
  ghost predicate Adding(a: nat, b: nat, i: nat, k: nat, m: nat, carry: nat, word: nat, out: bytes) {
    && i == 19 * k + m && m <= 18 && carry <= 1
    && Low(a, i) + Low(b, i) == Low(a + b, i) + Scaled(carry, i)
    && word == Partial(a + b, k, m) && out == FullWords(LowWords(a + b, k))
  }

  lemma {:induction false} AddingMeans(a: nat, b: nat, i: nat, k: nat, m: nat, carry: nat, word: nat, out: bytes)
    requires Adding(a, b, i, k, m, carry, word, out)
    ensures word == Partial(a + b, k, m) && out == FullWords(LowWords(a + b, k))
  {
  }

  lemma {:induction false} AddingStarts(a: nat, b: nat)
    ensures Adding(a, b, 0, 0, 0, 0, 0, [])
  {
    CutBelow(a);
    CutBelow(b);
    CutBelow(a + b);
    CutBelow(High(a + b, 0));
    ScaledSmall(0);
  }

  lemma {:induction false} ColumnAdded(a: nat, b: nat, i: nat, k: nat, m: nat, carry: nat, word: nat, out: bytes)
    requires Adding(a, b, i, k, m, carry, word, out)
    ensures var x := DigitOf(a, i) + DigitOf(b, i) + carry;
      var more := if x >= 10 then 1 else 0;
      && word + Scaled(x - 10 * more, m) == Partial(a + b, k, m + 1) < Pow10(m + 1) <= BASE
      && High(a + b, i + 1) == High(a, i + 1) + High(b, i + 1) + more
      && (m < 18 ==> Adding(a, b, i + 1, k, m + 1, more, Partial(a + b, k, m + 1), out))
      && (m == 18 ==> Adding(a, b, i + 1, k + 1, 0, more, 0, out + LittleEndian(Partial(a + b, k, m + 1), 8)))
  {
    hide Pow10, High, Low, LittleEndian, FullWords, Scaled;
    AddColumn(a, b, i, carry);
    PartialGrows(a + b, k, m);
    if m == 18 {
      PartialGrows(a + b, k + 1, 0);
      LowWordsSnoc(a + b, k);
      FullWordsSnoc(LowWords(a + b, k), Partial(a + b, k, 19));
    }
  }

  // _bijson_add_digits when there is something to add.
  method AddNumerals(a: bytes, b: bytes) returns (out: bytes)
    requires Numeral(a) && Numeral(b) && a != [] && b != []
    ensures NumberOf(a) + NumberOf(b) > 0 && out == SumBytes(NumberOf(a) + NumberOf(b))
  {
    hide Pow10, Adding, LittleEndian, FullWords, Partial, High, DigitOf, NumberOf, FitUint64, SumBytes, Scaled, Weight;
    ghost var va, vb := NumberOf(a), NumberOf(b);
    ghost var k: nat, m: nat := 0, 0;
    var i: nat, magnitude: nat, carry: nat, word: nat := 0, 1, 0, 0;
    out := [];
    AddingStarts(va, vb);
    PowersStart();
    FirstDigitCounts(a);
    FirstDigitCounts(b);
    while true
      invariant (i < |a| || i < |b|) && m <= 18 && i == 19 * k + m && carry <= 1
      invariant Adding(va, vb, i, k, m, carry, word, out) && magnitude == Pow10(m)
      decreases (if |a| > |b| then |a| else |b|) - i
    {
      var aValue, bValue := PlaceValue(a, i), PlaceValue(b, i);
      PlaceIsDigit(a, i);
      PlaceIsDigit(b, i);
      ColumnAdded(va, vb, i, k, m, carry, word, out);
      AddingMeans(va, vb, i, k, m, carry, word, out);
      var sum := aValue + bValue + carry;
      carry := if sum >= 10 then 1 else 0;
      sum := sum - 10 * carry;
      word := word + Weight(sum, magnitude);
      WeightIs(sum, magnitude, m);
      i := i + 1;
      PlaceIsDigit(a, i);
      PlaceIsDigit(b, i);
      if i >= |a| && i >= |b| && carry == 0 {
        PartialEnds(va + vb, k, m + 1);
        ScaledSmall(m + 1);
        TopNotZero(a, b, i, k, m);
        break;
      }
      magnitude := magnitude * 10;
      m := m + 1;
      NextMagnitude(m);
      if magnitude == BASE {
        out := out + LittleEndian(word, 8);
        magnitude, word := 1, 0;
        k, m := k + 1, 0;
      }
      if i >= |a| && i >= |b| {
        // only reached with a carry
        AddingMeans(va, vb, i, k, m, carry, word, out);
        PartialEnds(va + vb, k, m);
        ScaledSmall(m);
        word := word + magnitude;
        break;
      }
    }
    SumForm(va + vb, k);
    out := out + LittleEndian(word, FitUint64(word - 1));
  }

  function Weight(digit: nat, magnitude: nat): nat {
    digit * magnitude
  }

  lemma {:induction false} WeightIs(digit: nat, magnitude: nat, m: nat)
    requires magnitude == Pow10(m)
    ensures Weight(digit, magnitude) == Scaled(digit, m)
  {
  }

  lemma {:induction false} PowersStart()
    ensures Pow10(0) == 1
  {
  }

  lemma {:induction false} NextMagnitude(m: nat)
    requires 1 <= m <= 19
    ensures Pow10(m) == Pow10(m - 1) * 10 && (Pow10(m) == BASE <==> m == 19)
  {
    Pow10Grows(m, 19);
    Pow10Small();
    hide Pow10;
  }

  lemma {:induction false} TopNotZero(a: bytes, b: bytes, i: nat, k: nat, m: nat)
    requires Numeral(a) && Numeral(b) && a != [] && b != []
    requires i == 19 * k + m + 1 && i >= |a| && i >= |b| && (i - 1 < |a| || i - 1 < |b|)
    ensures High(NumberOf(a) + NumberOf(b), 19 * k) > 0
  {
    var v := NumberOf(a) + NumberOf(b);
    FirstDigitCounts(a);
    FirstDigitCounts(b);
    hide Numeral, NumberOf;
    var longer := if i - 1 < |a| then NumberOf(a) else NumberOf(b);
    HighGrows(longer, v, i - 1);
    hide High;
    HighHigh(v, 19 * k, m);
    ZeroHigh(m);
  }

  lemma {:induction false} HighGrows(a: nat, b: nat, i: nat)
    requires a <= b
    ensures High(a, i) <= High(b, i)
  {
    hide High, Low, Scaled, Pow10;
    Whole(a, i);
    Whole(b, i);
    if High(a, i) > High(b, i) {
      ScaledGrows(High(b, i), High(a, i), i);
    }
  }

  // What _bijson_shift_digits writes for a numeral that is neither shifted nor has a point.
  ghost predicate Shifted(s: bytes, counting: bool, out: bytes, skipped: nat) {
    && Significand(s, -1) && AllDigits(s)
    && if counting then skipped + |out| == CountedSize(s, -1, 0)
       else
         var words := ShiftedWords(s, 0);
         words[|words| - 1] > 0 && skipped == 0 && out == StoreWords(words)
  }

  lemma {:induction false} NumeralSignificand(s: bytes)
    requires Numeral(s) && s != []
    ensures Significand(s, -1) && Without(s, -1) == s
  {
  }

  // _bijson_add_digits
  method AddDigits(a: bytes, b: bytes, counting: bool) returns (out: bytes, skipped: nat)
    requires Numeral(a) && Numeral(b)
    ensures
      if a == [] && b == [] then out == [] && skipped == 0
      else if a == [] then Shifted(b, counting, out, skipped)
      else if b == [] then Shifted(a, counting, out, skipped)
      else NumberOf(a) + NumberOf(b) > 0 && out == SumBytes(NumberOf(a) + NumberOf(b)) && skipped == 0
  {
    hide NumberOf, SumBytes, CountedSize, ShiftedWords, StoreWords, Numeral;
    if a == [] {
      if b != [] {
        NumeralSignificand(b);
      }
      out, skipped := ShiftDigits(b, -1, 0, counting);
    } else if b == [] {
      NumeralSignificand(a);
      out, skipped := ShiftDigits(a, -1, 0, counting);
    } else {
      out := AddNumerals(a, b);
      skipped := 0;
    }
  }

  lemma {:induction false} TruncationGap(v: nat, n: nat)
    requires n > 0
    ensures FromLittleEndian(LittleEndian(v, n)) == v || FromLittleEndian(LittleEndian(v, n)) + 256 <= v
  {
    assert LittleEndian(v, n)[1..] == LittleEndian(v / 256, n - 1);
    if n == 1 {
      assert LittleEndian(v / 256, 0) == [];
    } else {
      TruncationGap(v / 256, n - 1);
    }
  }

  lemma {:induction false} StoredAfterWords(words: seq<nat>, last: bytes)
    requires Fits64(words) && 0 < |last| <= 8
    ensures StoredNumber(FullWords(words) + last)
         == WordsValue(words) + Scaled(FromLittleEndian(last) + 1, 19 * |words|)
  {
    hide LittleEndian, FromLittleEndian, Pow10, Scaled;
    if words == [] {
      assert FullWords(words) + last == last;
      PowersStart();
      ScaledAtZero(FromLittleEndian(last) + 1);
    } else {
      var b, rest := FullWords(words) + last, FullWords(words[1..]) + last;
      StoredAfterWords(words[1..], last);
      assert b == LittleEndian(words[0], 8) + rest;
      assert b[..8] == LittleEndian(words[0], 8) && b[8..] == rest;
      Pow256All();
      LittleEndianHolds(words[0], 8);
      ScaledByBase(FromLittleEndian(last) + 1, 19 * |words| - 19);
    }
  }

  lemma {:induction false} ScaledAtZero(d: nat)
    ensures Scaled(d, 0) == d
  {
  }

  lemma {:induction false} ScaledByBase(d: nat, i: nat)
    ensures BASE * Scaled(d, i) == Scaled(d, i + 19)
  {
    Pow10Small();
    Pow10Sum(19, i);
    hide Pow10;
    Commute(BASE, d, Pow10(i));
  }

  lemma {:induction false} ValueAfterWords(words: seq<nat>, top: nat)
    ensures WordsValue(words + [top]) == WordsValue(words) + Scaled(top, 19 * |words|)
  {
    hide Pow10;
    WordsValueSnoc(words, top);
    ScaledTurns(top, 19 * |words|);
  }

  lemma {:induction false} ScaledTurns(d: nat, i: nat)
    ensures Scaled(d, i) == Pow10(i) * d
  {
  }

  // So a sum of two numbers, neither of which is zero, is never stored right.
  lemma {:induction false} SumNeverExact(v: nat)
    requires v > 0
    ensures StoredNumber(SumBytes(v)) != v
  {
    hide LittleEndian, FromLittleEndian, FitUint64, Scaled, FullWords, WordsValue, StoredNumber, BaseWords;
    var words := BaseWords(v);
    var k := |words| - 1;
    var low, top := words[..k], words[k];
    var last := LittleEndian(top, FitUint64(top - 1));
    assert words == low + [top];
    BaseWordsValue(v);
    StoredAfterWords(low, last);
    ValueAfterWords(low, top);
    TruncationGap(top, FitUint64(top - 1));
    if Scaled(FromLittleEndian(last) + 1, 19 * k) == Scaled(top, 19 * k) {
      SameDigit(FromLittleEndian(last) + 1, top, 19 * k);
    }
  }

  // Adding stores the right number exactly when at most one of the two is not zero, and that
  // one has up to nineteen digits and no misfit, or twenty digits.
  lemma {:induction false} AddExact(a: bytes, b: bytes, out: bytes)
    requires Numeral(a) && Numeral(b)
    requires
      if a == [] && b == [] then out == []
      else if a == [] then Shifted(b, false, out, 0)
      else if b == [] then Shifted(a, false, out, 0)
      else NumberOf(a) + NumberOf(b) > 0 && out == SumBytes(NumberOf(a) + NumberOf(b))
    ensures StoredNumber(out) == NumberOf(a) + NumberOf(b) <==>
      || (a == [] && StoredAlone(b))
      || (b == [] && StoredAlone(a))
  {
    hide NumberOf, SumBytes, ShiftedWords, StoreWords, StoredNumber, Misfit;
    NumberOfNothing();
    if a != [] && b != [] {
      SumNeverExact(NumberOf(a) + NumberOf(b));
    } else if a != [] {
      ShiftExact(a, 0);
      TimesOne(NumberOf(a));
    } else if b != [] {
      ShiftExact(b, 0);
      TimesOne(NumberOf(b));
    }
  }

  predicate StoredAlone(s: bytes)
    requires Numeral(s)
  {
    s == [] || |s| == 20 || (|s| < 20 && !Misfit(NumberOf(s) - 1))
  }

  lemma {:induction false} NumberOfNothing()
    ensures NumberOf([]) == 0 && StoredNumber([]) == 0
  {
  }

  lemma {:induction false} TimesOne(n: nat)
    ensures n * Pow10(0) == n
  {
  }
}
