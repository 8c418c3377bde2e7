// Subtracting numbers that are given by their digits (_bijson_subtract_digits in
// lib/writer/decimal.c), and exactly when the result is stored as the right number.
module Differences {
  import opened Arithmetic
  import opened Bytes
  import opened Digits
  import KeyOrder
  import opened Words
  import opened Shifting
  import opened Sums

  // _bijson_compare_digits
  function CompareDigits(a: bytes, b: bytes): int {
    if |a| == |b| then KeyOrder.Memcmp(a, b) else if |a| < |b| then -1 else 1
  }

  lemma {:induction false} CompareBytesOrders(a: bytes, b: bytes)
    requires |a| == |b| && AllDigits(a) && AllDigits(b)
    ensures KeyOrder.Memcmp(a, b) < 0 <==> NumberOf(a) < NumberOf(b)
    ensures KeyOrder.Memcmp(a, b) == 0 <==> NumberOf(a) == NumberOf(b)
  {
    if a != [] {
      hide NumberOf, Pow10;
      CompareBytesOrders(a[1..], b[1..]);
      NumberCons(a);
      NumberCons(b);
      NumberBound(a[1..]);
      NumberBound(b[1..]);
      Leading(a[0] - ZERO, b[0] - ZERO, Pow10(|a| - 1), NumberOf(a[1..]), NumberOf(b[1..]));
    }
  }

  lemma {:induction false} Leading(x: nat, y: nat, p: nat, r: nat, s: nat)
    requires r < p && s < p
    ensures x < y ==> x * p + r < y * p + s
    ensures x > y ==> x * p + r > y * p + s
  {
    if x < y { Multiples(p, x + 1, y); }
    if x > y { Multiples(p, y + 1, x); }
  }

  // The comparison of digits is the comparison of numbers.
  lemma {:induction false} CompareOrders(a: bytes, b: bytes)
    requires Numeral(a) && Numeral(b)
    ensures CompareDigits(a, b) < 0 <==> NumberOf(a) < NumberOf(b)
    ensures CompareDigits(a, b) == 0 <==> NumberOf(a) == NumberOf(b)
  {
    if |a| == |b| {
      CompareBytesOrders(a, b);
    } else {
      LongerIsLarger(a, b);
    }
  }

  lemma {:induction false} LongerIsLarger(a: bytes, b: bytes)
    requires Numeral(a) && Numeral(b) && |a| != |b|
    ensures |a| < |b| <==> NumberOf(a) < NumberOf(b)
    ensures NumberOf(a) != NumberOf(b)
  {
    if |a| < |b| { ShorterIsSmaller(a, b); } else { ShorterIsSmaller(b, a); }
  }

  lemma {:induction false} ShorterIsSmaller(a: bytes, b: bytes)
    requires Numeral(a) && Numeral(b) && |a| < |b|
    ensures NumberOf(a) < NumberOf(b)
  {
    hide NumberOf, Pow10, High, Low, Scaled;
    NumberBound(a);
    Pow10Grows(|a|, |b| - 1);
    FirstDigitCounts(b);
    Whole(NumberOf(b), |b| - 1);
    ScaledGrows(1, High(NumberOf(b), |b| - 1), |b| - 1);
    ScaledSmall(|b| - 1);
  }

  // ---------- One column ----------

  lemma {:induction false} SubtractColumn(a: nat, b: nat, i: nat, carry: nat)
    requires b <= a && carry <= 1 && Low(a, i) + Scaled(carry, i) == Low(a - b, i) + Low(b, i)
    ensures var x := 10 + DigitOf(a, i) - DigitOf(b, i) - carry;
      var more := if x < 10 then 1 else 0;
      && DigitOf(a - b, i) == x - 10 * (1 - more)
      && Low(a, i + 1) + Scaled(more, i + 1) == Low(a - b, i + 1) + Low(b, i + 1)
  {
    hide High, Low, DigitOf, Scaled, Pow10;
    var d := a - b;
    var x := 10 + DigitOf(a, i) - DigitOf(b, i) - carry;
    var more := if x < 10 then 1 else 0;
    var digit := x - 10 * (1 - more);
    NextDigit(a, i);
    NextDigit(b, i);
    NextDigit(d, i);
    Whole(a, i + 1);
    Whole(b, i + 1);
    Whole(d, i);
    Whole(d, i + 1);
    // digit + b's digit + carry == a's digit + 10 * more
    ScaledSum(digit, DigitOf(b, i), i);
    ScaledSum(digit + DigitOf(b, i), carry, i);
    ScaledSum(DigitOf(a, i), 10 * more, i);
    ScaledNext(more, i);
    DigitFits(digit, Low(d, i), i);
    // Both forms of the low part of the difference agree modulo the next power of ten.
    var low := Scaled(digit, i) + Low(d, i);
    assert Low(a, i + 1) + Scaled(more, i + 1) == low + Low(b, i + 1);
    HighOfDifference(a, b, i + 1, more, low);
    SameDigit(DigitOf(d, i), digit, i);
  }

  lemma {:induction false} HighOfDifference(a: nat, b: nat, i: nat, more: nat, low: nat)
    requires b <= a && low < Pow10(i) && more <= 1
    requires Low(a, i) + Scaled(more, i) == low + Low(b, i)
    ensures Low(a - b, i) == low
    ensures High(a, i) == High(b, i) + more + High(a - b, i)
  {
    hide High, Low, Scaled, Pow10;
    Whole(a, i);
    Whole(b, i);
    if High(a, i) < High(b, i) + more {
      ScaledGrows(High(a, i), High(b, i) + more, i);
      ScaledSum(High(b, i), more, i);
      ScaledSmall(i);
    }
    var high := High(a, i) - High(b, i) - more;
    ScaledSum(High(b, i), more, i);
    ScaledSum(High(b, i) + more, high, i);
    Parts(a - b, i, high, low);
  }

  // ---------- What is written of the difference ----------

  function NonZeroes(words: seq<nat>): seq<nat> {
    if words == [] then []
    else if words[0] == 0 then NonZeroes(words[1..])
    else [words[0]] + NonZeroes(words[1..])
  }

  // Zero words are kept at the low end, but lost behind a word that is not zero.
  function Kept(words: seq<nat>): seq<nat> {
    if words == [] then []
    else if words[0] == 0 then [0] + Kept(words[1..])
    else [words[0]] + NonZeroes(words[1..])
  }

  predicate AllZero(words: seq<nat>) {
    forall i :: 0 <= i < |words| ==> words[i] == 0
  }

  // No zero word between two others.
  predicate NoHole(words: seq<nat>) {
    forall i, j :: 0 <= i < j < |words| && words[i] != 0 ==> words[j] != 0
  }

  lemma {:induction false} NonZeroesSnoc(words: seq<nat>, x: nat)
    ensures NonZeroes(words + [x]) == NonZeroes(words) + (if x == 0 then [] else [x])
  {
    if words == [] {
      assert ([] + [x])[1..] == [];
    } else {
      NonZeroesSnoc(words[1..], x);
      assert (words + [x])[1..] == words[1..] + [x];
    }
  }

  lemma {:induction false} KeptSnoc(words: seq<nat>, x: nat)
    ensures Kept(words + [x]) == if x != 0 || AllZero(words) then Kept(words) + [x] else Kept(words)
  {
    if words == [] {
      assert ([] + [x])[1..] == [];
      assert words + [x] == [x];
    } else {
      assert (words + [x])[1..] == words[1..] + [x];
      assert words == [words[0]] + words[1..];
      if words[0] == 0 {
        KeptSnoc(words[1..], x);
        assert AllZero(words) <==> AllZero(words[1..]);
      } else {
        NonZeroesSnoc(words[1..], x);
      }
    }
  }

  lemma {:induction false} KeptZeroes(words: seq<nat>)
    requires AllZero(words)
    ensures Kept(words) == words && WordsValue(words) == 0
  {
    if words != [] {
      KeptZeroes(words[1..]);
    }
  }

  lemma {:induction false} KeptLast(words: seq<nat>)
    requires words != [] && words[|words| - 1] > 0
    ensures Kept(words) != [] && Kept(words)[|Kept(words)| - 1] == words[|words| - 1]
    ensures Fits64(words) ==> Fits64(Kept(words))
  {
    var init, x := words[..|words| - 1], words[|words| - 1];
    assert words == init + [x];
    KeptSnoc(init, x);
    if Fits64(words) {
      KeptFits(words);
    }
  }

  lemma {:induction false} KeptFits(words: seq<nat>)
    requires Fits64(words)
    ensures Fits64(Kept(words)) && Fits64(NonZeroes(words))
  {
    if words != [] {
      KeptFits(words[1..]);
    }
  }

  lemma {:induction false} ValuePositive(words: seq<nat>)
    requires words != [] && words[|words| - 1] > 0
    ensures WordsValue(words) > 0
  {
    if |words| > 1 {
      ValuePositive(words[1..]);
    }
  }

  predicate NoZero(words: seq<nat>) {
    forall i :: 0 <= i < |words| ==> words[i] != 0
  }

  lemma {:induction false} NonZeroesValue(words: seq<nat>)
    requires words == [] || words[|words| - 1] > 0
    ensures WordsValue(NonZeroes(words)) <= WordsValue(words)
    ensures WordsValue(NonZeroes(words)) == WordsValue(words) <==> NoZero(words)
  {
    if words != [] {
      NonZeroesValue(words[1..]);
      assert words == [words[0]] + words[1..];
      if words[0] == 0 {
        ValuePositive(words[1..]);
      } else {
        assert ([words[0]] + NonZeroes(words[1..]))[1..] == NonZeroes(words[1..]);
        assert NoZero(words) <==> NoZero(words[1..]);
      }
    }
  }

  // What is kept is the whole number exactly when there is no hole.
  lemma {:induction false} KeptValue(words: seq<nat>)
    requires words != [] && words[|words| - 1] > 0
    ensures WordsValue(Kept(words)) <= WordsValue(words)
    ensures WordsValue(Kept(words)) == WordsValue(words) <==> NoHole(words)
  {
    assert words == [words[0]] + words[1..];
    if words[0] == 0 {
      KeptValue(words[1..]);
      assert ([0] + Kept(words[1..]))[1..] == Kept(words[1..]);
      HoleBehindZero(words);
    } else {
      NonZeroesValue(words[1..]);
      assert ([words[0]] + NonZeroes(words[1..]))[1..] == NonZeroes(words[1..]);
      HoleBehindOther(words);
    }
  }

  lemma {:induction false} HoleBehindZero(words: seq<nat>)
    requires words != [] && words[0] == 0
    ensures NoHole(words) <==> NoHole(words[1..])
  {
    if NoHole(words[1..]) {
      forall i, j | 0 <= i < j < |words| && words[i] != 0
        ensures words[j] != 0
      {
        assert words[1..][i - 1] == words[i] && words[1..][j - 1] == words[j];
      }
    }
    if NoHole(words) {
      var rest := words[1..];
      forall i, j | 0 <= i < j < |rest| && rest[i] != 0
        ensures rest[j] != 0
      {
        assert rest[i] == words[i + 1] && rest[j] == words[j + 1];
      }
    }
  }

  lemma {:induction false} HoleBehindOther(words: seq<nat>)
    requires words != [] && words[0] != 0
    ensures NoHole(words) <==> NoZero(words[1..])
  {
    if NoZero(words[1..]) {
      forall i, j | 0 <= i < j < |words| && words[i] != 0
        ensures words[j] != 0
      {
        assert words[1..][j - 1] == words[j];
      }
    }
    if NoHole(words) {
      var rest := words[1..];
      forall j | 0 <= j < |rest|
        ensures rest[j] != 0
      {
        assert rest[j] == words[j + 1];
      }
    }
  }

  // What subtraction puts down.
  function DifferenceBytes(v: nat): bytes {
    if v == 0 then []
    else
      KeptLast(BaseWords(v));
      StoreWords(Kept(BaseWords(v)))
  }

  // A difference is stored right exactly when none of its words is lost and the top word fits.
  lemma {:induction false} DifferenceExact(v: nat)
    ensures StoredNumber(DifferenceBytes(v)) == v <==>
      v == 0 || (NoHole(BaseWords(v)) && !Misfit(BaseWords(v)[|BaseWords(v)| - 1] - 1))
  {
    hide BaseWords, Kept, NoHole, StoreWords, StoredNumber, Misfit, WordsValue;
    NumberOfNothing();
    if v > 0 {
      var words := BaseWords(v);
      KeptLast(words);
      KeptValue(words);
      BaseWordsValue(v);
      StoredWords(Kept(words));
    }
  }

  // ---------- The loop ----------

  // What the loop holds back: complete words ws, and w of the next one. A word that is not
  // zero is pending until another one follows; zero words at the low end are only counted.
  ghost predicate Held(ws: seq<nat>, w: nat, word: nat, pending: bool, zeroes: nat, out: bytes) {
    if w != 0 then word == w && !pending && zeroes == 0 && out == FullWords(Kept(ws))
    else if AllZero(ws) then word == 0 && !pending && zeroes == |ws| && out == []
    else
      var kept := Kept(ws);
      && pending && zeroes == 0 && word > 0
      && kept != [] && word == kept[|kept| - 1] && out == FullWords(kept[..|kept| - 1])
  }

  // A digit that is not zero makes the pending word, or the zero words, definite.
  lemma {:induction false} HeldDigit(ws: seq<nat>, w: nat, word: nat, pending: bool, zeroes: nat, out: bytes, add: nat)
    requires Held(ws, w, word, pending, zeroes, out) && add > 0
    ensures var out1 := if pending then out + LittleEndian(word, 8) else out;
      var out2 := if zeroes > 0 then out1 + NulBytes(zeroes * 8) else out1;
      Held(ws, w + add, if pending then add else word + add, false, 0, out2)
  {
    hide LittleEndian, Kept, FullWords, AllZero;
    if w == 0 {
      if AllZero(ws) {
        KeptZeroes(ws);
        ZeroesAre(ws);
        NulWords(|ws|);
        FullWordsOfNothing();
        assert [] + NulBytes(8 * |ws|) == NulBytes(8 * |ws|);
      } else {
        var kept := Kept(ws);
        assert kept == kept[..|kept| - 1] + [word];
        FullWordsSnoc(kept[..|kept| - 1], word);
      }
    }
  }

  lemma {:induction false} FullWordsOfNothing()
    ensures FullWords([]) == [] && Zeroes(0) == []
  {
  }

  lemma {:induction false} ZeroesAre(ws: seq<nat>)
    requires AllZero(ws)
    ensures ws == Zeroes(|ws|)
  {
  }

  // At the end of a word.
  lemma {:induction false} HeldWord(ws: seq<nat>, w: nat, word: nat, pending: bool, zeroes: nat, out: bytes)
    requires Held(ws, w, word, pending, zeroes, out)
    ensures Held(ws + [w], 0, word, pending || word != 0, if word != 0 then zeroes else zeroes + 1, out)
  {
    hide FullWords, Kept;
    KeptSnoc(ws, w);
    assert (ws + [w])[|ws|] == w;
    if w != 0 {
      assert (Kept(ws) + [w])[..|Kept(ws)|] == Kept(ws);
    } else if !AllZero(ws) {
      var i :| 0 <= i < |ws| && ws[i] != 0;
      assert (ws + [w])[i] != 0;
    }
  }

  ghost predicate Subtracting(a: nat, b: nat, i: nat, k: nat, m: nat, carry: nat, word: nat, pending: bool, zeroes: nat, out: bytes)
    requires b <= a
  {
    && i == 19 * k + m && m <= 18 && carry <= 1
    && Low(a, i) + Scaled(carry, i) == Low(a - b, i) + Low(b, i)
    && Held(LowWords(a - b, k), Partial(a - b, k, m), word, pending, zeroes, out)
  }

  lemma {:induction false} SubtractingStarts(a: nat, b: nat)
    requires b <= a
    ensures Subtracting(a, b, 0, 0, 0, 0, 0, false, 0, [])
  {
    CutBelow(a);
    CutBelow(b);
    CutBelow(a - b);
    CutBelow(High(a - b, 0));
    ScaledSmall(0);
    LowWordsSnoc(a - b, 0);
  }

  // Between the digit and the end of the word.
  ghost predicate ColumnDone(a: nat, b: nat, i: nat, k: nat, m: nat, carry: nat, word: nat, pending: bool, zeroes: nat, out: bytes)
    requires b <= a
  {
    && i == 19 * k + m && m < 19 && carry <= 1
    && Low(a, i + 1) + Scaled(carry, i + 1) == Low(a - b, i + 1) + Low(b, i + 1)
    && Held(LowWords(a - b, k), Partial(a - b, k, m + 1), word, pending, zeroes, out)
  }

  lemma {:induction false} ColumnSubtracted(a: nat, b: nat, i: nat, k: nat, m: nat, carry: nat,
                                            word: nat, pending: bool, zeroes: nat, out: bytes)
    requires b <= a && Subtracting(a, b, i, k, m, carry, word, pending, zeroes, out)
    ensures DigitOf(b, i) + carry <= 10 + DigitOf(a, i)
    ensures var x := 10 + DigitOf(a, i) - DigitOf(b, i) - carry;
      var more := if x < 10 then 1 else 0;
      var diff: nat := x - 10 * (1 - more);
      if diff == 0 then ColumnDone(a, b, i, k, m, more, word, pending, zeroes, out)
      else
        var out1 := if pending then out + LittleEndian(word, 8) else out;
        var out2 := if zeroes > 0 then out1 + NulBytes(zeroes * 8) else out1;
        ColumnDone(a, b, i, k, m, more, if pending then Scaled(diff, m) else word + Scaled(diff, m), false, 0, out2)
  {
    hide Pow10, High, Low, LittleEndian, Scaled, Held, Partial;
    SubtractColumn(a, b, i, carry);
    PartialGrows(a - b, k, m);
    var digit := DigitOf(a - b, i);
    if digit == 0 {
      ScaledSmall(m);
    } else {
      ScaledGrows(digit, digit, m);
      HeldDigit(LowWords(a - b, k), Partial(a - b, k, m), word, pending, zeroes, out, Scaled(digit, m));
    }
  }

  lemma {:induction false} ColumnGoesOn(a: nat, b: nat, i: nat, k: nat, m: nat, carry: nat,
                                        word: nat, pending: bool, zeroes: nat, out: bytes)
    requires b <= a && ColumnDone(a, b, i, k, m, carry, word, pending, zeroes, out)
    ensures m < 18 ==> Subtracting(a, b, i + 1, k, m + 1, carry, word, pending, zeroes, out)
    ensures m == 18 ==> Subtracting(a, b, i + 1, k + 1, 0, carry, word, pending || word != 0,
                                    if word != 0 then zeroes else zeroes + 1, out)
  {
    hide Pow10, High, Low, Scaled, Held;
    if m == 18 {
      HeldWord(LowWords(a - b, k), Partial(a - b, k, 19), word, pending, zeroes, out);
      LowWordsSnoc(a - b, k);
      PartialGrows(a - b, k + 1, 0);
    }
  }

  lemma {:induction false} LowWordsOfSmall(v: nat, k: nat)
    requires v > 0 && High(v, 19 * k) == 0
    ensures |BaseWords(v)| <= k && LowWords(v, k) == BaseWords(v) + Zeroes(k - |BaseWords(v)|)
  {
    hide High, Low;
    BaseIsPower(v);
    LowWordsCons(v, k);
    if v < BASE {
      LowWordsOfZero(k - 1);
      assert v / BASE == 0;
    } else {
      HighHigh(v, 19, 19 * k - 19);
      LowWordsOfSmall(v / BASE, k - 1);
    }
  }

  lemma {:induction false} LowWordsOfZero(k: nat)
    ensures LowWords(0, k) == Zeroes(k)
  {
    hide High, Low;
    forall i | 0 <= i < k
      ensures LowWords(0, k)[i] == 0
    {
      ZeroHigh(19 * i);
      ZeroHigh(19);
    }
  }

  lemma {:induction false} KeptBeforeZeroes(words: seq<nat>, n: nat)
    requires !AllZero(words)
    ensures Kept(words + Zeroes(n)) == Kept(words)
  {
    if n == 0 {
      assert words + Zeroes(0) == words;
    } else {
      KeptBeforeZeroes(words, n - 1);
      var longer := words + Zeroes(n - 1);
      assert words + Zeroes(n) == longer + [0];
      KeptSnoc(longer, 0);
      var i :| 0 <= i < |words| && words[i] != 0;
      assert longer[i] != 0;
    }
  }

  // When all digits are done, the word that is held back is the top word.
  lemma {:induction false} HeldAtEnd(v: nat, k: nat, w: nat, word: nat, pending: bool, zeroes: nat, out: bytes)
    requires Held(LowWords(v, k), w, word, pending, zeroes, out) && w == High(v, 19 * k) < BASE
    ensures if word == 0 then v == 0 && out == [] else
      v > 0 && DifferenceBytes(v) == out + LittleEndian(word - 1, FitUint64(word - 1))
  {
    hide LittleEndian, FitUint64, FullWords, Kept, High, BaseWords, LowWords;
    if w != 0 {
      var ws := LowWords(v, k);
      TopForm(v, k);
      ZeroHigh(19 * k);
      KeptSnoc(ws, w);
      assert (Kept(ws) + [w])[..|Kept(ws)|] == Kept(ws);
    } else if v == 0 {
      LowWordsOfZero(k);
    } else {
      LowWordsOfSmall(v, k);
      var words := BaseWords(v);
      assert words[|words| - 1] != 0;
      KeptBeforeZeroes(words, k - |words|);
      assert LowWords(v, k)[|words| - 1] == words[|words| - 1];
      KeptLast(words);
    }
  }

  // _bijson_subtract_digits when there is something to subtract.
  method SubtractNumerals(a: bytes, b: bytes) returns (out: bytes)
    requires Numeral(a) && Numeral(b) && a != [] && b != [] && NumberOf(a) >= NumberOf(b)
    ensures out == DifferenceBytes(NumberOf(a) - NumberOf(b))
  {
    hide Pow10, Subtracting, ColumnDone, LittleEndian, Partial, High, DigitOf, NumberOf, FitUint64, DifferenceBytes;
    hide Scaled, Weight;
    ghost var va, vb := NumberOf(a), NumberOf(b);
    ghost var k: nat, m: nat := 0, 0;
    var i: nat, magnitude: nat, carry: nat, word: nat := 0, 1, 0, 0;
    var pendingWord, pendingZeroes: nat := false, 0;
    out := [];
    SubtractingStarts(va, vb);
    PowersStart();
    while true
      invariant i < |a| && m <= 18 && i == 19 * k + m && carry <= 1
      invariant Subtracting(va, vb, i, k, m, carry, word, pendingWord, pendingZeroes, out) && magnitude == Pow10(m)
      decreases |a| - i
    {
      var aValue, bValue := PlaceValue(a, i), PlaceValue(b, i);
      PlaceIsDigit(a, i);
      PlaceIsDigit(b, i);
      ColumnSubtracted(va, vb, i, k, m, carry, word, pendingWord, pendingZeroes, out);
      var diff: nat := 10 + aValue - bValue - carry;
      carry := if diff < 10 then 1 else 0;
      if carry == 0 {
        diff := diff - 10;
      }
      if diff != 0 {
        WeightIs(diff, magnitude, m);
        if pendingWord {
          out := out + LittleEndian(word, 8);
          pendingWord := false;
          word := Weight(diff, magnitude);
        } else {
          word := word + Weight(diff, magnitude);
        }
        if pendingZeroes > 0 {
          out := out + NulBytes(pendingZeroes * 8);
          pendingZeroes := 0;
        }
      }
      if i + 1 == |a| {
        break;
      }
      ColumnGoesOn(va, vb, i, k, m, carry, word, pendingWord, pendingZeroes, out);
      magnitude := magnitude * 10;
      NextMagnitude(m + 1);
      i, m := i + 1, m + 1;
      if magnitude == BASE {
        if word != 0 {
          pendingWord := true;
        } else {
          pendingZeroes := pendingZeroes + 1;
        }
        magnitude := 1;
        k, m := k + 1, 0;
      }
    }
    LastColumn(a, b, k, m, carry, word, pendingWord, pendingZeroes, out);
    if word == 0 {
      DifferenceOfEquals();
      return;
    }
    word := word - 1;
    out := out + LittleEndian(word, FitUint64(word));
  }

  lemma {:induction false} DifferenceOfEquals()
    ensures DifferenceBytes(0) == []
  {
  }

  lemma {:induction false} LastColumn(a: bytes, b: bytes, k: nat, m: nat, carry: nat, word: nat, pending: bool, zeroes: nat, out: bytes)
    requires Numeral(a) && Numeral(b) && NumberOf(a) >= NumberOf(b)
    requires |a| == 19 * k + m + 1 && ColumnDone(NumberOf(a), NumberOf(b), 19 * k + m, k, m, carry, word, pending, zeroes, out)
    ensures var v := NumberOf(a) - NumberOf(b);
      if word == 0 then v == 0 && out == [] else
      v > 0 && DifferenceBytes(v) == out + LittleEndian(word - 1, FitUint64(word - 1))
  {
    hide Pow10, High, Low, LittleEndian, FitUint64, Held, NumberOf, DifferenceBytes, Scaled, BaseWords, LowWords;
    var v := NumberOf(a) - NumberOf(b);
    CharIsDigit(a, |a|);
    HighGrows(v, NumberOf(a), |a|);
    PartialEnds(v, k, m + 1);
    ScaledSmall(m + 1);
    HeldAtEnd(v, k, Partial(v, k, m + 1), word, pending, zeroes, out);
  }

  // _bijson_subtract_digits
  method SubtractDigits(a: bytes, b: bytes, counting: bool) returns (out: bytes, skipped: nat)
    requires Numeral(a) && Numeral(b) && CompareDigits(a, b) >= 0
    ensures NumberOf(a) >= NumberOf(b)
    ensures
      if a == [] then out == [] && skipped == 0
      else if b == [] then Shifted(a, counting, out, skipped)
      else out == DifferenceBytes(NumberOf(a) - NumberOf(b)) && skipped == 0
  {
    hide NumberOf, DifferenceBytes, CountedSize, ShiftedWords, StoreWords, Numeral, CompareDigits;
    CompareOrders(a, b);
    if a == [] {
      return [], 0;
    }
    if b == [] {
      NumeralSignificand(a);
      out, skipped := ShiftDigits(a, -1, 0, counting);
      return;
    }
    out := SubtractNumerals(a, b);
    skipped := 0;
  }
}
