// Packing digits into words (_bijson_shift_digits in lib/writer/decimal.c), and exactly when
// that stores the right number.
module Shifting {
  import opened Arithmetic
  import opened Bytes
  import opened Digits
  import opened Words

  // The digits of a significand: its characters without the decimal point, which lies at
  // position point, or outside.
  function Without(s: bytes, point: int): bytes {
    if 0 <= point < |s| then s[..point] + s[point + 1..] else s
  }

  // Digits with an optional point between them; the first digit is not zero.
  predicate Significand(s: bytes, point: int) {
    && s != [] && point != 0 && s[0] != ZERO
    && forall i :: 0 <= i < |s| && i != point ==> IsDigit(s[i])
  }

  lemma {:induction false} WithoutDigits(s: bytes, point: int)
    requires Significand(s, point)
    ensures var d := Without(s, point);
      && AllDigits(d) && d != [] && d[0] == s[0] && d[0] != ZERO
      && |d| == if 0 <= point < |s| then |s| - 1 else |s|
  {
  }

  // ---------- Packing ----------

  // Words that are complete, the current word, and the power of ten for its next digit.
  datatype Packing = Packing(words: seq<nat>, word: nat, exp: nat)

  // The digits are taken from the last to the first. When a word is complete the next one
  // starts with the digit at hand, but the power of ten goes back to 10^0, not to 10^1.
  function Pack(d: bytes, shift: nat): Packing
    requires AllDigits(d)
  {
    if d == [] then Packing([], 0, shift)
    else
      var p, value := Pack(d[1..], shift), d[0] - ZERO;
      if p.exp == 19 then Packing(p.words + [p.word], value, 0)
      else Packing(p.words, p.word + value * Pow10(p.exp), p.exp + 1)
  }

  function PackedWords(p: Packing): (words: seq<nat>)
    ensures words != []
  {
    p.words + [p.word]
  }

  // Every word after the first takes one digit too many.
  lemma {:induction false} PackShape(d: bytes, shift: nat)
    requires AllDigits(d) && shift < 19
    ensures var p := Pack(d, shift);
      && 20 * |p.words| + p.exp == |d| + shift && p.exp <= 19
      && p.word < Pow10(p.exp) + 9 && p.word <= SIZE_MAX && Fits64(p.words)
    ensures d != [] && d[0] != ZERO ==> Pack(d, shift).word > 0
  {
    hide Pow10;
    Pow10Small();
    PowZero();
    if d != [] {
      PackShape(d[1..], shift);
      var p, value := Pack(d[1..], shift), d[0] - ZERO;
      if p.exp < 19 {
        NextPower(p.exp, value);
      }
      Pow10Grows(Pack(d, shift).exp, 19);
    }
  }

  lemma {:induction false} NextPower(e: nat, value: nat)
    requires value < 10
    ensures Pow10(e) + value * Pow10(e) <= Pow10(e + 1)
    ensures value > 0 ==> value * Pow10(e) > 0
  {
    Multiples(Pow10(e), value + 1, 10);
  }

  lemma {:induction false} NumberCons(d: bytes)
    requires AllDigits(d) && d != []
    ensures NumberOf(d) == (d[0] - ZERO) * Pow10(|d| - 1) + NumberOf(d[1..])
  {
    if |d| == 1 {
      assert d[..0] == [] && d[1..] == [];
    } else {
      var init := d[..|d| - 1];
      NumberCons(init);
      assert init[1..] == d[1..][..|d| - 2];
      Associative(10, d[0] - ZERO, Pow10(|d| - 2));
      Commute(10, d[0] - ZERO, Pow10(|d| - 2));
    }
  }

  lemma {:induction false} Commute(a: nat, b: nat, c: nat)
    ensures a * (b * c) == b * (a * c)
  {
  }

  // What one more digit adds to the value that is packed, and to the true value.
  lemma {:induction false} PackStep(d: bytes, shift: nat)
    requires AllDigits(d) && d != [] && shift < 19
    ensures var p, value := Pack(d[1..], shift), d[0] - ZERO;
      && WordsValue(PackedWords(Pack(d, shift)))
         == WordsValue(PackedWords(p)) + value * Pow10(19 * |p.words| + p.exp)
      && NumberOf(d) * Pow10(shift) == NumberOf(d[1..]) * Pow10(shift) + value * Pow10(20 * |p.words| + p.exp)
      && (|p.words| == 0 <==> |d| + shift <= 20)
  {
    hide Pow10, NumberOf, WordsValue, PackedWords;
    var p, value := Pack(d[1..], shift), d[0] - ZERO;
    PackShape(d[1..], shift);
    TrueStep(d, shift);
    AddedDigit(p.words, p.word, value, p.exp);
  }

  lemma {:induction false} TrueStep(d: bytes, shift: nat)
    requires AllDigits(d) && d != []
    ensures NumberOf(d) * Pow10(shift) == NumberOf(d[1..]) * Pow10(shift) + (d[0] - ZERO) * Pow10(|d| - 1 + shift)
  {
    hide Pow10, NumberOf;
    NumberCons(d);
    Pow10Sum(|d| - 1, shift);
    Spread(d[0] - ZERO, Pow10(|d| - 1), NumberOf(d[1..]), Pow10(shift));
  }

  lemma {:induction false} AddedDigit(words: seq<nat>, word: nat, value: nat, e: nat)
    ensures WordsValue(words + [word + value * Pow10(e)])
         == WordsValue(words + [word]) + value * Pow10(19 * |words| + e)
    ensures e == 19 ==> WordsValue(words + [word] + [value]) == WordsValue(words + [word]) + value * Pow10(19 * |words| + e)
    ensures e == 19 ==> PackedWords(Packing(words + [word], value, 0)) == words + [word] + [value]
    ensures PackedWords(Packing(words, word, e)) == words + [word]
    ensures PackedWords(Packing(words, word + value * Pow10(e), e + 1)) == words + [word + value * Pow10(e)]
  {
    hide Pow10, WordsValue;
    WordsValueSnoc(words, word);
    WordsValueSnoc(words, word + value * Pow10(e));
    Pow10Sum(19 * |words|, e);
    Collect(Pow10(19 * |words|), word, value, Pow10(e));
    if e == 19 {
      WordsValueSnoc(words + [word], value);
      assert 19 * (|words| + 1) == 19 * |words| + e;
    }
  }

  lemma {:induction false} Spread(v: nat, a: nat, n: nat, b: nat)
    ensures (v * a + n) * b == n * b + v * (a * b)
  {
  }

  lemma {:induction false} Collect(a: nat, w: nat, v: nat, b: nat)
    ensures a * (w + v * b) == a * w + v * (a * b)
  {
  }

  // The packed value is never too large, and it is right exactly up to twenty digits,
  // counting the shift.
  lemma {:induction false} PackedValue(d: bytes, shift: nat)
    requires AllDigits(d) && shift < 19
    ensures WordsValue(PackedWords(Pack(d, shift))) <= NumberOf(d) * Pow10(shift)
    ensures d != [] && d[0] != ZERO ==>
      (WordsValue(PackedWords(Pack(d, shift))) == NumberOf(d) * Pow10(shift) <==> |d| + shift <= 20)
    ensures |d| + shift <= 20 ==> WordsValue(PackedWords(Pack(d, shift))) == NumberOf(d) * Pow10(shift)
  {
    hide Pow10;
    if d == [] {
      assert PackedWords(Pack(d, shift)) == [0];
      assert [0][1..] == [];
    } else {
      var k, e := |Pack(d[1..], shift).words|, Pack(d[1..], shift).exp;
      PackedValue(d[1..], shift);
      PackStep(d, shift);
      Pow10Grows(19 * k + e, 20 * k + e);
      Scale(d[0] - ZERO, Pow10(19 * k + e), Pow10(20 * k + e));
    }
  }

  lemma {:induction false} Scale(v: nat, a: nat, b: nat)
    requires a <= b
    ensures v * a <= v * b
    ensures v > 0 && a < b ==> v * a < v * b
    ensures a == b ==> v * a == v * b
  {
  }

  // ---------- The whole function ----------

  function Zeroes(n: nat): (words: seq<nat>)
    ensures |words| == n && forall i :: 0 <= i < n ==> words[i] == 0
  {
    seq(n, i => 0)
  }

  // The words for the digits d shifted by any number of places.
  function ShiftedWords(d: bytes, shift: nat): (words: seq<nat>)
    requires AllDigits(d)
    ensures words != []
  {
    Zeroes(shift / 19) + PackedWords(Pack(d, shift % 19))
  }

  lemma {:induction false} ZeroesValue(n: nat, words: seq<nat>)
    ensures WordsValue(Zeroes(n) + words) == Pow10(19 * n) * WordsValue(words)
  {
    hide Pow10;
    if n == 0 {
      PowZero();
      assert Zeroes(0) + words == words;
    } else {
      ZeroesValue(n - 1, words);
      assert (Zeroes(n) + words)[1..] == Zeroes(n - 1) + words;
      Pow10Small();
      Pow10Sum(19, 19 * n - 19);
      Associative(BASE, Pow10(19 * n - 19), WordsValue(words));
    }
  }

  lemma {:induction false} ShiftedShape(d: bytes, shift: nat)
    requires AllDigits(d) && d != [] && d[0] != ZERO
    ensures var words := ShiftedWords(d, shift);
      && words[|words| - 1] == Pack(d, shift % 19).word > 0 && Fits64(words)
  {
    PackShape(d, shift % 19);
  }

  // What is stored for d digits shifted is their true value exactly when at most twenty digits
  // are packed and the word for them, less one, is not among the misfits. With twenty digits
  // the top word is a single digit, which always fits.
  lemma {:induction false} ShiftExact(d: bytes, shift: nat)
    requires AllDigits(d) && d != [] && d[0] != ZERO
    ensures var words, k := ShiftedWords(d, shift), shift % 19;
      && words[|words| - 1] > 0
      && StoredNumber(StoreWords(words)) <= NumberOf(d) * Pow10(shift)
      && (StoredNumber(StoreWords(words)) == NumberOf(d) * Pow10(shift) <==>
            |d| + k == 20 || (|d| + k < 20 && !Misfit(NumberOf(d) * Pow10(k) - 1)))
  {
    hide Pow10, StoredNumber, StoreWords, WordsValue, Pack, NumberOf, Misfit;
    var words, k, p := ShiftedWords(d, shift), shift % 19, Pack(d, shift % 19);
    ShiftedShape(d, shift);
    StoredWords(words);
    PackedValue(d, k);
    ZeroesValue(shift / 19, PackedWords(p));
    Scale(Pow10(19 * (shift / 19)), WordsValue(PackedWords(p)), NumberOf(d) * Pow10(k));
    Pow10Sum(19 * (shift / 19), k);
    Commute(Pow10(19 * (shift / 19)), NumberOf(d), Pow10(k));
    assert 19 * (shift / 19) + k == shift;
    if |d| + k <= 20 {
      TopWord(d, k);
    }
  }

  lemma {:induction false} TopWord(d: bytes, shift: nat)
    requires AllDigits(d) && d != [] && d[0] != ZERO && shift < 19 && |d| + shift <= 20
    ensures |d| + shift == 20 ==> 0 < Pack(d, shift).word <= 9 && !Misfit(Pack(d, shift).word - 1)
    ensures |d| + shift < 20 ==> Pack(d, shift).word == NumberOf(d) * Pow10(shift)
  {
    hide Pow10, NumberOf;
    PackShape(d, shift);
    PackShape(d[1..], shift);
    PackedValue(d, shift);
    if |d| + shift < 20 {
      assert PackedWords(Pack(d, shift)) == [Pack(d, shift).word];
      assert [Pack(d, shift).word][1..] == [];
    }
  }

  // _bijson_io_write_nul_bytes
  function NulBytes(n: nat): (b: bytes)
    ensures |b| == n
  {
    seq(n, i => 0)
  }

  lemma {:induction false} NulWords(n: nat)
    ensures FullWords(Zeroes(n)) == NulBytes(8 * n)
  {
    if n > 0 {
      NulWords(n - 1);
      assert Zeroes(n)[1..] == Zeroes(n - 1);
      ZeroBytes(8);
      assert NulBytes(8 * n) == NulBytes(8) + NulBytes(8 * (n - 1));
    }
  }

  lemma {:induction false} ZeroBytes(n: nat)
    ensures LittleEndian(0, n) == NulBytes(n)
  {
    if n > 0 {
      ZeroBytes(n - 1);
      assert NulBytes(n) == [0] + NulBytes(n - 1);
    }
  }

  lemma {:induction false} FullWordsSnoc(words: seq<nat>, word: nat)
    ensures FullWords(words + [word]) == FullWords(words) + LittleEndian(word, 8)
  {
    hide LittleEndian;
    if words == [] {
      assert ([] + [word])[1..] == [];
    } else {
      FullWordsSnoc(words[1..], word);
      assert (words + [word])[1..] == words[1..] + [word];
    }
  }

  lemma {:induction false} FullWordsSplit(a: seq<nat>, b: seq<nat>)
    ensures FullWords(a + b) == FullWords(a) + FullWords(b)
  {
    hide LittleEndian;
    if a == [] {
      assert a + b == b;
    } else {
      FullWordsSplit(a[1..], b);
      assert (a + b)[1..] == a[1..] + b;
    }
  }

  lemma {:induction false} WithoutStep(t: bytes, point: int, i: nat)
    requires i < |t|
    ensures Without(t[i..], point - i) ==
      if i == point then Without(t[i + 1..], point - (i + 1)) else [t[i]] + Without(t[i + 1..], point - (i + 1))
    ensures Without(t[|t|..], point - |t|) == []
  {
  }

  // The number of bytes that the counting callback arrives at: for every nineteen characters
  // it assumes a whole word, and only the rest is packed. Without a rest the word is zero, and
  // reducing it by one wraps around.
  function CountedSize(s: bytes, point: int, shift: nat): nat
    requires Significand(s, point)
  {
    var rest := Rest(s, point);
    8 * (|s| / 19) + if rest == [] then 8 * (shift / 19) + 8 else PackedSize(rest, shift)
  }

  function Rest(s: bytes, point: int): (d: bytes)
    requires Significand(s, point)
    ensures AllDigits(d) && (d != [] ==> d[0] != ZERO) && (d == [] <==> |s| % 19 == 0)
  {
    Without(s[..|s| % 19], point)
  }

  function PackedSize(d: bytes, shift: nat): nat
    requires AllDigits(d) && d != [] && d[0] != ZERO
  {
    ShiftedShape(d, shift);
    |StoreWords(ShiftedWords(d, shift))|
  }

  lemma {:induction false} StoredForm(d: bytes, shift: nat)
    requires AllDigits(d) && d != [] && d[0] != ZERO
    ensures var words, p := ShiftedWords(d, shift), Pack(d, shift % 19);
      && words[|words| - 1] > 0 && p.word > 0
      && StoreWords(words) == NulBytes(8 * (shift / 19)) + FullWords(p.words) + LittleEndian(p.word - 1, FitUint64(p.word - 1))
  {
    hide FullWords, Pack, LittleEndian, FitUint64;
    var p := Pack(d, shift % 19);
    ShiftedShape(d, shift);
    var words := ShiftedWords(d, shift);
    assert words[..|words| - 1] == Zeroes(shift / 19) + p.words;
    FullWordsSplit(Zeroes(shift / 19), p.words);
    NulWords(shift / 19);
  }

  // _bijson_shift_digits. When counting, the bytes only matter by their number.
  method ShiftDigits(s: bytes, point: int, shift0: nat, counting: bool) returns (out: bytes, skipped: nat)
    requires s == [] || Significand(s, point)
    ensures s == [] ==> out == [] && skipped == 0
    ensures s != [] && !counting ==>
      && AllDigits(Without(s, point)) && ShiftedWords(Without(s, point), shift0)[|ShiftedWords(Without(s, point), shift0)| - 1] > 0
      && skipped == 0 && out == StoreWords(ShiftedWords(Without(s, point), shift0))
    ensures s != [] && counting ==> skipped + |out| == CountedSize(s, point, shift0)
  {
    hide Pow10, Pack, Without, FullWords, LittleEndian, FitUint64, ShiftedWords;
    out, skipped := [], 0;
    if s == [] {
      return;
    }
    Pow10Small();
    var bigShift := shift0 / 19;
    out := NulBytes(bigShift * 8);
    var shift := shift0 - bigShift * 19;
    var magnitude := Pow10(shift);
    var len := |s|;
    if counting {
      var skip := len / 19;
      skipped := skip * 8;
      len := len - skip * 19;
    }
    ghost var t := s[..len];
    ghost var p := Packing([], 0, shift);
    var i, word := len, 0;
    PackNothing(t, point, shift);
    while i > 0
      invariant 0 <= i <= len
      invariant AllDigits(Without(t[i..], point - i)) && p == Pack(Without(t[i..], point - i), shift)
      invariant word == p.word && magnitude == Pow10(p.exp)
      invariant out == NulBytes(bigShift * 8) + FullWords(p.words)
    {
      i := i - 1;
      WithoutStep(t, point, i);
      if i == point {
        continue;
      }
      var value := s[i] - ZERO;
      ghost var d := Without(t[i..], point - i);
      PackDigit(d, shift);
      if magnitude == BASE {
        out := out + LittleEndian(word, 8);
        FullWordsSnoc(p.words, word);
        word := value;
        magnitude := 1;
      } else {
        assert word + value * magnitude <= SIZE_MAX && magnitude * 10 <= BASE;
        word := word + value * magnitude;
        magnitude := magnitude * 10;
      }
      p := Pack(d, shift);
    }
    assert t[0..] == t;
    var top := if word == 0 then SIZE_MAX else word - 1; // unsigned arithmetic wraps around
    out := out + LittleEndian(top, FitUint64(top));
    Finished(s, point, shift0, t, p, top);
  }

  lemma {:induction false} PackNothing(t: bytes, point: int, shift: nat)
    ensures Without(t[|t|..], point - |t|) == [] && Pack([], shift) == Packing([], 0, shift)
    ensures FullWords([]) == []
  {
  }

  // One round of the loop, without any overflow of 64 bits.
  lemma {:induction false} PackDigit(d: bytes, shift: nat)
    requires AllDigits(d) && d != [] && shift < 19
    ensures var p, value := Pack(d[1..], shift), d[0] - ZERO;
      && (Pow10(p.exp) == BASE <==> p.exp == 19)
      && (p.exp == 19 ==> Pack(d, shift) == Packing(p.words + [p.word], value, 0))
      && (p.exp != 19 ==>
            && p.word + value * Pow10(p.exp) <= SIZE_MAX && Pow10(p.exp + 1) == Pow10(p.exp) * 10 <= BASE
            && Pack(d, shift) == Packing(p.words, p.word + value * Pow10(p.exp), p.exp + 1))
    ensures Pow10(0) == 1
  {
    Pow10Small();
    PowZero();
    PackShape(d, shift);
    PackShape(d[1..], shift);
    Pow10Grows(Pack(d[1..], shift).exp, 19);
    hide Pow10;
  }

  lemma {:induction false} Finished(s: bytes, point: int, shift0: nat, t: bytes, p: Packing, top: nat)
    requires Significand(s, point)
    requires t == s || t == s[..|s| % 19]
    requires AllDigits(Without(t, point)) && p == Pack(Without(t, point), shift0 % 19)
    requires top == if p.word == 0 then SIZE_MAX else p.word - 1
    ensures var out := NulBytes(8 * (shift0 / 19)) + FullWords(p.words) + LittleEndian(top, FitUint64(top));
      && (t == s ==>
            && AllDigits(Without(s, point))
            && ShiftedWords(Without(s, point), shift0)[|ShiftedWords(Without(s, point), shift0)| - 1] > 0
            && out == StoreWords(ShiftedWords(Without(s, point), shift0)))
      && (t == s[..|s| % 19] ==> 8 * (|s| / 19) + |out| == CountedSize(s, point, shift0))
  {
    hide Pack, Without, FullWords, LittleEndian, FitUint64, ShiftedWords, StoreWords;
    if t == s {
      WithoutDigits(s, point);
      StoredForm(Without(s, point), shift0);
    }
    if t == s[..|s| % 19] {
      if Rest(s, point) == [] {
        PackNothing(t, point, shift0 % 19);
        FitTop();
      } else {
        StoredForm(Rest(s, point), shift0);
      }
    }
  }

  lemma {:induction false} FitTop()
    ensures FitUint64(SIZE_MAX) == 8
  {
  }

  // ---------- When the counted size is the real one ----------

  lemma {:induction false} PackedSizeIs(d: bytes, shift: nat)
    requires AllDigits(d) && d != [] && d[0] != ZERO
    ensures var p := Pack(d, shift % 19);
      && p.word > 0 && 20 * |p.words| + p.exp == |d| + shift % 19 && p.exp <= 19
      && PackedSize(d, shift) == 8 * (shift / 19) + 8 * |p.words| + FitUint64(p.word - 1)
  {
    hide Pack, FullWords, FitUint64, LittleEndian, StoreWords, ShiftedWords;
    PackShape(d, shift % 19);
    StoredForm(d, shift);
  }

  // Up to twenty digits, counting the shift, make at most one full word and one more byte.
  lemma {:induction false} SmallSize(d: bytes, shift: nat)
    requires AllDigits(d) && d != [] && d[0] != ZERO && |d| + shift % 19 <= 20
    ensures |d| + shift % 19 == 20 ==> PackedSize(d, shift) == 8 * (shift / 19) + 9
    ensures |d| + shift % 19 < 20 ==> 8 * (shift / 19) < PackedSize(d, shift) <= 8 * (shift / 19) + 8
    ensures |d| + shift % 19 <= 2 ==> PackedSize(d, shift) == 8 * (shift / 19) + 1
  {
    hide Pack, PackedSize, NumberOf;
    PackedSizeIs(d, shift);
    TopWord(d, shift % 19);
    if |d| + shift % 19 <= 2 {
      TwoDigits(d, shift % 19);
    }
  }

  lemma {:induction false} TwoDigits(d: bytes, shift: nat)
    requires AllDigits(d) && d != [] && |d| + shift <= 2
    ensures NumberOf(d) * Pow10(shift) <= 99
  {
    PowZero();
    var first := d[..1];
    assert first[..0] == [] && NumberOf(first) == first[0] - ZERO <= 9;
    if |d| == 2 {
      assert NumberOf(d) == 10 * NumberOf(first) + (d[1] - ZERO);
    } else {
      assert d == first;
    }
  }

  lemma {:induction false} RestOf(s: bytes, point: int)
    requires Significand(s, point)
    ensures |s| < 19 ==> Rest(s, point) == Without(s, point)
    ensures |s| == 20 ==> |Rest(s, point)| == 1
    ensures |s| == 21 ==> 1 <= |Rest(s, point)| <= 2
  {
    if |s| < 19 {
      assert s[..|s|] == s;
    }
  }

  // The mantissa of a decimal is stored as the right number and in as many bytes as were
  // counted beforehand exactly in these cases: twenty digits, counting the shift, that are
  // not written with nineteen characters; or fewer than nineteen characters whose word, less
  // one, is none of the misfits.
  lemma {:induction false} ShiftStoredAndCounted(s: bytes, point: int, shift: nat)
    requires Significand(s, point)
    ensures var d, k := Without(s, point), shift % 19;
      && AllDigits(d) && d != [] && d[0] != ZERO
      && var words := ShiftedWords(d, shift);
      && words[|words| - 1] > 0
      && (StoredNumber(StoreWords(words)) == NumberOf(d) * Pow10(shift) && |StoreWords(words)| == CountedSize(s, point, shift)
          <==>
            || (|d| + k == 20 && |s| != 19)
            || (|d| + k < 20 && |s| < 19 && !Misfit(NumberOf(d) * Pow10(k) - 1)))
  {
    hide Pow10, NumberOf, StoredNumber, Misfit, Without;
    var d, k := Without(s, point), shift % 19;
    WithoutDigits(s, point);
    ShiftExact(d, shift);
    RestOf(s, point);
    hide ShiftedWords, StoreWords, Rest;
    if 19 <= |s| && |d| + k <= 20 {
      SmallSize(d, shift);
      if |s| > 19 {
        SmallSize(Rest(s, point), shift);
      }
    }
  }

  // The count is wrong for every significand of 19, 38, 57, ... digits that is not shifted.
  lemma {:induction false} MultiplesOfNineteenMiscounted(s: bytes)
    requires Significand(s, -1) && |s| % 19 == 0
    ensures PackedSize(s, 0) < CountedSize(s, -1, 0)
  {
    hide Pack, PackedSize;
    PackedSizeIs(s, 0);
  }
}
