// Numbers as they lie in the file (README.md, section "0x20..0x2F: decimal"): words of 19
// decimal digits, least significant first, the last one reduced by one and cut short.
module Words {
  import opened Arithmetic
  import opened Bytes
  import opened Digits

  const BASE: nat := 10_000_000_000_000_000_000

  // _bijson_fit_uint64
  function FitUint64(value: nat): (n: nat)
    ensures 1 <= n <= 8
  {
    if value > 0xFFFFFFFFF then
      if value > 0xFFFFFFFFFFFFF then
        if value > 0xFFFFFFFFFFFFFFF then 8 else 7
      else if value > 0xFFFFFFFFFF then 6 else 5
    else if value > 0xFFFF then
      if value > 0xFFFFFF then 4 else 3
    else if value > 0xFF then 2 else 1
  }

  // Three of its thresholds are half a byte too high, so these values do not fit the number
  // of bytes that it returns.
  predicate Misfit(value: int) {
    || 0x1_0000_0000 <= value < 0x10_0000_0000
    || 0x1_0000_0000_0000 <= value < 0x10_0000_0000_0000
    || 0x100_0000_0000_0000 <= value < 0x1000_0000_0000_0000
  }

  // Exactly the misfits are truncated when they are written.
  lemma {:induction false} FitHolds(value: nat)
    requires value <= SIZE_MAX
    ensures FromLittleEndian(LittleEndian(value, FitUint64(value))) == value <==> !Misfit(value)
  {
    LittleEndianHolds(value, FitUint64(value));
    Pow256All();
  }

  lemma {:induction false} Pow256All()
    ensures Pow256(1) == 0x100 && Pow256(2) == 0x1_0000 && Pow256(3) == 0x100_0000
    ensures Pow256(4) == 0x1_0000_0000 && Pow256(5) == 0x100_0000_0000
    ensures Pow256(6) == 0x1_0000_0000_0000 && Pow256(7) == 0x100_0000_0000_0000
    ensures Pow256(8) == SIZE_MAX + 1
  {
    assert Pow256(3) == 0x100_0000;
    assert Pow256(6) == 0x1_0000_0000_0000;
  }

  lemma {:induction false} FitGrows(a: nat, b: nat)
    requires a <= b
    ensures FitUint64(a) <= FitUint64(b)
  {
  }

  // The number that a mantissa or an exponent in the file stands for.
  function StoredNumber(b: bytes): nat {
    if b == [] then 0
    else if |b| <= 8 then FromLittleEndian(b) + 1
    else FromLittleEndian(b[..8]) + BASE * StoredNumber(b[8..])
  }

  function WordsValue(words: seq<nat>): nat {
    if words == [] then 0 else words[0] + BASE * WordsValue(words[1..])
  }

  predicate Fits64(words: seq<nat>) {
    forall i :: 0 <= i < |words| ==> words[i] <= SIZE_MAX
  }

  // All words but the last, in full.
  function FullWords(words: seq<nat>): (b: bytes)
    ensures |b| == 8 * |words|
  {
    if words == [] then [] else LittleEndian(words[0], 8) + FullWords(words[1..])
  }

  // What the writer puts down for a number: every word in full, the last one reduced by one.
  function StoreWords(words: seq<nat>): (b: bytes)
    requires words != [] && words[|words| - 1] > 0
    ensures 8 * |words| - 8 < |b| <= 8 * |words|
  {
    var top := words[|words| - 1] - 1;
    FullWords(words[..|words| - 1]) + LittleEndian(top, FitUint64(top))
  }

  lemma {:induction false} StoreWordsCons(words: seq<nat>)
    requires |words| > 1 && words[|words| - 1] > 0
    ensures StoreWords(words) == LittleEndian(words[0], 8) + StoreWords(words[1..])
  {
    assert words[..|words| - 1][1..] == words[1..][..|words| - 2];
  }

  // What is stored is never too large, and it is right exactly when the top word fits.
  lemma {:induction false} StoredWords(words: seq<nat>)
    requires words != [] && words[|words| - 1] > 0 && Fits64(words)
    ensures StoredNumber(StoreWords(words)) <= WordsValue(words)
    ensures StoredNumber(StoreWords(words)) == WordsValue(words) <==> !Misfit(words[|words| - 1] - 1)
  {
    hide LittleEndian, FromLittleEndian, Misfit, FitUint64;
    if |words| == 1 {
      var top := words[0] - 1;
      assert FullWords(words[..0]) == [];
      assert StoreWords(words) == LittleEndian(top, FitUint64(top));
      assert WordsValue(words[1..]) == 0;
      FitHolds(top);
      Truncation(top, FitUint64(top));
    } else {
      var b, rest := StoreWords(words), StoreWords(words[1..]);
      StoreWordsCons(words);
      StoredWords(words[1..]);
      assert b[..8] == LittleEndian(words[0], 8) && b[8..] == rest;
      Pow256All();
      LittleEndianHolds(words[0], 8);
    }
  }

  lemma {:induction false} Truncation(v: nat, n: nat)
    ensures FromLittleEndian(LittleEndian(v, n)) <= v
  {
    if n > 0 {
      Truncation(v / 256, n - 1);
      assert LittleEndian(v, n)[1..] == LittleEndian(v / 256, n - 1);
    }
  }

  lemma {:induction false} WordsValueSnoc(words: seq<nat>, word: nat)
    ensures WordsValue(words + [word]) == WordsValue(words) + Pow10(19 * |words|) * word
  {
    hide Pow10;
    if words == [] {
      assert ([] + [word])[1..] == [];
      PowZero();
    } else {
      WordsValueSnoc(words[1..], word);
      assert (words + [word])[1..] == words[1..] + [word];
      Pow10Small();
      Pow10Sum(19, 19 * |words| - 19);
      Associative(BASE, Pow10(19 * |words| - 19), word);
    }
  }

  lemma {:induction false} PowZero()
    ensures Pow10(0) == 1 && Pow10(1) == 10
  {
  }

  lemma {:induction false} Pow10Sum(a: nat, b: nat)
    ensures Pow10(a + b) == Pow10(a) * Pow10(b)
  {
    if a > 0 {
      Pow10Sum(a - 1, b);
      Associative(10, Pow10(a - 1), Pow10(b));
    }
  }

  lemma {:induction false} Pow10Grows(a: nat, b: nat)
    requires a <= b
    ensures Pow10(a) <= Pow10(b)
    ensures a < b ==> 10 * Pow10(a) <= Pow10(b)
  {
    if a < b {
      Pow10Grows(a, b - 1);
    }
  }
}
