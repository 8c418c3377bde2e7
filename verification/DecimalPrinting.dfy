// From the digits that the writer packs (lib/writer/decimal.c:34-75) to the digits that the
// reader prints (lib/reader/decimal.c:232-265). The writer takes twenty digits for every word
// after the first, and the reader prints twenty, so that the errors of both almost make up for
// each other.
module DecimalPrinting {
  import opened Wrappers
  import opened Arithmetic
  import opened Bytes
  import opened Digits
  import opened Words
  import opened DecimalText
  import opened Shifting
  import opened Sums

  // What is printed for these words.
  function PrintedWords(words: seq<nat>): nat {
    if words == [] then 0 else words[0] + Pow10(20) * PrintedWords(words[1..])
  }

  lemma {:induction false} PrintedSnoc(words: seq<nat>, word: nat)
    ensures PrintedWords(words + [word]) == PrintedWords(words) + Pow10(20 * |words|) * word
  {
    hide Pow10;
    if words == [] {
      assert ([] + [word])[1..] == [];
      PowZero();
    } else {
      PrintedSnoc(words[1..], word);
      assert (words + [word])[1..] == words[1..] + [word];
      Pow10Sum(20, 20 * |words| - 20);
      Associative(Pow10(20), Pow10(20 * |words| - 20), word);
    }
  }

  // The top word as it is read back.
  function StoredTop(top: nat): (t: nat)
    requires top > 0
  {
    FromLittleEndian(LittleEndian(top - 1, FitUint64(top - 1))) + 1
  }

  lemma {:induction false} StoredTopIs(top: nat)
    requires 0 < top <= SIZE_MAX
    ensures StoredTop(top) == top <==> !Misfit(top - 1)
    ensures StoredTop(top) == top || StoredTop(top) + 256 <= top
  {
    hide LittleEndian, FromLittleEndian, Misfit, FitUint64;
    FitHolds(top - 1);
    TruncationGap(top - 1, FitUint64(top - 1));
  }

  predicate Printable(words: seq<nat>) {
    forall i :: 0 <= i < |words| ==> words[i] < BASE
  }

  lemma {:induction false} StoredPrints(low: seq<nat>, top: nat)
    requires 0 < top <= SIZE_MAX && Fits64(low)
    ensures (low + [top])[|low + [top]| - 1] == top
    ensures var r := PartText(StoreWords(low + [top]));
      && (r.Ok? <==> Printable(low) && StoredTop(top) < BASE)
      && (r.Ok? ==> NumberOf(r.value) == PrintedWords(low + [StoredTop(top)]))
  {
    hide LittleEndian, FromLittleEndian, FitUint64, NumberOf, Pow10, Raw, Padded;
    var words := low + [top];
    if low == [] {
      assert words == [top];
      assert StoreWords(words) == LittleEndian(top - 1, FitUint64(top - 1)) by {
        assert FullWords(words[..0]) == [];
      }
      assert ([] + [StoredTop(top)])[1..] == [];
    } else {
      StoredPrints(low[1..], top);
      assert words[1..] == low[1..] + [top];
      StoreWordsCons(words);
      var b, rest := StoreWords(words), StoreWords(low[1..] + [top]);
      assert b[..8] == LittleEndian(low[0], 8) && b[8..] == rest;
      Pow256Values();
      Pow10Small();
      LittleEndianHolds(low[0], 8);
      assert (low + [StoredTop(top)])[1..] == low[1..] + [StoredTop(top)];
      assert Printable(low) <==> low[0] < BASE && Printable(low[1..]);
      if PartText(b).Ok? {
        NumberOfPadded(PartText(rest).value, low[0], 20);
      }
    }
  }

  // ---------- The excess ----------

  // The digits that are packed at a tenth of their weight, as the last ones of their words.
  predicate TwentiethsZero(d: bytes, k: nat)
    requires AllDigits(d)
  {
    forall i :: 0 <= i < |d| && (|d| - 1 - i + k) % 20 == 19 ==> d[i] == ZERO
  }

  // By how much the printed number is too large.
  function Excess(d: bytes, k: nat): nat
    requires AllDigits(d)
  {
    if d == [] then 0
    else Excess(d[1..], k) + if (|d| - 1 + k) % 20 == 19 then 9 * Scaled(d[0] - ZERO, |d| - 1 + k) else 0
  }

  lemma {:induction false} ExcessMeans(d: bytes, k: nat)
    requires AllDigits(d)
    ensures Excess(d, k) == 0 <==> TwentiethsZero(d, k)
  {
    hide Pow10, Scaled;
    if d != [] {
      ExcessMeans(d[1..], k);
      ScaledIs(d[0] - ZERO, |d| - 1 + k);
      NotZero(d[0] - ZERO, Pow10(|d| - 1 + k));
      if TwentiethsZero(d, k) {
        forall i | 0 <= i < |d[1..]| && (|d[1..]| - 1 - i + k) % 20 == 19
          ensures d[1..][i] == ZERO
        {
          assert d[i + 1] == ZERO;
        }
      } else if Excess(d, k) == 0 {
        forall i | 0 <= i < |d| && (|d| - 1 - i + k) % 20 == 19
          ensures d[i] == ZERO
        {
          if i > 0 {
            assert d[1..][i - 1] == ZERO;
          }
        }
      }
    }
  }

  lemma {:induction false} NotZero(a: nat, b: nat)
    requires b > 0
    ensures a * b == 0 <==> a == 0
  {
  }

  lemma {:induction false} ExcessSmall(d: bytes, k: nat)
    requires AllDigits(d) && k < 19
    ensures Excess(d, k) <= 10 * Pow10(20 * |Pack(d, k).words|)
  {
    hide Pow10, Scaled;
    if d != [] {
      ExcessSmall(d[1..], k);
      PackShape(d[1..], k);
      var p := Pack(d[1..], k);
      if p.exp == 19 {
        NextExcess(Excess(d[1..], k), d[0] - ZERO, 20 * |p.words|);
      }
    }
  }

  lemma {:induction false} NextExcess(excess: nat, value: nat, n: nat)
    requires value < 10 && excess <= 10 * Pow10(n)
    ensures excess + 9 * Scaled(value, n + 19) <= 10 * Pow10(n + 20)
  {
    hide Pow10, Scaled;
    TenthOfNext(n);
    Pow10Grows(n, n + 19);
    ScaledIs(value, n + 19);
    Multiples(Pow10(n + 19), value, 9);
  }

  lemma {:induction false} TenthOfNext(n: nat)
    ensures Pow10(n + 20) == 10 * Pow10(n + 19)
  {
    hide Pow10;
    NextOfTen(n + 19);
  }

  lemma {:induction false} NextOfTen(n: nat)
    ensures Pow10(n + 1) == 10 * Pow10(n)
  {
  }

  lemma {:induction false} PackedPrints(d: bytes, k: nat)
    requires AllDigits(d) && k < 19
    ensures PrintedWords(PackedWords(Pack(d, k))) == Scaled(NumberOf(d), k) + Excess(d, k)
  {
    hide Pow10, NumberOf, PrintedWords, Scaled, Pack;
    if d == [] {
      NothingPrinted(k);
    } else {
      PackedPrints(d[1..], k);
      PackShape(d[1..], k);
      PackNext(d, k);
      var q, value := Pack(d[1..], k), d[0] - ZERO;
      if q.exp == 19 {
        PrintedNewWord(q.words, q.word, value);
      } else {
        PrintedSameWord(q.words, q.word, value, q.exp);
      }
    }
  }

  lemma {:induction false} PackNext(d: bytes, k: nat)
    requires AllDigits(d) && d != []
    ensures var p, q, value := Pack(d, k), Pack(d[1..], k), d[0] - ZERO;
      && (if q.exp == 19 then p == Packing(q.words + [q.word], value, 0)
          else p == Packing(q.words, q.word + Scaled(value, q.exp), q.exp + 1))
      && Scaled(NumberOf(d), k) == Scaled(NumberOf(d[1..]), k) + Scaled(value, |d| - 1 + k)
  {
    hide Pow10, NumberOf, Scaled;
    var q, value := Pack(d[1..], k), d[0] - ZERO;
    TrueStep(d, k);
    ScaledIs(value, q.exp);
    ScaledIs(value, |d| - 1 + k);
    ScaledIs(NumberOf(d), k);
    ScaledIs(NumberOf(d[1..]), k);
  }

  lemma {:induction false} PrintedNewWord(words: seq<nat>, word: nat, value: nat)
    ensures PrintedWords(words + [word] + [value])
         == PrintedWords(words + [word]) + 10 * Scaled(value, 20 * |words| + 19)
  {
    hide Pow10, PrintedWords, Scaled;
    PrintedSnoc(words + [word], value);
    TenthOfNext(20 * |words|);
    ScaledIs(value, 20 * |words| + 19);
    Associative(10, Pow10(20 * |words| + 19), value);
  }

  lemma {:induction false} PrintedSameWord(words: seq<nat>, word: nat, value: nat, e: nat)
    ensures PrintedWords(words + [word + Scaled(value, e)])
         == PrintedWords(words + [word]) + Scaled(value, 20 * |words| + e)
  {
    hide Pow10, PrintedWords, Scaled;
    PrintedSnoc(words, word);
    PrintedSnoc(words, word + Scaled(value, e));
    ScaledIs(value, e);
    ScaledIs(value, 20 * |words| + e);
    Pow10Sum(20 * |words|, e);
    Collect(Pow10(20 * |words|), word, value, Pow10(e));
  }

  lemma {:induction false} NothingPrinted(k: nat)
    ensures PrintedWords(PackedWords(Pack([], k))) == 0 == Scaled(NumberOf([]), k)
  {
    assert PackedWords(Pack([], k)) == [0];
    assert [0][1..] == [];
  }

  // Without such digits all words are below 10^19, as the reader asks for.
  lemma {:induction false} TwentiethsPrintable(d: bytes, k: nat)
    requires AllDigits(d) && k < 19 && TwentiethsZero(d, k)
    ensures var p := Pack(d, k); Printable(p.words) && p.word < Pow10(p.exp)
  {
    hide Pow10;
    PowZero();
    Pow10Small();
    if d == [] {
      Pow10Grows(0, k);
    } else {
      assert TwentiethsZero(d[1..], k) by {
        ExcessMeans(d, k);
        ExcessMeans(d[1..], k);
      }
      TwentiethsPrintable(d[1..], k);
      PackShape(d[1..], k);
      var q, value := Pack(d[1..], k), d[0] - ZERO;
      if q.exp < 19 {
        NextPower(q.exp, value);
      }
    }
  }

  // ---------- The printed mantissa ----------

  // Digits that are stored and printed come out as the same number exactly if every twentieth
  // of them, from the right, is zero and the top word is stored in enough bytes.
  lemma {:induction false} PrintedExactly(d: bytes, k: nat)
    requires AllDigits(d) && d != [] && d[0] != ZERO && k < 19
    ensures var words := ShiftedWords(d, k);
      && words[|words| - 1] == Pack(d, k).word > 0
      && var r := PartText(StoreWords(words));
      (r.Ok? && NumberOf(r.value) == Scaled(NumberOf(d), k))
      <==> TwentiethsZero(d, k) && !Misfit(Pack(d, k).word - 1)
  {
    hide Pow10, NumberOf, Pack, Scaled, PrintedWords, PartText, StoreWords, Misfit, StoredTop, Excess, TwentiethsZero;
    var p, words := Pack(d, k), ShiftedWords(d, k);
    PackShape(d, k);
    assert words == p.words + [p.word];
    StoredPrints(p.words, p.word);
    StoredTopIs(p.word);
    PackedPrints(d, k);
    ExcessMeans(d, k);
    ExcessSmall(d, k);
    PrintedSnoc(p.words, p.word);
    PrintedSnoc(p.words, StoredTop(p.word));
    if StoredTop(p.word) + 256 <= p.word {
      Multiples(Pow10(20 * |p.words|), StoredTop(p.word) + 256, p.word);
      Spread256(Pow10(20 * |p.words|), StoredTop(p.word));
    }
    if TwentiethsZero(d, k) {
      TwentiethsPrintable(d, k);
      Pow10Grows(p.exp, 19);
      Pow10Small();
    }
  }

  lemma {:induction false} Spread256(a: nat, b: nat)
    ensures a * (b + 256) == a * b + 256 * a
  {
  }
}
