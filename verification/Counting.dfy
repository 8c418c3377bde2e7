// What _bijson_shift_digits counts against what it writes (lib/writer/decimal.c): for a long
// significand the count is an estimate.
module Counting {
  import opened Arithmetic
  import opened Bytes
  import opened Digits
  import opened Words
  import opened Shifting

  // The point lies behind the characters that are packed when counting.
  function PointBehind(s: bytes, point: int): nat {
    if |s| % 19 <= point < |s| then 1 else 0
  }

  // Up to 18 characters are counted as they are written. More are counted right if some are
  // left over when they are taken nineteen at a time, the leftover ones fill the current word
  // far enough, and both top words take the same number of bytes.
  predicate CountedRight(s: bytes, point: int, shift: nat)
    requires Significand(s, point)
  {
    WithoutDigits(s, point);
    var k, rest := shift % 19, Rest(s, point);
    || |s| < 19
    || (&& |s| % 19 != 0
        && |s| / 19 + PointBehind(s, point) <= Pack(rest, k).exp
        && TopSize(rest, k) == TopSize(Without(s, point), k))
  }

  // The bytes of the top word.
  function TopSize(d: bytes, k: nat): nat
    requires AllDigits(d) && d != [] && d[0] != ZERO && k < 19
  {
    PackShape(d, k);
    FitUint64(Pack(d, k).word - 1)
  }

  // ---------- The top word ----------

  lemma {:induction false} PrefixNext(d: bytes, i: nat)
    requires AllDigits(d) && i < |d|
    ensures NumberOf(d[..i + 1]) == 10 * NumberOf(d[..i]) + (d[i] - ZERO)
  {
    assert d[..i + 1][..i] == d[..i];
  }

  lemma {:induction false} PrefixGrows(d: bytes, i: nat, j: nat)
    requires AllDigits(d) && i <= j <= |d|
    ensures NumberOf(d[..i]) <= NumberOf(d[..j])
    decreases j
  {
    if i < j {
      PrefixGrows(d, i, j - 1);
      PrefixNext(d, j - 1);
    }
  }

  lemma {:induction false} PrefixBound(d: bytes, i: nat, j: nat)
    requires AllDigits(d) && i + j <= |d|
    ensures NumberOf(d[..i + j]) < (NumberOf(d[..i]) + 1) * Pow10(j)
  {
    hide NumberOf;
    if j == 0 {
      PowZero();
    } else {
      PrefixBound(d, i, j - 1);
      PrefixNext(d, i + j - 1);
      Commute(10, NumberOf(d[..i]) + 1, Pow10(j - 1));
    }
  }

  // The word that is current after the first one: its last digit is added at the weight of
  // the digit before.
  lemma {:induction false} LaterWord(d: bytes, k: nat)
    requires AllDigits(d) && d != [] && k < 19
    ensures var p := Pack(d, k);
      p.words != [] ==> p.exp < |d| && p.word == NumberOf(d[..p.exp]) + (d[p.exp] - ZERO)
  {
    hide NumberOf, Pow10;
    var t, p, q := d[1..], Pack(d, k), Pack(d[1..], k);
    if q.exp == 19 {
      assert d[..0] == [];
      NumberOfEmpty();
    } else if p.words != [] {
      if t != [] {
        LaterWord(t, k);
        assert d[..p.exp][1..] == t[..q.exp];
        NumberCons(d[..p.exp]);
      }
    }
  }

  lemma {:induction false} NumberOfEmpty()
    ensures NumberOf([]) == 0
  {
  }

  // ---------- The leftover digits ----------

  lemma {:induction false} RestIsPrefix(s: bytes, point: int)
    requires Significand(s, point)
    ensures var d, rest := Without(s, point), Rest(s, point);
      && AllDigits(d) && |d| + PointBehind(s, point) == 19 * (|s| / 19) + |rest| && |rest| <= |d|
      && rest == d[..|rest|]
  {
    var r := |s| % 19;
    var t := s[..r];
    WithoutDigits(s, point);
    if 0 <= point < r {
      assert Without(t, point) == s[..point] + s[point + 1..r];
    }
  }

  lemma {:induction false} TopGrowsShort(n: nat, word: nat, j: nat, k: nat)
    requires n > 0 && j < k && word <= (n + 1) * Pow10(j) + 8
    ensures word <= n * Pow10(k)
  {
    hide Pow10;
    Pow10Grows(j + 1, k);
    TenTimes(j);
    Scale(n, Pow10(j + 1), Pow10(k));
    Commute(n, 10, Pow10(j));
    Multiples(Pow10(j), 1, n);
  }

  lemma {:induction false} TenTimes(j: nat)
    ensures Pow10(j + 1) == 10 * Pow10(j)
  {
  }

  // With more digits behind it, the same front of the digits makes a smaller top word.
  lemma {:induction false} TopShrinks(d: bytes, n: nat, k: nat)
    requires AllDigits(d) && d != [] && d[0] != ZERO && 0 < n <= |d| && k < 19
    requires Pack(d, k).words != [] && Pack(d, k).exp < Pack(d[..n], k).exp
    ensures Pack(d, k).word <= Pack(d[..n], k).word
  {
    hide NumberOf, Pow10;
    var rest, p, q := d[..n], Pack(d, k), Pack(d[..n], k);
    PackShape(rest, k);
    LaterWord(d, k);
    PrefixNext(d, p.exp);
    if q.words != [] {
      LaterWord(rest, k);
      assert rest[..q.exp] == d[..q.exp];
      PrefixGrows(d, p.exp + 1, q.exp);
    } else {
      TopWord(rest, k);
      NumberPositive(rest);
      if p.exp < n {
        PrefixGrows(d, p.exp + 1, n);
        Scale(NumberOf(rest), 1, Pow10(k));
      } else {
        PrefixBound(d, n, p.exp - n);
        TopGrowsShort(NumberOf(rest), p.word, p.exp - n, k);
      }
    }
  }

  lemma {:induction false} NumberPositive(d: bytes)
    requires AllDigits(d) && d != [] && d[0] != ZERO
    ensures NumberOf(d) > 0
  {
    hide NumberOf, Pow10;
    NumberCons(d);
    Multiples(Pow10(|d| - 1), 1, d[0] - ZERO);
  }

  // ---------- The count ----------

  // The count never falls short of what is written, and it is right exactly in these cases.
  lemma {:induction false} CountedAgainstWritten(s: bytes, point: int, shift: nat)
    requires Significand(s, point)
    ensures var d := Without(s, point);
      && AllDigits(d) && d != [] && d[0] != ZERO
      && PackedSize(d, shift) <= CountedSize(s, point, shift)
      && (PackedSize(d, shift) == CountedSize(s, point, shift) <==> CountedRight(s, point, shift))
  {
    hide Pack, Without, PackedSize, FitUint64, Rest;
    var d, rest, k, q := Without(s, point), Rest(s, point), shift % 19, |s| / 19;
    WithoutDigits(s, point);
    RestIsPrefix(s, point);
    PackShape(d, k);
    PackedSizeIs(d, shift);
    if |s| < 19 {
      RestOf(s, point);
    } else if rest == [] {
      NoneLeftOver(d, q, k);
    } else {
      PackShape(rest, k);
      PackedSizeIs(rest, shift);
      var p, r := Pack(d, k), Pack(rest, k);
      if q + PointBehind(s, point) <= r.exp {
        TwentyParts(|p.words|, p.exp, q + |r.words|, r.exp - q - PointBehind(s, point));
        TopShrinks(d, |rest|, k);
        FitGrows(p.word - 1, r.word - 1);
      } else {
        assert |p.words| < q + |r.words|;
      }
    }
  }

  lemma {:induction false} TwentyParts(a: nat, b: nat, c: nat, e: nat)
    requires 20 * a + b == 20 * c + e && b < 20 && e < 20
    ensures a == c && b == e
  {
  }

  lemma {:induction false} NoneLeftOver(d: bytes, q: nat, k: nat)
    requires AllDigits(d) && 19 * q - 1 <= |d| <= 19 * q && q > 0 && k < 19
    ensures 8 * |Pack(d, k).words| + FitUint64(Pack(d, k).word - 1) < 8 * q + 8
    requires Pack(d, k).word > 0
  {
    hide Pack, Pow10;
    PackShape(d, k);
    var p := Pack(d, k);
    if |p.words| >= q {
      Pow10Grows(p.exp, 17);
      Seventeen();
    }
  }

  lemma {:induction false} Seventeen()
    ensures Pow10(17) == 100_000_000_000_000_000
  {
    assert Pow10(6) == 1_000_000;
    assert Pow10(12) == 1_000_000_000_000;
  }
}
