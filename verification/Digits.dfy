// Decimal digits: their value, and the digit printer of lib/common.c.
module Digits {
  import opened Arithmetic
  import opened Bytes

  const ZERO: byte := 0x30

  // _bijson_uint64_pow10, without its limit of 10^19
  function Pow10(n: nat): (p: nat)
    ensures p > 0
  {
    if n == 0 then 1 else 10 * Pow10(n - 1)
  }

  predicate IsDigit(c: byte) {
    ZERO <= c <= 0x39
  }

  predicate AllDigits(s: bytes) {
    forall i :: 0 <= i < |s| ==> IsDigit(s[i])
  }

  // The number that a text of digits denotes.
  function NumberOf(s: bytes): nat
    requires AllDigits(s)
  {
    if s == [] then 0 else 10 * NumberOf(s[..|s| - 1]) + (s[|s| - 1] - ZERO)
  }

  // The digits of v, and nothing at all for zero.
  function Raw(v: nat): (s: bytes)
    ensures AllDigits(s) && NumberOf(s) == v
    ensures s == [] <==> v == 0
    ensures s != [] ==> s[0] != ZERO
  {
    if v == 0 then [] else
      var t := Raw(v / 10) + [ZERO + v % 10];
      assert t[..|t| - 1] == Raw(v / 10);
      t
  }

  // The last n digits of v.
  function Padded(v: nat, n: nat): (s: bytes)
    ensures |s| == n && AllDigits(s)
  {
    if n == 0 then [] else Padded(v / 10, n - 1) + [ZERO + v % 10]
  }

  // A number cut before its last n digits.
  function High(v: nat, n: nat): nat {
    Quotient(v, Pow10(n))
  }

  function Low(v: nat, n: nat): nat {
    Remainder(v, Pow10(n))
  }

  function Quotient(v: nat, p: nat): nat
    requires p > 0
  {
    v / p
  }

  function Remainder(v: nat, p: nat): nat
    requires p > 0
  {
    v % p
  }

  // Digit i of a number, counted from the right.
  function DigitOf(v: nat, i: nat): (d: nat)
    ensures d < 10
  {
    High(v, i) % 10
  }

  // A number followed by i zeroes. Proofs only use the laws that follow, so that no product
  // of two unknowns is left in them.
  function Scaled(d: nat, i: nat): nat {
    d * Pow10(i)
  }

  lemma {:induction false} ScaledSum(a: nat, b: nat, i: nat)
    ensures Scaled(a, i) + Scaled(b, i) == Scaled(a + b, i)
  {
  }

  lemma {:induction false} ScaledNext(d: nat, i: nat)
    ensures Scaled(10 * d, i) == Scaled(d, i + 1)
  {
    TimesTen(d, Pow10(i));
  }

  lemma {:induction false} ScaledGrows(a: nat, b: nat, i: nat)
    requires a <= b
    ensures Scaled(a, i) <= Scaled(b, i)
    ensures a < b ==> Scaled(a, i) + Pow10(i) <= Scaled(b, i)
    ensures a > 0 ==> Scaled(a, i) >= Pow10(i)
  {
    Multiples(Pow10(i), a, b);
    if a < b {
      Multiples(Pow10(i), a + 1, b);
      OneMore(Pow10(i), a);
    }
    if a > 0 {
      Multiples(Pow10(i), 1, a);
    }
  }

  lemma {:induction false} OneMore(p: nat, q: nat)
    ensures p * (q + 1) == p * q + p
  {
  }

  lemma {:induction false} ScaledSmall(i: nat)
    ensures Scaled(0, i) == 0 && Scaled(1, i) == Pow10(i)
  {
  }

  lemma {:induction false} Whole(v: nat, i: nat)
    ensures v == Scaled(High(v, i), i) + Low(v, i) && Low(v, i) < Pow10(i)
  {
    hide Pow10;
    Division(v, Pow10(i));
  }

  lemma {:induction false} Parts(v: nat, i: nat, high: nat, low: nat)
    requires v == Scaled(high, i) + low && low < Pow10(i)
    ensures High(v, i) == high && Low(v, i) == low
  {
    hide Pow10;
    DivMod(v, Pow10(i), high, low);
  }

  // The last i + 1 digits are one digit and the last i digits; the rest loses that digit.
  lemma {:induction false} NextDigit(v: nat, i: nat)
    ensures Low(v, i + 1) == Scaled(DigitOf(v, i), i) + Low(v, i)
    ensures High(v, i) == 10 * High(v, i + 1) + DigitOf(v, i)
  {
    hide Pow10, High, Low, Scaled;
    var digit, rest := DigitOf(v, i), High(v, i) / 10;
    Whole(v, i);
    ScaledSum(10 * rest, digit, i);
    ScaledNext(rest, i);
    DigitFits(digit, Low(v, i), i);
    Parts(v, i + 1, rest, Scaled(digit, i) + Low(v, i));
  }

  lemma {:induction false} DigitFits(digit: nat, low: nat, i: nat)
    requires digit < 10 && low < Pow10(i)
    ensures Scaled(digit, i) + low < Pow10(i + 1)
  {
    ScaledGrows(digit, 10, i);
    ScaledNext(1, i);
    ScaledSmall(i + 1);
  }

  lemma {:induction false} TimesTen(d: nat, p: nat)
    ensures d * (10 * p) == 10 * d * p
  {
  }

  // Moving the cut one digit to the right.
  lemma {:induction false} CutDigit(v: nat, n: nat)
    ensures var digit := Low(v, n + 1) / Pow10(n);
      && digit < 10
      && High(v, n) == 10 * High(v, n + 1) + digit
      && Low(v, n + 1) - digit * Pow10(n) == Low(v, n)
  {
    hide Pow10, High, Low, Scaled;
    NextDigit(v, n);
    Whole(v, n);
    Parts(Low(v, n + 1), n, DigitOf(v, n), Low(v, n));
    HighIs(Low(v, n + 1), n);
    ScaledIs(DigitOf(v, n), n);
  }

  lemma {:induction false} HighIs(v: nat, n: nat)
    ensures High(v, n) == v / Pow10(n)
  {
    hide Pow10;
  }

  lemma {:induction false} ScaledIs(d: nat, n: nat)
    ensures Scaled(d, n) == d * Pow10(n)
  {
    hide Pow10;
  }

  lemma {:induction false} Pow10Small()
    ensures Pow10(19) == 10_000_000_000_000_000_000 && Pow10(20) == 100_000_000_000_000_000_000
  {
    assert Pow10(5) == 100_000;
    assert Pow10(10) == 10_000_000_000;
    assert Pow10(15) == 1_000_000_000_000_000;
    assert Pow10(19) == 10_000_000_000_000_000_000;
  }

  // _bijson_uint64_str_impl: from the digit for 10^19 down.
  method PrintUint64(number: nat, pad: bool) returns (s: bytes)
    requires number <= SIZE_MAX
    ensures s == if pad then Padded(number, 20) else Raw(number)
  {
    hide Pow10, High, Low, Padded, Raw;
    CutAbove(number);
    CutBelow(number);
    var value, padding := number, pad;
    s := [];
    for i := 20 downto 0
      invariant value == Low(number, i)
      invariant s == if pad then Padded(High(number, i), 20 - i) else Raw(High(number, i))
      invariant padding <==> pad || High(number, i) > 0
    {
      var magnitude := Pow10(i);
      var digit := value / magnitude;
      CutDigit(number, i);
      AddDigit(High(number, i + 1), digit, 19 - i);
      value := value - digit * magnitude;
      if digit != 0 {
        padding := true;
      }
      if padding {
        s := s + [ZERO + digit];
      }
    }
  }

  lemma {:induction false} CutAbove(v: nat)
    requires v <= SIZE_MAX
    ensures Low(v, 20) == v && High(v, 20) == 0
    ensures Raw(0) == [] && Padded(0, 0) == []
  {
    hide Pow10;
    Pow10Small();
  }

  lemma {:induction false} CutBelow(v: nat)
    ensures High(v, 0) == v && Low(v, 0) == 0
  {
  }

  lemma {:induction false} AddDigit(high: nat, digit: nat, n: nat)
    requires digit < 10
    ensures Padded(10 * high + digit, n + 1) == Padded(high, n) + [ZERO + digit]
    ensures Raw(10 * high + digit) == if high == 0 && digit == 0 then [] else Raw(high) + [ZERO + digit]
  {
    TenParts(high, digit);
    PaddedLast(10 * high + digit, n);
    RawLast(10 * high + digit);
    hide Padded, Raw;
  }

  lemma {:induction false} TenParts(high: nat, digit: nat)
    requires digit < 10
    ensures (10 * high + digit) / 10 == high && (10 * high + digit) % 10 == digit
  {
  }

  lemma {:induction false} PaddedLast(v: nat, n: nat)
    ensures Padded(v, n + 1) == Padded(v / 10, n) + [ZERO + v % 10]
  {
  }

  lemma {:induction false} RawLast(v: nat)
    ensures Raw(v) == if v == 0 then [] else Raw(v / 10) + [ZERO + v % 10]
  {
  }
}
