// _bijson_2log64 (lib/common.h), which bounds the number of interpolation rounds.
module Logarithm {
  import opened Arithmetic
  import opened Bytes

  function FloorLog2(x: nat): nat
    requires x > 0
  {
    if x == 1 then 0 else 1 + FloorLog2(x / 2)
  }

  // The number of halvings that bring n down to zero.
  function Halvings(n: nat): nat {
    if n == 0 then 0 else FloorLog2(n) + 1
  }

  lemma {:induction false} HalvingsGrow(a: nat, b: nat)
    requires a <= b
    ensures Halvings(a) <= Halvings(b)
  {
    if a > 1 {
      HalvingsGrow(a / 2, b / 2);
    }
  }

  lemma {:induction false} HalvingStep(n: nat)
    requires n > 0
    ensures Halvings(n / 2) + 1 == Halvings(n)
  {
  }

  function Pow2(k: nat): (p: nat)
    ensures p > 0
  {
    if k == 0 then 1 else 2 * Pow2(k - 1)
  }

  lemma {:induction false} FloorLog2Shift(x: nat, k: nat)
    requires x >= Pow2(k)
    ensures x / Pow2(k) > 0
    ensures FloorLog2(x) == k + FloorLog2(x / Pow2(k))
  {
    if k > 0 {
      HalfIsAtLeast(x, Pow2(k - 1));
      DivTwice(x, 2, Pow2(k - 1));
      FloorLog2Shift(x / 2, k - 1);
    }
  }

  lemma {:induction false} HalfIsAtLeast(x: nat, p: nat)
    requires x >= 2 * p
    ensures x / 2 >= p
  {
  }

  lemma {:induction false} ShiftOut(x: nat, k: nat, p: nat)
    requires p == Pow2(k) && x >= p
    ensures x / p > 0 && FloorLog2(x) == k + FloorLog2(x / p)
  {
    FloorLog2Shift(x, k);
  }

  lemma {:induction false} FloorLog2Small(x: nat)
    requires 0 < x < 4
    ensures FloorLog2(x) == x / 2 % 2
  {
  }

  // The version built on __builtin_clzll: 63 minus the number of leading zeroes of x - 1.
  function Log2Builtin(x: nat): nat
    requires x > 1
  {
    FloorLog2(x - 1)
  }

  // The portable version. It starts at 1, so it is one more than the other.
  method Log2Portable(x0: nat) returns (result: nat)
    requires 1 < x0 <= SIZE_MAX
    ensures result == Log2Builtin(x0) + 1
  {
    hide FloorLog2, Pow2;
    Pow2Values();
    var x := x0 - 1;
    result := 1;
    x, result := HalveBits(x, result, 32, 0x1_0000_0000);
    x, result := HalveBits(x, result, 16, 0x1_0000);
    x, result := HalveBits(x, result, 8, 0x100);
    x, result := HalveBits(x, result, 4, 0x10);
    x, result := HalveBits(x, result, 2, 4);
    FloorLog2Small(x);
    if x / 2 % 2 != 0 {
      result := result + 1;
    }
  }

  // One of its steps: if any of the upper k of 2k bits is set, keep those and add k.
  method HalveBits(x: nat, result: nat, k: nat, p: nat) returns (y: nat, sum: nat)
    requires p == Pow2(k) && 0 < x < p * p
    ensures 0 < y < p && sum + FloorLog2(y) == result + FloorLog2(x)
  {
    hide FloorLog2, Pow2;
    HighPart(x, p);
    if x / p % p != 0 {
      ShiftOut(x, k, p);
      return x / p, result + k;
    }
    return x, result;
  }

  lemma {:induction false} HighPart(x: nat, p: nat)
    requires 0 < x < p * p
    ensures p > 0 && x / p < p
    ensures x / p % p != 0 <==> x >= p
  {
    var q := x / p;
    assert x == p * q + x % p;
    if q >= p {
      Multiples(p, p, q);
    }
    DivMod(q, p, 0, q);
  }

  lemma {:induction false} Pow2Values()
    ensures Pow2(2) == 4 && Pow2(4) == 0x10 && Pow2(8) == 0x100 && Pow2(16) == 0x1_0000
    ensures Pow2(32) == 0x1_0000_0000
  {
    assert Pow2(2) == 4;
    Pow2Sum(2, 2);
    hide Pow2;
    Pow2Sum(4, 4);
    Pow2Sum(8, 8);
    Pow2Sum(16, 16);
  }

  lemma {:induction false} Pow2Sum(a: nat, b: nat)
    ensures Pow2(a + b) == Pow2(a) * Pow2(b)
  {
    if a > 0 {
      Pow2Sum(a - 1, b);
      assert 2 * (Pow2(a - 1) * Pow2(b)) == 2 * Pow2(a - 1) * Pow2(b);
    }
  }

  // One more than the built-in version is the logarithm, rounded up.
  lemma {:induction false} RoundedUp(n: nat)
    requires n > 1
    ensures Pow2(Log2Builtin(n)) < n <= Pow2(Log2Builtin(n) + 1)
  {
    FloorIs(n - 1);
  }

  lemma {:induction false} FloorIs(x: nat)
    requires x > 0
    ensures Pow2(FloorLog2(x)) <= x < Pow2(FloorLog2(x) + 1)
  {
    if x > 1 {
      FloorIs(x / 2);
    }
  }
}
