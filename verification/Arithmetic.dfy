// The few laws of multiplication and division that the other modules need.
module Arithmetic {

  lemma {:induction false} Multiples(d: nat, a: nat, b: nat)
    requires a <= b
    ensures d * a <= d * b
  {
  }

  lemma {:induction false} Associative(a: nat, b: nat, c: nat)
    ensures a * (b * c) == (a * b) * c
  {
  }

  lemma {:induction false} Division(n: nat, d: nat)
    requires d > 0
    ensures n == d * (n / d) + n % d && n % d < d
  {
  }

  // Quotient and remainder are unique.
  lemma {:induction false} DivMod(n: nat, d: nat, q: nat, r: nat)
    requires n == d * q + r && r < d
    ensures n / d == q && n % d == r
  {
    var e := n / d;
    assert n == d * e + n % d;
    if e < q {
      Multiples(d, e + 1, q);
    } else if q < e {
      Multiples(d, q + 1, e);
    }
  }

  lemma {:induction false} DivTwice(v: nat, a: nat, b: nat)
    requires a > 0 && b > 0
    ensures a * b > 0 && v / a / b == v / (a * b)
  {
    var q, r := v / a, v % a;
    var e, f := q / b, q % b;
    Division(v, a);
    Division(q, b);
    Regroup(a, b, e, f);
    Multiples(a, f + 1, b);
    Multiples(a, 1, b);
    DivMod(v, a * b, e, a * f + r);
  }

  lemma {:induction false} Regroup(a: nat, b: nat, e: nat, f: nat)
    ensures a * (b * e + f) == (a * b) * e + a * f
    ensures a * (f + 1) == a * f + a
  {
  }
}
