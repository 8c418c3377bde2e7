// The decimal texts that the writer accepts, as a grammar of their own, and the number that such
// a text stands for (_bijson_analyze_string in lib/writer/decimal.c).
module DecimalForms {
  import opened Bytes
  import opened Digits
  import opened Grammar
  import opened DecimalSyntax
  import opened Decimals
  import opened DecimalStorage
  import opened JsonNumbers

  // Where the digits of the exponent begin.
  function ExponentFrom(s: bytes, c: nat): (p: nat)
    requires c < |s|
    ensures c < p <= |s|
  {
    if c + 1 < |s| && IsSign(s[c + 1]) then c + 2 else c + 1
  }

  // decimal = [ "+" / "-" ] *DIGIT [ "." *DIGIT ] [ ( "e" / "E" ) [ "+" / "-" ] *DIGIT ], cut in
  // front of the digits, the point and the exponent.
  predicate CutsDecimal(s: bytes, a: nat, b: nat, c: nat) {
    && s != [] && a <= b <= c <= |s|
    && (a == 0 || (a == 1 && IsSign(s[0])))
    && AllDigits(s[a..b])
    && (b == c || (s[b] == 0x2E && AllDigits(s[b + 1..c])))
    && (c == |s| || (IsExponentMark(s[c]) && AllDigits(s[ExponentFrom(s, c)..])))
  }

  function FractionIn(s: bytes, b: nat, c: nat): (d: bytes)
    requires b <= c <= |s|
  {
    if b < c then s[b + 1..c] else []
  }

  function ExponentIn(s: bytes, c: nat): int
    requires c <= |s| && (c == |s| || AllDigits(s[ExponentFrom(s, c)..]))
  {
    if c == |s| then 0
    else Signed(c + 1 < |s| && s[c + 1] == 0x2D, NumberOf(s[ExponentFrom(s, c)..]))
  }

  lemma {:induction false} DigitsIn(s: bytes, i: nat, j: nat)
    requires i <= j <= |s| && AllDigits(s[i..j])
    ensures forall x :: i <= x < j ==> IsDigit(s[x])
  {
    forall x | i <= x < j
      ensures IsDigit(s[x])
    {
      assert s[i..j][x - i] == s[x];
    }
  }

  // However a text is cut, the parser cuts it in the same way.
  lemma {:induction false} CutFound(s: bytes, a: nat, b: nat, c: nat)
    requires CutsDecimal(s, a, b, c)
    ensures WholeStart(s) == a && WholeEnd(s) == b && FractionStop(s) == c && WellFormedDecimal(s)
    ensures c < |s| ==> HasExponent(s) && ExponentDigits(s) == ExponentFrom(s, c)
    ensures c < |s| ==> (ExponentIsNegative(s) <==> c + 1 < |s| && s[c + 1] == 0x2D)
  {
    hide SkipDigits;
    DigitsIn(s, a, b);
    if c < |s| {
      assert s[ExponentFrom(s, c)..|s|] == s[ExponentFrom(s, c)..];
      DigitsIn(s, ExponentFrom(s, c), |s|);
    }
    SkipsRun(s, a, b);
    if b < c {
      DigitsIn(s, b + 1, c);
      SkipsRun(s, b + 1, c);
    }
    if c < |s| {
      SkipsRun(s, ExponentFrom(s, c), |s|);
    }
  }

  // Exactly the texts that can be cut are accepted.
  lemma {:induction false} DecimalsAreCut(s: bytes)
    requires s != []
    ensures WellFormedDecimal(s) <==> exists a: nat, b: nat, c: nat :: CutsDecimal(s, a, b, c)
  {
    hide SkipDigits, CutsDecimal;
    if WellFormedDecimal(s) {
      FoundCuts(s);
    }
    if exists a: nat, b: nat, c: nat :: CutsDecimal(s, a, b, c) {
      var a: nat, b: nat, c: nat :| CutsDecimal(s, a, b, c);
      CutFound(s, a, b, c);
    }
  }

  lemma {:induction false} FoundCuts(s: bytes)
    requires s != [] && WellFormedDecimal(s)
    ensures CutsDecimal(s, WholeStart(s), WholeEnd(s), FractionStop(s))
  {
    hide SkipDigits;
    MantissaDigitsAre(s);
    if FractionStop(s) < |s| {
      RunIsDigits(s, ExponentDigits(s), |s|);
      assert s[ExponentDigits(s)..|s|] == s[ExponentDigits(s)..];
    }
  }

  // The number: all digits, moved by the exponent less the number of digits behind the point.
  lemma {:induction false} DecimalsDenote(s: bytes, a: nat, b: nat, c: nat)
    requires CutsDecimal(s, a, b, c)
    ensures WellFormedDecimal(s) && AllDigits(s[a..b] + FractionIn(s, b, c))
    ensures NumberOfText(s)
         == Scientific(NumberOf(s[a..b] + FractionIn(s, b, c)), ExponentIn(s, c) - |FractionIn(s, b, c)|)
  {
    hide SkipDigits, NumberOf;
    CutFound(s, a, b, c);
    if c < |s| {
      assert s[ExponentFrom(s, c)..] == s[ExponentDigits(s)..];
    }
  }

  // Numbers of RFC 8259 are such texts, cut in the same way.
  lemma {:induction false} RfcIsDecimal(s: bytes, a: nat, b: nat, c: nat)
    requires CutsNumber(s, a, b, c)
    ensures CutsDecimal(s, a, b, c)
  {
    if b < c {
      assert s[b..c][0] == s[b] && s[b..c][1..] == s[b + 1..c];
    }
    if c < |s| {
      assert s[c..][0] == s[c] && s[c..][1..] == s[c + 1..];
      assert s[c..][1] == s[c + 1];
      if IsSign(s[c + 1]) {
        assert s[c..][2..] == s[c + 2..];
      }
    }
  }
}
