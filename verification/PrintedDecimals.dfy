// What is printed for a decimal (lib/reader/decimal.c:232-298), as a number: for every buffer
// that holds one, whoever wrote it.
module PrintedDecimals {
  import opened Wrappers
  import opened Bytes
  import opened Grammar
  import opened Digits
  import opened Words
  import opened DecimalText
  import opened Json
  import opened DecimalSyntax
  import opened Decimals
  import opened DecimalStorage

  lemma {:induction false} IntegerText(negative: bool, a: bytes)
    requires AllDigits(a) && a != []
    ensures var t := Sign(negative) + a;
      && t != [] && WellFormedDecimal(t) && (t[0] == MINUS <==> negative)
      && NumberOfText(t) == Scientific(NumberOf(a), 0)
  {
    hide SkipDigits, NumberOf;
    var t, n := Sign(negative) + a, |Sign(negative)|;
    SkipsRun(t, n, |t|);
    assert t[n..|t|] == a && a + [] == a;
    assert WholeStart(t) == n && WholeEnd(t) == FractionStop(t) == |t|;
  }

  lemma {:induction false} ScientificText(negative: bool, a: bytes, down: bool, b: bytes)
    requires AllDigits(a) && a != [] && AllDigits(b) && b != []
    ensures var t := Sign(negative) + a + [LOWER_E] + Sign(down) + b;
      && t != [] && WellFormedDecimal(t) && (t[0] == MINUS <==> negative)
      && NumberOfText(t) == Scientific(NumberOf(a), Signed(down, NumberOf(b)))
  {
    hide SkipDigits, NumberOf;
    var t, n, m := Sign(negative) + a + [LOWER_E] + Sign(down) + b, |Sign(negative)|, |Sign(down)|;
    var e := n + |a|;
    forall i | n <= i < e
      ensures t[i] == a[i - n]
    {
    }
    assert t[e] == LOWER_E && t[e + 1 + m..] == b;
    assert t[e + 1] == if down then MINUS else b[0];
    forall i | e + 1 + m <= i < |t|
      ensures t[i] == b[i - (e + 1 + m)]
    {
    }
    SkipsRun(t, n, e);
    SkipsRun(t, e + 1 + m, |t|);
    assert t[n..e] == a && a + [] == a;
    assert WholeStart(t) == n && WholeEnd(t) == FractionStop(t) == e && ExponentDigits(t) == e + 1 + m;
  }

  // One word of at most eight bytes is printed as the number that it is.
  lemma {:induction false} OneWord(b: bytes)
    requires 0 < |b| <= 8
    ensures PartText(b).Ok? <==> StoredNumber(b) < BASE
    ensures PartText(b).Ok? ==> NumberOf(PartText(b).value) == StoredNumber(b)
  {
    hide Raw, FromLittleEndian;
  }

  // A decimal with an exponent. Bit 2 of the type is the sign of the number, and bit 3 that of
  // the exponent.
  lemma {:induction false} PrintedScientific(buf: bytes)
    requires buf != [] && 0x20 <= buf[0] <= 0x2F && DecimalAnalyze(buf).Ok?
    ensures var a, r := DecimalAnalyze(buf).value, JsonOf(buf);
      var mantissa, exponent := PartText(a.significand), PartText(a.exponent);
      && (r.Ok? <==> mantissa.Ok? && exponent.Ok?)
      && (r.Ok? ==>
            && r.value != [] && WellFormedDecimal(r.value)
            && (r.value[0] == MINUS <==> buf[0] / 4 % 2 == 1)
            && NumberOfText(r.value)
               == Scientific(NumberOf(mantissa.value), Signed(buf[0] / 8 % 2 == 1, NumberOf(exponent.value))))
  {
    hide PartText, NumberOf, WellFormedDecimal, NumberOfText;
    var a := DecimalAnalyze(buf).value;
    var mantissa, exponent := PartText(a.significand), PartText(a.exponent);
    if mantissa.Ok? && exponent.Ok? {
      ScientificText(a.significandNegative, mantissa.value, a.exponentNegative, exponent.value);
    }
  }

  // With one word for each part it is printed as the number that it stands for.
  lemma {:induction false} PrintedAsRead(buf: bytes)
    requires buf != [] && 0x20 <= buf[0] <= 0x2F && DecimalAnalyze(buf).Ok?
    requires |DecimalAnalyze(buf).value.significand| <= 8 && |DecimalAnalyze(buf).value.exponent| <= 8
    ensures var a, r := DecimalAnalyze(buf).value, JsonOf(buf);
      && (r.Ok? <==> StoredNumber(a.significand) < BASE && StoredNumber(a.exponent) < BASE)
      && (r.Ok? ==>
            && r.value != [] && WellFormedDecimal(r.value)
            && (r.value[0] == MINUS <==> a.significandNegative)
            && NumberOfText(r.value) == NumberRead(a))
  {
    hide PartText, NumberOf, WellFormedDecimal, NumberOfText, StoredNumber, JsonOf;
    var a := DecimalAnalyze(buf).value;
    PrintedScientific(buf);
    OneWord(a.significand);
    OneWord(a.exponent);
  }

  // An integer. Bit 0 of the type is the sign, and no byte behind it is zero.
  lemma {:induction false} PrintedInteger(buf: bytes)
    requires buf != [] && 0x1A <= buf[0] <= 0x1B
    ensures var r := JsonOf(buf);
      && (r.Ok? <==> |buf| == 1 || PartText(buf[1..]).Ok?)
      && (r.Ok? ==>
            && r.value != [] && WellFormedDecimal(r.value)
            && (r.value[0] == MINUS <==> buf[0] == 0x1B)
            && NumberOfText(r.value) == Scientific(if |buf| == 1 then 0 else NumberOf(PartText(buf[1..]).value), 0))
      && (1 < |buf| <= 9 ==>
            && (r.Ok? <==> StoredNumber(buf[1..]) < BASE)
            && (r.Ok? ==> NumberOfText(r.value) == Scientific(StoredNumber(buf[1..]), 0)))
  {
    hide PartText, NumberOf, WellFormedDecimal, NumberOfText, StoredNumber;
    if |buf| == 1 {
      ZeroDigit();
      IntegerText(buf[0] % 2 == 1, [ZERO]);
    } else {
      if PartText(buf[1..]).Ok? {
        IntegerText(buf[0] % 2 == 1, PartText(buf[1..]).value);
      }
      if |buf| <= 9 {
        OneWord(buf[1..]);
      }
    }
  }

  lemma {:induction false} ZeroDigit()
    ensures AllDigits([ZERO]) && NumberOf([ZERO]) == 0
  {
    assert [ZERO][..0] == [];
  }
}
