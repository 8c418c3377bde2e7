// Taking a decimal text apart (_bijson_analyze_string in lib/writer/decimal.c), and what the
// parts denote.
module DecimalSyntax {
  import opened Wrappers
  import opened Bytes
  import opened Digits
  import opened Grammar
  import opened Layout
  import opened Shifting
  import opened Sums
  import opened DecimalText

  // All fields but the signs are positions in the text.
  datatype Analysis = Analysis(
    significandStart: nat,
    significandEnd: nat,
    decimalPoint: nat,
    exponentStart: nat,
    exponentEnd: nat,
    mantissaNegative: bool,
    exponentNegative: bool)

  // ---------- The syntax ----------

  // The parts of a text: a sign, digits, perhaps a point with more digits, perhaps an
  // exponent. Any of the runs of digits may be empty.
  function WholeStart(text: bytes): (p: nat)
    requires text != []
    ensures p <= |text|
  {
    SkipSign(text, 0, true)
  }

  function WholeEnd(text: bytes): (p: nat)
    requires text != []
    ensures WholeStart(text) <= p <= |text|
  {
    SkipDigits(text, WholeStart(text))
  }

  function FractionStop(text: bytes): (p: nat)
    requires text != []
    ensures WholeEnd(text) <= p <= |text|
  {
    var point := WholeEnd(text);
    if point < |text| && text[point] == POINT then SkipDigits(text, point + 1) else point
  }

  predicate HasExponent(text: bytes)
    requires text != []
  {
    var p := FractionStop(text);
    p < |text| && (text[p] == 0x65 || text[p] == 0x45)
  }

  function ExponentDigits(text: bytes): (p: nat)
    requires text != [] && HasExponent(text)
    ensures FractionStop(text) < p <= |text|
  {
    var p := FractionStop(text) + 1;
    if p < |text| then SkipSign(text, p, true) else p
  }

  // The whole text belongs to one of the parts.
  predicate WellFormedDecimal(text: bytes)
    requires text != []
  {
    FractionStop(text) == |text| || (HasExponent(text) && SkipDigits(text, ExponentDigits(text)) == |text|)
  }

  // ---------- What a text denotes ----------

  // A number with its decimal scale: digits * 10^scale.
  datatype Scientific = Scientific(digits: nat, scale: int)

  function Raise(v: nat, n: int): nat
    requires n >= 0
  {
    v * Pow10(n)
  }

  // Both denote the same number.
  predicate SameNumber(a: Scientific, b: Scientific) {
    if a.scale >= b.scale then Raise(a.digits, a.scale - b.scale) == b.digits
    else a.digits == Raise(b.digits, b.scale - a.scale)
  }

  function FractionDigits(text: bytes): bytes
    requires text != []
  {
    var point := WholeEnd(text);
    if point < FractionStop(text) then text[point + 1..FractionStop(text)] else []
  }

  lemma {:induction false} SkippedAreDigits(text: bytes, pos: nat, i: nat)
    requires pos <= |text| && pos <= i < SkipDigits(text, pos)
    ensures IsDigit(text[i])
    decreases |text| - pos
  {
    if pos < i {
      SkippedAreDigits(text, pos + 1, i);
    }
  }

  lemma {:induction false} RunIsDigits(text: bytes, pos: nat, end: nat)
    requires pos <= end <= |text| && end <= SkipDigits(text, pos)
    ensures AllDigits(text[pos..end])
  {
    forall i | pos <= i < end
      ensures IsDigit(text[i])
    {
      SkippedAreDigits(text, pos, i);
    }
  }

  lemma {:induction false} MantissaDigitsAre(text: bytes)
    requires text != []
    ensures AllDigits(text[WholeStart(text)..WholeEnd(text)]) && AllDigits(FractionDigits(text))
  {
    hide SkipDigits;
    RunIsDigits(text, WholeStart(text), WholeEnd(text));
    if WholeEnd(text) < FractionStop(text) {
      RunIsDigits(text, WholeEnd(text) + 1, FractionStop(text));
    }
  }

  // The mantissa: all digits in front of the exponent, scaled by the number of digits behind
  // the point.
  function Mantissa(text: bytes): Scientific
    requires text != []
  {
    MantissaDigitsAre(text);
    var whole, fraction := text[WholeStart(text)..WholeEnd(text)], FractionDigits(text);
    Scientific(NumberOf(whole + fraction), -|fraction|)
  }

  // The exponent, and zero if there is none.
  function Exponent(text: bytes): int
    requires text != [] && WellFormedDecimal(text)
  {
    if FractionStop(text) == |text| then 0
    else
      var start := ExponentDigits(text);
      RunIsDigits(text, start, |text|);
      assert text[start..|text|] == text[start..];
      var e: int := NumberOf(text[start..]);
      if ExponentIsNegative(text) then -e else e
  }

  predicate ExponentIsNegative(text: bytes)
    requires text != []
  {
    HasExponent(text) && FractionStop(text) + 1 < |text| && text[FractionStop(text) + 1] == MINUS
  }

  // ---------- The analysis ----------

  // From and end enclose digits and at most a point; start and stop enclose the part from the
  // first digit that is not zero to the last one.
  predicate Trimmed(text: bytes, from: nat, start: nat, stop: nat, end: nat) {
    && from <= start < stop <= end <= |text|
    && IsDigit(text[start]) && text[start] != ZERO && IsDigit(text[stop - 1]) && text[stop - 1] != ZERO
    && (forall i :: from <= i < start ==> text[i] == ZERO || text[i] == POINT)
    && (forall i :: stop <= i < end ==> text[i] == ZERO || text[i] == POINT)
  }

  predicate NoneButZeroes(text: bytes, from: nat, end: nat) {
    from <= end <= |text| && forall i :: from <= i < end ==> text[i] == ZERO || text[i] == POINT
  }

  // Where the exponent's digits begin: without their leading zeroes.
  predicate ExponentTrimmed(text: bytes, from: nat, start: nat) {
    && from <= start <= |text|
    && (forall i :: from <= i < start ==> text[i] == ZERO)
    && (start < |text| ==> text[start] != ZERO)
  }

  // What the analysis finds.
  predicate Analyzed(text: bytes, a: Analysis)
    requires text != []
  {
    && a.decimalPoint == WholeEnd(text)
    && (if a.significandStart == a.significandEnd then
          a.significandStart == a.decimalPoint && NoneButZeroes(text, WholeStart(text), FractionStop(text))
        else Trimmed(text, WholeStart(text), a.significandStart, a.significandEnd, FractionStop(text)))
    && a.exponentEnd == |text|
    && (if FractionStop(text) == |text| then a.exponentStart == |text| && !a.exponentNegative
        else
          && HasExponent(text) && a.exponentNegative == ExponentIsNegative(text)
          && ExponentTrimmed(text, ExponentDigits(text), a.exponentStart))
    && a.mantissaNegative == (text[0] == MINUS)
  }

  // One of the two loops over the digits of the mantissa.
  method ScanDigits(text: bytes, pos0: nat, first0: Option<nat>, stop0: nat, ghost from: nat)
    returns (pos: nat, first: Option<nat>, stop: nat)
    requires from <= pos0 <= |text|
    requires if first0.None? then NoneButZeroes(text, from, pos0) else Trimmed(text, from, first0.value, stop0, pos0)
    ensures pos == SkipDigits(text, pos0)
    ensures if first.None? then NoneButZeroes(text, from, pos) else Trimmed(text, from, first.value, stop, pos)
  {
    pos, first, stop := pos0, first0, stop0;
    while pos != |text|
      invariant pos0 <= pos <= |text| && SkipDigits(text, pos) == SkipDigits(text, pos0)
      invariant if first.None? then NoneButZeroes(text, from, pos) else Trimmed(text, from, first.value, stop, pos)
    {
      var c := text[pos];
      if c == ZERO {
        pos := pos + 1;
      } else {
        if !IsDigit(c) { break; }
        if first.None? {
          first := Some(pos);
        }
        pos := pos + 1;
        stop := pos;
      }
    }
  }

  lemma {:induction false} ZeroesSkipped(text: bytes, from: nat, start: nat)
    requires ExponentTrimmed(text, from, start)
    ensures SkipDigits(text, start) == SkipDigits(text, from)
    decreases start - from
  {
    if from < start {
      ZeroesSkipped(text, from + 1, start);
    }
  }

  // The part of _bijson_analyze_string that deals with the exponent. Without an exponent the
  // position stays where it is.
  method ScanExponent(text: bytes, pos0: nat) returns (pos: nat, start: nat, negative: bool)
    requires text != [] && pos0 == FractionStop(text)
    ensures pos == |text| <==> WellFormedDecimal(text)
    ensures pos == |text| ==>
      if FractionStop(text) == |text| then start == |text| && !negative
      else
        && HasExponent(text) && negative == ExponentIsNegative(text)
        && ExponentTrimmed(text, ExponentDigits(text), start)
  {
    hide SkipDigits, FractionStop;
    pos, start, negative := pos0, pos0, false;
    if pos != |text| && (text[pos] == 0x65 || text[pos] == 0x45) {
      pos := pos + 1;
      if pos != |text| {
        var c := text[pos];
        negative := c == MINUS;
        if negative || c == PLUS {
          pos := pos + 1;
        }
      }
      ghost var digits := pos;
      while pos != |text| && text[pos] == ZERO
        invariant digits <= pos <= |text|
        invariant forall i :: digits <= i < pos ==> text[i] == ZERO
      {
        pos := pos + 1;
      }
      start := pos;
      ZeroesSkipped(text, digits, start);
      pos := PassDigits(text, pos);
    }
  }

  // _bijson_analyze_string
  method AnalyzeString(text: bytes) returns (r: Result<Analysis>)
    requires text != []
    ensures match r
      case Ok(a) => WellFormedDecimal(text) && Analyzed(text, a)
      case Err(e) => e == InvalidDecimalSyntax && !WellFormedDecimal(text)
  {
    hide SkipDigits, Trimmed, WellFormedDecimal, ExponentTrimmed;
    var pos := 0;
    var c := text[pos];
    var mantissaNegative := c == MINUS;
    if mantissaNegative || c == PLUS {
      pos := pos + 1;
    }
    ghost var from := pos;
    var first: Option<nat> := None;
    var stop: nat := 0;
    pos, first, stop := ScanDigits(text, pos, first, stop, from);
    var decimalPoint := pos;
    if pos != |text| && text[pos] == POINT {
      pos := pos + 1;
      PointSkipped(text, from, first, stop, pos);
      pos, first, stop := ScanDigits(text, pos, first, stop, from);
    }
    var start := if first.Some? then first.value else decimalPoint;
    if first.None? {
      stop := decimalPoint;
    } else {
      TrimmedMeans(text, from, start, stop, pos);
    }
    assert pos == FractionStop(text);
    var exponentStart, exponentNegative;
    pos, exponentStart, exponentNegative := ScanExponent(text, pos);
    if pos != |text| {
      return Err(InvalidDecimalSyntax);
    }
    return Ok(Analysis(start, stop, decimalPoint, exponentStart, |text|, mantissaNegative, exponentNegative));
  }

  lemma {:induction false} PointSkipped(text: bytes, from: nat, first: Option<nat>, stop: nat, pos: nat)
    requires from < pos <= |text| && text[pos - 1] == POINT
    requires if first.None? then NoneButZeroes(text, from, pos - 1) else Trimmed(text, from, first.value, stop, pos - 1)
    ensures if first.None? then NoneButZeroes(text, from, pos) else Trimmed(text, from, first.value, stop, pos)
  {
  }

  lemma {:induction false} TrimmedMeans(text: bytes, from: nat, start: nat, stop: nat, end: nat)
    requires Trimmed(text, from, start, stop, end)
    ensures start < stop
  {
  }

  // ---------- The analysis keeps the value ----------

  lemma {:induction false} NumberConcat(x: bytes, y: bytes)
    requires AllDigits(x) && AllDigits(y)
    ensures AllDigits(x + y) && NumberOf(x + y) == Scaled(NumberOf(x), |y|) + NumberOf(y)
  {
    hide Pow10, Scaled;
    if y == [] {
      assert x + y == x;
      ScaledAtZero(NumberOf(x));
    } else {
      NumberConcat(x, y[..|y| - 1]);
      assert (x + y)[..|x + y| - 1] == x + y[..|y| - 1];
      ScaledTen(NumberOf(x), |y| - 1);
    }
  }

  lemma {:induction false} ScaledTen(d: nat, i: nat)
    ensures 10 * Scaled(d, i) == Scaled(d, i + 1)
  {
    Commute(10, d, Pow10(i));
  }

  predicate AllZeroDigits(s: bytes) {
    forall i :: 0 <= i < |s| ==> s[i] == ZERO
  }

  lemma {:induction false} ZeroDigits(s: bytes)
    requires AllZeroDigits(s)
    ensures AllDigits(s) && NumberOf(s) == 0
  {
    if s != [] {
      ZeroDigits(s[..|s| - 1]);
    }
  }

  // Zeroes in front do not count, zeroes behind scale.
  lemma {:induction false} ZeroesAround(l: bytes, d: bytes, z: bytes)
    requires AllZeroDigits(l) && AllZeroDigits(z) && AllDigits(d)
    ensures AllDigits(l + d + z) && NumberOf(l + d + z) == Scaled(NumberOf(d), |z|)
  {
    hide NumberOf, Scaled;
    ZeroDigits(l);
    ZeroDigits(z);
    NumberConcat(l, d);
    NumberConcat(l + d, z);
    ScaledZero(|d|);
  }

  lemma {:induction false} ScaledZero(i: nat)
    ensures Scaled(0, i) == 0
  {
  }

  lemma {:induction false} WithoutConcat(a: bytes, b: bytes, point: int)
    ensures Without(a + b, point) == Without(a, point) + Without(b, point - |a|)
  {
    if 0 <= point < |a| {
      WithoutLeft(a, b, point);
    } else if |a| <= point < |a| + |b| {
      WithoutRight(a, b, point - |a|);
    }
  }

  lemma {:induction false} WithoutLeft(a: bytes, b: bytes, p: nat)
    requires p < |a|
    ensures (a + b)[..p] + (a + b)[p + 1..] == a[..p] + a[p + 1..] + b
  {
    assert (a + b)[..p] == a[..p];
    assert (a + b)[p + 1..] == a[p + 1..] + b;
    Associate(a[..p], a[p + 1..], b);
  }

  lemma {:induction false} WithoutRight(a: bytes, b: bytes, q: nat)
    requires q < |b|
    ensures (a + b)[..|a| + q] + (a + b)[|a| + q + 1..] == a + (b[..q] + b[q + 1..])
  {
    assert (a + b)[..|a| + q] == a + b[..q];
    assert (a + b)[|a| + q + 1..] == b[q + 1..];
    Associate(a, b[..q], b[q + 1..]);
  }

  // All characters of the mantissa but the point are digits.
  lemma {:induction false} MantissaChar(text: bytes, i: nat)
    requires text != [] && WholeStart(text) <= i < FractionStop(text) && i != WholeEnd(text)
    ensures IsDigit(text[i])
  {
    hide SkipDigits;
    if i < WholeEnd(text) {
      SkippedAreDigits(text, WholeStart(text), i);
    } else {
      SkippedAreDigits(text, WholeEnd(text) + 1, i);
    }
  }

  // The digits of the mantissa are its characters without the point.
  lemma {:induction false} MantissaIsWithout(text: bytes)
    requires text != []
    ensures var from, point, end := WholeStart(text), WholeEnd(text), FractionStop(text);
      text[from..point] + FractionDigits(text) == Without(text[from..end], point - from)
  {
    hide SkipDigits;
    var from, point, end := WholeStart(text), WholeEnd(text), FractionStop(text);
    if point < end {
      assert text[from..end][..point - from] == text[from..point];
      assert text[from..end][point - from + 1..] == text[point + 1..end];
    }
  }

  // The power of ten that the analysis finds for the significand.
  function Shift(a: Analysis): int {
    if a.decimalPoint < a.significandEnd then -(a.significandEnd - a.decimalPoint - 1)
    else a.decimalPoint - a.significandEnd
  }

  function SignificandText(text: bytes, a: Analysis): bytes
    requires a.significandStart <= a.significandEnd <= |text|
  {
    text[a.significandStart..a.significandEnd]
  }

  // A slice of the mantissa in which all digits are zeroes.
  lemma {:induction false} SliceOfZeroes(text: bytes, lo: nat, hi: nat)
    requires text != [] && WholeStart(text) <= lo <= hi <= FractionStop(text)
    requires forall i :: lo <= i < hi ==> text[i] == ZERO || text[i] == POINT
    ensures AllZeroDigits(Without(text[lo..hi], WholeEnd(text) - lo))
    ensures |Without(text[lo..hi], WholeEnd(text) - lo)| == hi - lo - if lo <= WholeEnd(text) < hi then 1 else 0
  {
    hide WholeStart, WholeEnd, FractionStop;
    forall i | lo <= i < hi && i != WholeEnd(text)
      ensures text[i] == ZERO
    {
      MantissaChar(text, i);
    }
  }

  lemma {:induction false} SignificandIs(text: bytes, a: Analysis)
    requires text != [] && Analyzed(text, a) && a.significandStart < a.significandEnd
    ensures a.significandEnd <= |text|
    ensures Significand(SignificandText(text, a), a.decimalPoint - a.significandStart)
  {
    hide WholeStart, WholeEnd, FractionStop;
    var s := SignificandText(text, a);
    forall i | 0 <= i < |s| && i != a.decimalPoint - a.significandStart
      ensures IsDigit(s[i])
    {
      MantissaChar(text, a.significandStart + i);
    }
    PointIsNoDigit(text);
  }

  lemma {:induction false} PointIsNoDigit(text: bytes)
    requires text != []
    ensures WholeEnd(text) < |text| ==> !IsDigit(text[WholeEnd(text)])
  {
  }

  // The significand, with its shift, is the mantissa; and a mantissa without a significand is
  // zero. This holds wherever the point and the zeroes are.
  lemma {:induction false} MantissaKept(text: bytes, a: Analysis)
    requires text != [] && Analyzed(text, a)
    ensures a.significandStart == a.significandEnd ==> Mantissa(text).digits == 0
    ensures a.significandStart < a.significandEnd ==>
      && a.significandEnd <= |text|
      && Significand(SignificandText(text, a), a.decimalPoint - a.significandStart)
      && var d := Without(SignificandText(text, a), a.decimalPoint - a.significandStart);
      && AllDigits(d) && SameNumber(Mantissa(text), Scientific(NumberOf(d), Shift(a)))
  {
    hide WholeStart, WholeEnd, FractionStop, NumberOf, Without, Significand, Mantissa, Analyzed, SameNumber;
    if a.significandStart == a.significandEnd {
      ZeroMantissa(text, a);
    } else {
      var n := TrimmedMantissa(text, a);
      var point: int := a.decimalPoint;
      var d := Without(SignificandText(text, a), point - a.significandStart);
      SameScaled(NumberOf(d), n, Shift(a));
    }
  }

  lemma {:induction false} SameScaled(v: nat, n: nat, scale: int)
    ensures SameNumber(Scientific(Scaled(v, n), scale - n), Scientific(v, scale))
  {
  }

  lemma {:induction false} ZeroMantissa(text: bytes, a: Analysis)
    requires text != [] && Analyzed(text, a) && a.significandStart == a.significandEnd
    ensures Mantissa(text).digits == 0
  {
    hide WholeStart, WholeEnd, FractionStop, NumberOf, Without;
    var from: int, point: int, end: int := WholeStart(text), a.decimalPoint, FractionStop(text);
    MantissaIsWithout(text);
    FractionLength(text);
    SliceOfZeroes(text, from, end);
    ZeroDigits(Without(text[from..end], point - from));
  }

  // The zeroes behind the significand: n digits, and perhaps the point between them.
  lemma {:induction false} TrimmedMantissa(text: bytes, a: Analysis) returns (n: nat)
    requires text != [] && Analyzed(text, a)
    requires a.significandStart != a.significandEnd
    ensures a.significandStart < a.significandEnd <= |text|
    ensures Significand(SignificandText(text, a), a.decimalPoint - a.significandStart)
    ensures var d := Without(SignificandText(text, a), a.decimalPoint - a.significandStart);
      AllDigits(d) && Mantissa(text) == Scientific(Scaled(NumberOf(d), n), Shift(a) - n)
  {
    hide WholeStart, WholeEnd, FractionStop, NumberOf, Without, Significand, Scaled, Mantissa;
    var from, end := WholeStart(text), FractionStop(text);
    var start, stop, point: int := a.significandStart, a.significandEnd, a.decimalPoint;
    TrimmedIs(text, a);
    SignificandIs(text, a);
    WithoutDigits(SignificandText(text, a), point - start);
    SliceOfZeroes(text, from, start);
    SliceOfZeroes(text, stop, end);
    var l, z := Without(text[from..start], point - from), Without(text[stop..end], point - stop);
    n := |z|;
    MantissaParts(text, from, start, stop, end, point);
    MantissaNumber(text, l, Without(SignificandText(text, a), point - start), z);
    FractionLength(text);
  }

  lemma {:induction false} TrimmedIs(text: bytes, a: Analysis)
    requires text != [] && Analyzed(text, a) && a.significandStart != a.significandEnd
    ensures a.decimalPoint == WholeEnd(text)
    ensures Trimmed(text, WholeStart(text), a.significandStart, a.significandEnd, FractionStop(text))
  {
  }

  lemma {:induction false} MantissaNumber(text: bytes, l: bytes, d: bytes, z: bytes)
    requires text != [] && WholeStart(text) <= FractionStop(text) <= |text|
    requires Without(text[WholeStart(text)..FractionStop(text)], WholeEnd(text) - WholeStart(text)) == l + d + z
    requires AllZeroDigits(l) && AllZeroDigits(z) && AllDigits(d)
    ensures Mantissa(text) == Scientific(Scaled(NumberOf(d), |z|), -|FractionDigits(text)|)
  {
    hide WholeStart, WholeEnd, FractionStop, NumberOf, Without, Scaled, FractionDigits;
    MantissaIsWithout(text);
    ZeroesAround(l, d, z);
  }

  lemma {:induction false} MantissaParts(text: bytes, from: nat, start: nat, stop: nat, end: nat, point: int)
    requires from <= start <= stop <= end <= |text|
    ensures Without(text[from..end], point - from)
         == Without(text[from..start], point - from) + Without(text[start..stop], point - start)
            + Without(text[stop..end], point - stop)
  {
    hide Without;
    assert text[from..end] == text[from..start] + text[start..stop] + text[stop..end];
    WithoutConcat(text[from..start], text[start..stop], point - from);
    WithoutConcat(text[from..start] + text[start..stop], text[stop..end], point - from);
  }

  lemma {:induction false} FractionLength(text: bytes)
    requires text != []
    ensures WholeStart(text) <= WholeEnd(text) <= FractionStop(text) <= |text|
    ensures |FractionDigits(text)| == if WholeEnd(text) < FractionStop(text) then FractionStop(text) - WholeEnd(text) - 1 else 0
  {
    hide SkipDigits;
  }

  function ExponentText(text: bytes, a: Analysis): bytes
    requires a.exponentStart <= a.exponentEnd <= |text|
  {
    text[a.exponentStart..a.exponentEnd]
  }

  // The exponent's digits without leading zeroes, and its sign, are the exponent.
  lemma {:induction false} ExponentKept(text: bytes, a: Analysis)
    requires text != [] && Analyzed(text, a) && WellFormedDecimal(text)
    ensures a.exponentStart <= a.exponentEnd <= |text| && Numeral(ExponentText(text, a))
    ensures var e: int := NumberOf(ExponentText(text, a));
      Exponent(text) == if a.exponentNegative then -e else e
  {
    hide SkipDigits, NumberOf;
    NumberOfNothing();
    var e := ExponentText(text, a);
    if FractionStop(text) == |text| {
      assert e == [];
    } else {
      var from := ExponentDigits(text);
      RunIsDigits(text, from, |text|);
      var zeroes := text[from..a.exponentStart];
      assert text[from..] == zeroes + e;
      forall i | 0 <= i < |e|
        ensures IsDigit(e[i])
      {
        assert e[i] == text[from..|text|][i + |zeroes|];
      }
      ZeroDigits(zeroes);
      NumberConcat(zeroes, e);
      ScaledZero(|e|);
    }
  }

  // ---------- The analysis as a function ----------

  // The first character that is neither a zero nor the point.
  function FirstDigit(text: bytes, from: nat, end: nat): (r: nat)
    requires from <= end <= |text|
    ensures from <= r <= end && NoneButZeroes(text, from, r)
    ensures r < end ==> text[r] != ZERO && text[r] != POINT
    decreases end - from
  {
    if from < end && (text[from] == ZERO || text[from] == POINT) then FirstDigit(text, from + 1, end) else from
  }

  // The position behind the last such character.
  function LastDigit(text: bytes, from: nat, end: nat): (r: nat)
    requires from <= end <= |text|
    ensures from <= r <= end && NoneButZeroes(text, r, end)
    ensures from < r ==> text[r - 1] != ZERO && text[r - 1] != POINT
    decreases end
  {
    if from < end && (text[end - 1] == ZERO || text[end - 1] == POINT) then LastDigit(text, from, end - 1) else end
  }

  function SkipZeroes(text: bytes, from: nat): (r: nat)
    requires from <= |text|
    ensures ExponentTrimmed(text, from, r)
    decreases |text| - from
  {
    if from < |text| && text[from] == ZERO then SkipZeroes(text, from + 1) else from
  }

  function AnalysisOf(text: bytes): (a: Analysis)
    requires text != [] && WellFormedDecimal(text)
    ensures Analyzed(text, a)
  {
    var from, end := WholeStart(text), FractionStop(text);
    var first := FirstDigit(text, from, end);
    var last := LastDigit(text, first, end);
    MantissaDigits(text);
    Analysis(
      if first == end then WholeEnd(text) else first,
      if first == end then WholeEnd(text) else last,
      WholeEnd(text),
      if end == |text| then |text| else SkipZeroes(text, ExponentDigits(text)),
      |text|,
      text[0] == MINUS,
      end != |text| && ExponentIsNegative(text))
  }

  lemma {:induction false} MantissaDigits(text: bytes)
    requires text != []
    ensures forall i :: WholeStart(text) <= i < FractionStop(text) && i != WholeEnd(text) ==> IsDigit(text[i])
    ensures WholeEnd(text) < FractionStop(text) ==> text[WholeEnd(text)] == POINT
  {
    forall i | WholeStart(text) <= i < FractionStop(text) && i != WholeEnd(text)
      ensures IsDigit(text[i])
    {
      if i < WholeEnd(text) {
        SkippedAreDigits(text, WholeStart(text), i);
      } else {
        SkippedAreDigits(text, WholeEnd(text) + 1, i);
      }
    }
  }

  // There is only one analysis of a text.
  lemma {:induction false} AnalysisIsUnique(text: bytes, a: Analysis)
    requires text != [] && WellFormedDecimal(text) && Analyzed(text, a)
    ensures a == AnalysisOf(text)
  {
    hide SkipDigits, WholeStart, WholeEnd, FractionStop, ExponentDigits, WellFormedDecimal, FirstDigit, LastDigit;
    hide SkipZeroes;
    var b := AnalysisOf(text);
    assert Analyzed(text, b);
    if a.significandStart == a.significandEnd {
      assert b.significandStart == b.significandEnd;
    } else {
      assert a.significandStart == b.significandStart;
      assert a.significandEnd == b.significandEnd;
    }
    assert a.exponentStart == b.exponentStart;
  }
}
