// The numbers of section 6 of RFC 8259, and what the lexer makes of them (_bijson_find_json_number_end
// in lib/writer/parse.c): it finds the end of every one of them, and takes some other texts for
// numbers as well.
module JsonNumbers {
  import opened Wrappers
  import opened Bytes
  import opened Tree
  import opened Digits
  import opened DecimalText
  import opened Grammar
  import opened DecimalSyntax

  // ---------- The standard ----------

  predicate IsExponentMark(c: byte) {
    c == 0x65 || c == 0x45
  }

  predicate IsSign(c: byte) {
    c == PLUS || c == MINUS
  }

  // int = zero / ( digit1-9 *DIGIT )
  predicate IntPart(s: bytes) {
    s == [ZERO] || (s != [] && s[0] != ZERO && AllDigits(s))
  }

  // [ frac ], where frac = decimal-point 1*DIGIT
  predicate FracPart(s: bytes) {
    s == [] || (|s| > 1 && s[0] == POINT && AllDigits(s[1..]))
  }

  // [ exp ], where exp = e [ minus / plus ] 1*DIGIT
  predicate ExpPart(s: bytes) {
    || s == []
    || (|s| > 1 && IsExponentMark(s[0]) && AllDigits(s[1..]))
    || (|s| > 2 && IsExponentMark(s[0]) && IsSign(s[1]) && AllDigits(s[2..]))
  }

  // number = [ minus ] int [ frac ] [ exp ], cut at a, b and c
  predicate CutsNumber(s: bytes, a: nat, b: nat, c: nat) {
    && a <= b <= c <= |s|
    && (a == 0 || (a == 1 && s[0] == MINUS))
    && IntPart(s[a..b]) && FracPart(s[b..c]) && ExpPart(s[c..])
  }

  ghost predicate RfcNumber(s: bytes) {
    exists a: nat, b: nat, c: nat :: CutsNumber(s, a, b, c)
  }

  // The same with any of the digits left out, as long as it begins with a sign or a digit.
  predicate CutsLoosely(s: bytes, a: nat, b: nat, c: nat) {
    && s != [] && (IsDigit(s[0]) || s[0] == MINUS)
    && a <= b <= c <= |s|
    && (a == 0 || (a == 1 && s[0] == MINUS))
    && (IntPart(s[a..b]) || a == b)
    && (FracPart(s[b..c]) || s[b..c] == [POINT])
    && (ExpPart(s[c..]) || (|s| == c + 1 && IsExponentMark(s[c]))
        || (|s| == c + 2 && IsExponentMark(s[c]) && IsSign(s[c + 1])))
  }

  ghost predicate LooseNumber(s: bytes) {
    exists a: nat, b: nat, c: nat :: CutsLoosely(s, a, b, c)
  }

  // ---------- Which of the texts that the lexer finds are numbers ----------

  predicate DigitAt(s: bytes, i: nat) {
    i < |s| && IsDigit(s[i])
  }

  // There is a digit behind the sign, if there is one, behind every point, and behind every "e"
  // and the sign that may follow it.
  predicate DigitsFollow(s: bytes) {
    && (DigitAt(s, 0) || (s != [] && s[0] == MINUS && DigitAt(s, 1)))
    && (forall i :: 0 <= i < |s| ==> DigitFollows(s, i))
  }

  predicate DigitFollows(s: bytes, i: nat)
    requires i < |s|
  {
    && (s[i] == POINT ==> DigitAt(s, i + 1))
    && (IsExponentMark(s[i]) ==> DigitAt(s, i + 1) || (i + 1 < |s| && IsSign(s[i + 1]) && DigitAt(s, i + 2)))
  }

  lemma {:induction false} NumbersHaveDigits(s: bytes, a: nat, b: nat, c: nat)
    requires CutsNumber(s, a, b, c)
    ensures DigitsFollow(s)
  {
    CutCharacters(s, a, b, c);
    hide IntPart, FracPart, ExpPart;
    forall i | 0 <= i < |s|
      ensures DigitFollows(s, i)
    {
    }
  }

  lemma {:induction false} RunOfDigits(buf: bytes, from: nat)
    requires from <= |buf|
    ensures forall i :: from <= i < SkipDigits(buf, from) ==> IsDigit(buf[i])
    decreases |buf| - from
  {
    if from < |buf| && IsDigit(buf[from]) {
      RunOfDigits(buf, from + 1);
    }
  }

  // The text that the lexer finds, cut at the same places.
  function IntStart(buf: bytes, pos: nat): nat
    requires pos < |buf|
  {
    SkipSign(buf, pos, false)
  }

  function IntStop(buf: bytes, pos: nat): (p: nat)
    requires pos < |buf| && IntStart(buf, pos) < |buf|
    ensures IntStart(buf, pos) <= p <= |buf|
  {
    var start := IntStart(buf, pos);
    if buf[start] == ZERO then start + 1 else SkipDigits(buf, start)
  }

  lemma {:induction false} LexedCuts(buf: bytes, pos: nat, end: nat)
    requires pos < |buf| && NumberEnd(buf, pos) == Some(end) && DigitsFollow(buf[pos..end])
    ensures RfcNumber(buf[pos..end])
  {
    hide SkipDigits, DigitsFollow, IntPart, FracPart, ExpPart, FractionEnd, ExponentEnd, RfcNumber;
    var start := IntStart(buf, pos);
    var whole := IntStop(buf, pos);
    var fraction := FractionEnd(buf, whole).value;
    IntIsLexed(buf, pos, start, whole, end);
    FracIsLexed(buf, pos, whole, fraction, end);
    ExpIsLexed(buf, pos, fraction, end);
    SliceCuts(buf, pos, start, whole, fraction, end);
    CutIsNumber(buf[pos..end], start - pos, whole - pos, fraction - pos);
  }

  lemma {:induction false} SliceCuts(buf: bytes, pos: nat, start: nat, whole: nat, fraction: nat, end: nat)
    requires pos <= start <= whole <= fraction <= end <= |buf| && pos < end
    requires start == pos || (start == pos + 1 && buf[pos] == MINUS)
    requires IntPart(buf[start..whole]) && FracPart(buf[whole..fraction]) && ExpPart(buf[fraction..end])
    ensures CutsNumber(buf[pos..end], start - pos, whole - pos, fraction - pos)
  {
    hide IntPart, FracPart, ExpPart;
    SliceParts(buf, pos, start, whole, fraction, end);
  }

  lemma {:induction false} SliceParts(buf: bytes, pos: nat, start: nat, whole: nat, fraction: nat, end: nat)
    requires pos <= start <= whole <= fraction <= end <= |buf| && pos < end
    ensures var s := buf[pos..end];
      && s[0] == buf[pos]
      && s[start - pos..whole - pos] == buf[start..whole] && s[whole - pos..fraction - pos] == buf[whole..fraction]
      && s[fraction - pos..] == buf[fraction..end]
  {
    SliceOfSlice(buf, pos, end, start, whole);
    SliceOfSlice(buf, pos, end, whole, fraction);
    SliceOfSlice(buf, pos, end, fraction, end);
    assert buf[pos..end][fraction - pos..] == buf[pos..end][fraction - pos..end - pos];
  }

  lemma {:induction false} CutIsNumber(s: bytes, a: nat, b: nat, c: nat)
    requires CutsNumber(s, a, b, c)
    ensures RfcNumber(s)
  {
  }

  lemma {:induction false} SliceOfSlice(buf: bytes, pos: nat, end: nat, i: nat, j: nat)
    requires pos <= i <= j <= end <= |buf|
    ensures buf[pos..end][i - pos..j - pos] == buf[i..j]
  {
    var a, b := buf[pos..end][i - pos..j - pos], buf[i..j];
    forall n | 0 <= n < |a|
      ensures a[n] == b[n]
    {
      assert a[n] == buf[pos..end][i - pos + n];
    }
  }

  lemma {:induction false} IntIsLexed(buf: bytes, pos: nat, start: nat, whole: nat, end: nat)
    requires pos < |buf| && start == IntStart(buf, pos) < |buf| && whole == IntStop(buf, pos) <= end <= |buf|
    requires DigitsFollow(buf[pos..end])
    ensures IntPart(buf[start..whole])
  {
    RunOfDigits(buf, start);
    assert buf[pos..end][start - pos] == buf[start];
    if buf[start] == ZERO {
      assert buf[start..whole] == [ZERO];
    } else {
      assert SkipDigits(buf, start) > start;
      assert buf[start..whole][0] == buf[start];
    }
  }

  lemma {:induction false} FracIsLexed(buf: bytes, pos: nat, whole: nat, fraction: nat, end: nat)
    requires pos <= whole <= |buf| && FractionEnd(buf, whole) == Some(fraction) && fraction <= end <= |buf|
    requires DigitsFollow(buf[pos..end])
    ensures FracPart(buf[whole..fraction])
  {
    if whole < fraction {
      RunOfDigits(buf, whole + 1);
      assert buf[pos..end][whole - pos] == POINT && DigitFollows(buf[pos..end], whole - pos);
      assert buf[pos..end][whole + 1 - pos] == buf[whole + 1];
      assert SkipDigits(buf, whole + 1) > whole + 1;
      assert buf[whole..fraction][1..] == buf[whole + 1..fraction];
    }
  }

  lemma {:induction false} ExpIsLexed(buf: bytes, pos: nat, fraction: nat, end: nat)
    requires pos <= fraction <= |buf| && ExponentEnd(buf, fraction) == Some(end) && end <= |buf|
    requires DigitsFollow(buf[pos..end])
    ensures fraction <= end && ExpPart(buf[fraction..end])
  {
    if fraction < end {
      var digits := SkipSign(buf, fraction + 1, true);
      RunOfDigits(buf, digits);
      var s, i := buf[pos..end], fraction - pos;
      assert s[i] == buf[fraction] && IsExponentMark(s[i]);
      assert i + 1 < |s| ==> s[i + 1] == buf[fraction + 1];
      assert DigitFollows(s, i);
      assert digits < end;
      assert buf[fraction..end][1..] == buf[fraction + 1..end];
      assert buf[fraction..end][2..] == buf[fraction + 2..end];
    }
  }

  // A text that the lexer takes for a number is one exactly if digits follow where they must.
  lemma {:induction false} LexedNumber(buf: bytes, pos: nat, end: nat)
    requires pos < |buf| && NumberEnd(buf, pos) == Some(end)
    ensures RfcNumber(buf[pos..end]) <==> DigitsFollow(buf[pos..end])
  {
    if DigitsFollow(buf[pos..end]) {
      LexedCuts(buf, pos, end);
    }
    if RfcNumber(buf[pos..end]) {
      var a: nat, b: nat, c: nat :| CutsNumber(buf[pos..end], a, b, c);
      NumbersHaveDigits(buf[pos..end], a, b, c);
    }
  }

  // Whatever it takes for a number looks like one.
  lemma {:induction false} LexedLoosely(buf: bytes, pos: nat, end: nat)
    requires pos < |buf| && StartsNumber(buf[pos]) && NumberEnd(buf, pos) == Some(end)
    ensures pos < end <= |buf| && LooseNumber(buf[pos..end])
  {
    hide SkipDigits, IntPart, FracPart, ExpPart, FractionEnd, ExponentEnd, LooseNumber;
    var start := IntStart(buf, pos);
    var whole := IntStop(buf, pos);
    var fraction := FractionEnd(buf, whole).value;
    IntLoosely(buf, start, whole);
    FracLoosely(buf, whole, fraction);
    ExpLoosely(buf, fraction, end);
    SliceCutsLoosely(buf, pos, start, whole, fraction, end);
    LooseCut(buf[pos..end], start - pos, whole - pos, fraction - pos);
  }

  lemma {:induction false} SliceCutsLoosely(buf: bytes, pos: nat, start: nat, whole: nat, fraction: nat, end: nat)
    requires pos <= start <= whole <= fraction <= end <= |buf| && pos < end
    requires start == pos || (start == pos + 1 && buf[pos] == MINUS)
    requires StartsNumber(buf[pos]) && (whole == start || IntPart(buf[start..whole]))
    requires FracPart(buf[whole..fraction]) || buf[whole..fraction] == [POINT]
    requires var s := buf[fraction..end];
      || ExpPart(s) || (|s| == 1 && IsExponentMark(s[0])) || (|s| == 2 && IsExponentMark(s[0]) && IsSign(s[1]))
    ensures CutsLoosely(buf[pos..end], start - pos, whole - pos, fraction - pos)
  {
    hide IntPart, FracPart, ExpPart;
    SliceParts(buf, pos, start, whole, fraction, end);
    var s, c := buf[pos..end], fraction - pos;
    if c < |s| {
      assert s[c..][0] == s[c];
    }
    if c + 1 < |s| {
      assert s[c..][1] == s[c + 1];
    }
  }

  lemma {:induction false} LooseCut(s: bytes, a: nat, b: nat, c: nat)
    requires CutsLoosely(s, a, b, c)
    ensures LooseNumber(s)
  {
  }

  lemma {:induction false} IntLoosely(buf: bytes, start: nat, whole: nat)
    requires start < |buf| && whole == (if buf[start] == ZERO then start + 1 else SkipDigits(buf, start))
    ensures whole <= |buf| && (whole == start || IntPart(buf[start..whole]))
  {
    RunOfDigits(buf, start);
    if buf[start] == ZERO {
      assert buf[start..whole] == [ZERO];
    } else if whole > start {
      assert buf[start..whole][0] == buf[start];
    }
  }

  lemma {:induction false} FracLoosely(buf: bytes, whole: nat, fraction: nat)
    requires whole <= |buf| && FractionEnd(buf, whole) == Some(fraction)
    ensures whole <= fraction <= |buf| && (FracPart(buf[whole..fraction]) || buf[whole..fraction] == [POINT])
  {
    if whole < fraction {
      RunOfDigits(buf, whole + 1);
      if fraction == whole + 1 {
        assert buf[whole..fraction] == [POINT];
      } else {
        assert buf[whole..fraction][1..] == buf[whole + 1..fraction];
      }
    }
  }

  lemma {:induction false} ExpLoosely(buf: bytes, fraction: nat, end: nat)
    requires fraction <= |buf| && ExponentEnd(buf, fraction) == Some(end)
    ensures fraction <= end <= |buf|
    ensures var s := buf[fraction..end];
      || ExpPart(s) || (|s| == 1 && IsExponentMark(s[0])) || (|s| == 2 && IsExponentMark(s[0]) && IsSign(s[1]))
  {
    if fraction < end {
      var digits := SkipSign(buf, fraction + 1, true);
      RunOfDigits(buf, digits);
      assert buf[fraction..end][1..] == buf[fraction + 1..end];
      if end - fraction >= 2 {
        assert buf[fraction..end][2..] == buf[fraction + 2..end];
      }
    }
  }

  // ---------- All numbers are found ----------

  // No number begins with s and goes on with x.
  ghost predicate CannotContinue(s: bytes, x: byte) {
    forall t: bytes :: !RfcNumber(s + [x] + t)
  }

  lemma {:induction false} Continues(s: bytes, x: byte, t: bytes, a: nat, b: nat, c: nat)
    requires CutsNumber(s + [x] + t, a, b, c)
    ensures !CannotContinue(s, x)
  {
    assert RfcNumber(s + [x] + t);
  }

  // What cannot continue a number cannot be taken for a part of it.
  lemma {:induction false} AfterExp(s: bytes, a: nat, b: nat, c: nat, x: byte)
    requires CutsNumber(s, a, b, c) && CannotContinue(s, x)
    ensures c < |s| ==> !IsDigit(x)
    ensures c == |s| ==> !IsExponentMark(x)
  {
    hide IntPart, FracPart, CannotContinue;
    var more, tail := s + [x] + [], s + [x] + [ZERO];
    if c < |s| && IsDigit(x) {
      assert more[a..b] == s[a..b] && more[b..c] == s[b..c] && more[c..] == s[c..] + [x];
      assert more[c..][1..] == s[c..][1..] + [x] && more[c..][2..] == s[c..][2..] + [x];
      Continues(s, x, [], a, b, c);
    }
    if c == |s| && IsExponentMark(x) {
      assert tail[a..b] == s[a..b] && tail[b..c] == s[b..c] && tail[c..] == [x, ZERO];
      assert [x, ZERO][1..] == [ZERO];
      Continues(s, x, [ZERO], a, b, c);
    }
  }

  lemma {:induction false} AfterFrac(s: bytes, a: nat, b: nat, c: nat, x: byte)
    requires CutsNumber(s, a, b, c) && CannotContinue(s, x) && c == |s|
    ensures b < c ==> !IsDigit(x)
    ensures b == c ==> x != POINT
  {
    hide IntPart, CannotContinue;
    var more, tail := s + [x] + [], s + [x] + [ZERO];
    if b < c && IsDigit(x) {
      assert more[a..b] == s[a..b] && more[b..c + 1] == s[b..c] + [x] && more[c + 1..] == [];
      assert more[b..c + 1][1..] == s[b..c][1..] + [x];
      Continues(s, x, [], a, b, c + 1);
    }
    if b == c && x == POINT {
      assert tail[a..b] == s[a..b] && tail[b..b + 2] == [x, ZERO] && tail[b + 2..] == [];
      assert [x, ZERO][1..] == [ZERO];
      Continues(s, x, [ZERO], a, b, b + 2);
    }
  }

  lemma {:induction false} AfterInt(s: bytes, a: nat, b: nat, c: nat, x: byte)
    requires CutsNumber(s, a, b, c) && CannotContinue(s, x) && b == |s|
    ensures a < |s| && (s[a] != ZERO ==> !IsDigit(x))
  {
    hide CannotContinue;
    var more := s + [x] + [];
    if s[a] != ZERO && IsDigit(x) {
      assert s[a..b][0] == s[a];
      assert more[a..b + 1] == s[a..b] + [x] && more[b + 1..b + 1] == [] && more[b + 1..] == [];
      Continues(s, x, [], a, b + 1, b + 1);
    }
  }

  // Every number that nothing continues is found to its end.
  lemma {:induction false} NumbersAreLexed(buf: bytes, pos: nat, s: bytes)
    requires At(buf, pos, s) && RfcNumber(s)
    requires pos + |s| < |buf| ==> CannotContinue(s, buf[pos + |s|])
    ensures pos < |buf| && NumberEnd(buf, pos) == Some(pos + |s|)
  {
    hide SkipDigits, CannotContinue, RfcNumber, SkipSign, IntPart, FracPart, ExpPart;
    var a: nat, b: nat, c: nat := NumberCuts(s);
    CutCharacters(s, a, b, c);
    if pos + |s| < |buf| {
      var x := buf[pos + |s|];
      AfterExp(s, a, b, c, x);
      if c == |s| {
        AfterFrac(s, a, b, c, x);
      }
      if b == |s| {
        AfterInt(s, a, b, c, x);
      }
    }
    assert forall i :: 0 <= i < |s| ==> buf[pos + i] == s[i];
    LexSign(buf, pos, s, a);
    LexInt(buf, pos, s, a, b);
    LexFrac(buf, pos, s, b, c);
    LexExp(buf, pos, s, c);
  }

  lemma {:induction false} NumberCuts(s: bytes) returns (a: nat, b: nat, c: nat)
    requires RfcNumber(s)
    ensures CutsNumber(s, a, b, c)
  {
    a, b, c :| CutsNumber(s, a, b, c);
  }

  // The parts, character by character.
  lemma {:induction false} CutCharacters(s: bytes, a: nat, b: nat, c: nat)
    requires CutsNumber(s, a, b, c)
    ensures a < b && IsDigit(s[a]) && (forall i :: a <= i < b ==> IsDigit(s[i])) && (s[a] == ZERO ==> b == a + 1)
    ensures b < c ==> s[b] == POINT && b + 1 < c && forall i :: b < i < c ==> IsDigit(s[i])
    ensures c < |s| ==> IsExponentMark(s[c]) && c + 1 < |s|
    ensures c < |s| && IsSign(s[c + 1]) ==> c + 2 < |s| && forall i :: c + 1 < i < |s| ==> IsDigit(s[i])
    ensures c < |s| && !IsSign(s[c + 1]) ==> forall i :: c < i < |s| ==> IsDigit(s[i])
  {
    var whole, frac, exp := s[a..b], s[b..c], s[c..];
    assert forall i :: a <= i < b ==> s[i] == whole[i - a];
    assert b < c ==> forall i :: b < i < c ==> s[i] == frac[1..][i - b - 1];
    if c < |s| {
      assert exp[0] == s[c] && exp[1] == s[c + 1];
      if IsSign(s[c + 1]) {
        assert exp[1..][0] == s[c + 1];
        assert forall i :: c + 1 < i < |s| ==> s[i] == exp[2..][i - c - 2];
      } else {
        assert forall i :: c < i < |s| ==> s[i] == exp[1..][i - c - 1];
      }
    }
  }

  lemma {:induction false} LexSign(buf: bytes, pos: nat, s: bytes, a: nat)
    requires At(buf, pos, s) && a < |s| && IsDigit(s[a]) && (a == 0 || (a == 1 && s[0] == MINUS))
    ensures pos < |buf| && IntStart(buf, pos) == pos + a < |buf|
  {
    assert buf[pos] == s[0] && buf[pos + a] == s[a];
  }

  lemma {:induction false} LexInt(buf: bytes, pos: nat, s: bytes, a: nat, b: nat)
    requires At(buf, pos, s) && a < b <= |s| && (forall i :: a <= i < b ==> IsDigit(s[i])) && (s[a] == ZERO ==> b == a + 1)
    requires pos < |buf| && IntStart(buf, pos) == pos + a < |buf|
    requires s[a] != ZERO && pos + b < |buf| ==> !IsDigit(buf[pos + b])
    ensures IntStop(buf, pos) == pos + b
  {
    assert forall i :: pos + a <= i < pos + b ==> buf[i] == s[i - pos];
    if s[a] != ZERO {
      SkipsRun(buf, pos + a, pos + b);
    }
  }

  lemma {:induction false} LexFrac(buf: bytes, pos: nat, s: bytes, b: nat, c: nat)
    requires At(buf, pos, s) && b <= c <= |s|
    requires b < c ==> s[b] == POINT && b + 1 < c && forall i :: b < i < c ==> IsDigit(s[i])
    requires pos + c < |buf| ==> if b < c then !IsDigit(buf[pos + c]) else buf[pos + c] != POINT
    ensures FractionEnd(buf, pos + b) == Some(pos + c)
  {
    if b < c {
      assert forall i :: pos + b <= i < pos + c ==> buf[i] == s[i - pos];
      SkipsRun(buf, pos + b + 1, pos + c);
    }
  }

  lemma {:induction false} LexExp(buf: bytes, pos: nat, s: bytes, c: nat)
    requires At(buf, pos, s) && c <= |s|
    requires c < |s| ==> IsExponentMark(s[c]) && c + 1 < |s|
    requires c < |s| && IsSign(s[c + 1]) ==> c + 2 < |s| && forall i :: c + 1 < i < |s| ==> IsDigit(s[i])
    requires c < |s| && !IsSign(s[c + 1]) ==> forall i :: c < i < |s| ==> IsDigit(s[i])
    requires pos + |s| < |buf| ==> if c < |s| then !IsDigit(buf[pos + |s|]) else !IsExponentMark(buf[pos + |s|])
    ensures ExponentEnd(buf, pos + c) == Some(pos + |s|)
  {
    if c < |s| {
      assert forall i :: pos + c <= i < pos + |s| ==> buf[i] == s[i - pos];
      SkipsRun(buf, if IsSign(s[c + 1]) then pos + c + 2 else pos + c + 1, pos + |s|);
    }
  }

  // ---------- The writer takes them all ----------

  // What the lexer hands over is never refused as a decimal text.
  lemma {:induction false} LexedIsDecimal(buf: bytes, pos: nat, end: nat)
    requires pos < |buf| && StartsNumber(buf[pos]) && NumberEnd(buf, pos) == Some(end)
    ensures pos < end <= |buf| && WellFormedDecimal(buf[pos..end])
  {
    hide SkipDigits, IsDigit, WellFormedDecimal, FractionEnd, ExponentEnd;
    WholeIsLexed(buf, pos, end);
    var whole := IntStop(buf, pos);
    FractionIsLexed(buf, pos, whole, FractionEnd(buf, whole).value, end);
    ExponentIsLexed(buf, pos, FractionEnd(buf, whole).value, end);
  }

  lemma {:induction false} FractionIsLexed(buf: bytes, pos: nat, whole: nat, fraction: nat, end: nat)
    requires pos <= whole <= |buf| && FractionEnd(buf, whole) == Some(fraction)
    requires ExponentEnd(buf, fraction) == Some(end) && pos < end
    requires WholeEnd(buf[pos..end]) == whole - pos
    ensures FractionStop(buf[pos..end]) == fraction - pos
  {
    hide SkipDigits, IsDigit, WholeEnd;
    var t := buf[pos..end];
    assert forall i :: 0 <= i < |t| ==> t[i] == buf[pos + i];
    if fraction > whole {
      RunOfDigits(buf, whole + 1);
      SkipsRun(t, whole + 1 - pos, fraction - pos);
    }
  }

  lemma {:induction false} ExponentIsLexed(buf: bytes, pos: nat, fraction: nat, end: nat)
    requires pos <= fraction <= |buf| && ExponentEnd(buf, fraction) == Some(end) && pos < end
    requires FractionStop(buf[pos..end]) == fraction - pos
    ensures WellFormedDecimal(buf[pos..end])
  {
    hide SkipDigits, IsDigit, FractionStop;
    var t := buf[pos..end];
    assert forall i :: 0 <= i < |t| ==> t[i] == buf[pos + i];
    if fraction < end {
      var digits := SkipSign(buf, fraction + 1, true);
      RunOfDigits(buf, digits);
      SkipsRun(t, digits - pos, |t|);
    }
  }

  lemma {:induction false} WholeIsLexed(buf: bytes, pos: nat, end: nat)
    requires pos < |buf| && StartsNumber(buf[pos]) && NumberEnd(buf, pos) == Some(end)
    ensures IntStart(buf, pos) < |buf| && pos < IntStop(buf, pos) + 1 && IntStop(buf, pos) <= end <= |buf|
    ensures pos < end && WholeEnd(buf[pos..end]) == IntStop(buf, pos) - pos
  {
    var start, whole, t := IntStart(buf, pos), IntStop(buf, pos), buf[pos..end];
    assert forall i :: 0 <= i < |t| ==> t[i] == buf[pos + i];
    RunOfDigits(buf, start);
    SkipsRun(t, start - pos, whole - pos);
  }
}
