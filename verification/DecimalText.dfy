// Printing decimals (lib/reader/decimal.c).
module DecimalText {
  import opened Wrappers
  import opened Arithmetic
  import opened Bytes
  import opened Storage
  import opened Layout
  import opened Digits
  import opened Words
  import opened Output

  const MINUS: byte := 0x2D
  const LOWER_E: byte := 0x65

  // The text of a mantissa or an exponent: the top word, then each lower word as 20 digits.
  function PartText(b: bytes): (r: Result<bytes>)
    requires b != []
    ensures r.Ok? ==> AllDigits(r.value) && r.value != []
    ensures r.Err? ==> r.error == FileFormatError
  {
    if |b| <= 8 then
      var top := FromLittleEndian(b);
      if top > 9_999_999_999_999_999_998 then Err(FileFormatError) else Ok(Raw(top + 1))
    else
      var high :- PartText(b[8..]);
      var word := FromLittleEndian(b[..8]);
      if word > 9_999_999_999_999_999_999 then Err(FileFormatError)
      else Ok(high + Padded(word, 20))
  }

  lemma {:induction false} NumberOfPadded(s: bytes, v: nat, n: nat)
    requires AllDigits(s) && v < Pow10(n)
    ensures NumberOf(s + Padded(v, n)) == Pow10(n) * NumberOf(s) + v
  {
    if n == 0 {
      assert s + Padded(v, 0) == s;
    } else {
      var t := s + Padded(v, n);
      assert t[..|t| - 1] == s + Padded(v / 10, n - 1);
      NumberOfPadded(s, v / 10, n - 1);
      Associative(10, Pow10(n - 1), NumberOf(s));
    }
  }

  // What is printed is never less than the number, and it is the number exactly when one
  // word holds it: the padding has one digit too many.
  lemma {:induction false} PartTextDenotes(b: bytes)
    requires b != [] && PartText(b).Ok?
    ensures NumberOf(PartText(b).value) >= StoredNumber(b) >= 1
    ensures NumberOf(PartText(b).value) == StoredNumber(b) <==> |b| <= 8
  {
    hide Pow10, FromLittleEndian, Padded, Raw, NumberOf;
    if |b| > 8 {
      PartTextDenotes(b[8..]);
      Pow10Small();
      var high, word := PartText(b[8..]).value, FromLittleEndian(b[..8]);
      NumberOfPadded(high, word, 20);
    }
  }

  // _bijson_decimal_part_to_json
  method PrintPart(b: bytes, sink: Sink) returns (status: Status)
    requires b != []
    modifies sink
    ensures match PartText(b)
      case Ok(text) => status == Success && sink.data == old(sink.data) + text
      case Err(e) => status == Failure(e) && old(sink.data) <= sink.data
  {
    hide Raw, Padded, FromLittleEndian;
    var lastWordSize := (|b| - 1) % 8 + 1;
    var wordStart := |b| - lastWordSize;
    var last := ReadMinimalInt(b[wordStart..]);
    Pow256Values();
    if last > 9_999_999_999_999_999_998 {
      PartFails(b, wordStart);
      return Failure(FileFormatError);
    }
    var text := PrintUint64(last + 1, false);
    sink.Write(text);
    while wordStart > 0
      invariant wordStart % 8 == 0 && 0 <= wordStart < |b|
      invariant PartText(b[wordStart..]).Ok?
      invariant sink.data == old(sink.data) + PartText(b[wordStart..]).value
    {
      ghost var high := PartText(b[wordStart..]).value;
      wordStart := wordStart - 8;
      ghost var rest := b[wordStart..];
      assert rest[8..] == b[wordStart + 8..] && rest[..8] == b[wordStart..wordStart + 8];
      var word := ReadMinimalInt(b[wordStart..wordStart + 8]);
      if word > 9_999_999_999_999_999_999 {
        PartFails(b, wordStart);
        return Failure(FileFormatError);
      }
      text := PrintUint64(word, true);
      sink.Write(text);
      Associate(old(sink.data), high, text);
    }
    assert b[0..] == b;
    return Success;
  }

  // A word that cannot be printed makes the whole part unprintable.
  lemma {:induction false} PartFails(b: bytes, k: nat)
    requires k < |b| && k % 8 == 0 && PartText(b[k..]) == Err(FileFormatError)
    ensures PartText(b) == Err(FileFormatError)
  {
    hide Raw, Padded, FromLittleEndian;
    if k == 0 {
      assert b[0..] == b;
    } else {
      assert b[8..][k - 8..] == b[k..];
      PartFails(b[8..], k - 8);
    }
  }

  // ---------- Whole decimals ----------

  datatype DecimalAnalysis = DecimalAnalysis(
    exponent: bytes,
    significand: bytes,
    exponentNegative: bool,
    significandNegative: bool)

  // _bijson_decimal_analyze
  function DecimalAnalyze(buf: bytes): (r: Result<DecimalAnalysis>)
    requires buf != []
    ensures r.Ok? ==> r.value.exponent != [] && r.value.significand != []
    ensures r.Err? ==> r.error == FileFormatError
  {
    if |buf| == 1 then Err(FileFormatError)
    else
      var sizeSize := WidthBytes(buf[0] % 4);
      if 1 + sizeSize + 1 > |buf| then Err(FileFormatError)
      else
        var rawSize := FromLittleEndian(buf[1..1 + sizeSize]);
        if rawSize > SIZE_MAX - 1 then Err(FileFormatError)
        else if rawSize + 1 > |buf| - (1 + sizeSize) - 1 then Err(FileFormatError)
        else
          var start := 1 + sizeSize;
          var end := start + rawSize + 1;
          Ok(DecimalAnalysis(buf[start..end], buf[end..], buf[0] / 8 % 2 == 1, buf[0] / 4 % 2 == 1))
  }

  function Sign(negative: bool): bytes {
    if negative then [MINUS] else []
  }

  function DecimalTextOf(buf: bytes): (r: Result<bytes>)
    requires buf != []
    ensures r.Err? ==> r.error == FileFormatError
  {
    var a :- DecimalAnalyze(buf);
    var significand :- PartText(a.significand);
    var exponent :- PartText(a.exponent);
    Ok(Sign(a.significandNegative) + significand + [LOWER_E] + Sign(a.exponentNegative) + exponent)
  }

  // _bijson_decimal_to_json
  method DecimalToJson(buf: bytes, sink: Sink) returns (status: Status)
    requires buf != []
    modifies sink
    ensures match DecimalTextOf(buf)
      case Ok(text) => status == Success && sink.data == old(sink.data) + text
      case Err(e) => status == Failure(e) && old(sink.data) <= sink.data
  {
    hide PartText, DecimalAnalyze;
    var analysis := DecimalAnalyze(buf);
    if analysis.Err? { return Failure(analysis.error); }
    var a := analysis.value;
    if a.significandNegative {
      sink.Write([MINUS]);
    }
    assert sink.data == old(sink.data) + Sign(a.significandNegative);
    :- PrintPart(a.significand, sink);
    sink.Write([LOWER_E]);
    if a.exponentNegative {
      sink.Write([MINUS]);
    }
    :- PrintPart(a.exponent, sink);
    Chain5(old(sink.data), Sign(a.significandNegative), PartText(a.significand).value, [LOWER_E],
           Sign(a.exponentNegative), PartText(a.exponent).value);
    return Success;
  }

  lemma {:induction false} Chain5(a: bytes, b: bytes, c: bytes, d: bytes, e: bytes, f: bytes)
    ensures a + b + c + d + e + f == a + (b + c + d + e + f)
    ensures e == [] ==> a + b + c + d + f == a + (b + c + d + e + f)
  {
  }

  function IntegerTextOf(buf: bytes): (r: Result<bytes>)
    requires buf != []
    ensures r.Err? ==> r.error == FileFormatError
  {
    if |buf| == 1 then Ok(Sign(buf[0] % 2 == 1) + [ZERO])
    else
      var part :- PartText(buf[1..]);
      Ok(Sign(buf[0] % 2 == 1) + part)
  }

  // _bijson_decimal_integer_to_json
  method IntegerToJson(buf: bytes, sink: Sink) returns (status: Status)
    requires buf != []
    modifies sink
    ensures match IntegerTextOf(buf)
      case Ok(text) => status == Success && sink.data == old(sink.data) + text
      case Err(e) => status == Failure(e) && old(sink.data) <= sink.data
  {
    hide PartText;
    if buf[0] % 2 == 1 {
      sink.Write([MINUS]);
    }
    if |buf| == 1 {
      sink.Write([ZERO]);
      return Success;
    }
    status := PrintPart(buf[1..], sink);
    if status.Success? {
      Associate(old(sink.data), Sign(buf[0] % 2 == 1), PartText(buf[1..]).value);
    }
  }
}
