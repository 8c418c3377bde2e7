// Numbers for which the code does not do what the format and RFC 8259 ask for.
module DecimalDepartures {
  import opened Wrappers
  import opened Bytes
  import KeyOrder
  import opened Tree
  import opened Document
  import opened Writer
  import opened Output
  import opened Emitter
  import opened Grammar
  import opened Digits
  import opened Words
  import opened DecimalText
  import opened Json
  import opened JsonNumbers
  import opened Shifting
  import opened DecimalSyntax
  import opened Decimals
  import opened Counting
  import opened DecimalCounts
  import opened DecimalTexts
  import opened DecimalPrinting
  import opened DecimalRoundTrip

  // ---------- Nineteen digits ----------

  // Every integer of 19, 38, 57, ... digits that does not end in zero gets a size that is too
  // large.
  lemma {:induction false} NineteenMiscounted(text: bytes)
    requires Plain(text)
    requires var p := TextParts(text); p.shift == 0 && |p.significand| % 19 == 0
    ensures DecimalOf(text).Ok? && |DecimalOf(text).value.data| < DecimalOf(text).value.size
  {
    hide NonZero, Plain, PlainSplit, TextParts, SplitCounted, BestOf, ChosenNumber, PartsOk;
    PlainMeans(text);
    var p := TextParts(text);
    PlainParts(text);
    PlainBest(p);
    TextIsChosen(text);
    SplitAgainstWritten(p, 0, AnalysisOf(text).mantissaNegative);
    NotCountedRight(p);
  }

  lemma {:induction false} NotCountedRight(p: Parts)
    requires PartsOk(p) && |p.significand| % 19 == 0
    ensures !SplitCounted(p, 0)
  {
    hide ExponentCounted;
  }

  // 1000000000000000001
  function Nineteen(): (text: bytes)
    ensures AllDigits(text) && NumberOf(text) == 1_000_000_000_000_000_001
    ensures text != [] && text[0] != ZERO
  {
    Raw(1_000_000_000_000_000_001)
  }

  lemma {:induction false} NineteenDigits()
    ensures |Nineteen()| == 19 && Plain(Nineteen())
    ensures DecimalOf(Nineteen()).Ok?
    ensures DecimalOf(Nineteen()).value.size == 17 && |DecimalOf(Nineteen()).value.data| == 8
  {
    hide NumberOf, Raw, Plain, NonZero, DecimalOf, TextParts, Pack, FitUint64, Pow10;
    var text := Nineteen();
    NineteenLong();
    IntegerParts(text);
    PlainMeans(text);
    var p := TextParts(text);
    PlainParts(text);
    PlainBest(p);
    TextIsChosen(text);
    TopWord(text, 0);
    PowZero();
    NineteenSizes(p);
  }

  lemma {:induction false} NineteenLong()
    ensures |Raw(1_000_000_000_000_000_001)| == 19
  {
    Pow10Small();
    EighteenZeroes();
    RawLength(1_000_000_000_000_000_001, 18);
    RawLength(1_000_000_000_000_000_001, 19);
  }

  lemma {:induction false} EighteenZeroes()
    ensures Pow10(18) == 1_000_000_000_000_000_000
  {
    assert Pow10(6) == 1_000_000;
    assert Pow10(12) == 1_000_000_000_000;
  }

  lemma {:induction false} NineteenSizes(p: Parts)
    requires p == Parts(Nineteen(), 19, [], false, 0, false) && |Nineteen()| == 19
    requires PartsOk(p) && ExponentSize(p, 0) == 0
    requires Pack(Nineteen(), 0).word == NumberOf(Nineteen())
    ensures ChosenNumber(p, 0, false).size == 17 && |ChosenNumber(p, 0, false).data| == 8
  {
    hide NumberOf, Raw, Pack, ExponentSize, StoreWords, ShiftedWords, ExponentBytes;
    var text := Nineteen();
    DataIs(p, 0, false);
    assert Without(text, 19) == text;
    PackedSizeIs(text, 0);
    PackedSizeMeans(text, 0);
  }

  // What comes of such a number as the root of a document: it is accepted, and then there is no
  // document.
  method WriteMiscounted(w: Writer, text: bytes, sink: Sink) returns (added: Status, written: Status)
    requires w.Valid() && !w.failed && w.doc == EMPTY && text != []
    requires w.decimals(text).Ok? && Miscounted(w.decimals(text).value)
    requires |w.decimals(text).value.data| <= SIZE_MAX - 9
    modifies w, sink
    ensures added == Success && written == Failure(BadRoot)
  {
    hide DecimalsOk, DocSpool, NumberOk, DocStack, Step, Expected, ExpectedAfter, ContainerPos;
    MiscountedRoot(w.h, w.decimals, text);
    added := w.AddDecimal(text);
    written := Write(w, sink);
  }

  lemma {:induction false} MiscountedRoot(h: KeyOrder.Hash, decimals: Document.Decimals, text: bytes)
    requires text != [] && DecimalsOk(decimals) && decimals(text).Ok? && Miscounted(decimals(text).value)
    requires |decimals(text).value.data| <= SIZE_MAX - 9
    ensures DocOk(EMPTY)
    ensures var after, call := EMPTY.(open := Broken(decimals(text).value)), Call.AddDecimal(text);
      && Step(decimals, EMPTY, call) == Ok(after) && !IsAppend(call)
      && DocOk(after) && |DocSpool(h, after)| <= SIZE_MAX
  {
    var number := decimals(text).value;
    assert NumberOk(number);
    NoFrames(h);
    BrokenSpool(h, EMPTY, number);
  }

  // So it goes with 1000000000000000001.
  method WriteNineteen(h: KeyOrder.Hash) returns (added: Status, written: Status)
    ensures added == Success && written == Failure(BadRoot)
  {
    hide DecimalsOk, DocSpool, NumberOk, DecimalOf;
    DecimalOfIsOk();
    NineteenDigits();
    var w := new Writer(h, DecimalOf);
    var sink := new Sink();
    added, written := WriteMiscounted(w, Nineteen(), sink);
  }

  // ---------- Texts that are no numbers ----------

  // "[-]" is parsed as an array with a negative zero.
  lemma {:induction false} LoneMinus()
    ensures !RfcNumber([MINUS])
    ensures ParseValue(DecimalOf, [OPEN_BRACKET, MINUS, CLOSE_BRACKET], 0) == Some((Array([Scalar([0x1B])]), 3))
  {
    hide PartsOf, ChosenNumber;
    var buf := [OPEN_BRACKET, MINUS, CLOSE_BRACKET];
    MinusIsZero();
    assert NumberEnd(buf, 1) == Some(2) && buf[1..2] == [MINUS];
    assert buf[1..2] == [MINUS];
    LexedNumber(buf, 1, 2);
    assert !DigitAt([MINUS], 0) && !DigitAt([MINUS], 1);
    assert ScalarAt(DecimalOf, buf, 1) == Some((Scalar([0x1B]), 2));
    assert ParseValue(DecimalOf, buf, 1) == Some((Scalar([0x1B]), 2));
    assert AfterItem(DecimalOf, buf, 2, [Scalar([0x1B])]) == Some((Array([Scalar([0x1B])]), 3));
    assert [] + [Scalar([0x1B])] == [Scalar([0x1B])];
  }

  lemma {:induction false} MinusIsZero()
    ensures DecimalOf([MINUS]) == Ok(Number(1, [0x1B]))
  {
    hide ChosenNumber;
    var text := [MINUS];
    assert WholeStart(text) == WholeEnd(text) == FractionStop(text) == 1;
  }

  // "1." is lexed as a number.
  lemma {:induction false} LonePoint()
    ensures NumberEnd([ZERO + 1, POINT, CLOSE_BRACKET], 0) == Some(2) && !RfcNumber([ZERO + 1, POINT])
  {
    var buf, text := [ZERO + 1, POINT, CLOSE_BRACKET], [ZERO + 1, POINT];
    SkipsRun(buf, 2, 2);
    SkipsRun(buf, 0, 1);
    LexedNumber(buf, 0, 2);
    assert buf[0..2] == text;
    assert !DigitFollows(text, 1);
  }

  // ---------- Values ----------

  // 4294967297 does not come back.
  lemma {:induction false} MisfitLost()
    ensures Plain(Raw(4_294_967_297)) && DecimalOf(Raw(4_294_967_297)).Ok? && !RoundTrips(Raw(4_294_967_297))
  {
    hide NumberOf, Raw, Plain, NonZero, TextParts, RoundTrips, Pow10;
    var text := Raw(4_294_967_297);
    Pow10Small();
    EighteenZeroes();
    RawLength(4_294_967_297, 18);
    IntegerParts(text);
    PlainIsStored(text);
    IntegersRoundTrip(text);
    TopWord(text, 0);
    PowZero();
  }

  // 100000000000000000001 is stored as another number, and printed as itself; so is every number
  // of 21 digits that begins with 10 and does not end in 0.
  lemma {:induction false} PrintedThroughErrors(text: bytes)
    requires |text| == 21 && AllDigits(text) && text[0] == ZERO + 1 && text[1] == ZERO && text[20] != ZERO
    ensures DecimalOf(text).Ok? && !StoredRight(text) && RoundTrips(text)
  {
    hide NumberOf, Plain, NonZero, TextParts, RoundTrips, StoredRight, Pow10, Pack, FitUint64, CountedRight;
    hide TwentiethsZero, DecimalOf, Misfit, Significand;
    LastOfNumber(text);
    TwentyOneDigits(text);
    IntegersStored(text);
    IntegersRoundTrip(text);
  }

  lemma {:induction false} TwentyOneDigits(text: bytes)
    requires AllDigits(text) && |text| == 21 && text[0] == ZERO + 1 && text[1] == ZERO
    ensures Significand(text, 21) && CountedRight(text, 21, 0)
    ensures TwentiethsZero(text, 0) && Pack(text, 0).word == 1 && !Misfit(0)
  {
    hide Pack, FitUint64;
    var rest := text[..2];
    assert Rest(text, 21) == rest && Without(text, 21) == text;
    PackShape(text, 0);
    PackShape(rest, 0);
    LaterWord(text, 0);
    TopWord(rest, 0);
    PowZero();
    assert text[..1][..0] == [] && rest[..1] == text[..1];
    assert NumberOf(text[..1]) == 1;
    assert NumberOf(rest) == 10;
    FitOfSmall();
  }

  lemma {:induction false} FitOfSmall()
    ensures FitUint64(0) == FitUint64(9) == 1
  {
  }
}
