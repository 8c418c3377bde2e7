// The JSON parser (lib/writer/parse.c). It keeps no stack of its own: it counts the open
// containers and asks the writer which kind the innermost one is.
module JsonParser {
  import opened Wrappers
  import opened Bytes
  import opened Layout
  import opened KeyOrder
  import opened Utf8
  import opened Tree
  import opened Document
  import opened Writer
  import opened Escape
  import opened Json
  import opened Grammar
  import opened StringParser
  import opened DecimalText

  // ---------- Numbers and whitespace ----------

  // _bijson_find_json_number_end
  method FindNumberEnd(buf: bytes, from: nat) returns (r: Result<nat>)
    requires from < |buf|
    ensures NumberEnd(buf, from) == if r.Ok? then Some(r.value) else None
    ensures r.Err? ==> r.error == InvalidJsonSyntax
  {
    hide SkipDigits, FractionEnd, ExponentEnd;
    var pos := from;
    if buf[pos] == MINUS {
      pos := pos + 1;
      if pos == |buf| { return Err(InvalidJsonSyntax); }
    }
    if buf[pos] == Digits.ZERO {
      pos := pos + 1;
    } else {
      pos := PassDigits(buf, pos);
    }
    pos :- FindFractionEnd(buf, pos);
    pos :- FindExponentEnd(buf, pos);
    return Ok(pos);
  }

  // Its two optional parts.
  method FindFractionEnd(buf: bytes, from: nat) returns (r: Result<nat>)
    requires from <= |buf|
    ensures FractionEnd(buf, from) == if r.Ok? then Some(r.value) else None
    ensures r.Err? ==> r.error == InvalidJsonSyntax
  {
    if from == |buf| || buf[from] != POINT { return Ok(from); }
    if from + 1 == |buf| { return Err(InvalidJsonSyntax); }
    var pos := PassDigits(buf, from + 1);
    return Ok(pos);
  }

  method FindExponentEnd(buf: bytes, from: nat) returns (r: Result<nat>)
    requires from <= |buf|
    ensures ExponentEnd(buf, from) == if r.Ok? then Some(r.value) else None
    ensures r.Err? ==> r.error == InvalidJsonSyntax
  {
    if from == |buf| || (buf[from] != 0x65 && buf[from] != 0x45) { return Ok(from); }
    var pos := from + 1;
    if pos == |buf| { return Err(InvalidJsonSyntax); }
    if buf[pos] == MINUS || buf[pos] == PLUS {
      pos := pos + 1;
      if pos == |buf| { return Err(InvalidJsonSyntax); }
    }
    pos := PassDigits(buf, pos);
    return Ok(pos);
  }

  // _bijson_skip_json_ws: the position moves only if there is something else to come.
  method PassWs(p: Parser) returns (status: Status)
    modifies p`pos
    ensures match SkipWs(p.buf, old(p.pos))
      case Some(next) => status == Success && p.pos == next
      case None => status == Failure(InvalidJsonSyntax) && p.pos == old(p.pos)
  {
    var pos := p.pos;
    while pos < |p.buf|
      invariant SkipWs(p.buf, pos) == SkipWs(p.buf, p.pos)
    {
      if !IsWs(p.buf[pos]) {
        p.pos := pos;
        return Success;
      }
      pos := pos + 1;
    }
    return Failure(InvalidJsonSyntax);
  }

  // ---------- Sizes: what is read never leaves the document ----------

  // The tree that finishes an array contains the items read so far.
  ghost predicate HoldsItems(t: Value, items: seq<Value>) {
    t.Array? && WellFormed(t) && items <= t.items
  }

  ghost predicate HoldsPairs(t: Value, pairs: seq<Pair>) {
    t.Object? && WellFormed(t) && pairs <= t.pairs
  }

  lemma {:induction false} ItemsHeld(decimals: Decimals, buf: bytes, pos: nat, items: seq<Value>)
    requires DecimalsOk(decimals) && AllWellFormed(items)
    ensures AfterItem(decimals, buf, pos, items).Some? ==> HoldsItems(AfterItem(decimals, buf, pos, items).value.0, items)
    decreases |buf| - pos
  {
    hide ParseValue, DecimalsOk, WrittenScalar, SkipWs;
    if AfterItem(decimals, buf, pos, items).Some? {
      var next := SkipWs(buf, pos).value;
      if buf[next] == COMMA {
        assert ParseItem(decimals, buf, next + 1, items).Some?;
        ParsedWellFormed(decimals, buf, next + 1);
        var (item, after) := ParseValue(decimals, buf, next + 1).value;
        ItemsHeld(decimals, buf, after, items + [item]);
      }
    }
  }

  lemma {:induction false} PairsHeld(decimals: Decimals, buf: bytes, pos: nat, pairs: seq<Pair>)
    requires DecimalsOk(decimals) && AllPairsWellFormed(pairs)
    ensures AfterPair(decimals, buf, pos, pairs).Some? ==> HoldsPairs(AfterPair(decimals, buf, pos, pairs).value.0, pairs)
    decreases |buf| - pos, 0
  {
    hide ParseValue, DecimalsOk, WrittenScalar, SkipWs, ParseKey, ValidUtf8, ParsePair, ParseMember;
    if AfterPair(decimals, buf, pos, pairs).Some? {
      var next := SkipWs(buf, pos).value;
      if buf[next] == COMMA {
        PairHeld(decimals, buf, next + 1, pairs);
      }
    }
  }

  lemma {:induction false} PairHeld(decimals: Decimals, buf: bytes, pos: nat, pairs: seq<Pair>)
    requires DecimalsOk(decimals) && AllPairsWellFormed(pairs)
    ensures ParsePair(decimals, buf, pos, pairs).Some? ==> HoldsPairs(ParsePair(decimals, buf, pos, pairs).value.0, pairs)
    decreases |buf| - pos, 2
  {
    hide ParseValue, DecimalsOk, WrittenScalar, SkipWs, ParseKey, ValidUtf8, ParseMember;
    if ParsePair(decimals, buf, pos, pairs).Some? {
      MemberHeld(decimals, buf, ParseKey(buf, pos).value.1, pairs, ParseKey(buf, pos).value.0);
    }
  }

  lemma {:induction false} MemberHeld(decimals: Decimals, buf: bytes, pos: nat, pairs: seq<Pair>, key: bytes)
    requires DecimalsOk(decimals) && AllPairsWellFormed(pairs) && ValidUtf8(key)
    requires ParseMember(decimals, buf, pos, pairs, key).Some?
    ensures var t := ParseMember(decimals, buf, pos, pairs, key).value.0;
      HoldsPairs(t, pairs) && |t.pairs| > |pairs| && t.pairs[|pairs|].key == key
    decreases |buf| - pos, 1
  {
    hide ParseValue, DecimalsOk, WrittenScalar, SkipWs, ParseKey, ValidUtf8, AfterPair;
    ParsedWellFormed(decimals, buf, pos);
    var (value, after) := ParseValue(decimals, buf, pos).value;
    var longer := pairs + [Pair(key, value)];
    PairsHeld(decimals, buf, after, longer);
    assert longer[|pairs|].key == key;
  }

  lemma {:induction false} MoreItems(h: Hash, items: seq<Value>, t: Value)
    requires HoldsItems(t, items)
    ensures AllWellFormed(items) && 17 + |Concat(SpoolItems(h, items))| <= |Spool(h, t)|
  {
    hide Encode, Size;
    var rest := t.items[|items|..];
    assert SpoolItems(h, t.items) == SpoolItems(h, items) + SpoolItems(h, rest);
    ConcatSplit(SpoolItems(h, items), SpoolItems(h, rest));
  }

  lemma {:induction false} MorePairs(h: Hash, pairs: seq<Pair>, t: Value)
    requires HoldsPairs(t, pairs)
    ensures AllPairsWellFormed(pairs) && 17 + |Concat(SpoolPairs(h, pairs))| <= |Spool(h, t)|
    ensures |t.pairs| > |pairs| ==>
      17 + |Concat(SpoolPairs(h, pairs))| + |SpoolKey(t.pairs[|pairs|].key)| <= |Spool(h, t)|
  {
    hide Encode, Size, SpoolKey, ValidUtf8;
    var rest := t.pairs[|pairs|..];
    assert SpoolPairs(h, t.pairs) == SpoolPairs(h, pairs) + SpoolPairs(h, rest);
    ConcatSplit(SpoolPairs(h, pairs), SpoolPairs(h, rest));
    if rest != [] {
      assert SpoolPairs(h, rest)[0] == SpoolKey(rest[0].key) + Spool(h, rest[0].value);
      assert |SpoolPairs(h, rest)[0]| <= |Concat(SpoolPairs(h, rest))|;
    }
  }

  // ---------- The rest of a document, as the parser's loop sees it ----------

  // A container that has got one more value.
  function Extend(f: Frame, t: Value): Frame
    requires TakesValue(f)
  {
    match f
    case ArrayFrame(items) => ArrayFrame(items + [t])
    case ObjectFrame(pairs, key) => ObjectFrame(pairs + [Pair(key.value, t)], None)
  }

  // Reading on in a container whose next value begins at pos.
  function RestFrom(decimals: Decimals, buf: bytes, f: Frame, pos: nat): Option<(Value, nat)>
    requires TakesValue(f)
  {
    match f
    case ArrayFrame(items) => ParseItem(decimals, buf, pos, items)
    case ObjectFrame(pairs, key) => ParseMember(decimals, buf, pos, pairs, key.value)
  }

  // Reading on behind the last value of a container.
  function RestAfter(decimals: Decimals, buf: bytes, f: Frame, pos: nat): Option<(Value, nat)> {
    match f
    case ArrayFrame(items) => AfterItem(decimals, buf, pos, items)
    case ObjectFrame(pairs, _) => AfterPair(decimals, buf, pos, pairs)
  }

  predicate AllTakeValues(nest: seq<Frame>) {
    forall i :: 0 <= i < |nest| ==> TakesValue(nest[i])
  }

  // What the outermost value turns out to be once the innermost one, t, has been read.
  function Resume(decimals: Decimals, buf: bytes, nest: seq<Frame>, t: Value, pos: nat): Option<(Value, nat)>
    requires AllTakeValues(nest)
  {
    if nest == [] then Some((t, pos))
    else
      var top := Extend(nest[|nest| - 1], t);
      ResumeAfter(decimals, buf, nest[..|nest| - 1], RestAfter(decimals, buf, top, pos))
  }

  function ResumeAfter(decimals: Decimals, buf: bytes, nest: seq<Frame>, r: Option<(Value, nat)>): Option<(Value, nat)>
    requires AllTakeValues(nest)
  {
    if r.None? then None else Resume(decimals, buf, nest, r.value.0, r.value.1)
  }

  lemma {:induction false} RestUnfolds(decimals: Decimals, buf: bytes, nest: seq<Frame>, f: Frame, pos: nat)
    requires AllTakeValues(nest) && TakesValue(f)
    ensures ResumeAfter(decimals, buf, nest, RestFrom(decimals, buf, f, pos))
         == ResumeAfter(decimals, buf, nest + [f], ParseValue(decimals, buf, pos))
  {
    hide ParseValue, AfterItem, AfterPair;
    assert (nest + [f])[..|nest|] == nest;
  }

  lemma {:induction false} RestHeld(decimals: Decimals, buf: bytes, h: Hash, f: Frame, t: Value, pos: nat)
    requires DecimalsOk(decimals) && FrameOk(f) && TakesValue(f) && WellFormed(t)
    requires RestAfter(decimals, buf, Extend(f, t), pos).Some?
    ensures WellFormed(RestAfter(decimals, buf, Extend(f, t), pos).value.0)
    ensures |FrameSpool(h, f)| + |Spool(h, t)| <= |Spool(h, RestAfter(decimals, buf, Extend(f, t), pos).value.0)|
  {
    hide DecimalsOk, AfterItem, AfterPair, ValidUtf8, Spool, Size, SpoolKey, Concat;
    var after := RestAfter(decimals, buf, Extend(f, t), pos).value.0;
    match f
    case ArrayFrame(items) =>
      ItemsHeld(decimals, buf, pos, items + [t]);
      SpoolSnoc(h, items, t);
      MoreItems(h, items + [t], after);
    case ObjectFrame(pairs, key) =>
      PairsHeld(decimals, buf, pos, pairs + [Pair(key.value, t)]);
      SpoolPairSnoc(h, pairs, key.value, t);
      MorePairs(h, pairs + [Pair(key.value, t)], after);
  }

  // Everything that has been written is part of what the whole will take.
  lemma {:induction false} ResumeHolds(decimals: Decimals, buf: bytes, h: Hash, nest: seq<Frame>, t: Value, pos: nat)
    requires DecimalsOk(decimals) && FramesOk(nest) && AllTakeValues(nest) && WellFormed(t)
    requires Resume(decimals, buf, nest, t, pos).Some?
    ensures WellFormed(Resume(decimals, buf, nest, t, pos).value.0)
    ensures |FramesSpool(h, nest)| + |Spool(h, t)| <= |Spool(h, Resume(decimals, buf, nest, t, pos).value.0)|
    decreases |nest|
  {
    hide DecimalsOk, RestAfter, Extend, WellFormed, FrameSpool, Spool, TakesValue, FrameOk;
    if nest != [] {
      var f := nest[|nest| - 1];
      var r := RestAfter(decimals, buf, Extend(f, t), pos);
      RestHeld(decimals, buf, h, f, t, pos);
      ResumeHolds(decimals, buf, h, nest[..|nest| - 1], r.value.0, r.value.1);
    }
  }

  // ---------- Calls to the writer ----------

  ghost predicate Ready(wasFailed: bool, was: Doc)
    requires !wasFailed ==> DocOk(was)
  {
    !wasFailed && Expected(was) == ExpectValue
  }

  function EmptyFrame(isArray: bool): Frame {
    if isArray then ArrayFrame([]) else ObjectFrame([], None)
  }

  function Nest(doc: Doc, f: Frame): Doc {
    doc.(frames := doc.frames + [f])
  }

  lemma {:induction false} StepNests(decimals: Decimals, doc: Doc, isArray: bool)
    requires DocOk(doc)
    ensures var call := if isArray then Call.BeginArray else Call.BeginObject;
      && !IsAppend(call) && !Poisons(doc, call)
      && if Expected(doc) == ExpectValue then Step(decimals, doc, call) == Ok(Nest(doc, EmptyFrame(isArray)))
         else Step(decimals, doc, call).Err?
  {
    hide DocOk;
  }

  // bijson_writer_begin_array or bijson_writer_begin_object
  method BeginContainer(p: Parser, isArray: bool) returns (status: Status)
    requires p.w.Valid()
    modifies p.w
    ensures p.w.Valid()
    ensures match status
      case Success =>
        Ready(old(p.w.failed), old(p.w.doc)) && !p.w.failed && p.w.doc == Nest(old(p.w.doc), EmptyFrame(isArray))
      case Failure(e) =>
        Ready(old(p.w.failed), old(p.w.doc)) ==>
          e == OutOfVirtualMemory && |DocSpool(p.w.h, old(p.w.doc))| + 17 > SIZE_MAX
  {
    hide DocOk, DocSpool, Expected, Step, DecimalsOk, ExpectedAfter, DocStack, ContainerPos;
    if !p.w.failed {
      StepNests(p.w.decimals, p.w.doc, isArray);
      if Expected(p.w.doc) == ExpectValue {
        ContainerSpool(p.w.h, p.w.doc, EmptyFrame(isArray));
      }
    }
    if isArray {
      status := p.w.BeginArray();
    } else {
      status := p.w.BeginObject();
    }
  }

  // The innermost container can be closed.
  ghost predicate Closable(doc: Doc) {
    && doc.frames != [] && doc.open == Closed
    && (Top(doc).ObjectFrame? ==> Top(doc).key == None)
  }

  lemma {:induction false} StepCloses(h: Hash, decimals: Decimals, doc: Doc)
    requires DocOk(doc) && Closable(doc)
    ensures AcceptsValue(Doc(Outer(doc), None, Closed))
    ensures var call := if Top(doc).ArrayFrame? then Call.EndArray else Call.EndObject;
      && !IsAppend(call) && !Poisons(doc, call)
      && Step(decimals, doc, call) == Ok(CloseTop(doc))
    ensures DocOk(CloseTop(doc)) && |DocSpool(h, CloseTop(doc))| == |DocSpool(h, doc)|
  {
    hide FramesSpool, FrameStack, ContainerPos, Size, Encode, Spool, FrameBody;
    CloseSpool(h, doc);
  }

  // bijson_writer_end_array or bijson_writer_end_object: nothing is pushed, so it succeeds.
  method EndContainer(p: Parser, isArray: bool) returns (status: Status)
    requires p.w.Valid() && !p.w.failed && Closable(p.w.doc) && isArray == Top(p.w.doc).ArrayFrame?
    modifies p.w
    ensures p.w.Valid() && !p.w.failed && status == Success
    ensures AcceptsValue(Doc(Outer(old(p.w.doc)), None, Closed)) && p.w.doc == CloseTop(old(p.w.doc))
  {
    hide DocOk, DocSpool, Expected, Step, DecimalsOk, ExpectedAfter, DocStack, ContainerPos, CloseTop;
    StepCloses(p.w.h, p.w.decimals, p.w.doc);
    if isArray {
      status := p.w.EndArray();
    } else {
      status := p.w.EndObject();
    }
  }

  ghost function SpoolSize(h: Hash, t: Value): nat {
    if WellFormed(t) then |Spool(h, t)| else 0
  }

  // A scalar has been added, or there is no room for it.
  ghost predicate Added(p: Parser, wasFailed: bool, was: Doc, t: Value, status: Status)
    reads p, p.w
    requires !wasFailed ==> DocOk(was)
  {
    match status
    case Success => Ready(wasFailed, was) && !p.w.failed && AcceptsValue(was) && p.w.doc == AddValue(was, t)
    case Failure(e) =>
      Ready(wasFailed, was) ==>
        e == OutOfVirtualMemory && |DocSpool(p.w.h, was)| + SpoolSize(p.w.h, t) > SIZE_MAX
  }

  lemma {:induction false} ScalarAddSize(h: Hash, doc: Doc, data: bytes)
    requires DocOk(doc) && Expected(doc) == ExpectValue && WrittenScalar(data)
    ensures AcceptsValue(doc) && DocOk(AddValue(doc, Scalar(data)))
    ensures |DocSpool(h, AddValue(doc, Scalar(data)))| == |DocSpool(h, doc)| + SpoolSize(h, Scalar(data))
  {
    hide DocSpool, WrittenScalar, Size, DocStack, ContainerPos;
    ScalarSpool(h, doc, data);
  }

  lemma {:induction false} StepConstant(decimals: Decimals, doc: Doc, constant: byte)
    requires DocOk(doc)
    ensures var call := Call.AddConstant(constant);
      && !IsAppend(call) && !Poisons(doc, call)
      && if Expected(doc) == ExpectValue then AcceptsValue(doc) && Step(decimals, doc, call) == Ok(AddValue(doc, Scalar([constant])))
         else Step(decimals, doc, call).Err?
  {
    hide DocOk;
    ExpectsValueMeans(doc);
  }

  // bijson_writer_add_true, bijson_writer_add_false, bijson_writer_add_null
  method AddLiteral(p: Parser, constant: byte) returns (status: Status)
    requires p.w.Valid() && IsConstant(constant)
    modifies p.w
    ensures p.w.Valid()
    ensures Added(p, old(p.w.failed), old(p.w.doc), Scalar([constant]), status)
  {
    hide DocOk, DocSpool, Expected, Step, DecimalsOk, ExpectedAfter, DocStack, ContainerPos, AddValue, SpoolSize;
    hide IsConstant, AcceptsValue;
    if !p.w.failed {
      StepConstant(p.w.decimals, p.w.doc, constant);
      if Expected(p.w.doc) == ExpectValue {
        ConstantWritten(constant);
        ScalarAddSize(p.w.h, p.w.doc, [constant]);
      }
    }
    status := p.w.AddConstant(constant);
  }

  lemma {:induction false} StepDecimal(decimals: Decimals, doc: Doc, text: bytes)
    requires DocOk(doc) && text != []
    ensures var call := Call.AddDecimal(text);
      && !IsAppend(call)
      && if Expected(doc) == ExpectValue then
           && AcceptsValue(doc)
           && Step(decimals, doc, call)
              == (match decimals(text)
                  case Err(e) => Err(e)
                  case Ok(number) =>
                    if Miscounted(number) then Ok(doc.(open := Broken(number))) else Ok(AddValue(doc, Scalar(number.data))))
         else Step(decimals, doc, call).Err?
  {
    hide DocOk;
    ExpectsValueMeans(doc);
  }

  // bijson_writer_add_decimal_from_string. The C parser goes on after a number with a wrong
  // size; here parsing stops, since nothing is known of what the writer does from then on.
  method AddNumber(p: Parser, text: bytes) returns (status: Status)
    requires p.w.Valid() && text != []
    modifies p.w
    ensures p.w.Valid()
    ensures match Counted(p.w.decimals, text)
      case Some(data) => Added(p, old(p.w.failed), old(p.w.doc), Scalar(data), status)
      case None => status.Failure?
    ensures !old(p.w.failed) && Expected(old(p.w.doc)) == ExpectValue ==>
      p.w.decimals(text).Ok? && Miscounted(p.w.decimals(text).value) ==>
        if status == Failure(SpoolBroken) then
          !p.w.failed && p.w.doc == old(p.w.doc).(open := Broken(p.w.decimals(text).value))
        else status == Failure(OutOfVirtualMemory)
  {
    hide DocOk, DocSpool, Expected, Step, ExpectedAfter, DocStack, ContainerPos, AddValue, SpoolSize, WrittenScalar;
    hide AcceptsValue;
    if !p.w.failed {
      StepDecimal(p.w.decimals, p.w.doc, text);
      if Expected(p.w.doc) == ExpectValue && p.w.decimals(text).Ok? {
        ScalarAddSize(p.w.h, p.w.doc, p.w.decimals(text).value.data);
        AddValueExpects(p.w.doc, Scalar(p.w.decimals(text).value.data));
      }
    }
    status := p.w.AddDecimal(text);
    if status.Success? && p.w.broken {
      return Failure(SpoolBroken);
    }
  }

  // ---------- One round of the first inner loop: a scalar, or the start of a container ----------

  // What was found: a complete value, or a container whose first value is still to come.
  datatype Found = Complete(value: Value) | Nested(frame: Frame)

  ghost predicate ValueStep(p: Parser, wasFailed: bool, was: Doc, from: nat, found: Found, status: Status)
    reads p, p.w
    requires !wasFailed ==> DocOk(was)
  {
    var r := ParseValue(p.w.decimals, p.buf, from);
    match status
    case Success =>
      && Ready(wasFailed, was) && !p.w.failed && from < p.pos <= |p.buf|
      && (match found
          case Complete(t) => r == Some((t, p.pos)) && AcceptsValue(was) && p.w.doc == AddValue(was, t)
          case Nested(f) =>
            && FrameOk(f) && TakesValue(f) && p.w.doc == Nest(was, f)
            && r == RestFrom(p.w.decimals, p.buf, f, p.pos))
    case Failure(e) =>
      Ready(wasFailed, was) && r.Some? ==>
        e == OutOfVirtualMemory && |DocSpool(p.w.h, was)| + SpoolSize(p.w.h, r.value.0) > SIZE_MAX
  }

  // The current character decides what is parsed.
  lemma {:induction false} StartsScalar(decimals: Decimals, buf: bytes, from: nat, start: nat)
    requires SkipWs(buf, from) == Some(start) && buf[start] != OPEN_BRACKET && buf[start] != OPEN_BRACE
    ensures ParseValue(decimals, buf, from) == ScalarAt(decimals, buf, start)
  {
    hide ScalarAt;
  }

  method ParseNumber(p: Parser, ghost from: nat) returns (status: Status, ghost found: Found)
    requires p.w.Valid() && SkipWs(p.buf, from) == Some(p.pos) && StartsNumber(p.buf[p.pos])
    modifies p`pos, p.w
    ensures p.w.Valid() && found.Complete?
    ensures ValueStep(p, old(p.w.failed), old(p.w.doc), from, found, status)
  {
    hide DocOk, DocSpool, Expected, DecimalsOk, ExpectedAfter, DocStack, ContainerPos, AddValue, SpoolSize;
    hide AcceptsValue, ParseValue;
    hide NumberEnd, SkipWs, Ready, Nest;
    var start := p.pos;
    StartsScalar(p.w.decimals, p.buf, from, start);
    found := Complete(Scalar([]));
    var end := FindNumberEnd(p.buf, start);
    if end.Err? {
      return Failure(end.error), found;
    }
    p.pos := end.value;
    var text := p.buf[start..p.pos];
    status := AddNumber(p, text);
    if status.Success? {
      found := Complete(Scalar(p.w.decimals(text).value.data));
    }
  }

  // The case "true", whose test for the end of the text uses ">=".
  method ParseTrue(p: Parser, ghost from: nat) returns (status: Status, ghost found: Found)
    requires p.w.Valid() && SkipWs(p.buf, from) == Some(p.pos) && p.buf[p.pos] == 0x74
    modifies p`pos, p.w
    ensures p.w.Valid() && found.Complete?
    ensures ValueStep(p, old(p.w.failed), old(p.w.doc), from, found, status)
  {
    hide DocOk, DocSpool, Expected, DecimalsOk, ExpectedAfter, DocStack, ContainerPos, AddValue, SpoolSize;
    hide AcceptsValue, ParseValue;
    hide SkipWs, Ready, Nest;
    StartsScalar(p.w.decimals, p.buf, from, p.pos);
    found := Complete(Scalar([TRUE]));
    var next := p.pos + 4;
    if next >= |p.buf| || p.buf[p.pos..next] != TRUE_TEXT {
      return Failure(InvalidJsonSyntax), found;
    }
    status := AddLiteral(p, TRUE);
    if status.Success? {
      p.pos := next;
    }
  }

  // The cases "false" and "null".
  method ParseLiteral(p: Parser, text: bytes, constant: byte, ghost from: nat) returns (status: Status, ghost found: Found)
    requires p.w.Valid() && SkipWs(p.buf, from) == Some(p.pos) && IsConstant(constant)
    requires (text == FALSE_TEXT && constant == FALSE) || (text == NULL_TEXT && constant == NULL)
    requires p.buf[p.pos] == text[0]
    modifies p`pos, p.w
    ensures p.w.Valid() && found.Complete?
    ensures ValueStep(p, old(p.w.failed), old(p.w.doc), from, found, status)
  {
    hide DocOk, DocSpool, Expected, DecimalsOk, ExpectedAfter, DocStack, ContainerPos, AddValue, SpoolSize;
    hide AcceptsValue, ParseValue;
    hide SkipWs, Ready, Nest;
    StartsScalar(p.w.decimals, p.buf, from, p.pos);
    found := Complete(Scalar([constant]));
    var next := p.pos + |text|;
    if next > |p.buf| || p.buf[p.pos..next] != text {
      return Failure(InvalidJsonSyntax), found;
    }
    status := AddLiteral(p, constant);
    if status.Success? {
      p.pos := next;
    }
  }

  lemma {:induction false} StringSize(h: Hash, doc: Doc, text: bytes)
    requires DocOk(doc) && ValidUtf8(text)
    ensures WellFormed(Scalar([STRING] + text))
    ensures TextSize(h, doc, false, |text|) == |DocSpool(h, doc)| + SpoolSize(h, Scalar([STRING] + text))
  {
    hide DocOk, DocSpool, ValidUtf8, Size;
    StringWritten(text);
  }

  method ParseStringValue(p: Parser, ghost from: nat) returns (status: Status, ghost found: Found)
    requires p.w.Valid() && SkipWs(p.buf, from) == Some(p.pos) && p.buf[p.pos] == QUOTE
    modifies p`pos, p.w
    ensures p.w.Valid() && found.Complete?
    ensures ValueStep(p, old(p.w.failed), old(p.w.doc), from, found, status)
  {
    hide DocOk, DocSpool, Expected, DecimalsOk, ExpectedAfter, DocStack, ContainerPos, AddValue, SpoolSize;
    hide AcceptsValue, ParseValue;
    hide SkipWs, Nest, StringAt, TextSize;
    StartsScalar(p.w.decimals, p.buf, from, p.pos);
    ghost var r := StringAt(p.buf, p.pos);
    if !p.w.failed {
      ExpectsValueMeans(p.w.doc);
      if r.Some? {
        StringSize(p.w.h, p.w.doc, r.value.0);
      }
    }
    found := Complete(Scalar([]));
    status := p.ParseString(false);
    if status.Success? {
      found := Complete(Scalar([STRING] + r.value.0));
    }
  }

  // ---------- Keys ----------

  // The key and the colon have been read, or they are not there, or there is no room.
  ghost predicate KeyStep(p: Parser, was: Doc, from: nat, status: Status)
    requires DocOk(was)
    reads p, p.w
  {
    var r := ParseKey(p.buf, from);
    match status
    case Success =>
      && r.Some? && p.pos == r.value.1 && !p.w.failed
      && AcceptsKey(was) && p.w.doc == SetKey(was, r.value.0)
    case Failure(e) =>
      r.Some? ==> e == OutOfVirtualMemory && TextSize(p.w.h, was, true, |r.value.0|) > SIZE_MAX
  }

  // The steps from a key's quote to behind the colon.
  method ParseKeyAndColon(p: Parser, ghost from: nat) returns (status: Status)
    requires p.w.Valid() && !p.w.failed && Expected(p.w.doc) == ExpectKey
    requires SkipWs(p.buf, from) == Some(p.pos)
    modifies p`pos, p.w
    ensures p.w.Valid()
    ensures KeyStep(p, old(p.w.doc), from, status)
  {
    hide DocOk, DocSpool, DecimalsOk, ExpectedAfter, DocStack, ContainerPos, Expected, AcceptsKey, SetKey;
    hide SkipWs, StringAt, TextSize;
    ExpectsValueMeans(p.w.doc);
    if p.buf[p.pos] != QUOTE {
      return Failure(InvalidJsonSyntax);
    }
    status := p.ParseString(true);
    if status.Failure? { return; }
    status := PassWs(p);
    if status.Failure? { return; }
    var c := p.buf[p.pos];
    p.pos := p.pos + 1;
    if c != COLON {
      return Failure(InvalidJsonSyntax);
    }
  }

  // ---------- Containers ----------

  lemma {:induction false} StartsArray(decimals: Decimals, buf: bytes, from: nat, start: nat)
    requires DecimalsOk(decimals) && SkipWs(buf, from) == Some(start) && buf[start] == OPEN_BRACKET
    ensures var r, first := ParseValue(decimals, buf, from), SkipWs(buf, start + 1);
      && r == (if first.None? then None
               else if buf[first.value] == CLOSE_BRACKET then Some((Array([]), first.value + 1))
               else RestFrom(decimals, buf, ArrayFrame([]), first.value))
      && (r.Some? ==> WellFormed(r.value.0) && r.value.0.Array?)
  {
    hide DecimalsOk, SkipWs, ParseItem;
    if ParseValue(decimals, buf, from).Some? {
      ParsedWellFormed(decimals, buf, from);
      var first := SkipWs(buf, start + 1).value;
      if buf[first] != CLOSE_BRACKET {
        ItemIsArray(decimals, buf, first, []);
      }
    }
  }

  lemma {:induction false} ItemIsArray(decimals: Decimals, buf: bytes, pos: nat, items: seq<Value>)
    requires DecimalsOk(decimals) && AllWellFormed(items)
    ensures ParseItem(decimals, buf, pos, items).Some? ==> ParseItem(decimals, buf, pos, items).value.0.Array?
  {
    hide DecimalsOk, ParseValue, AfterItem;
    if ParseItem(decimals, buf, pos, items).Some? {
      ParsedWellFormed(decimals, buf, pos);
      var (item, after) := ParseValue(decimals, buf, pos).value;
      ItemsHeld(decimals, buf, after, items + [item]);
    }
  }

  lemma {:induction false} ContainerSize(h: Hash, t: Value)
    requires WellFormed(t) && !t.Scalar?
    ensures SpoolSize(h, t) >= 17
  {
    hide Encode, Size, Concat;
  }

  // The case '['.
  method ParseArrayStart(p: Parser, ghost from: nat) returns (status: Status, complete: bool, ghost found: Found)
    requires p.w.Valid() && SkipWs(p.buf, from) == Some(p.pos) && p.buf[p.pos] == OPEN_BRACKET
    modifies p`pos, p.w
    ensures p.w.Valid() && complete == found.Complete?
    ensures ValueStep(p, old(p.w.failed), old(p.w.doc), from, found, status)
  {
    hide DocOk, DocSpool, Expected, DecimalsOk, ExpectedAfter, DocStack, ContainerPos, SpoolSize, ParseValue, AcceptsValue;
    hide SkipWs, ParseItem, Closable, CloseTop, AddValue, Nest;
    complete, found := true, Complete(Array([]));
    ghost var r := ParseValue(p.w.decimals, p.buf, from);
    StartsArray(p.w.decimals, p.buf, from, p.pos);
    if r.Some? {
      ContainerSize(p.w.h, r.value.0);
    }
    status := BeginContainer(p, true);
    if status.Failure? { return; }
    NestCloses(old(p.w.doc), true);
    p.pos := p.pos + 1;
    status := PassWs(p);
    if status.Failure? { return; }
    var c := p.buf[p.pos];
    if c == CLOSE_BRACKET {
      p.pos := p.pos + 1;
      status := EndContainer(p, true);
    } else {
      complete, found := false, Nested(ArrayFrame([]));
    }
  }

  lemma {:induction false} NestCloses(was: Doc, isArray: bool)
    requires DocOk(was) && Expected(was) == ExpectValue
    ensures var doc, f := Nest(was, EmptyFrame(isArray)), EmptyFrame(isArray);
      && Closable(doc) && Top(doc) == f && FrameOk(f)
      && AcceptsValue(was) && Doc(Outer(doc), None, Closed) == was
      && CloseTop(doc) == AddValue(was, if isArray then Array([]) else Object([]))
      && (!isArray ==> Expected(doc) == ExpectKey)
  {
    ExpectsValueMeans(was);
    assert Nest(was, EmptyFrame(isArray)).frames[..|was.frames|] == was.frames;
  }

  lemma {:induction false} StartsObject(decimals: Decimals, buf: bytes, from: nat, start: nat)
    requires DecimalsOk(decimals) && SkipWs(buf, from) == Some(start) && buf[start] == OPEN_BRACE
    ensures var r, first := ParseValue(decimals, buf, from), SkipWs(buf, start + 1);
      && r == (if first.None? then None
               else if buf[first.value] == CLOSE_BRACE then Some((Object([]), first.value + 1))
               else ParsePair(decimals, buf, first.value, []))
      && (r.Some? ==> WellFormed(r.value.0) && r.value.0.Object?)
  {
    hide DecimalsOk, SkipWs, ParsePair;
    if ParseValue(decimals, buf, from).Some? {
      ParsedWellFormed(decimals, buf, from);
      var first := SkipWs(buf, start + 1).value;
      if buf[first] != CLOSE_BRACE {
        PairHeld(decimals, buf, first, []);
      }
    }
  }

  // A key at pos, if a member can be read there, is part of what the object will take.
  lemma {:induction false} KeyFits(decimals: Decimals, buf: bytes, h: Hash, pos: nat, pairs: seq<Pair>)
    requires DecimalsOk(decimals) && AllPairsWellFormed(pairs)
    ensures var key := ParseKey(buf, pos);
      ParsePair(decimals, buf, pos, pairs)
      == if key.None? then None else RestFrom(decimals, buf, ObjectFrame(pairs, Some(key.value.0)), key.value.1)
    ensures ParsePair(decimals, buf, pos, pairs).Some? ==>
      17 + |Concat(SpoolPairs(h, pairs))| + 8 + |ParseKey(buf, pos).value.0|
      <= SpoolSize(h, ParsePair(decimals, buf, pos, pairs).value.0)
  {
    hide DecimalsOk, ParseKey, ParseMember, ValidUtf8, Spool, Size;
    if ParsePair(decimals, buf, pos, pairs).Some? {
      var (key, start) := ParseKey(buf, pos).value;
      MemberHeld(decimals, buf, start, pairs, key);
      MorePairs(h, pairs, ParsePair(decimals, buf, pos, pairs).value.0);
    }
  }

  // The case '{'.
  method ParseObjectStart(p: Parser, ghost from: nat) returns (status: Status, complete: bool, ghost found: Found)
    requires p.w.Valid() && SkipWs(p.buf, from) == Some(p.pos) && p.buf[p.pos] == OPEN_BRACE
    modifies p`pos, p.w
    ensures p.w.Valid() && complete == found.Complete?
    ensures ValueStep(p, old(p.w.failed), old(p.w.doc), from, found, status)
  {
    hide DocOk, DocSpool, Expected, DecimalsOk, ExpectedAfter, DocStack, ContainerPos, SpoolSize, ParseValue, AcceptsValue;
    hide SkipWs, RestFrom, ParsePair, Closable, CloseTop, AddValue, Nest;
    complete, found := true, Complete(Object([]));
    ghost var was, r := p.w.doc, ParseValue(p.w.decimals, p.buf, from);
    StartsObject(p.w.decimals, p.buf, from, p.pos);
    if r.Some? {
      ContainerSize(p.w.h, r.value.0);
    }
    status := BeginContainer(p, false);
    if status.Failure? { return; }
    NestCloses(was, false);
    p.pos := p.pos + 1;
    status := PassWs(p);
    if status.Failure? { return; }
    var c := p.buf[p.pos];
    if c == CLOSE_BRACE {
      p.pos := p.pos + 1;
      status := EndContainer(p, false);
    } else {
      complete, found := false, Nested(ObjectFrame([], None));
      status, found := ParseFirstKey(p, was);
    }
  }

  // From behind the opening brace of an object that is not empty to its first value.
  method ParseFirstKey(p: Parser, ghost was: Doc) returns (status: Status, ghost found: Found)
    requires p.w.Valid() && !p.w.failed && p.pos < |p.buf| && !IsWs(p.buf[p.pos])
    requires DocOk(was) && Expected(was) == ExpectValue && p.w.doc == Nest(was, ObjectFrame([], None))
    modifies p`pos, p.w
    ensures p.w.Valid() && found.Nested?
    ensures var r, f := ParsePair(p.w.decimals, p.buf, old(p.pos), []), found.frame;
      match status
      case Success =>
        && !p.w.failed && FrameOk(f) && TakesValue(f) && p.w.doc == Nest(was, f)
        && old(p.pos) < p.pos <= |p.buf| && r == RestFrom(p.w.decimals, p.buf, f, p.pos)
      case Failure(e) =>
        r.Some? ==> (e == OutOfVirtualMemory && |DocSpool(p.w.h, was)| + SpoolSize(p.w.h, r.value.0) > SIZE_MAX)
  {
    hide DocOk, DocSpool, Expected, DecimalsOk, ExpectedAfter, DocStack, ContainerPos, SpoolSize, AcceptsValue;
    hide SkipWs, RestFrom, ParsePair, ParseKey, TextSize, SetKey, AcceptsKey, Nest;
    ghost var first := p.pos;
    found := Nested(ObjectFrame([], None));
    SkipsNothing(p.buf, first);
    KeyFits(p.w.decimals, p.buf, p.w.h, first, []);
    FirstKeySize(p.w.h, was);
    ghost var key := ParseKey(p.buf, first);
    FirstKey(was, if key.Some? then key.value.0 else []);
    status := ParseKeyAndColon(p, first);
    if status.Success? {
      found := Nested(ObjectFrame([], Some(key.value.0)));
    }
  }

  lemma {:induction false} SkipsNothing(buf: bytes, pos: nat)
    requires pos < |buf| && !IsWs(buf[pos])
    ensures SkipWs(buf, pos) == Some(pos)
  {
  }

  lemma {:induction false} FirstKeySize(h: Hash, was: Doc)
    requires DocOk(was) && Expected(was) == ExpectValue
    ensures var doc := Nest(was, ObjectFrame([], None));
      DocOk(doc) && forall n: nat :: TextSize(h, doc, true, n) == |DocSpool(h, was)| + 17 + 8 + n
  {
    hide DocOk, DocSpool, Expected, ExpectedAfter, DocStack, ContainerPos;
    ContainerSpool(h, was, ObjectFrame([], None));
  }

  lemma {:induction false} FirstKey(was: Doc, key: bytes)
    requires DocOk(was) && Expected(was) == ExpectValue
    ensures var doc := Nest(was, ObjectFrame([], None));
      && Expected(doc) == ExpectKey && AcceptsKey(doc)
      && SetKey(doc, key) == Nest(was, ObjectFrame([], Some(key)))
  {
    ExpectsValueMeans(was);
    assert Nest(was, ObjectFrame([], None)).frames[..|was.frames|] == was.frames;
  }

  // One round of the first inner loop of _bijson_parse_json.
  method ParseOne(p: Parser) returns (status: Status, complete: bool, ghost found: Found)
    requires p.w.Valid()
    modifies p`pos, p.w
    ensures p.w.Valid() && complete == found.Complete?
    ensures ValueStep(p, old(p.w.failed), old(p.w.doc), old(p.pos), found, status)
  {
    hide DocOk, DocSpool, Expected, DecimalsOk, ExpectedAfter, DocStack, ContainerPos, SpoolSize, AcceptsValue;
    hide SkipWs, AddValue, Nest, Ready, RestFrom, ScalarAt, ParseItem, ParsePair;
    ghost var from := p.pos;
    complete, found := true, Complete(Scalar([]));
    status := PassWs(p);
    if status.Failure? { return; }
    var c := p.buf[p.pos];
    if c == OPEN_BRACKET {
      status, complete, found := ParseArrayStart(p, from);
    } else if c == OPEN_BRACE {
      status, complete, found := ParseObjectStart(p, from);
    } else {
      status, found := ParseScalar(p, from);
    }
  }

  // The other cases.
  method ParseScalar(p: Parser, ghost from: nat) returns (status: Status, ghost found: Found)
    requires p.w.Valid() && SkipWs(p.buf, from) == Some(p.pos)
    requires p.buf[p.pos] != OPEN_BRACKET && p.buf[p.pos] != OPEN_BRACE
    modifies p`pos, p.w
    ensures p.w.Valid() && found.Complete?
    ensures ValueStep(p, old(p.w.failed), old(p.w.doc), from, found, status)
  {
    hide DocOk, DocSpool, Expected, DecimalsOk, ExpectedAfter, DocStack, ContainerPos, SpoolSize, AcceptsValue;
    hide SkipWs, AddValue, Nest, Ready, ParseValue, NumberAt, LiteralAt, StringAt;
    var c := p.buf[p.pos];
    if c == QUOTE {
      status, found := ParseStringValue(p, from);
    } else if StartsNumber(c) {
      status, found := ParseNumber(p, from);
    } else if c == 0x74 {
      status, found := ParseTrue(p, from);
    } else if c == 0x66 {
      status, found := ParseLiteral(p, FALSE_TEXT, FALSE, from);
    } else if c == 0x6E {
      status, found := ParseLiteral(p, NULL_TEXT, NULL, from);
    } else {
      StartsScalar(p.w.decimals, p.buf, from, p.pos);
      return Failure(InvalidJsonSyntax), Complete(Scalar([]));
    }
  }

  // ---------- One round of the second inner loop: a closing bracket or a comma ----------

  datatype Next = Ended | Another(frame: Frame)

  ghost predicate AfterStep(p: Parser, was: Doc, from: nat, next: Next, status: Status)
    reads p, p.w
    requires DocOk(was) && Closable(was) && AcceptsValue(Doc(Outer(was), None, Closed))
  {
    var r := RestAfter(p.w.decimals, p.buf, Top(was), from);
    match status
    case Success =>
      && !p.w.failed && from < p.pos <= |p.buf|
      && (match next
          case Ended => r == Some((FrameValue(Top(was)), p.pos)) && p.w.doc == CloseTop(was)
          case Another(f) =>
            && FrameOk(f) && TakesValue(f)
            && p.w.doc == was.(frames := Outer(was) + [f])
            && r == RestFrom(p.w.decimals, p.buf, f, p.pos))
    case Failure(e) =>
      r.Some? ==>
        e == OutOfVirtualMemory && |FramesSpool(p.w.h, Outer(was))| + SpoolSize(p.w.h, r.value.0) > SIZE_MAX
  }

  lemma {:induction false} ClosableMeans(doc: Doc)
    requires DocOk(doc) && Closable(doc)
    ensures doc.root == None && AcceptsValue(Doc(Outer(doc), None, Closed))
    ensures doc.frames != [] && FrameOk(Top(doc)) && FramesOk(Outer(doc))
    ensures ExpectedAfter(doc) == if Top(doc).ArrayFrame? then ExpectValue else ExpectKey
    ensures Top(doc).ObjectFrame? ==> Expected(doc) == ExpectKey
  {
  }

  lemma {:induction false} TopStays(doc: Doc)
    requires doc.frames != [] && Top(doc).ArrayFrame?
    ensures TakesValue(Top(doc)) && doc == doc.(frames := Outer(doc) + [Top(doc)])
  {
    assert doc.frames == Outer(doc) + [Top(doc)];
  }

  lemma {:induction false} RestOfArray(decimals: Decimals, buf: bytes, f: Frame, from: nat)
    requires f.ArrayFrame?
    ensures RestAfter(decimals, buf, f, from) ==
      match SkipWs(buf, from)
      case None => None
      case Some(next) =>
        if buf[next] == CLOSE_BRACKET then Some((FrameValue(f), next + 1))
        else if buf[next] == COMMA then RestFrom(decimals, buf, f, next + 1)
        else None
  {
    hide SkipWs, ParseItem;
  }

  lemma {:induction false} RestOfObject(decimals: Decimals, buf: bytes, f: Frame, from: nat)
    requires f.ObjectFrame?
    ensures RestAfter(decimals, buf, f, from) ==
      match SkipWs(buf, from)
      case None => None
      case Some(next) =>
        if buf[next] == CLOSE_BRACE then Some((FrameValue(f), next + 1))
        else if buf[next] == COMMA then ParsePair(decimals, buf, next + 1, f.pairs)
        else None
  {
    hide SkipWs, ParsePair;
  }

  lemma {:induction false} AfterFails(p: Parser, was: Doc, from: nat, next: Next, e: Error)
    requires DocOk(was) && Closable(was) && AcceptsValue(Doc(Outer(was), None, Closed))
    requires var r := RestAfter(p.w.decimals, p.buf, Top(was), from);
      && FramesOk(Outer(was))
      && (r.Some? ==> (e == OutOfVirtualMemory
                       && |FramesSpool(p.w.h, Outer(was))| + SpoolSize(p.w.h, r.value.0) > SIZE_MAX))
    ensures AfterStep(p, was, from, next, Failure(e))
  {
    hide DocOk, Closable, AcceptsValue, RestAfter, FramesSpool, SpoolSize;
  }

  lemma {:induction false} AfterEnds(p: Parser, was: Doc, from: nat)
    requires DocOk(was) && Closable(was) && AcceptsValue(Doc(Outer(was), None, Closed))
    requires RestAfter(p.w.decimals, p.buf, Top(was), from) == Some((FrameValue(Top(was)), p.pos))
    requires !p.w.failed && from < p.pos <= |p.buf| && p.w.doc == CloseTop(was)
    ensures AfterStep(p, was, from, Ended, Success)
  {
    hide DocOk, Closable, AcceptsValue, RestAfter, FramesSpool, SpoolSize, CloseTop;
  }

  lemma {:induction false} AfterGoesOn(p: Parser, was: Doc, from: nat, f: Frame)
    requires DocOk(was) && Closable(was) && AcceptsValue(Doc(Outer(was), None, Closed))
    requires FrameOk(f) && TakesValue(f) && p.w.doc == was.(frames := Outer(was) + [f])
    requires RestAfter(p.w.decimals, p.buf, Top(was), from) == RestFrom(p.w.decimals, p.buf, f, p.pos)
    requires !p.w.failed && from < p.pos <= |p.buf|
    ensures AfterStep(p, was, from, Another(f), Success)
  {
    hide DocOk, Closable, AcceptsValue, RestAfter, FramesSpool, SpoolSize, FrameOk, TakesValue;
  }

  // In an array.
  method ParseArrayNext(p: Parser) returns (status: Status, another: bool, ghost next: Next)
    requires p.w.Valid() && !p.w.failed && Closable(p.w.doc) && Top(p.w.doc).ArrayFrame?
    modifies p`pos, p.w
    ensures p.w.Valid() && another == next.Another?
    ensures AcceptsValue(Doc(Outer(old(p.w.doc)), None, Closed))
    ensures AfterStep(p, old(p.w.doc), old(p.pos), next, status)
  {
    hide DocOk, DocSpool, Expected, DecimalsOk, ExpectedAfter, DocStack, ContainerPos, SpoolSize, AcceptsValue, FramesSpool;
    hide SkipWs, CloseTop, RestAfter, RestFrom, AfterStep, Closable, FrameOk, TakesValue;
    ghost var was, from := p.w.doc, p.pos;
    ClosableMeans(was);
    RestOfArray(p.w.decimals, p.buf, Top(was), from);
    another, next := false, Ended;
    status := PassWs(p);
    if status.Failure? {
      AfterFails(p, was, from, next, status.error);
      return;
    }
    var c := p.buf[p.pos];
    p.pos := p.pos + 1;
    if c == CLOSE_BRACKET {
      status := EndContainer(p, true);
      AfterEnds(p, was, from);
    } else if c != COMMA {
      AfterFails(p, was, from, next, InvalidJsonSyntax);
      return Failure(InvalidJsonSyntax), another, next;
    } else {
      another, next := true, Another(Top(was));
      TopStays(was);
      AfterGoesOn(p, was, from, Top(was));
    }
  }

  // In an object.
  method ParseObjectNext(p: Parser) returns (status: Status, another: bool, ghost next: Next)
    requires p.w.Valid() && !p.w.failed && Closable(p.w.doc) && Top(p.w.doc).ObjectFrame?
    modifies p`pos, p.w
    ensures p.w.Valid() && another == next.Another?
    ensures AcceptsValue(Doc(Outer(old(p.w.doc)), None, Closed))
    ensures AfterStep(p, old(p.w.doc), old(p.pos), next, status)
  {
    hide DocOk, DocSpool, Expected, DecimalsOk, ExpectedAfter, DocStack, ContainerPos, SpoolSize, AcceptsValue, FramesSpool;
    hide SkipWs, CloseTop, ParsePair, RestAfter, RestFrom, AfterStep, Closable, FrameOk, TakesValue, NextKeyStep;
    ghost var was, from := p.w.doc, p.pos;
    ClosableMeans(was);
    RestOfObject(p.w.decimals, p.buf, Top(was), from);
    another, next := false, Ended;
    status := PassWs(p);
    if status.Failure? {
      AfterFails(p, was, from, next, status.error);
      return;
    }
    var c := p.buf[p.pos];
    p.pos := p.pos + 1;
    if c == CLOSE_BRACE {
      status := EndContainer(p, false);
      AfterEnds(p, was, from);
    } else if c != COMMA {
      AfterFails(p, was, from, next, InvalidJsonSyntax);
      return Failure(InvalidJsonSyntax), another, next;
    } else {
      ghost var f, after := Top(was), p.pos;
      another := true;
      status, f := ParseNextKey(p);
      next := Another(f);
      NextKeyGoesOn(p, was, from, after, f, status);
    }
  }

  lemma {:induction false} NextKeyGoesOn(p: Parser, was: Doc, from: nat, after: nat, f: Frame, status: Status)
    requires DocOk(was) && Closable(was) && AcceptsValue(Doc(Outer(was), None, Closed))
    requires Top(was).ObjectFrame? && FramesOk(Outer(was)) && from < after
    requires RestAfter(p.w.decimals, p.buf, Top(was), from) == ParsePair(p.w.decimals, p.buf, after, Top(was).pairs)
    requires NextKeyStep(p, was, after, f, status)
    ensures AfterStep(p, was, from, Another(f), status)
  {
    hide DocOk, Closable, AcceptsValue, RestAfter, RestFrom, ParsePair, FramesSpool, SpoolSize, FrameOk, TakesValue;
  }

  // What ParseNextKey does.
  ghost predicate NextKeyStep(p: Parser, was: Doc, from: nat, f: Frame, status: Status)
    requires DocOk(was) && Closable(was) && Top(was).ObjectFrame? && FramesOk(Outer(was))
    reads p, p.w
  {
    var r := ParsePair(p.w.decimals, p.buf, from, Top(was).pairs);
    match status
    case Success =>
      && !p.w.failed && from < p.pos <= |p.buf|
      && FrameOk(f) && TakesValue(f)
      && p.w.doc == was.(frames := Outer(was) + [f])
      && r == RestFrom(p.w.decimals, p.buf, f, p.pos)
    case Failure(e) =>
      r.Some? ==>
        e == OutOfVirtualMemory && |FramesSpool(p.w.h, Outer(was))| + SpoolSize(p.w.h, r.value.0) > SIZE_MAX
  }

  // From behind a comma in an object to the next value.
  method ParseNextKey(p: Parser) returns (status: Status, ghost f: Frame)
    requires p.w.Valid() && !p.w.failed && Closable(p.w.doc) && Top(p.w.doc).ObjectFrame?
    modifies p`pos, p.w
    ensures p.w.Valid() && FramesOk(Outer(old(p.w.doc)))
    ensures NextKeyStep(p, old(p.w.doc), old(p.pos), f, status)
  {
    hide DocOk, DocSpool, Expected, DecimalsOk, ExpectedAfter, DocStack, ContainerPos, SpoolSize, AcceptsValue, FramesSpool;
    hide SkipWs, ParsePair, TextSize, SetKey, AcceptsKey, RestFrom, ParseKey, KeyStep, NextKeyStep, Closable;
    ghost var was, from := p.w.doc, p.pos;
    ClosableMeans(was);
    status := PassWs(p);
    if status.Failure? {
      KeyNeedsQuote(p.buf, from);
      f := NextKeyDone(p, was, from, status);
      return;
    }
    status := ParseKeyAndColon(p, from);
    f := NextKeyDone(p, was, from, status);
  }

  lemma {:induction false} NextKeyDone(p: Parser, was: Doc, from: nat, status: Status) returns (f: Frame)
    requires DecimalsOk(p.w.decimals) && DocOk(was) && Closable(was) && Top(was).ObjectFrame?
    requires if status.Failure? && ParseKey(p.buf, from).None? then true else KeyStep(p, was, from, status)
    ensures FramesOk(Outer(was)) && NextKeyStep(p, was, from, f, status)
  {
    hide DocOk, DecimalsOk, SpoolSize, FramesSpool, ParsePair, TextSize, RestFrom, ParseKey, ValidUtf8;
    var key := ParseKey(p.buf, from);
    f := ObjectFrame(Top(was).pairs, if key.Some? then Some(key.value.0) else None);
    ClosableMeans(was);
    KeyFits(p.w.decimals, p.buf, p.w.h, from, f.pairs);
    NextKeySize(p.w.h, was);
    NextKey(was, if key.Some? then key.value.0 else []);
  }

  lemma {:induction false} KeyNeedsQuote(buf: bytes, from: nat)
    ensures SkipWs(buf, from).None? ==> ParseKey(buf, from).None?
  {
    hide SkipWs, StringAt;
  }

  lemma {:induction false} NextKeySize(h: Hash, was: Doc)
    requires DocOk(was) && Closable(was) && Top(was).ObjectFrame?
    ensures FramesOk(Outer(was)) && FrameOk(Top(was))
    ensures forall n: nat ::
      TextSize(h, was, true, n) == |FramesSpool(h, Outer(was))| + 17 + |Concat(SpoolPairs(h, Top(was).pairs))| + 8 + n
  {
    hide FramesSpool, FrameStack, ContainerPos, Size, Concat, DocSpool;
    ClosableMeans(was);
    PlainSpool(h, was);
    LastFrame(h, was.frames);
  }

  lemma {:induction false} NextKey(was: Doc, key: bytes)
    requires DocOk(was) && Closable(was) && Top(was).ObjectFrame?
    ensures AcceptsKey(was) && Expected(was) == ExpectKey && SetKey(was,
        key) == was.(frames := Outer(was) + [ObjectFrame(Top(was).pairs, Some(key))])
  {
    ClosableMeans(was);
  }

  // ---------- The loop ----------

  function Within(base: Doc, nest: seq<Frame>): Doc {
    base.(frames := base.frames + nest)
  }

  // A value is about to be read at pos. The containers that this parse has opened lie on top
  // of the document it started from, and reading on gives the result of the whole parse.
  ghost predicate BeforeValue(decimals: Decimals, buf: bytes, start: nat, base: Doc, nest: seq<Frame>, doc: Doc, pos: nat) {
    && FramesOk(nest) && AllTakeValues(nest)
    && doc == Within(base, nest)
    && ParseValue(decimals, buf, start) == ResumeAfter(decimals, buf, nest, ParseValue(decimals, buf, pos))
  }

  // A value has been read; it is the whole result, or the last one in the innermost container.
  ghost predicate AfterValue(decimals: Decimals, buf: bytes, start: nat, base: Doc, nest: seq<Frame>, doc: Doc, pos: nat) {
    var r := ParseValue(decimals, buf, start);
    if nest == [] then
      r.Some? && pos == r.value.1 && AcceptsValue(base) && doc == AddValue(base, r.value.0)
    else
      var outer, top := nest[..|nest| - 1], nest[|nest| - 1];
      && FramesOk(nest) && AllTakeValues(outer) && (top.ObjectFrame? ==> top.key == None)
      && doc == Within(base, nest)
      && r == ResumeAfter(decimals, buf, outer, RestAfter(decimals, buf, top, pos))
  }

  lemma {:induction false} Starts(decimals: Decimals, buf: bytes, base: Doc, pos: nat)
    ensures BeforeValue(decimals, buf, pos, base, [], base, pos)
  {
    hide ParseValue;
    var nest: seq<Frame> := [];
    assert base.frames + nest == base.frames;
    var r := ParseValue(decimals, buf, pos);
    if r.Some? {
      assert Resume(decimals, buf, nest, r.value.0, r.value.1) == Some((r.value.0, r.value.1)) == r;
    }
    assert ResumeAfter(decimals, buf, nest, r) == r;
  }

  lemma {:induction false} WithinReady(base: Doc, nest: seq<Frame>)
    requires DocOk(base) && Expected(base) == ExpectValue && FramesOk(nest) && AllTakeValues(nest)
    ensures DocOk(Within(base, nest)) && Expected(Within(base, nest)) == ExpectValue
    ensures AcceptsValue(Within(base, nest))
  {
  }

  lemma {:induction false} NestGrows(decimals: Decimals, buf: bytes, start: nat, base: Doc, nest: seq<Frame>, doc: Doc, pos: nat,
                                     f: Frame, after: nat)
    requires BeforeValue(decimals, buf, start, base, nest, doc, pos)
    requires FrameOk(f) && TakesValue(f)
    requires ParseValue(decimals, buf, pos) == RestFrom(decimals, buf, f, after)
    ensures BeforeValue(decimals, buf, start, base, nest + [f], Nest(doc, f), after)
  {
    hide ParseValue, RestFrom, ResumeAfter, FrameOk, TakesValue;
    RestUnfolds(decimals, buf, nest, f, after);
    assert base.frames + nest + [f] == base.frames + (nest + [f]);
  }

  function WithValue(nest: seq<Frame>, t: Value): (r: seq<Frame>)
    requires AllTakeValues(nest)
    ensures |r| == |nest|
  {
    if nest == [] then [] else nest[..|nest| - 1] + [Extend(nest[|nest| - 1], t)]
  }

  lemma {:induction false} AddWithin(base: Doc, nest: seq<Frame>, t: Value)
    requires base.root == None && base.open == Closed && nest != [] && AllTakeValues(nest)
    ensures AcceptsValue(Within(base, nest))
    ensures AddValue(Within(base, nest), t) == Within(base, WithValue(nest, t))
  {
    var doc := Within(base, nest);
    assert Top(doc) == nest[|nest| - 1];
    assert Outer(doc) == base.frames + nest[..|nest| - 1];
  }

  lemma {:induction false} ValueEnds(decimals: Decimals, buf: bytes, start: nat, base: Doc, nest: seq<Frame>, doc: Doc, pos: nat,
                                     t: Value, after: nat)
    requires DocOk(base) && Expected(base) == ExpectValue && WellFormed(t)
    requires FramesOk(nest) && AllTakeValues(nest) && doc == Within(base, nest)
    requires ParseValue(decimals, buf, start) == Resume(decimals, buf, nest, t, after)
    ensures AcceptsValue(doc)
    ensures AfterValue(decimals, buf, start, base, WithValue(nest, t), AddValue(doc, t), after)
  {
    hide ParseValue, RestAfter, DocOk, Expected, WellFormed, AddValue, ValidUtf8;
    ExpectsValueMeans(base);
    WithinReady(base, nest);
    if nest == [] {
      assert base.frames + nest == base.frames;
    } else {
      AddWithin(base, nest, t);
      ExtendOk(nest[|nest| - 1], t);
    }
  }

  lemma {:induction false} ExtendOk(f: Frame, t: Value)
    requires FrameOk(f) && TakesValue(f) && WellFormed(t)
    ensures FrameOk(Extend(f, t)) && (Extend(f, t).ObjectFrame? ==> Extend(f, t).key == None)
  {
    hide ValidUtf8;
  }

  lemma {:induction false} WithinTop(base: Doc, nest: seq<Frame>)
    requires base.root == None && base.open == Closed && nest != []
    ensures var doc := Within(base, nest);
      && doc.frames != [] && Top(doc) == nest[|nest| - 1]
      && Doc(Outer(doc), None, Closed) == Within(base, nest[..|nest| - 1])
  {
    assert Outer(Within(base, nest)) == base.frames + nest[..|nest| - 1];
  }

  lemma {:induction false} WithinClosable(base: Doc, nest: seq<Frame>)
    requires DocOk(base) && Expected(base) == ExpectValue && FramesOk(nest) && nest != []
    requires AllTakeValues(nest[..|nest| - 1])
    requires nest[|nest| - 1].ObjectFrame? ==> nest[|nest| - 1].key == None
    ensures DocOk(Within(base, nest)) && Closable(Within(base, nest))
    ensures AcceptsValue(Within(base, nest[..|nest| - 1]))
    ensures AcceptsValue(Doc(Outer(Within(base, nest)), None, Closed))
    ensures CloseTop(Within(base, nest)) == AddValue(Within(base, nest[..|nest| - 1]), FrameValue(nest[|nest| - 1]))
    ensures WellFormed(FrameValue(nest[|nest| - 1]))
  {
    hide AddValue, WellFormed, DocOk, FrameOk, Expected, AcceptsValue, TakesValue;
    ExpectsValueMeans(base);
    WithinTop(base, nest);
    var outer, top := nest[..|nest| - 1], nest[|nest| - 1];
    WithinReady(base, outer);
    FrameWellFormed(top);
    NestOk(Within(base, outer), top);
    assert base.frames + nest == (base.frames + outer) + [top];
  }

  lemma {:induction false} FrameWellFormed(f: Frame)
    requires FrameOk(f)
    ensures WellFormed(FrameValue(f))
  {
    hide WellFormedPair;
  }

  lemma {:induction false} NestOk(doc: Doc, f: Frame)
    requires DocOk(doc) && AcceptsValue(doc) && doc.open == Closed && FrameOk(f)
    ensures DocOk(Nest(doc, f))
  {
    hide FrameOk;
  }

  lemma {:induction false} ContainerEnds(decimals: Decimals, buf: bytes, start: nat, base: Doc, nest: seq<Frame>, doc: Doc,
                                         pos: nat, after: nat)
    requires DocOk(base) && Expected(base) == ExpectValue && nest != []
    requires AfterValue(decimals, buf, start, base, nest, doc, pos)
    requires RestAfter(decimals, buf, nest[|nest| - 1], pos) == Some((FrameValue(nest[|nest| - 1]), after))
    ensures AllTakeValues(nest[..|nest| - 1])
    ensures doc.frames != [] && AcceptsValue(Doc(Outer(doc), None, Closed))
    ensures AfterValue(decimals, buf, start, base,
                       WithValue(nest[..|nest| - 1], FrameValue(nest[|nest| - 1])), CloseTop(doc), after)
  {
    hide ParseValue, RestAfter, DocOk, Expected, WellFormed, AddValue, ValidUtf8, CloseTop, Resume;
    var outer, t := nest[..|nest| - 1], FrameValue(nest[|nest| - 1]);
    WithinClosable(base, nest);
    ValueEnds(decimals, buf, start, base, outer, Within(base, outer), pos, t, after);
  }

  lemma {:induction false} ContainerGoesOn(decimals: Decimals, buf: bytes, start: nat, base: Doc, nest: seq<Frame>, doc: Doc,
                                           pos: nat, f: Frame, after: nat)
    requires DocOk(base) && Expected(base) == ExpectValue && nest != []
    requires AfterValue(decimals, buf, start, base, nest, doc, pos)
    requires FrameOk(f) && TakesValue(f) && doc.frames != []
    requires RestAfter(decimals, buf, nest[|nest| - 1], pos) == RestFrom(decimals, buf, f, after)
    ensures BeforeValue(decimals, buf, start, base, nest[..|nest| - 1] + [f], doc.(frames := Outer(doc) + [f]), after)
  {
    hide ParseValue, RestAfter, RestFrom, DocOk, ResumeAfter, FrameOk, TakesValue, Expected;
    ExpectsValueMeans(base);
    var outer := nest[..|nest| - 1];
    RestUnfolds(decimals, buf, outer, f, after);
    WithinTop(base, nest);
    assert base.frames + outer + [f] == base.frames + (outer + [f]);
  }

  // ---------- Failure ----------

  // The parse as a whole cannot succeed: the text is no value, or the document is too large.
  ghost predicate Fails(h: Hash, decimals: Decimals, buf: bytes, start: nat, base: Doc, e: Error)
    requires DocOk(base)
  {
    var r := ParseValue(decimals, buf, start);
    r.Some? ==> e == OutOfVirtualMemory && |DocSpool(h, base)| + SpoolSize(h, r.value.0) > SIZE_MAX
  }

  lemma {:induction false} FramesSpoolSplit(h: Hash, a: seq<Frame>, b: seq<Frame>)
    requires FramesOk(a) && FramesOk(b)
    ensures FramesOk(a + b) && |FramesSpool(h, a + b)| == |FramesSpool(h, a)| + |FramesSpool(h, b)|
  {
    hide FrameSpool, FrameOk;
    if b == [] {
      assert a + b == a;
    } else {
      FramesSpoolSplit(h, a, b[..|b| - 1]);
      assert (a + b)[..|a + b| - 1] == a + b[..|b| - 1];
    }
  }

  lemma {:induction false} WithinSize(h: Hash, base: Doc, nest: seq<Frame>)
    requires DocOk(base) && Expected(base) == ExpectValue && FramesOk(nest) && AllTakeValues(nest)
    ensures DocOk(Within(base, nest))
    ensures |DocSpool(h, Within(base, nest))| == |FramesSpool(h, Within(base, nest).frames)|
         == |DocSpool(h, base)| + |FramesSpool(h, nest)|
  {
    hide FramesSpool, Expected, FrameOk, TakesValue;
    ExpectsValueMeans(base);
    WithinReady(base, nest);
    FramesSpoolSplit(h, base.frames, nest);
    PlainSpool(h, base);
    PlainSpool(h, Within(base, nest));
  }

  // What does not fit on top of the open containers does not fit as part of the whole.
  lemma {:induction false} TooLarge(h: Hash, decimals: Decimals, buf: bytes, start: nat, base: Doc, nest: seq<Frame>,
                                    r: Option<(Value, nat)>, e: Error)
    requires DecimalsOk(decimals) && DocOk(base) && Expected(base) == ExpectValue
    requires FramesOk(nest) && AllTakeValues(nest)
    requires ParseValue(decimals, buf, start) == ResumeAfter(decimals, buf, nest, r)
    requires r.Some? ==> WellFormed(r.value.0)
    requires r.Some? ==> (
      e == OutOfVirtualMemory
      && |DocSpool(h, base)| + |FramesSpool(h, nest)| + SpoolSize(h, r.value.0) > SIZE_MAX)
    ensures Fails(h, decimals, buf, start, base, e)
  {
    hide ParseValue, DocOk, DocSpool, FramesSpool, Expected, DecimalsOk, Resume, Spool, WellFormed;
    if ParseValue(decimals, buf, start).Some? {
      ResumeHolds(decimals, buf, h, nest, r.value.0, r.value.1);
    }
  }

  // ---------- The parser ----------

  // What parsing does to a writer in the state was: it adds exactly the value that the grammar
  // derives and stops right behind it. It fails only if the writer takes no value, if there
  // is none, or if the document with it would not fit in memory.
  ghost predicate Parsed(p: Parser, wasFailed: bool, was: Doc, start: nat, status: Status)
    requires !wasFailed ==> DocOk(was)
    reads p, p.w
  {
    var r := ParseValue(p.w.decimals, p.buf, start);
    match status
    case Success =>
      && Ready(wasFailed, was) && r.Some? && p.pos == r.value.1
      && !p.w.failed && AcceptsValue(was) && p.w.doc == AddValue(was, r.value.0)
    case Failure(e) => Ready(wasFailed, was) ==> Fails(p.w.h, p.w.decimals, p.buf, start, was, e)
  }

  // Before a value. A writer that is not ready is noticed at the first value.
  ghost predicate Awaiting(p: Parser, wasFailed: bool, base: Doc, start: nat, nest: seq<Frame>, failed: bool, doc: Doc, pos: nat) {
    && (!wasFailed ==> DocOk(base))
    && if Ready(wasFailed, base) then
         !failed && BeforeValue(p.w.decimals, p.buf, start, base, nest, doc, pos)
       else
         failed == wasFailed && doc == base && nest == []
  }

  // Behind a value.
  ghost predicate Arrived(p: Parser, wasFailed: bool, base: Doc, start: nat, nest: seq<Frame>)
    reads p, p.w
  {
    && (!wasFailed ==> DocOk(base)) && Ready(wasFailed, base) && !p.w.failed
    && AfterValue(p.w.decimals, p.buf, start, base, nest, p.w.doc, p.pos)
  }

  lemma {:induction false} ValueFound(p: Parser, wasFailed: bool, base: Doc, start: nat, nest: seq<Frame>,
                                      failed: bool, doc: Doc, pos: nat, found: Found, status: Status)
    requires DecimalsOk(p.w.decimals) && (!failed ==> DocOk(doc)) && (!wasFailed ==> DocOk(base))
    requires Awaiting(p, wasFailed, base, start, nest, failed, doc, pos)
    requires ValueStep(p, failed, doc, pos, found, status)
    ensures match status
      case Failure(_) => Parsed(p, wasFailed, base, start, status)
      case Success =>
        match found
        case Complete(t) => AllTakeValues(nest) && Arrived(p, wasFailed, base, start, WithValue(nest, t))
        case Nested(f) => Awaiting(p, wasFailed, base, start, nest + [f], p.w.failed, p.w.doc, p.pos)
    ensures status.Success? ==> pos < p.pos <= |p.buf|
  {
    hide DecimalsOk, DocOk, DocSpool, FramesSpool, SpoolSize, Expected, AcceptsValue, AddValue, Nest;
    hide ParseValue, RestFrom, Resume, BeforeValue, AfterValue, WithValue, WellFormed, Within, FrameOk, TakesValue, Fails;
    var r := ParseValue(p.w.decimals, p.buf, pos);
    if Ready(wasFailed, base) {
      BeforeMeans(p.w.decimals, p.buf, start, base, nest, doc, pos);
      if r.Some? {
        ParsedWellFormed(p.w.decimals, p.buf, pos);
      }
      WithinSize(p.w.h, base, nest);
      WithinReady(base, nest);
      match status
      case Failure(e) => TooLarge(p.w.h, p.w.decimals, p.buf, start, base, nest, r, e);
      case Success =>
        match found
        case Complete(t) => ValueEnds(p.w.decimals, p.buf, start, base, nest, doc, pos, t, p.pos);
        case Nested(f) => NestGrows(p.w.decimals, p.buf, start, base, nest, doc, pos, f, p.pos);
    }
  }

  lemma {:induction false} BeforeMeans(decimals: Decimals, buf: bytes, start: nat, base: Doc, nest: seq<Frame>, doc: Doc, pos: nat)
    requires BeforeValue(decimals, buf, start, base, nest, doc, pos)
    ensures FramesOk(nest) && AllTakeValues(nest) && doc == Within(base, nest)
    ensures ParseValue(decimals, buf, start) == ResumeAfter(decimals, buf, nest, ParseValue(decimals, buf, pos))
  {
    hide ParseValue;
  }

  lemma {:induction false} ArrivedMeans(p: Parser, wasFailed: bool, base: Doc, start: nat, nest: seq<Frame>)
    requires Arrived(p, wasFailed, base, start, nest)
    ensures !p.w.failed && !wasFailed && DocOk(base) && Ready(wasFailed, base)
    ensures AfterValue(p.w.decimals, p.buf, start, base, nest, p.w.doc, p.pos)
    ensures nest == [] ==> Parsed(p, wasFailed, base, start, Success)
    ensures nest != [] ==>
      && DocOk(p.w.doc) && Closable(p.w.doc) && Top(p.w.doc) == nest[|nest| - 1]
      && AcceptsValue(Doc(Outer(p.w.doc), None, Closed))
      && ExpectedAfter(p.w.doc) == if Top(p.w.doc).ArrayFrame? then ExpectValue else ExpectKey
  {
    hide ParseValue, DocOk, RestAfter, Expected, AddValue;
    if nest != [] {
      ExpectsValueMeans(base);
      WithinClosable(base, nest);
      WithinTop(base, nest);
      ClosableMeans(p.w.doc);
    }
  }

  lemma {:induction false} NextFound(p: Parser, wasFailed: bool, base: Doc, start: nat, nest: seq<Frame>,
                                     doc: Doc, pos: nat, next: Next, status: Status)
    requires DecimalsOk(p.w.decimals) && !wasFailed && DocOk(base) && Ready(wasFailed, base) && nest != []
    requires AfterValue(p.w.decimals, p.buf, start, base, nest, doc, pos)
    requires DocOk(doc) && Closable(doc) && AcceptsValue(Doc(Outer(doc), None, Closed)) && Top(doc) == nest[|nest| - 1]
    requires AfterStep(p, doc, pos, next, status)
    ensures match status
      case Failure(_) => Parsed(p, wasFailed, base, start, status)
      case Success =>
        match next
        case Ended =>
          && AllTakeValues(nest[..|nest| - 1])
          && Arrived(p, wasFailed, base, start, WithValue(nest[..|nest| - 1], FrameValue(nest[|nest| - 1])))
        case Another(f) => Awaiting(p, wasFailed, base, start, nest[..|nest| - 1] + [f], p.w.failed, p.w.doc, p.pos)
    ensures status.Success? ==> pos < p.pos <= |p.buf|
  {
    hide DecimalsOk, DocOk, DocSpool, FramesSpool, SpoolSize, Expected, AcceptsValue, CloseTop;
    hide ParseValue, RestAfter, RestFrom, Resume, BeforeValue, WithValue, WellFormed, FrameOk, TakesValue, Fails;
    ExpectsValueMeans(base);
    match status
    case Failure(e) => NextFails(p, base, start, nest, doc, pos, e);
    case Success =>
      match next
      case Ended => ContainerEnds(p.w.decimals, p.buf, start, base, nest, doc, pos, p.pos);
      case Another(f) => ContainerGoesOn(p.w.decimals, p.buf, start, base, nest, doc, pos, f, p.pos);
  }

  lemma {:induction false} NextFails(p: Parser, base: Doc, start: nat, nest: seq<Frame>, doc: Doc, pos: nat, e: Error)
    requires DecimalsOk(p.w.decimals) && DocOk(base) && Expected(base) == ExpectValue && nest != []
    requires AfterValue(p.w.decimals, p.buf, start, base, nest, doc, pos)
    requires DocOk(doc) && Closable(doc)
    requires var r := RestAfter(p.w.decimals, p.buf, nest[|nest| - 1], pos);
      r.Some? ==> (e == OutOfVirtualMemory && |FramesSpool(p.w.h, Outer(doc))| + SpoolSize(p.w.h, r.value.0) > SIZE_MAX)
    ensures Fails(p.w.h, p.w.decimals, p.buf, start, base, e)
  {
    hide DecimalsOk, DocOk, DocSpool, FramesSpool, SpoolSize, Expected, ParseValue, RestAfter, Resume, WellFormed, Fails;
    var outer, r := nest[..|nest| - 1], RestAfter(p.w.decimals, p.buf, nest[|nest| - 1], pos);
    ExpectsValueMeans(base);
    WithinTop(base, nest);
    WithinSize(p.w.h, base, outer);
    RestWellFormed(p.w.decimals, p.buf, nest[|nest| - 1], pos);
    TooLarge(p.w.h, p.w.decimals, p.buf, start, base, outer, r, e);
  }

  lemma {:induction false} RestWellFormed(decimals: Decimals, buf: bytes, f: Frame, pos: nat)
    requires DecimalsOk(decimals) && FrameOk(f)
    ensures RestAfter(decimals, buf, f, pos).Some? ==> WellFormed(RestAfter(decimals, buf, f, pos).value.0)
  {
    hide DecimalsOk, AfterItem, AfterPair, ValidUtf8;
    match f
    case ArrayFrame(items) => ItemsHeld(decimals, buf, pos, items);
    case ObjectFrame(pairs, _) => PairsHeld(decimals, buf, pos, pairs);
  }

  // The first inner loop: parse a value, or the starts of containers up to the first value in
  // them that is complete.
  method ParseUpToValue(p: Parser, nesting0: nat, ghost wasFailed: bool, ghost base: Doc, ghost start: nat, ghost nest0: seq<Frame>)
    returns (status: Status, nesting: nat, ghost nest: seq<Frame>)
    requires p.w.Valid() && p.pos <= |p.buf| && |nest0| == nesting0
    requires Awaiting(p, wasFailed, base, start, nest0, p.w.failed, p.w.doc, p.pos)
    modifies p`pos, p.w
    ensures p.w.Valid() && (!wasFailed ==> DocOk(base))
    ensures match status
      case Success => old(p.pos) < p.pos <= |p.buf| && |nest| == nesting && Arrived(p, wasFailed, base, start, nest)
      case Failure(_) => Parsed(p, wasFailed, base, start, status)
  {
    hide DocOk, DocSpool, Expected, DecimalsOk, ExpectedAfter, DocStack, ContainerPos, AcceptsValue;
    hide Arrived, Parsed, ValueStep, WithValue, Ready, AfterValue, BeforeValue, WellFormed;
    nesting, nest := nesting0, nest0;
    while true
      invariant p.w.Valid() && old(p.pos) <= p.pos <= |p.buf| && |nest| == nesting
      invariant Awaiting(p, wasFailed, base, start, nest, p.w.failed, p.w.doc, p.pos)
      decreases |p.buf| - p.pos
    {
      ghost var failed, doc, pos, found := p.w.failed, p.w.doc, p.pos, Complete(Scalar([]));
      var complete;
      status, complete, found := ParseOne(p);
      ValueFound(p, wasFailed, base, start, nest, failed, doc, pos, found, status);
      if status.Failure? { return; }
      if complete {
        nest := WithValue(nest, found.value);
        return;
      }
      nesting := nesting + 1;
      nest := nest + [found.frame];
    }
  }

  // The second inner loop: close containers up to a comma or the end of the outermost value.
  // The check that calls abort() is never reached.
  method CloseContainers(p: Parser, nesting0: nat, ghost wasFailed: bool, ghost base: Doc, ghost start: nat, ghost nest0: seq<Frame>)
    returns (status: Status, done: bool, nesting: nat, ghost nest: seq<Frame>)
    requires p.w.Valid() && p.pos <= |p.buf| && |nest0| == nesting0
    requires Arrived(p, wasFailed, base, start, nest0)
    modifies p`pos, p.w
    ensures p.w.Valid() && (!wasFailed ==> DocOk(base))
    ensures done || status.Failure? ==> Parsed(p, wasFailed, base, start, status)
    ensures !done && status.Success? ==>
      && old(p.pos) <= p.pos <= |p.buf| && |nest| == nesting
      && Awaiting(p, wasFailed, base, start, nest, p.w.failed, p.w.doc, p.pos)
  {
    hide DocOk, DocSpool, Expected, DecimalsOk, ExpectedAfter, DocStack, ContainerPos, AcceptsValue;
    hide Awaiting, Arrived, Parsed, AfterStep, Closable, WithValue, Ready, AfterValue, BeforeValue, WellFormed;
    nesting, nest := nesting0, nest0;
    while true
      invariant p.w.Valid() && old(p.pos) <= p.pos <= |p.buf| && |nest| == nesting
      invariant Arrived(p, wasFailed, base, start, nest)
      decreases |p.buf| - p.pos
    {
      ArrivedMeans(p, wasFailed, base, start, nest);
      if nesting == 0 {
        return Success, true, nesting, nest;
      }
      ghost var doc, pos, next := p.w.doc, p.pos, Ended;
      var another;
      if p.w.expectedAfterValue == ExpectValue {
        status, another, next := ParseArrayNext(p);
      } else if p.w.expectedAfterValue == ExpectKey {
        status, another, next := ParseObjectNext(p);
      } else {
        assert false; // abort()
      }
      NextFound(p, wasFailed, base, start, nest, doc, pos, next, status);
      if status.Failure? { return status, false, nesting, nest; }
      if another {
        return status, false, nesting, nest[..|nest| - 1] + [next.frame];
      }
      nesting := nesting - 1;
      nest := WithValue(nest[..|nest| - 1], FrameValue(nest[|nest| - 1]));
    }
  }

  // _bijson_parse_json
  method ParseJson(p: Parser) returns (status: Status)
    requires p.w.Valid() && p.pos <= |p.buf|
    modifies p`pos, p.w
    ensures p.w.Valid()
    ensures Parsed(p, old(p.w.failed), old(p.w.doc), old(p.pos), status)
  {
    hide DocOk, DocSpool, Expected, DecimalsOk, ExpectedAfter, DocStack, ContainerPos, AcceptsValue;
    hide Awaiting, Arrived, Parsed, BeforeValue;
    ghost var wasFailed, base, start := p.w.failed, p.w.doc, p.pos;
    ghost var nest: seq<Frame> := [];
    var nesting := 0;
    Starts(p.w.decimals, p.buf, base, start);
    AwaitingAtFirst(p);
    while true
      invariant p.w.Valid() && p.pos <= |p.buf| && |nest| == nesting
      invariant Awaiting(p, wasFailed, base, start, nest, p.w.failed, p.w.doc, p.pos)
      decreases |p.buf| - p.pos
    {
      status, nesting, nest := ParseUpToValue(p, nesting, wasFailed, base, start, nest);
      if status.Failure? { return; }
      var done;
      status, done, nesting, nest := CloseContainers(p, nesting, wasFailed, base, start, nest);
      if done || status.Failure? { return; }
    }
  }

  lemma {:induction false} AwaitingAtFirst(p: Parser)
    requires p.w.Valid()
    requires BeforeValue(p.w.decimals, p.buf, p.pos, p.w.doc, [], p.w.doc, p.pos)
    ensures Awaiting(p, p.w.failed, p.w.doc, p.pos, [], p.w.failed, p.w.doc, p.pos)
  {
    hide DocOk, Expected, DecimalsOk, ExpectedAfter, DocStack, ContainerPos, BeforeValue;
  }
}
