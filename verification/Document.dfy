// What a writer holds after a series of calls: the containers still open, the value that is
// complete, and a string, key or byte string in the making. Step says what each public
// function of the writer does to it, and when it refuses.
module Document {
  import opened Wrappers
  import opened Bytes
  import opened Layout
  import opened KeyOrder
  import opened Utf8
  import opened Tree

  datatype Frame =
    | ArrayFrame(items: seq<Value>)
    | ObjectFrame(pairs: seq<Pair>, key: Option<bytes>)

  // A text in the making, or a number that has been put down with a size that is not its own.
  // With such a number the spool is no nest of values any more, and what later calls read
  // there is not part of the model.
  datatype Open =
    | Closed
    | OpenKey(text: bytes) | OpenString(text: bytes) | OpenBytes(text: bytes)
    | Broken(number: Number)

  // Frames are listed from the outermost to the innermost.
  datatype Doc = Doc(frames: seq<Frame>, root: Option<Value>, open: Open)

  const EMPTY := Doc([], None, Closed)

  predicate FrameOk(f: Frame) {
    match f
    case ArrayFrame(items) => AllWellFormed(items)
    case ObjectFrame(pairs, key) => AllPairsWellFormed(pairs) && (key.Some? ==> ValidUtf8(key.value))
  }

  predicate FramesOk(frames: seq<Frame>) {
    forall i :: 0 <= i < |frames| ==> FrameOk(frames[i])
  }

  predicate TakesValue(f: Frame) {
    f.ArrayFrame? || f.key.Some?
  }

  predicate AcceptsValue(doc: Doc) {
    doc.root.None? && (doc.frames == [] || TakesValue(doc.frames[|doc.frames| - 1]))
  }

  predicate AcceptsKey(doc: Doc) {
    doc.frames != [] && !TakesValue(doc.frames[|doc.frames| - 1])
  }

  // The invariant: closed values inside open containers.
  ghost predicate DocOk(doc: Doc) {
    && FramesOk(doc.frames)
    && (forall i :: 0 <= i < |doc.frames| - 1 ==> TakesValue(doc.frames[i]))
    && (doc.root.Some? ==> doc.frames == [] && doc.open == Closed && WellFormed(doc.root.value))
    && (doc.open.OpenString? || doc.open.OpenBytes? ==> AcceptsValue(doc))
    && (doc.open.OpenKey? ==> AcceptsKey(doc))
    && (doc.open.Broken? ==> AcceptsValue(doc) && Miscounted(doc.open.number) && doc.open.number.size <= SIZE_MAX)
  }

  predicate InTheMaking(open: Open) {
    open.OpenKey? || open.OpenString? || open.OpenBytes?
  }

  // ---------- expect and expect_after_value ----------

  datatype Expect =
    | ExpectNone
    | ExpectKey
    | ExpectValue
    | ExpectMoreKey
    | ExpectMoreString
    | ExpectMoreBytes

  function Expected(doc: Doc): Expect {
    match doc.open
    case Broken(_) => ExpectNone
    case OpenKey(_) => ExpectMoreKey
    case OpenString(_) => ExpectMoreString
    case OpenBytes(_) => ExpectMoreBytes
    case Closed =>
      if AcceptsValue(doc) then ExpectValue else if AcceptsKey(doc) then ExpectKey else ExpectNone
  }

  function ExpectedAfter(doc: Doc): Expect {
    if doc.frames == [] then ExpectNone
    else if doc.frames[|doc.frames| - 1].ArrayFrame? then ExpectValue
    else ExpectKey
  }

  // ---------- The calls ----------

  datatype Call =
    | BeginArray | EndArray
    | BeginObject | EndObject
    | AddKey(key: bytes) | BeginKey | AppendKey(chunk: bytes) | EndKey
    | AddString(text: bytes) | BeginString | AppendString(chunk: bytes) | EndString
    | AddBytes(text: bytes) | BeginBytes | AppendBytes(chunk: bytes) | EndBytes
    | AddConstant(constant: byte)
    | AddDecimal(text: bytes)

  // A number as add_decimal_from_string puts it into the spool: a size that has been counted
  // beforehand, and the bytes.
  datatype Number = Number(size: nat, data: bytes)

  predicate Miscounted(number: Number) {
    number.size != |number.data|
  }

  // The number for a text, or the error.
  type Decimals = bytes -> Result<Number>

  ghost predicate DecimalsOk(decimals: Decimals) {
    forall text :: decimals(text).Ok? ==> NumberOk(decimals(text).value)
  }

  predicate NumberOk(number: Number) {
    WrittenScalar(number.data) && 0x1A <= number.data[0] <= 0x2F && number.size <= SIZE_MAX
  }

  // The bytes for a text whose size is counted right.
  function Counted(decimals: Decimals, text: bytes): Option<bytes> {
    var r := decimals(text);
    if r.Ok? && !Miscounted(r.value) then Some(r.value.data) else None
  }

  predicate IsConstant(constant: byte) {
    constant in {NULL, FALSE, TRUE, UNDEFINED} || 0x10 <= constant <= 0x15
  }

  function Top(doc: Doc): Frame
    requires doc.frames != []
  {
    doc.frames[|doc.frames| - 1]
  }

  function Outer(doc: Doc): seq<Frame>
    requires doc.frames != []
  {
    doc.frames[..|doc.frames| - 1]
  }

  // A finished value goes into the innermost open container, or becomes the root.
  function AddValue(doc: Doc, t: Value): Doc
    requires AcceptsValue(doc)
  {
    if doc.frames == [] then Doc([], Some(t), Closed)
    else match Top(doc)
      case ArrayFrame(items) => Doc(Outer(doc) + [ArrayFrame(items + [t])], None, Closed)
      case ObjectFrame(pairs, key) =>
        Doc(Outer(doc) + [ObjectFrame(pairs + [Pair(key.value, t)], None)], None, Closed)
  }

  function SetKey(doc: Doc, key: bytes): Doc
    requires AcceptsKey(doc)
  {
    Doc(Outer(doc) + [ObjectFrame(Top(doc).pairs, Some(key))], None, Closed)
  }

  function FrameValue(f: Frame): Value {
    match f
    case ArrayFrame(items) => Array(items)
    case ObjectFrame(pairs, _) => Object(pairs)
  }

  function CloseTop(doc: Doc): Doc
    requires doc.frames != [] && AcceptsValue(Doc(Outer(doc), None, Closed))
  {
    AddValue(Doc(Outer(doc), None, Closed), FrameValue(Top(doc)))
  }

  // _bijson_writer_check_expect_value
  function NotAValue(doc: Doc): Error {
    if Expected(doc) == ExpectKey then KeyExpected else UnmatchedEnd
  }

  function NotAKey(doc: Doc): Error {
    if ExpectedAfter(doc) == ExpectKey then ValueExpected else UnmatchedEnd
  }

  function Step(decimals: Decimals, doc: Doc, call: Call): (r: Result<Doc>)
    requires DocOk(doc)
  {
    if doc.open.Broken? then Err(SpoolBroken) else
    match call
    case BeginArray =>
      if Expected(doc) != ExpectValue then Err(NotAValue(doc))
      else Ok(doc.(frames := doc.frames + [ArrayFrame([])]))
    case BeginObject =>
      if Expected(doc) != ExpectValue then Err(NotAValue(doc))
      else Ok(doc.(frames := doc.frames + [ObjectFrame([], None)]))
    case EndArray =>
      if Expected(doc) != ExpectValue || ExpectedAfter(doc) != ExpectValue then Err(UnmatchedEnd)
      else Ok(CloseTop(doc))
    case EndObject =>
      if Expected(doc) != ExpectKey then Err(UnmatchedEnd)
      else Ok(CloseTop(doc))
    case AddKey(key) =>
      if Expected(doc) != ExpectKey then Err(NotAKey(doc))
      else if !ValidUtf8(key) then Err(InvalidUtf8)
      else Ok(SetKey(doc, key))
    case BeginKey =>
      if Expected(doc) != ExpectKey then Err(NotAKey(doc))
      else Ok(doc.(open := OpenKey([])))
    case AppendKey(chunk) =>
      if Expected(doc) != ExpectMoreKey then Err(UnmatchedEnd)
      else Ok(doc.(open := OpenKey(doc.open.text + chunk)))
    case EndKey =>
      if Expected(doc) != ExpectMoreKey then Err(UnmatchedEnd)
      else if !ValidUtf8(doc.open.text) then Err(InvalidUtf8)
      else Ok(SetKey(doc, doc.open.text))
    case AddString(text) =>
      if Expected(doc) != ExpectValue then Err(NotAValue(doc))
      else if !ValidUtf8(text) then Err(InvalidUtf8)
      else Ok(AddValue(doc, Scalar([STRING] + text)))
    case BeginString =>
      if Expected(doc) != ExpectValue then Err(NotAValue(doc))
      else Ok(doc.(open := OpenString([])))
    case AppendString(chunk) =>
      if Expected(doc) != ExpectMoreString then Err(UnmatchedEnd)
      else Ok(doc.(open := OpenString(doc.open.text + chunk)))
    case EndString =>
      if Expected(doc) != ExpectMoreString then Err(UnmatchedEnd)
      else if !ValidUtf8(doc.open.text) then Err(InvalidUtf8)
      else Ok(AddValue(doc, Scalar([STRING] + doc.open.text)))
    case AddBytes(text) =>
      if Expected(doc) != ExpectValue then Err(NotAValue(doc))
      else Ok(AddValue(doc, Scalar([BYTES] + text)))
    case BeginBytes =>
      if Expected(doc) != ExpectValue then Err(NotAValue(doc))
      else Ok(doc.(open := OpenBytes([])))
    case AppendBytes(chunk) =>
      if Expected(doc) != ExpectMoreBytes then Err(UnmatchedEnd)
      else Ok(doc.(open := OpenBytes(doc.open.text + chunk)))
    case EndBytes =>
      if Expected(doc) != ExpectMoreBytes then Err(UnmatchedEnd)
      else Ok(AddValue(doc, Scalar([BYTES] + doc.open.text)))
    case AddConstant(constant) =>
      if Expected(doc) != ExpectValue then Err(NotAValue(doc))
      else Ok(AddValue(doc, Scalar([constant])))
    case AddDecimal(text) =>
      if Expected(doc) != ExpectValue then Err(NotAValue(doc))
      else if text == [] then Err(ParameterIsZero)
      else match decimals(text)
        case Err(e) => Err(e)
        case Ok(number) =>
          if Miscounted(number) then Ok(doc.(open := Broken(number)))
          else Ok(AddValue(doc, Scalar(number.data)))
  }

  // Errors that leave the writer unusable.
  predicate Poisons(doc: Doc, call: Call) {
    match call
    case EndKey => Expected(doc) == ExpectMoreKey
    case EndString => Expected(doc) == ExpectMoreString
    case AddDecimal(text) => Expected(doc) == ExpectValue && text != []
    case _ => false
  }

  // The append functions return an error from the buffer without marking the writer failed.
  predicate IsAppend(call: Call) {
    call.AppendKey? || call.AppendString? || call.AppendBytes?
  }

  predicate CallOk(call: Call) {
    call.AddConstant? ==> IsConstant(call.constant)
  }

  lemma {:induction false} AddValueOk(doc: Doc, t: Value)
    requires DocOk(doc) && AcceptsValue(doc) && WellFormed(t)
    ensures DocOk(AddValue(doc, t))
  {
  }

  // Every call keeps the invariant.
  lemma {:induction false} StepOk(decimals: Decimals, doc: Doc, call: Call)
    requires DecimalsOk(decimals) && DocOk(doc) && CallOk(call)
    requires Step(decimals, doc, call).Ok?
    ensures DocOk(Step(decimals, doc, call).value)
  {
    hide ValidUtf8, WrittenScalar;
    match call
    case AddString(text) => StringWritten(text); AddValueOk(doc, Scalar([STRING] + text));
    case EndString => StringWritten(doc.open.text); AddValueOk(doc, Scalar([STRING] + doc.open.text));
    case AddBytes(text) => BytesWritten(text); AddValueOk(doc, Scalar([BYTES] + text));
    case EndBytes => BytesWritten(doc.open.text); AddValueOk(doc, Scalar([BYTES] + doc.open.text));
    case AddConstant(constant) => ConstantWritten(constant); AddValueOk(doc, Scalar([constant]));
    case AddDecimal(text) =>
      if !Miscounted(decimals(text).value) {
        AddValueOk(doc, Scalar(decimals(text).value.data));
      }
    case EndArray => CloseOk(doc);
    case EndObject => CloseOk(doc);
    case _ =>
  }

  lemma {:induction false} StringWritten(text: bytes)
    requires ValidUtf8(text)
    ensures WrittenScalar([STRING] + text)
  {
    assert ([STRING] + text)[1..] == text;
  }

  lemma {:induction false} BytesWritten(text: bytes)
    ensures WrittenScalar([BYTES] + text)
  {
  }

  lemma {:induction false} ConstantWritten(constant: byte)
    requires IsConstant(constant)
    ensures WrittenScalar([constant])
  {
  }

  lemma {:induction false} CloseOk(doc: Doc)
    requires DocOk(doc) && doc.frames != [] && doc.open == Closed
    ensures AcceptsValue(Doc(Outer(doc), None, Closed)) && DocOk(Doc(Outer(doc), None, Closed))
    ensures WellFormed(FrameValue(Top(doc)))
    ensures DocOk(CloseTop(doc))
  {
    AddValueOk(Doc(Outer(doc), None, Closed), FrameValue(Top(doc)));
  }

  // ---------- The spool of a document ----------

  function FrameTag(f: Frame): byte {
    if f.ArrayFrame? then ARRAY_TAG else OBJECT_TAG
  }

  function FrameBody(h: Hash, f: Frame): bytes
    requires FrameOk(f)
  {
    match f
    case ArrayFrame(items) => Concat(SpoolItems(h, items))
    case ObjectFrame(pairs, key) =>
      Concat(SpoolPairs(h, pairs)) + (if key.Some? then SpoolKey(key.value) else [])
  }

  // An open container still has zeroes for its two sizes.
  function FrameSpool(h: Hash, f: Frame): bytes
    requires FrameOk(f)
  {
    [FrameTag(f)] + Size(0) + Size(0) + FrameBody(h, f)
  }

  function FramesSpool(h: Hash, frames: seq<Frame>): bytes
    requires FramesOk(frames)
  {
    if frames == [] then [] else
      FramesSpool(h, frames[..|frames| - 1]) + FrameSpool(h, frames[|frames| - 1])
  }

  function OpenSpool(open: Open): bytes {
    match open
    case Closed => []
    case OpenKey(text) => Size(0) + text
    case OpenString(text) => [SCALAR_TAG] + Size(0) + ([STRING] + text)
    case OpenBytes(text) => [SCALAR_TAG] + Size(0) + ([BYTES] + text)
    case Broken(number) => [SCALAR_TAG] + Size(number.size) + number.data
  }

  function DocSpool(h: Hash, doc: Doc): bytes
    requires DocOk(doc)
  {
    FramesSpool(h, doc.frames)
    + (if doc.root.Some? then Spool(h, doc.root.value) else OpenSpool(doc.open))
  }

  // Where the innermost container's sizes are, or 0 outside all containers.
  function ContainerPos(h: Hash, frames: seq<Frame>): nat
    requires FramesOk(frames)
  {
    if frames == [] then 0 else |FramesSpool(h, frames[..|frames| - 1])| + 1
  }

  // For each open container, the position of the one around it; on top of these, the
  // position of the length of an open key, string or byte string.
  function FrameStack(h: Hash, frames: seq<Frame>): seq<nat>
    requires FramesOk(frames)
  {
    if frames == [] then [] else
      FrameStack(h, frames[..|frames| - 1]) + [ContainerPos(h, frames[..|frames| - 1])]
  }

  function DocStack(h: Hash, doc: Doc): seq<nat>
    requires DocOk(doc)
  {
    FrameStack(h, doc.frames)
    + (match doc.open
       case Closed => []
       case Broken(_) => []
       case OpenKey(_) => [|FramesSpool(h, doc.frames)|]
       case _ => [|FramesSpool(h, doc.frames)| + 1])
  }

  lemma {:induction false} SpoolSnoc(h: Hash, items: seq<Value>, t: Value)
    requires AllWellFormed(items) && WellFormed(t)
    ensures Concat(SpoolItems(h, items + [t])) == Concat(SpoolItems(h, items)) + Spool(h, t)
  {
    assert SpoolItems(h, items + [t]) == SpoolItems(h, items) + [Spool(h, t)];
    ConcatSplit(SpoolItems(h, items), [Spool(h, t)]);
    ConcatOne(Spool(h, t));
  }

  lemma {:induction false} SpoolPairSnoc(h: Hash, pairs: seq<Pair>, key: bytes, t: Value)
    requires AllPairsWellFormed(pairs) && WellFormed(t) && ValidUtf8(key)
    ensures Concat(SpoolPairs(h, pairs + [Pair(key, t)]))
         == Concat(SpoolPairs(h, pairs)) + SpoolKey(key) + Spool(h, t)
  {
    var pair := SpoolKey(key) + Spool(h, t);
    assert SpoolPairs(h, pairs + [Pair(key, t)]) == SpoolPairs(h, pairs) + [pair];
    ConcatSplit(SpoolPairs(h, pairs), [pair]);
    ConcatOne(pair);
  }

  // Extending the innermost container appends to the spool and leaves the stack alone.
  lemma {:induction false} GrowTop(h: Hash, frames: seq<Frame>, g: Frame, x: bytes)
    requires FramesOk(frames) && frames != [] && FrameOk(g)
    requires FrameTag(g) == FrameTag(frames[|frames| - 1])
    requires FrameBody(h, g) == FrameBody(h, frames[|frames| - 1]) + x
    ensures var grown := frames[..|frames| - 1] + [g];
      && FramesOk(grown)
      && FramesSpool(h, grown) == FramesSpool(h, frames) + x
      && FrameStack(h, grown) == FrameStack(h, frames)
      && ContainerPos(h, grown) == ContainerPos(h, frames)
  {
    hide FrameBody, Size;
    var grown := frames[..|frames| - 1] + [g];
    assert grown[..|grown| - 1] == frames[..|frames| - 1];
    var f := frames[|frames| - 1];
    assert FrameSpool(h, g) == FrameSpool(h, f) + x;
    Associate(FramesSpool(h, frames[..|frames| - 1]), FrameSpool(h, f), x);
  }

  // Adding a value appends its spooled form.
  lemma {:induction false} AddValueSpool(h: Hash, doc: Doc, t: Value)
    requires DocOk(doc) && AcceptsValue(doc) && WellFormed(t)
    ensures DocOk(AddValue(doc, t))
    ensures DocSpool(h, AddValue(doc, t)) == FramesSpool(h, doc.frames) + Spool(h, t)
    ensures DocStack(h, AddValue(doc, t)) == FrameStack(h, doc.frames)
    ensures ContainerPos(h, AddValue(doc, t).frames) == ContainerPos(h, doc.frames)
  {
    AddValueOk(doc, t);
    hide Spool, SpoolKey, Concat, FramesSpool, FrameStack, ContainerPos;
    if doc.frames == [] {
      NoFrames(h);
    } else {
      match Top(doc)
      case ArrayFrame(items) =>
        SpoolSnoc(h, items, t);
        GrowTop(h, doc.frames, ArrayFrame(items + [t]), Spool(h, t));
      case ObjectFrame(pairs, key) =>
        SpoolPairSnoc(h, pairs, key.value, t);
        GrowTop(h, doc.frames, ObjectFrame(pairs + [Pair(key.value, t)], None), Spool(h, t));
    }
  }

  // After a value, expect becomes expect_after_value, and that stays what it was; outside
  // all containers both are "none".
  lemma {:induction false} AddValueExpects(doc: Doc, t: Value)
    requires AcceptsValue(doc)
    ensures Expected(AddValue(doc, t)) == ExpectedAfter(AddValue(doc, t)) == ExpectedAfter(doc)
    ensures AddValue(doc, t).open == Closed
  {
  }

  lemma {:induction false} NoFrames(h: Hash)
    ensures FramesSpool(h, []) == [] && FrameStack(h, []) == [] && ContainerPos(h, []) == 0
  {
  }

  lemma {:induction false} SetKeySpool(h: Hash, doc: Doc, key: bytes)
    requires DocOk(doc) && AcceptsKey(doc) && ValidUtf8(key)
    ensures DocOk(SetKey(doc, key))
    ensures DocSpool(h, SetKey(doc, key)) == FramesSpool(h, doc.frames) + SpoolKey(key)
    ensures DocStack(h, SetKey(doc, key)) == FrameStack(h, doc.frames)
    ensures ContainerPos(h, SetKey(doc, key).frames) == ContainerPos(h, doc.frames)
  {
    hide SpoolKey, Concat, FramesSpool, FrameStack, ContainerPos;
    GrowTop(h, doc.frames, ObjectFrame(Top(doc).pairs, Some(key)), SpoolKey(key));
  }

  lemma {:induction false} PushFrameSpool(h: Hash, doc: Doc, f: Frame)
    requires DocOk(doc) && FrameOk(f) && FrameBody(h, f) == []
    ensures var frames := doc.frames + [f];
      && FramesSpool(h, frames) == FramesSpool(h, doc.frames) + [FrameTag(f)] + (Size(0) + Size(0))
      && FrameStack(h, frames) == FrameStack(h, doc.frames) + [ContainerPos(h, doc.frames)]
      && ContainerPos(h, frames) == |FramesSpool(h, doc.frames)| + 1
  {
    hide FrameBody, Size;
    var frames := doc.frames + [f];
    assert frames[..|frames| - 1] == doc.frames;
    assert FrameSpool(h, f) == [FrameTag(f)] + (Size(0) + Size(0));
    Associate(FramesSpool(h, doc.frames), [FrameTag(f)], Size(0) + Size(0));
  }

  // ---------- What each kind of call does to the writer's fields ----------

  // A plain document: nothing half-written, so the spool ends with the innermost container.
  lemma {:induction false} PlainSpool(h: Hash, doc: Doc)
    requires DocOk(doc) && doc.root.None? && doc.open == Closed
    ensures DocSpool(h, doc) == FramesSpool(h, doc.frames)
    ensures DocStack(h, doc) == FrameStack(h, doc.frames)
  {
  }

  lemma {:induction false} ExpectsValueMeans(doc: Doc)
    requires DocOk(doc)
    ensures Expected(doc) == ExpectValue <==> AcceptsValue(doc) && doc.open == Closed
    ensures Expected(doc) == ExpectKey <==> AcceptsKey(doc) && doc.open == Closed
    ensures AcceptsKey(doc) ==> doc.root.None? && doc.frames != []
    ensures AcceptsValue(doc) ==> doc.root.None?
  {
  }

  lemma {:induction false} ScalarSpool(h: Hash, doc: Doc, data: bytes)
    requires DocOk(doc) && Expected(doc) == ExpectValue && WrittenScalar(data)
    ensures AcceptsValue(doc)
    ensures var after := AddValue(doc, Scalar(data));
      && DocOk(after)
      && DocSpool(h, after) == DocSpool(h, doc) + [SCALAR_TAG] + Size(|data|) + data
      && DocStack(h, after) == DocStack(h, doc)
      && ContainerPos(h, after.frames) == ContainerPos(h, doc.frames)
      && Expected(after) == ExpectedAfter(after) == ExpectedAfter(doc) && after.open == Closed
  {
    hide FramesSpool, FrameStack, ContainerPos, Size, WrittenScalar;
    ExpectsValueMeans(doc);
    PlainSpool(h, doc);
    AddValueSpool(h, doc, Scalar(data));
    AddValueExpects(doc, Scalar(data));
    Associate(FramesSpool(h, doc.frames), [SCALAR_TAG] + Size(|data|), data);
    Associate(FramesSpool(h, doc.frames), [SCALAR_TAG], Size(|data|));
  }

  lemma {:induction false} ContainerSpool(h: Hash, doc: Doc, f: Frame)
    requires DocOk(doc) && Expected(doc) == ExpectValue
    requires f == ArrayFrame([]) || f == ObjectFrame([], None)
    ensures var after := doc.(frames := doc.frames + [f]);
      && DocOk(after)
      && DocSpool(h, after) == DocSpool(h, doc) + [FrameTag(f)] + Size(0) + Size(0)
      && DocStack(h, after) == DocStack(h, doc) + [ContainerPos(h, doc.frames)]
      && ContainerPos(h, after.frames) == |DocSpool(h, doc)| + 1
      && Expected(after) == ExpectedAfter(after) == if f.ArrayFrame? then ExpectValue else ExpectKey
  {
    var after := doc.(frames := doc.frames + [f]);
    assert DocOk(after) && after.root.None? by {
      ExpectsValueMeans(doc);
    }
    PlainSpool(h, doc);
    PlainSpool(h, after);
    assert SpoolItems(h, []) == [] && SpoolPairs(h, []) == [];
    PushFrameSpool(h, doc, f);
    hide FramesSpool, FrameStack, ContainerPos, Size, DocSpool, DocStack;
    Associate(DocSpool(h, doc) + [FrameTag(f)], Size(0), Size(0));
  }

  // The tag just before a container's sizes, from which the writer restores its expectations.
  lemma {:induction false} TagBeforeContainer(h: Hash, frames: seq<Frame>, rest: bytes)
    requires FramesOk(frames)
    ensures ContainerPos(h, frames) == 0 <==> frames == []
    ensures frames != [] ==>
      && ContainerPos(h, frames) <= |FramesSpool(h, frames) + rest|
      && (FramesSpool(h, frames) + rest)[ContainerPos(h, frames) - 1] == FrameTag(frames[|frames| - 1])
  {
    hide FrameBody, Size;
    if frames != [] {
      var before := FramesSpool(h, frames[..|frames| - 1]);
      assert FrameSpool(h, frames[|frames| - 1])[0] == FrameTag(frames[|frames| - 1]);
    }
  }

  lemma {:induction false} ReplaceSizes(pre: bytes, tag: byte, old1: bytes, old2: bytes, body: bytes, new1: bytes, new2: bytes)
    requires |old1| == |old2| == |new1| == |new2| == 8
    ensures var s := pre + ([tag] + old1 + old2 + body);
      && |s| == |pre| + 17 + |body| && At(s, |pre| + 17, body)
      && s[..|pre| + 1] + (new1 + new2) + s[|pre| + 17..] == pre + ([tag] + new1 + new2 + body)
  {
    var s := pre + ([tag] + old1 + old2 + body);
    assert s[..|pre| + 1] == pre + [tag];
    assert s[|pre| + 17..] == body;
  }

  lemma {:induction false} SpoolOfFrame(h: Hash, f: Frame)
    requires FrameOk(f) && (f.ObjectFrame? ==> f.key == None)
    ensures WellFormed(FrameValue(f))
    ensures Spool(h, FrameValue(f))
         == [FrameTag(f)] + Size(8 + |FrameBody(h, f)|) + Size(|Encode(h, FrameValue(f))|) + FrameBody(h, f)
  {
    hide Encode, Concat, Size, WellFormedPair;
  }

  // Closing a container: filling in its two sizes turns the open form into the closed one.
  lemma {:induction false} CloseSpool(h: Hash, doc: Doc)
    requires DocOk(doc) && doc.open == Closed && doc.frames != []
    requires Top(doc).ObjectFrame? ==> Top(doc).key == None
    ensures AcceptsValue(Doc(Outer(doc), None, Closed))
    ensures DocOk(CloseTop(doc)) && FramesOk(CloseTop(doc).frames)
    ensures WellFormed(FrameValue(Top(doc)))
    ensures var s, p, body := DocSpool(h, doc), ContainerPos(h, doc.frames), FrameBody(h, Top(doc));
      && p + 16 + |body| == |s| && At(s, p + 16, body)
      && DocSpool(h, CloseTop(doc))
         == s[..p] + (Size(8 + |body|) + Size(|Encode(h, FrameValue(Top(doc)))|)) + s[p + 16..]
    ensures DocStack(h, doc) == DocStack(h, CloseTop(doc)) + [ContainerPos(h, CloseTop(doc).frames)]
  {
    hide FramesSpool, FrameStack, ContainerPos, FrameBody, Size, Encode, Spool, At, AddValue, DocSpool, DocStack;
    CloseOk(doc);
    var outer, f := Doc(Outer(doc), None, Closed), Top(doc);
    assert doc.root.None? && AcceptsValue(outer);
    AddValueSpool(h, outer, FrameValue(f));
    PlainSpool(h, doc);
    LastFrame(h, doc.frames);
    SpoolOfFrame(h, f);
    ReplaceSizes(FramesSpool(h, outer.frames), FrameTag(f), Size(0), Size(0), FrameBody(h, f),
                 Size(8 + |FrameBody(h, f)|), Size(|Encode(h, FrameValue(f))|));
  }

  lemma {:induction false} LastFrame(h: Hash, frames: seq<Frame>)
    requires FramesOk(frames) && frames != []
    ensures var outer, f := frames[..|frames| - 1], frames[|frames| - 1];
      && FramesSpool(h, frames) == FramesSpool(h, outer) + ([FrameTag(f)] + Size(0) + Size(0) + FrameBody(h, f))
      && FrameStack(h, frames) == FrameStack(h, outer) + [ContainerPos(h, outer)]
      && ContainerPos(h, frames) == |FramesSpool(h, outer)| + 1
  {
  }

  lemma {:induction false} CloseExpects(h: Hash, doc: Doc)
    requires DocOk(doc) && doc.open == Closed && doc.frames != []
    ensures AcceptsValue(Doc(Outer(doc), None, Closed)) && DocOk(CloseTop(doc)) && CloseTop(doc).open == Closed
    ensures var after := CloseTop(doc);
      var p := ContainerPos(h, after.frames);
      if p == 0 then Expected(after) == ExpectedAfter(after) == ExpectNone
      else
        && p <= |DocSpool(h, after)|
        && DocSpool(h, after)[p - 1] in {ARRAY_TAG, OBJECT_TAG}
        && Expected(after) == ExpectedAfter(after)
           == if DocSpool(h, after)[p - 1] == OBJECT_TAG then ExpectKey else ExpectValue
  {
    hide FramesSpool, FrameStack, ContainerPos, Spool, OpenSpool;
    CloseOk(doc);
    var outer, after := Doc(Outer(doc), None, Closed), CloseTop(doc);
    AddValueExpects(outer, FrameValue(Top(doc)));
    TagBeforeContainer(h, after.frames,
      if after.root.Some? then Spool(h, after.root.value) else OpenSpool(after.open));
  }

  // A number with a wrong size: its bytes are appended all the same.
  lemma {:induction false} BrokenSpool(h: Hash, doc: Doc, number: Number)
    requires DocOk(doc) && Expected(doc) == ExpectValue && Miscounted(number) && number.size <= SIZE_MAX
    ensures var after := doc.(open := Broken(number));
      && DocOk(after)
      && DocSpool(h, after) == DocSpool(h, doc) + [SCALAR_TAG] + Size(number.size) + number.data
      && DocStack(h, after) == DocStack(h, doc)
      && ExpectedAfter(after) == ExpectedAfter(doc)
  {
    hide FramesSpool, FrameStack, ContainerPos, Size;
    ExpectsValueMeans(doc);
    PlainSpool(h, doc);
    Associate(FramesSpool(h, doc.frames), [SCALAR_TAG] + Size(number.size), number.data);
    Associate(FramesSpool(h, doc.frames), [SCALAR_TAG], Size(number.size));
  }

  // ---------- Strings, byte strings and keys built in pieces ----------

  // The payload of an open string or byte string, type byte included.
  function OpenData(open: Open): bytes
    requires open.OpenString? || open.OpenBytes?
  {
    [if open.OpenString? then STRING else BYTES] + open.text
  }

  lemma {:induction false} BeginOpenSpool(h: Hash, doc: Doc, open: Open)
    requires DocOk(doc) && Expected(doc) == ExpectValue
    requires open == OpenString([]) || open == OpenBytes([])
    ensures var after := doc.(open := open);
      && DocOk(after)
      && DocSpool(h, after) == DocSpool(h, doc) + [SCALAR_TAG] + Size(0) + OpenData(open)
      && DocStack(h, after) == DocStack(h, doc) + [|DocSpool(h, doc)| + 1]
      && Expected(after) == (if open.OpenString? then ExpectMoreString else ExpectMoreBytes)
      && ExpectedAfter(after) == ExpectedAfter(doc)
  {
    hide FramesSpool, FrameStack, ContainerPos, Size;
    ExpectsValueMeans(doc);
    PlainSpool(h, doc);
  }

  lemma {:induction false} BeginKeySpool(h: Hash, doc: Doc)
    requires DocOk(doc) && Expected(doc) == ExpectKey
    ensures var after := doc.(open := OpenKey([]));
      && DocOk(after)
      && DocSpool(h, after) == DocSpool(h, doc) + Size(0)
      && DocStack(h, after) == DocStack(h, doc) + [|DocSpool(h, doc)|]
      && Expected(after) == ExpectMoreKey && ExpectedAfter(after) == ExpectedAfter(doc)
  {
    hide FramesSpool, FrameStack, ContainerPos, Size;
    ExpectsValueMeans(doc);
    PlainSpool(h, doc);
  }

  // What has been pushed before the length of an open text, and the text.
  function OpenPrefix(h: Hash, doc: Doc): bytes
    requires DocOk(doc)
  {
    FramesSpool(h, doc.frames) + if doc.open.OpenKey? then [] else [SCALAR_TAG]
  }

  function OpenText(open: Open): bytes
    requires InTheMaking(open)
  {
    if open.OpenKey? then open.text else OpenData(open)
  }

  lemma {:induction false} OpenForm(h: Hash, doc: Doc)
    requires DocOk(doc) && InTheMaking(doc.open)
    ensures FramesOk(doc.frames)
    ensures DocSpool(h, doc) == OpenPrefix(h, doc) + (Size(0) + OpenText(doc.open))
    ensures DocStack(h, doc) == FrameStack(h, doc.frames) + [|OpenPrefix(h, doc)|]
  {
    hide FramesSpool, FrameStack, Size;
    Associate(FramesSpool(h, doc.frames), if doc.open.OpenKey? then [] else [SCALAR_TAG], Size(0) + OpenText(doc.open));
    Associate(if doc.open.OpenKey? then [] else [SCALAR_TAG], Size(0), OpenText(doc.open));
  }

  lemma {:induction false} OpenSize(h: Hash, doc: Doc)
    requires DocOk(doc) && InTheMaking(doc.open)
    ensures |DocSpool(h, doc)| == |OpenPrefix(h, doc)| + 8 + |OpenText(doc.open)|
  {
    hide DocSpool, OpenPrefix, Size, OpenText;
    OpenForm(h, doc);
  }

  lemma {:induction false} AppendSpool(h: Hash, doc: Doc, chunk: bytes)
    requires DocOk(doc) && InTheMaking(doc.open)
    ensures var after := doc.(open := doc.open.(text := doc.open.text + chunk));
      && DocOk(after)
      && DocSpool(h, after) == DocSpool(h, doc) + chunk
      && DocStack(h, after) == DocStack(h, doc)
      && Expected(after) == Expected(doc) && ExpectedAfter(after) == ExpectedAfter(doc)
  {
    hide FramesSpool, FrameStack, ContainerPos, Size, DocSpool, DocStack;
    var after := doc.(open := doc.open.(text := doc.open.text + chunk));
    OpenForm(h, doc);
    OpenForm(h, after);
    var pre, text := OpenPrefix(h, doc), OpenText(doc.open);
    assert OpenText(after.open) == text + chunk by {
      if !doc.open.OpenKey? {
        Associate([OpenData(doc.open)[0]], doc.open.text, chunk);
      }
    }
    Associate(Size(0), text, chunk);
    Associate(pre, Size(0) + text, chunk);
  }

  lemma {:induction false} ReplaceSize(pre: bytes, old1: bytes, data: bytes, new1: bytes)
    requires |old1| == |new1| == 8
    ensures var s := pre + (old1 + data);
      && |pre| + 8 + |data| == |s| && s[|pre| + 8..] == data
      && s[..|pre|] + new1 + s[|pre| + 8..] == pre + (new1 + data)
  {
    var s := pre + (old1 + data);
    assert s[..|pre|] == pre && s[|pre| + 8..] == data;
  }

  // With its length filled in, an open string is what one add would have pushed.
  lemma {:induction false} EndOpenSpool(h: Hash, doc: Doc)
    requires DocOk(doc) && (doc.open.OpenString? || doc.open.OpenBytes?)
    requires WrittenScalar(OpenData(doc.open))
    ensures AcceptsValue(doc)
    ensures var after, data := AddValue(doc, Scalar(OpenData(doc.open))), OpenData(doc.open);
      && DocOk(after) && FramesOk(after.frames)
      && DocStack(h, after) == FrameStack(h, doc.frames)
      && DocSpool(h, after) == OpenPrefix(h, doc) + (Size(|data|) + data)
      && ContainerPos(h, after.frames) == ContainerPos(h, doc.frames)
      && Expected(after) == ExpectedAfter(after) == ExpectedAfter(doc) && after.open == Closed
  {
    hide FramesSpool, FrameStack, ContainerPos, Size, WrittenScalar, AddValue, ExpectedAfter, DocSpool, DocStack;
    var data := OpenData(doc.open);
    AddValueSpool(h, doc, Scalar(data));
    AddValueExpects(doc, Scalar(data));
    Associate([SCALAR_TAG], Size(|data|), data);
    Associate(FramesSpool(h, doc.frames), [SCALAR_TAG], Size(|data|) + data);
  }

  lemma {:induction false} StepEndsString(decimals: Decimals, doc: Doc)
    requires DocOk(doc)
    ensures !IsAppend(EndString) && (Poisons(doc, EndString) <==> Expected(doc) == ExpectMoreString)
    ensures doc.open.Broken? ==> Step(decimals, doc, EndString) == Err(SpoolBroken)
    ensures !doc.open.Broken? && Expected(doc) != ExpectMoreString ==> Step(decimals, doc, EndString) == Err(UnmatchedEnd)
    ensures Expected(doc) == ExpectMoreString ==>
      && doc.open.OpenString? && AcceptsValue(doc) && OpenText(doc.open) == OpenData(doc.open) == [STRING] + doc.open.text
      && Step(decimals, doc, EndString)
         == if ValidUtf8(doc.open.text) then Ok(AddValue(doc, Scalar(OpenData(doc.open)))) else Err(InvalidUtf8)
  {
    hide WrittenScalar, AddValue, ValidUtf8;
  }

  lemma {:induction false} StepEndsBytes(decimals: Decimals, doc: Doc)
    requires DocOk(doc)
    ensures !IsAppend(EndBytes) && !Poisons(doc, EndBytes)
    ensures doc.open.Broken? ==> Step(decimals, doc, EndBytes) == Err(SpoolBroken)
    ensures !doc.open.Broken? && Expected(doc) != ExpectMoreBytes ==> Step(decimals, doc, EndBytes) == Err(UnmatchedEnd)
    ensures Expected(doc) == ExpectMoreBytes ==>
      && doc.open.OpenBytes? && AcceptsValue(doc) && OpenText(doc.open) == OpenData(doc.open) == [BYTES] + doc.open.text
      && Step(decimals, doc, EndBytes) == Ok(AddValue(doc, Scalar(OpenData(doc.open))))
  {
    hide WrittenScalar, AddValue;
  }

  lemma {:induction false} EndKeySpool(h: Hash, doc: Doc)
    requires DocOk(doc) && doc.open.OpenKey? && ValidUtf8(doc.open.text)
    ensures AcceptsKey(doc)
    ensures var after, key := SetKey(doc, doc.open.text), doc.open.text;
      && DocOk(after) && FramesOk(after.frames)
      && DocStack(h, after) == FrameStack(h, doc.frames)
      && DocSpool(h, after) == OpenPrefix(h, doc) + (Size(|key|) + key)
      && ContainerPos(h, after.frames) == ContainerPos(h, doc.frames)
      && Expected(after) == ExpectValue && ExpectedAfter(after) == ExpectedAfter(doc) == ExpectKey
  {
    hide FramesSpool, FrameStack, ContainerPos, Size, ValidUtf8, DocSpool, DocStack;
    SetKeySpool(h, doc, doc.open.text);
  }

  lemma {:induction false} KeySpool(h: Hash, doc: Doc, key: bytes)
    requires DocOk(doc) && Expected(doc) == ExpectKey && ValidUtf8(key)
    ensures AcceptsKey(doc)
    ensures var after := SetKey(doc, key);
      && DocOk(after) && FramesOk(after.frames)
      && DocSpool(h, after) == DocSpool(h, doc) + Size(|key|) + key
      && DocStack(h, after) == DocStack(h, doc)
      && ContainerPos(h, after.frames) == ContainerPos(h, doc.frames)
      && Expected(after) == ExpectValue && ExpectedAfter(after) == ExpectedAfter(doc)
  {
    hide FramesSpool, FrameStack, ContainerPos, Size, ValidUtf8;
    ExpectsValueMeans(doc);
    PlainSpool(h, doc);
    SetKeySpool(h, doc, key);
    Associate(FramesSpool(h, doc.frames), Size(|key|), key);
  }

  lemma {:induction false} EncodePairsKeys(h: Hash, pairs: seq<Pair>)
    requires AllPairsWellFormed(pairs)
    ensures Keys(EncodePairs(h, pairs)) == PairKeys(pairs)
  {
  }
}
