// What a writer holds is what has been called: a document determines the calls that led to it,
// up to how its texts were cut into pieces.
module Histories {
  import opened Wrappers
  import opened Bytes
  import opened Layout
  import opened Utf8
  import opened Tree
  import opened Document
  import Runs

  // ---------- What the calls say ----------

  datatype Token =
    | OpenArray | CloseArray
    | OpenObject | CloseObject
    | Key(key: bytes)
    | Leaf(data: bytes)

  datatype TextKind = NoText | KeyText | StringText | BytesText

  // The tokens so far, and the text in the making.
  datatype History = History(tokens: seq<Token>, kind: TextKind, text: bytes)

  const NOTHING := History([], NoText, [])

  // What a call adds, whatever state the writer is in.
  function Said(decimals: Decimals, s: History, call: Call): History {
    match call
    case BeginArray => s.(tokens := s.tokens + [OpenArray])
    case EndArray => s.(tokens := s.tokens + [CloseArray])
    case BeginObject => s.(tokens := s.tokens + [OpenObject])
    case EndObject => s.(tokens := s.tokens + [CloseObject])
    case AddKey(key) => s.(tokens := s.tokens + [Key(key)])
    case BeginKey => s.(kind := KeyText, text := [])
    case AppendKey(chunk) => s.(text := s.text + chunk)
    case EndKey => History(s.tokens + [Key(s.text)], NoText, [])
    case AddString(text) => s.(tokens := s.tokens + [Leaf([0x08] + text)])
    case BeginString => s.(kind := StringText, text := [])
    case AppendString(chunk) => s.(text := s.text + chunk)
    case EndString => History(s.tokens + [Leaf([0x08] + s.text)], NoText, [])
    case AddBytes(text) => s.(tokens := s.tokens + [Leaf([0x09] + text)])
    case BeginBytes => s.(kind := BytesText, text := [])
    case AppendBytes(chunk) => s.(text := s.text + chunk)
    case EndBytes => History(s.tokens + [Leaf([0x09] + s.text)], NoText, [])
    case AddConstant(constant) => s.(tokens := s.tokens + [Leaf([constant])])
    case AddDecimal(text) =>
      match decimals(text)
      case Ok(number) => s.(tokens := s.tokens + [Leaf(number.data)])
      case Err(_) => s
  }

  function Told(decimals: Decimals, calls: seq<Call>): History {
    if calls == [] then NOTHING else Said(decimals, Told(decimals, calls[..|calls| - 1]), calls[|calls| - 1])
  }

  // ---------- What a document says ----------

  function TreeTokens(t: Value): seq<Token>
    decreases t, 0
  {
    match t
    case Scalar(data) => [Leaf(data)]
    case Array(items) => [OpenArray] + ItemTokens(items) + [CloseArray]
    case Object(pairs) => [OpenObject] + PairTokens(pairs) + [CloseObject]
  }

  function ItemTokens(items: seq<Value>): seq<Token>
    decreases items, 1
  {
    if items == [] then [] else ItemTokens(items[..|items| - 1]) + TreeTokens(items[|items| - 1])
  }

  function PairTokens(pairs: seq<Pair>): seq<Token>
    decreases pairs, 1
  {
    if pairs == [] then []
    else PairTokens(pairs[..|pairs| - 1]) + [Key(pairs[|pairs| - 1].key)] + TreeTokens(pairs[|pairs| - 1].value)
  }

  function FrameTokens(f: Frame): seq<Token> {
    match f
    case ArrayFrame(items) => [OpenArray] + ItemTokens(items)
    case ObjectFrame(pairs, key) =>
      [OpenObject] + PairTokens(pairs) + if key.Some? then [Key(key.value)] else []
  }

  function FramesTokens(frames: seq<Frame>): seq<Token> {
    if frames == [] then [] else FramesTokens(frames[..|frames| - 1]) + FrameTokens(frames[|frames| - 1])
  }

  function DocTokens(doc: Doc): seq<Token> {
    FramesTokens(doc.frames) + if doc.root.Some? then TreeTokens(doc.root.value) else []
  }

  // What a document has been told, as far as no number with a wrong size is involved.
  function DocHistory(doc: Doc): History {
    match doc.open
    case OpenKey(text) => History(DocTokens(doc), KeyText, text)
    case OpenString(text) => History(DocTokens(doc), StringText, text)
    case OpenBytes(text) => History(DocTokens(doc), BytesText, text)
    case _ => History(DocTokens(doc), NoText, [])
  }

  // ---------- One call ----------

  lemma {:induction false} FramesSnoc(frames: seq<Frame>, f: Frame)
    ensures FramesTokens(frames + [f]) == FramesTokens(frames) + FrameTokens(f)
  {
    hide FrameTokens;
    assert (frames + [f])[..|frames|] == frames;
  }

  lemma {:induction false} ItemsSnoc(items: seq<Value>, t: Value)
    ensures ItemTokens(items + [t]) == ItemTokens(items) + TreeTokens(t)
  {
    hide TreeTokens;
    assert (items + [t])[..|items|] == items;
  }

  lemma {:induction false} PairsSnoc(pairs: seq<Pair>, p: Pair)
    ensures PairTokens(pairs + [p]) == PairTokens(pairs) + [Key(p.key)] + TreeTokens(p.value)
  {
    hide TreeTokens;
    assert (pairs + [p])[..|pairs|] == pairs;
  }

  lemma {:induction false} TopTokens(doc: Doc)
    requires doc.frames != []
    ensures FramesTokens(doc.frames) == FramesTokens(Outer(doc)) + FrameTokens(Top(doc))
  {
    hide FrameTokens;
    assert doc.frames == Outer(doc) + [Top(doc)];
    FramesSnoc(Outer(doc), Top(doc));
  }

  // A value comes behind everything that was said before.
  lemma {:induction false} ValueTokens(doc: Doc, t: Value)
    requires AcceptsValue(doc)
    ensures DocHistory(AddValue(doc, t)) == History(DocTokens(doc) + TreeTokens(t), NoText, [])
  {
    hide FramesTokens, TreeTokens, FrameTokens, DocTokens;
    if doc.frames == [] {
      RootTokens(doc);
      RootTokens(Doc([], Some(t), Closed));
      assert [] + TreeTokens(t) == TreeTokens(t);
    } else {
      var f := FrameWith(Top(doc), t);
      TopTokens(doc);
      FrameValueTokens(Top(doc), t);
      FramesSnoc(Outer(doc), f);
      OpenDocTokens(doc);
      OpenDocTokens(Doc(Outer(doc) + [f], None, Closed));
      Regrouped(FramesTokens(Outer(doc)), FrameTokens(Top(doc)), TreeTokens(t));
    }
  }

  function FrameWith(f: Frame, t: Value): Frame
    requires TakesValue(f)
  {
    match f
    case ArrayFrame(items) => ArrayFrame(items + [t])
    case ObjectFrame(pairs, key) => ObjectFrame(pairs + [Pair(key.value, t)], None)
  }

  lemma {:induction false} FrameValueTokens(f: Frame, t: Value)
    requires TakesValue(f)
    ensures FrameTokens(FrameWith(f, t)) == FrameTokens(f) + TreeTokens(t)
  {
    hide TreeTokens, ItemTokens, PairTokens;
    match f
    case ArrayFrame(items) => ItemsSnoc(items, t);
    case ObjectFrame(pairs, key) => PairsSnoc(pairs, Pair(key.value, t));
  }

  lemma {:induction false} RootTokens(doc: Doc)
    requires doc.frames == []
    ensures DocTokens(doc) == if doc.root.Some? then TreeTokens(doc.root.value) else []
  {
    hide TreeTokens;
    NoFrameTokens();
  }

  lemma {:induction false} OpenDocTokens(doc: Doc)
    requires doc.root.None?
    ensures DocTokens(doc) == FramesTokens(doc.frames)
  {
    hide FramesTokens;
  }

  lemma {:induction false} Regrouped(a: seq<Token>, b: seq<Token>, c: seq<Token>)
    ensures a + (b + c) == a + b + c
  {
  }

  lemma {:induction false} NoFrameTokens()
    ensures FramesTokens([]) == []
  {
  }

  lemma {:induction false} KeyTokens(doc: Doc, key: bytes)
    requires AcceptsKey(doc) && doc.root.None?
    ensures DocHistory(SetKey(doc, key)) == History(DocTokens(doc) + [Key(key)], NoText, [])
  {
    hide FramesTokens, TreeTokens, ItemTokens, PairTokens;
    TopTokens(doc);
    FramesSnoc(Outer(doc), ObjectFrame(Top(doc).pairs, Some(key)));
  }

  lemma {:induction false} OpenTokens(doc: Doc, f: Frame)
    requires doc.root.None? && doc.open == Closed
    ensures DocHistory(doc.(frames := doc.frames + [f])) == History(DocTokens(doc) + FrameTokens(f), NoText, [])
  {
    hide FramesTokens, FrameTokens;
    FramesSnoc(doc.frames, f);
  }

  lemma {:induction false} CloseTokens(doc: Doc)
    requires doc.frames != [] && doc.root.None? && doc.open == Closed
    requires AcceptsValue(Doc(Outer(doc), None, Closed)) && (Top(doc).ObjectFrame? ==> Top(doc).key.None?)
    ensures DocHistory(CloseTop(doc))
         == History(DocTokens(doc) + [if Top(doc).ArrayFrame? then CloseArray else CloseObject], NoText, [])
  {
    hide FramesTokens, ItemTokens, PairTokens;
    TopTokens(doc);
    ValueTokens(Doc(Outer(doc), None, Closed), FrameValue(Top(doc)));
  }

  // A call that succeeds makes the document say what the call says, and nothing else.
  lemma {:induction false} CallSays(decimals: Decimals, doc: Doc, call: Call)
    requires DocOk(doc) && Step(decimals, doc, call).Ok? && !Step(decimals, doc, call).value.open.Broken?
    ensures DocHistory(Step(decimals, doc, call).value) == Said(decimals, DocHistory(doc), call)
  {
    hide DocTokens, TreeTokens, ItemTokens, PairTokens, FramesTokens, AddValue, SetKey, FrameTokens, ValidUtf8;
    match call
    case BeginArray => OpenTokens(doc, ArrayFrame([])); EmptyFrames();
    case BeginObject => OpenTokens(doc, ObjectFrame([], None)); EmptyFrames();
    case EndArray => CloseTokens(doc);
    case EndObject => CloseTokens(doc);
    case AddKey(key) => KeyTokens(doc, key);
    case EndKey => KeyTokens(doc, doc.open.text); OpenIsClosed(doc);
    case AddString(text) => ValueTokens(doc, Scalar([0x08] + text)); LeafTokens([0x08] + text);
    case EndString => ValueTokens(doc, Scalar([0x08] + doc.open.text)); LeafTokens([0x08] + doc.open.text);
    case AddBytes(text) => ValueTokens(doc, Scalar([0x09] + text)); LeafTokens([0x09] + text);
    case EndBytes => ValueTokens(doc, Scalar([0x09] + doc.open.text)); LeafTokens([0x09] + doc.open.text);
    case AddConstant(constant) => ValueTokens(doc, Scalar([constant])); LeafTokens([constant]);
    case AddDecimal(text) =>
      ValueTokens(doc, Scalar(decimals(text).value.data));
      LeafTokens(decimals(text).value.data);
    case _ => OpenIsClosed(doc);
  }

  lemma {:induction false} EmptyFrames()
    ensures FrameTokens(ArrayFrame([])) == [OpenArray] && FrameTokens(ObjectFrame([], None)) == [OpenObject]
  {
  }

  lemma {:induction false} LeafTokens(data: bytes)
    ensures TreeTokens(Scalar(data)) == [Leaf(data)]
  {
  }

  // A text in the making is not among the tokens.
  lemma {:induction false} OpenIsClosed(doc: Doc)
    ensures forall open: Open :: DocTokens(doc.(open := open)) == DocTokens(doc)
  {
  }

  // ---------- What is refused ----------

  // Where a document stands.
  datatype Place = BeforeRoot | AfterRoot | InArray | BeforeKey | BehindKey | InText

  function PlaceOf(doc: Doc): Place {
    if doc.open != Closed then InText
    else if doc.root.Some? then AfterRoot
    else if doc.frames == [] then BeforeRoot
    else match Top(doc)
      case ArrayFrame(_) => InArray
      case ObjectFrame(_, key) => if key.Some? then BehindKey else BeforeKey
  }

  // A container, or a whole value.
  predicate IsValueCall(call: Call) {
    call.BeginArray? || call.BeginObject? || call.AddString? || call.BeginString? || call.AddBytes? || call.BeginBytes?
    || call.AddConstant? || call.AddDecimal?
  }

  predicate InObject(doc: Doc) {
    doc.frames != [] && Top(doc).ObjectFrame?
  }

  // A value is taken in front of the root, in an array and behind a key, and a key in front of
  // a member; an array ends in an array and an object in front of a member. Everything else is
  // refused, as an end without a beginning or because a key or a value should have come.
  lemma {:induction false} Refusals(decimals: Decimals, doc: Doc, call: Call)
    requires DocOk(doc) && !doc.open.Broken?
    ensures IsValueCall(call) && PlaceOf(doc) !in {BeforeRoot, InArray, BehindKey} ==>
      Step(decimals, doc, call) == Err(if PlaceOf(doc) == BeforeKey then KeyExpected else UnmatchedEnd)
    ensures (call.AddKey? || call.BeginKey?) && PlaceOf(doc) != BeforeKey ==>
      Step(decimals, doc, call) == Err(if InObject(doc) then ValueExpected else UnmatchedEnd)
    ensures call == EndArray && PlaceOf(doc) != InArray ==> Step(decimals, doc, call) == Err(UnmatchedEnd)
    ensures call == EndObject && PlaceOf(doc) != BeforeKey ==> Step(decimals, doc, call) == Err(UnmatchedEnd)
    ensures (call.AppendKey? || call == EndKey) && !doc.open.OpenKey? ==> Step(decimals, doc, call) == Err(UnmatchedEnd)
    ensures (call.AppendString? || call == EndString) && !doc.open.OpenString? ==>
      Step(decimals, doc, call) == Err(UnmatchedEnd)
    ensures (call.AppendBytes? || call == EndBytes) && !doc.open.OpenBytes? ==>
      Step(decimals, doc, call) == Err(UnmatchedEnd)
  {
    hide WrittenScalar, ValidUtf8, AddValue, SetKey;
  }

  // Where its kind belongs, a call is refused only for its text: one that is no UTF-8, or no
  // number.
  lemma {:induction false} Acceptance(decimals: Decimals, doc: Doc, call: Call)
    requires DocOk(doc)
    requires
      || (IsValueCall(call) && PlaceOf(doc) in {BeforeRoot, InArray, BehindKey})
      || ((call.AddKey? || call.BeginKey?) && PlaceOf(doc) == BeforeKey)
      || (call == EndArray && PlaceOf(doc) == InArray) || (call == EndObject && PlaceOf(doc) == BeforeKey)
      || ((call.AppendKey? || call == EndKey) && doc.open.OpenKey?)
      || ((call.AppendString? || call == EndString) && doc.open.OpenString?)
      || ((call.AppendBytes? || call == EndBytes) && doc.open.OpenBytes?)
    ensures Step(decimals, doc, call).Ok? <==>
      match call
      case AddKey(key) => ValidUtf8(key)
      case EndKey => ValidUtf8(doc.open.text)
      case AddString(text) => ValidUtf8(text)
      case EndString => ValidUtf8(doc.open.text)
      case AddDecimal(text) => text != [] && decimals(text).Ok?
      case _ => true
    ensures !call.AddDecimal? && Step(decimals, doc, call).Err? ==> Step(decimals, doc, call) == Err(InvalidUtf8)
  {
    hide WrittenScalar, ValidUtf8, AddValue, SetKey;
  }

  // A writer fails for good at the end of a text that is no UTF-8, and at a text that is no
  // number where a value is expected. Every other refusal leaves it as it was.
  lemma {:induction false} Failures(decimals: Decimals, doc: Doc, call: Call)
    requires DocOk(doc) && Step(decimals, doc, call).Err?
    ensures var after := Runs.Do(decimals, Runs.State(doc, false), call);
      && after.doc == doc
      && (after.failed <==>
            || (call == EndKey && doc.open.OpenKey? && !ValidUtf8(doc.open.text))
            || (call == EndString && doc.open.OpenString? && !ValidUtf8(doc.open.text))
            || (call.AddDecimal? && PlaceOf(doc) in {BeforeRoot, InArray, BehindKey} && call.text != []
                && decimals(call.text).Err?))
  {
    hide WrittenScalar, ValidUtf8, AddValue, SetKey;
  }

  // ---------- Whole runs ----------

  // The document after these calls, if all of them succeed.
  ghost function Through(decimals: Decimals, calls: seq<Call>): (r: Option<Doc>)
    requires DecimalsOk(decimals) && forall i :: 0 <= i < |calls| ==> CallOk(calls[i])
    ensures r.Some? ==> DocOk(r.value)
  {
    if calls == [] then Some(EMPTY)
    else
      var before := Through(decimals, calls[..|calls| - 1]);
      if before.None? || Step(decimals, before.value, calls[|calls| - 1]).Err? then None
      else
        StepOk(decimals, before.value, calls[|calls| - 1]);
        Some(Step(decimals, before.value, calls[|calls| - 1]).value)
  }

  // After any calls that all succeed, the writer holds what they say.
  lemma {:induction false} HoldsWhatWasSaid(decimals: Decimals, calls: seq<Call>)
    requires DecimalsOk(decimals) && forall i :: 0 <= i < |calls| ==> CallOk(calls[i])
    requires Through(decimals, calls).Some? && !Through(decimals, calls).value.open.Broken?
    ensures DocHistory(Through(decimals, calls).value) == Told(decimals, calls)
    decreases |calls|
  {
    hide DocHistory, DocOk, Step, Said, DecimalsOk, CallOk;
    if calls == [] {
      EmptyHistory();
    } else {
      var front, last := calls[..|calls| - 1], calls[|calls| - 1];
      var before := Through(decimals, front).value;
      StepOk(decimals, before, last);
      NeverMended(decimals, before, last);
      HoldsWhatWasSaid(decimals, front);
      CallSays(decimals, before, last);
    }
  }

  lemma {:induction false} EmptyHistory()
    ensures DocOk(EMPTY) && DocHistory(EMPTY) == NOTHING
  {
  }

  lemma {:induction false} NeverMended(decimals: Decimals, doc: Doc, call: Call)
    requires DocOk(doc) && Step(decimals, doc, call).Ok?
    ensures !doc.open.Broken?
  {
    hide DocOk;
  }

  // In particular, a finished document is written by its own calls only.
  lemma {:induction false} FinishedAsSaid(decimals: Decimals, calls: seq<Call>, t: Value)
    requires DecimalsOk(decimals) && forall i :: 0 <= i < |calls| ==> CallOk(calls[i])
    requires Through(decimals, calls) == Some(Doc([], Some(t), Closed))
    ensures Told(decimals, calls) == History(TreeTokens(t), NoText, [])
  {
    hide DecimalsOk, CallOk, Through, Told, TreeTokens;
    HoldsWhatWasSaid(decimals, calls);
    NoFrameTokens();
  }
}
