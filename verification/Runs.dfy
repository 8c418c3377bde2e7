// Whole runs of a writer: any sequence of public calls, as long as memory suffices.
module Runs {
  import opened Wrappers
  import opened Bytes
  import opened Layout
  import opened Utf8
  import opened Tree
  import opened Document

  datatype State = State(doc: Doc, failed: bool)

  const FRESH := State(EMPTY, false)

  // One call. An error leaves the document as it was, and some errors end the run.
  function Do(decimals: Decimals, s: State, call: Call): State
    requires DocOk(s.doc)
  {
    if s.failed then s
    else match Step(decimals, s.doc, call)
      case Ok(after) => State(after, false)
      case Err(_) => State(s.doc, Poisons(s.doc, call))
  }

  ghost predicate CallsOk(calls: seq<Call>) {
    forall i :: 0 <= i < |calls| ==> CallOk(calls[i])
  }

  lemma {:induction false} DoOk(decimals: Decimals, s: State, call: Call)
    requires DecimalsOk(decimals) && DocOk(s.doc) && CallOk(call)
    ensures DocOk(Do(decimals, s, call).doc)
  {
    hide Step, Poisons, DocOk, CallOk, DecimalsOk;
    if !s.failed && Step(decimals, s.doc, call).Ok? {
      StepOk(decimals, s.doc, call);
    }
  }

  function Run(decimals: Decimals, s: State, calls: seq<Call>): (r: State)
    requires DecimalsOk(decimals) && DocOk(s.doc) && CallsOk(calls)
    ensures DocOk(r.doc)
    decreases |calls|
  {
    if calls == [] then s
    else
      DoOk(decimals, s, calls[0]);
      Run(decimals, Do(decimals, s, calls[0]), calls[1..])
  }

  lemma {:induction false} RunSplit(decimals: Decimals, s: State, a: seq<Call>, b: seq<Call>)
    requires DecimalsOk(decimals) && DocOk(s.doc) && CallsOk(a) && CallsOk(b)
    ensures CallsOk(a + b) && Run(decimals, s, a + b) == Run(decimals, Run(decimals, s, a), b)
    decreases |a|
  {
    hide Do, DocOk, CallOk, DecimalsOk;
    if a == [] {
      assert a + b == b;
    } else {
      DoOk(decimals, s, a[0]);
      RunSplit(decimals, Do(decimals, s, a[0]), a[1..], b);
      assert (a + b)[1..] == a[1..] + b;
    }
  }

  lemma {:induction false} RunOne(decimals: Decimals, s: State, call: Call)
    requires DecimalsOk(decimals) && DocOk(s.doc) && CallOk(call)
    ensures CallsOk([call]) && Run(decimals, s, [call]) == Do(decimals, s, call)
  {
    hide Do, DocOk, CallOk, DecimalsOk;
    DoOk(decimals, s, call);
    assert [call][1..] == [];
  }

  // Once a writer has failed, no call does anything.
  lemma {:induction false} FailedForGood(decimals: Decimals, s: State, calls: seq<Call>)
    requires DecimalsOk(decimals) && DocOk(s.doc) && CallsOk(calls) && s.failed
    ensures Run(decimals, s, calls) == s
    decreases |calls|
  {
    hide DocOk, CallOk, DecimalsOk;
    if calls != [] {
      FailedForGood(decimals, s, calls[1..]);
    }
  }

  // A finished document takes no further call: every one is refused and changes nothing.
  lemma {:induction false} NothingAfterTheRoot(decimals: Decimals, s: State, calls: seq<Call>)
    requires DecimalsOk(decimals) && DocOk(s.doc) && CallsOk(calls) && s.doc.root.Some? && !s.failed
    ensures Run(decimals, s, calls) == s
    decreases |calls|
  {
    if calls != [] {
      assert Do(decimals, s, calls[0]) == s;
      hide Do, DocOk, CallOk, DecimalsOk;
      NothingAfterTheRoot(decimals, s, calls[1..]);
    }
  }

  // ---------- Chunks ----------

  datatype TextKind = KeyText | StringText | BytesText

  function Begin(kind: TextKind): Call {
    match kind
    case KeyText => Call.BeginKey
    case StringText => Call.BeginString
    case BytesText => Call.BeginBytes
  }

  function Append(kind: TextKind, chunk: bytes): Call {
    match kind
    case KeyText => Call.AppendKey(chunk)
    case StringText => Call.AppendString(chunk)
    case BytesText => Call.AppendBytes(chunk)
  }

  function End(kind: TextKind): Call {
    match kind
    case KeyText => Call.EndKey
    case StringText => Call.EndString
    case BytesText => Call.EndBytes
  }

  function Add(kind: TextKind, text: bytes): Call {
    match kind
    case KeyText => Call.AddKey(text)
    case StringText => Call.AddString(text)
    case BytesText => Call.AddBytes(text)
  }

  function Appends(kind: TextKind, chunks: seq<bytes>): (calls: seq<Call>)
    ensures CallsOk(calls)
  {
    if chunks == [] then [] else [Append(kind, chunks[0])] + Appends(kind, chunks[1..])
  }

  // A text in one piece after the other.
  function InChunks(kind: TextKind, chunks: seq<bytes>): (calls: seq<Call>)
    ensures CallsOk(calls)
  {
    [Begin(kind)] + Appends(kind, chunks) + [End(kind)]
  }

  predicate Awaits(doc: Doc, kind: TextKind) {
    Expected(doc) == if kind == KeyText then ExpectKey else ExpectValue
  }

  function OpenWith(doc: Doc, kind: TextKind, text: bytes): Doc {
    Doc(doc.frames, doc.root, match kind
      case KeyText => OpenKey(text)
      case StringText => OpenString(text)
      case BytesText => OpenBytes(text))
  }

  predicate Acceptable(kind: TextKind, text: bytes) {
    kind == BytesText || ValidUtf8(text)
  }

  lemma {:induction false} BeginOpens(decimals: Decimals, doc: Doc, kind: TextKind)
    requires DocOk(doc) && Awaits(doc, kind)
    ensures DocOk(OpenWith(doc, kind, []))
    ensures Do(decimals, State(doc, false), Begin(kind)) == State(OpenWith(doc, kind, []), false)
  {
  }

  lemma {:induction false} AppendGrows(decimals: Decimals, doc: Doc, kind: TextKind, text: bytes, chunk: bytes)
    requires DocOk(OpenWith(doc, kind, text))
    ensures DocOk(OpenWith(doc, kind, text + chunk))
    ensures Do(decimals, State(OpenWith(doc, kind, text), false), Append(kind, chunk))
         == State(OpenWith(doc, kind, text + chunk), false)
  {
  }

  lemma {:induction false} AppendsGrow(decimals: Decimals, doc: Doc, kind: TextKind, text: bytes, chunks: seq<bytes>)
    requires DecimalsOk(decimals) && DocOk(OpenWith(doc, kind, text))
    ensures DocOk(OpenWith(doc, kind, text + Concat(chunks)))
    ensures Run(decimals, State(OpenWith(doc, kind, text), false), Appends(kind, chunks))
         == State(OpenWith(doc, kind, text + Concat(chunks)), false)
    decreases |chunks|
  {
    hide DocOk, Do, DecimalsOk, OpenWith;
    if chunks == [] {
      assert text + Concat(chunks) == text;
    } else {
      var calls := Appends(kind, chunks);
      AppendGrows(decimals, doc, kind, text, chunks[0]);
      AppendsGrow(decimals, doc, kind, text + chunks[0], chunks[1..]);
      assert calls[0] == Append(kind, chunks[0]) && calls[1..] == Appends(kind, chunks[1..]);
      Associate(text, chunks[0], Concat(chunks[1..]));
    }
  }

  // The last call puts in place what one add would have added. For a text that is not valid
  // UTF-8 they differ: an add is refused, but an end makes the writer fail.
  lemma {:induction false} EndAdds(decimals: Decimals, doc: Doc, kind: TextKind, text: bytes)
    requires DocOk(doc) && Awaits(doc, kind) && DocOk(OpenWith(doc, kind, text))
    ensures Do(decimals, State(OpenWith(doc, kind, text), false), End(kind)) ==
      if Acceptable(kind, text) then Do(decimals, State(doc, false), Add(kind, text))
      else State(OpenWith(doc, kind, text), true)
    ensures !Acceptable(kind, text) ==> Do(decimals, State(doc, false), Add(kind, text)) == State(doc, false)
    ensures Acceptable(kind, text) ==> !Do(decimals, State(doc, false), Add(kind, text)).failed
  {
    hide ValidUtf8;
  }

  // Chunking is invisible: the chunks may be cut anywhere, even inside a character.
  lemma {:induction false} ChunkingInvisible(decimals: Decimals, doc: Doc, kind: TextKind, chunks: seq<bytes>)
    requires DecimalsOk(decimals) && DocOk(doc) && Awaits(doc, kind)
    ensures var text, chunked := Concat(chunks), Run(decimals, State(doc, false), InChunks(kind, chunks));
      if Acceptable(kind, text) then chunked == Do(decimals, State(doc, false), Add(kind, text)) && !chunked.failed
      else chunked.failed && Do(decimals, State(doc, false), Add(kind, text)) == State(doc, false)
  {
    hide DocOk, Do, DecimalsOk, OpenWith, Concat, Appends, Acceptable;
    var text, s := Concat(chunks), State(doc, false);
    BeginOpens(decimals, doc, kind);
    AppendsGrow(decimals, doc, kind, [], chunks);
    assert [] + text == text;
    EndAdds(decimals, doc, kind, text);
    RunOne(decimals, s, Begin(kind));
    RunSplit(decimals, s, [Begin(kind)], Appends(kind, chunks));
    RunSplit(decimals, s, [Begin(kind)] + Appends(kind, chunks), [End(kind)]);
    RunOne(decimals, State(OpenWith(doc, kind, text), false), End(kind));
  }

  // ---------- Every tree can be written ----------

  // What a number can be stored as, with its right size.
  ghost predicate StoredNumeral(decimals: Decimals, data: bytes) {
    exists text :: Numerates(decimals, text, data)
  }

  predicate Numerates(decimals: Decimals, text: bytes, data: bytes) {
    text != [] && Counted(decimals, text) == Some(data)
  }

  // Scalars that some call adds.
  ghost predicate CallableScalar(decimals: Decimals, data: bytes) {
    && data != []
    && (if data[0] == STRING then ValidUtf8(data[1..])
        else data[0] == BYTES || (|data| == 1 && IsConstant(data[0])) || StoredNumeral(decimals, data))
  }

  ghost predicate Callable(decimals: Decimals, t: Value) {
    match t
    case Scalar(data) => CallableScalar(decimals, data)
    case Array(items) => forall i :: 0 <= i < |items| ==> Callable(decimals, items[i])
    case Object(pairs) => forall i :: 0 <= i < |pairs| ==> CallablePair(decimals, pairs[i])
  }

  ghost predicate CallablePair(decimals: Decimals, p: Pair) {
    ValidUtf8(p.key) && Callable(decimals, p.value)
  }

  ghost predicate AllCallable(decimals: Decimals, items: seq<Value>) {
    forall i :: 0 <= i < |items| ==> Callable(decimals, items[i])
  }

  ghost predicate AllPairsCallable(decimals: Decimals, pairs: seq<Pair>) {
    forall i :: 0 <= i < |pairs| ==> CallablePair(decimals, pairs[i])
  }

  ghost function ScalarCall(decimals: Decimals, data: bytes): (call: Call)
    requires CallableScalar(decimals, data)
    ensures CallOk(call)
  {
    if data[0] == STRING then Call.AddString(data[1..])
    else if data[0] == BYTES then Call.AddBytes(data[1..])
    else if |data| == 1 && IsConstant(data[0]) then Call.AddConstant(data[0])
    else
      var text :| Numerates(decimals, text, data);
      Call.AddDecimal(text)
  }

  // The calls that write a tree, from left to right.
  ghost function Calls(decimals: Decimals, t: Value): (calls: seq<Call>)
    requires Callable(decimals, t)
    ensures CallsOk(calls)
    decreases t, 1, 0
  {
    match t
    case Scalar(data) => [ScalarCall(decimals, data)]
    case Array(items) => [Call.BeginArray] + ItemCalls(decimals, items, |items|) + [Call.EndArray]
    case Object(pairs) => [Call.BeginObject] + PairCalls(decimals, pairs, |pairs|) + [Call.EndObject]
  }

  ghost function ItemCalls(decimals: Decimals, items: seq<Value>, n: nat): (calls: seq<Call>)
    requires AllCallable(decimals, items) && n <= |items|
    ensures CallsOk(calls)
    decreases items, 0, n
  {
    if n == 0 then [] else ItemCalls(decimals, items, n - 1) + Calls(decimals, items[n - 1])
  }

  ghost function PairCalls(decimals: Decimals, pairs: seq<Pair>, n: nat): (calls: seq<Call>)
    requires AllPairsCallable(decimals, pairs) && n <= |pairs|
    ensures CallsOk(calls)
    decreases pairs, 0, n
  {
    if n == 0 then []
    else
      assert CallablePair(decimals, pairs[n - 1]);
      PairCalls(decimals, pairs, n - 1) + [Call.AddKey(pairs[n - 1].key)] + Calls(decimals, pairs[n - 1].value)
  }

  lemma {:induction false} CallableWellFormed(decimals: Decimals, t: Value)
    requires DecimalsOk(decimals) && Callable(decimals, t)
    ensures WellFormed(t)
    decreases t
  {
    hide ValidUtf8;
    match t
    case Scalar(_) =>
    case Array(items) =>
      forall i | 0 <= i < |items|
        ensures WellFormed(items[i])
      {
        CallableWellFormed(decimals, items[i]);
      }
    case Object(pairs) =>
      forall i | 0 <= i < |pairs|
        ensures WellFormedPair(pairs[i])
      {
        assert CallablePair(decimals, pairs[i]);
        CallableWellFormed(decimals, pairs[i].value);
      }
  }

  lemma {:induction false} ScalarWritten(decimals: Decimals, doc: Doc, data: bytes)
    requires DocOk(doc) && Expected(doc) == ExpectValue && CallableScalar(decimals, data)
    ensures AcceptsValue(doc)
    ensures Do(decimals, State(doc, false), ScalarCall(decimals, data)) == State(AddValue(doc, Scalar(data)), false)
  {
    hide ValidUtf8, DocOk, AddValue;
    ExpectsValueMeans(doc);
    assert data == [data[0]] + data[1..];
    if |data| == 1 {
      assert data == [data[0]];
    }
  }

  // An open array with some items, an open object with some pairs.
  function InArray(doc: Doc, items: seq<Value>): Doc {
    Doc(doc.frames + [ArrayFrame(items)], None, Closed)
  }

  function InObject(doc: Doc, pairs: seq<Pair>, key: Option<bytes>): Doc {
    Doc(doc.frames + [ObjectFrame(pairs, key)], None, Closed)
  }

  lemma {:induction false} InArrayOk(decimals: Decimals, doc: Doc, items: seq<Value>)
    requires DocOk(doc) && Expected(doc) == ExpectValue && AllWellFormed(items)
    ensures DocOk(InArray(doc, items)) && Expected(InArray(doc, items)) == ExpectValue
    ensures AcceptsValue(doc)
    ensures items == [] ==> Do(decimals, State(doc, false), Call.BeginArray) == State(InArray(doc, items), false)
    ensures Do(decimals, State(InArray(doc, items), false), Call.EndArray) == State(AddValue(doc, Array(items)), false)
    ensures forall t :: AcceptsValue(InArray(doc, items)) && AddValue(InArray(doc, items), t) == InArray(doc, items + [t])
  {
    ExpectsValueMeans(doc);
    var inner := InArray(doc, items);
    assert inner.frames[..|doc.frames|] == doc.frames;
    assert Doc(Outer(inner), None, Closed) == doc;
  }

  lemma {:induction false} InObjectOk(decimals: Decimals, doc: Doc, pairs: seq<Pair>)
    requires DocOk(doc) && Expected(doc) == ExpectValue && AllPairsWellFormed(pairs)
    ensures DocOk(InObject(doc, pairs, None)) && AcceptsValue(doc)
    ensures pairs == [] ==> Do(decimals, State(doc, false), Call.BeginObject) == State(InObject(doc, pairs, None), false)
    ensures Do(decimals, State(InObject(doc, pairs, None), false), Call.EndObject) == State(AddValue(doc, Object(pairs)), false)
  {
    ExpectsValueMeans(doc);
    var inner := InObject(doc, pairs, None);
    assert inner.frames[..|doc.frames|] == doc.frames;
    assert Doc(Outer(inner), None, Closed) == doc;
  }

  lemma {:induction false} WithKeyOk(decimals: Decimals, doc: Doc, pairs: seq<Pair>, key: bytes)
    requires DocOk(doc) && Expected(doc) == ExpectValue && AllPairsWellFormed(pairs) && ValidUtf8(key)
    ensures DocOk(InObject(doc, pairs, None)) && DocOk(InObject(doc, pairs, Some(key)))
    ensures Expected(InObject(doc, pairs, Some(key))) == ExpectValue
    ensures Do(decimals, State(InObject(doc, pairs, None), false), Call.AddKey(key))
         == State(InObject(doc, pairs, Some(key)), false)
    ensures forall t ::
      && AcceptsValue(InObject(doc, pairs, Some(key)))
      && AddValue(InObject(doc, pairs, Some(key)), t) == InObject(doc, pairs + [Pair(key, t)], None)
  {
    hide ValidUtf8;
    ExpectsValueMeans(doc);
    assert InObject(doc, pairs, None).frames[..|doc.frames|] == doc.frames;
    assert InObject(doc, pairs, Some(key)).frames[..|doc.frames|] == doc.frames;
  }

  // Whatever is open, the calls for a tree add exactly that tree.
  lemma {:induction false} TreeWritten(decimals: Decimals, doc: Doc, t: Value)
    requires DecimalsOk(decimals) && DocOk(doc) && Expected(doc) == ExpectValue && Callable(decimals, t)
    ensures AcceptsValue(doc)
    ensures Run(decimals, State(doc, false), Calls(decimals, t)) == State(AddValue(doc, t), false)
    decreases t, 1, 0
  {
    CallableWellFormed(decimals, t);
    match t
    case Scalar(data) =>
      hide DocOk, Do, DecimalsOk, AddValue, Expected, ValidUtf8, ItemCalls, PairCalls;
      ScalarWritten(decimals, doc, data);
      RunOne(decimals, State(doc, false), ScalarCall(decimals, data));
    case Array(items) => ArrayWritten(decimals, doc, items);
    case Object(pairs) => ObjectWritten(decimals, doc, pairs);
  }

  lemma {:induction false} Wrapped(decimals: Decimals, s: State, first: Call, calls: seq<Call>, last: Call)
    requires DecimalsOk(decimals) && DocOk(s.doc) && CallOk(first) && CallsOk(calls) && CallOk(last)
    ensures CallsOk([first] + calls + [last]) && DocOk(Do(decimals, s, first).doc)
    ensures Run(decimals, s, [first] + calls + [last])
         == Do(decimals, Run(decimals, Do(decimals, s, first), calls), last)
  {
    hide DocOk, Do, DecimalsOk, CallOk, Run;
    DoOk(decimals, s, first);
    RunOne(decimals, s, first);
    RunSplit(decimals, s, [first], calls);
    RunSplit(decimals, s, [first] + calls, [last]);
    RunOne(decimals, Run(decimals, Do(decimals, s, first), calls), last);
  }

  lemma {:induction false} ArrayWritten(decimals: Decimals, doc: Doc, items: seq<Value>)
    requires DecimalsOk(decimals) && DocOk(doc) && Expected(doc) == ExpectValue
    requires Callable(decimals, Array(items)) && WellFormed(Array(items))
    ensures AcceptsValue(doc)
    ensures Run(decimals, State(doc, false), Calls(decimals, Array(items))) == State(AddValue(doc, Array(items)), false)
    decreases items, 1, 0
  {
    hide DocOk, Do, DecimalsOk, AddValue, Expected, ItemCalls, Run, AcceptsValue, InArray;
    InArrayOk(decimals, doc, []);
    InArrayOk(decimals, doc, items);
    ItemsWritten(decimals, doc, items, |items|);
    assert items[..|items|] == items;
    Wrapped(decimals, State(doc, false), Call.BeginArray, ItemCalls(decimals, items, |items|), Call.EndArray);
  }

  lemma {:induction false} ItemsWritten(decimals: Decimals, doc: Doc, items: seq<Value>, n: nat)
    requires DecimalsOk(decimals) && DocOk(doc) && Expected(doc) == ExpectValue
    requires AllCallable(decimals, items) && AllWellFormed(items) && n <= |items|
    ensures DocOk(InArray(doc, [])) && DocOk(InArray(doc, items[..n]))
    ensures Run(decimals, State(InArray(doc, []), false), ItemCalls(decimals, items, n)) == State(InArray(doc, items[..n]), false)
    decreases items, 0, n
  {
    hide DocOk, Do, DecimalsOk, AddValue, Expected, AcceptsValue, InArray, Callable, WellFormed, Calls;
    InArrayOk(decimals, doc, []);
    InArrayOk(decimals, doc, items[..n]);
    if n > 0 {
      InArrayOk(decimals, doc, items[..n - 1]);
      ItemsWritten(decimals, doc, items, n - 1);
      TreeWritten(decimals, InArray(doc, items[..n - 1]), items[n - 1]);
      RunSplit(decimals, State(InArray(doc, []), false), ItemCalls(decimals, items, n - 1), Calls(decimals, items[n - 1]));
      assert items[..n] == items[..n - 1] + [items[n - 1]];
    } else {
      assert items[..n] == [];
    }
  }

  lemma {:induction false} ObjectWritten(decimals: Decimals, doc: Doc, pairs: seq<Pair>)
    requires DecimalsOk(decimals) && DocOk(doc) && Expected(doc) == ExpectValue
    requires Callable(decimals, Object(pairs)) && WellFormed(Object(pairs))
    ensures AcceptsValue(doc)
    ensures Run(decimals, State(doc, false), Calls(decimals, Object(pairs))) == State(AddValue(doc, Object(pairs)), false)
    decreases pairs, 1, 0
  {
    hide DocOk, Do, DecimalsOk, AddValue, Expected, PairCalls, Run, AcceptsValue, InObject, ValidUtf8;
    InObjectOk(decimals, doc, []);
    InObjectOk(decimals, doc, pairs);
    PairsWritten(decimals, doc, pairs, |pairs|);
    assert pairs[..|pairs|] == pairs;
    Wrapped(decimals, State(doc, false), Call.BeginObject, PairCalls(decimals, pairs, |pairs|), Call.EndObject);
  }

  lemma {:induction false} PairsWritten(decimals: Decimals, doc: Doc, pairs: seq<Pair>, n: nat)
    requires DecimalsOk(decimals) && DocOk(doc) && Expected(doc) == ExpectValue
    requires AllPairsCallable(decimals, pairs) && AllPairsWellFormed(pairs) && n <= |pairs|
    ensures DocOk(InObject(doc, [], None)) && DocOk(InObject(doc, pairs[..n], None))
    ensures Run(decimals, State(InObject(doc, [], None), false), PairCalls(decimals, pairs, n))
         == State(InObject(doc, pairs[..n], None), false)
    decreases pairs, 0, n
  {
    hide DocOk, Do, DecimalsOk, AddValue, Expected, AcceptsValue, InObject, Callable, WellFormed, Calls, ValidUtf8;
    InObjectOk(decimals, doc, []);
    InObjectOk(decimals, doc, pairs[..n]);
    if n > 0 {
      var p, before := pairs[n - 1], PairCalls(decimals, pairs, n - 1);
      assert CallablePair(decimals, p) && WellFormedPair(p);
      var s := State(InObject(doc, [], None), false);
      WithKeyOk(decimals, doc, pairs[..n - 1], p.key);
      PairsWritten(decimals, doc, pairs, n - 1);
      TreeWritten(decimals, InObject(doc, pairs[..n - 1], Some(p.key)), p.value);
      RunOne(decimals, State(InObject(doc, pairs[..n - 1], None), false), Call.AddKey(p.key));
      RunSplit(decimals, s, before, [Call.AddKey(p.key)]);
      RunSplit(decimals, s, before + [Call.AddKey(p.key)], Calls(decimals, p.value));
      assert pairs[..n] == pairs[..n - 1] + [Pair(p.key, p.value)];
    } else {
      assert pairs[..n] == [];
    }
  }

  // In particular, a fresh writer can be brought to hold any such document.
  lemma {:induction false} EveryDocumentReachable(decimals: Decimals, t: Value)
    requires DecimalsOk(decimals) && Callable(decimals, t)
    ensures DocOk(EMPTY) && Run(decimals, FRESH, Calls(decimals, t)) == State(Doc([], Some(t), Closed), false)
  {
    hide Run, Calls, DecimalsOk, Callable;
    TreeWritten(decimals, EMPTY, t);
  }
}
