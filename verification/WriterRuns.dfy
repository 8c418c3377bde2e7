// Whole runs of the writer itself: as long as its spool fits in memory it goes through the same
// states as the abstract one.
module WriterRuns {
  import opened Wrappers
  import opened Bytes
  import opened KeyOrder
  import opened Layout
  import opened Document
  import opened Writer
  import opened Runs

  method Execute(w: Writer, call: Call) returns (status: Status)
    requires w.Valid() && CallOk(call)
    modifies w
    ensures w.Valid() && w.Outcome(old(w.failed), old(w.doc), call, status)
  {
    hide DecimalsOk, DocOk, DocSpool, DocStack, ContainerPos, Expected, ExpectedAfter, Step;
    match call
    case BeginArray => status := w.BeginArray();
    case EndArray => status := w.EndArray();
    case BeginObject => status := w.BeginObject();
    case EndObject => status := w.EndObject();
    case AddKey(key) => status := w.AddKey(key);
    case BeginKey => status := w.BeginKey();
    case AppendKey(chunk) => status := w.AppendKey(chunk);
    case EndKey => status := w.EndKey();
    case AddString(text) => status := w.AddString(text);
    case BeginString => status := w.BeginString();
    case AppendString(chunk) => status := w.AppendString(chunk);
    case EndString => status := w.EndString();
    case AddBytes(text) => status := w.AddBytes(text);
    case BeginBytes => status := w.BeginBytes();
    case AppendBytes(chunk) => status := w.AppendBytes(chunk);
    case EndBytes => status := w.EndBytes();
    case AddConstant(constant) => status := w.AddConstant(constant);
    case AddDecimal(text) => status := w.AddDecimal(text);
  }

  // The spool of every state on the way fits in memory.
  ghost predicate Fits(h: Hash, decimals: Decimals, s: State, calls: seq<Call>)
    requires DecimalsOk(decimals) && DocOk(s.doc) && CallsOk(calls)
    decreases |calls|
  {
    calls == []
    || (DoOk(decimals, s, calls[0]);
        var next := Do(decimals, s, calls[0]);
        |DocSpool(h, next.doc)| <= SIZE_MAX && Fits(h, decimals, next, calls[1..]))
  }

  lemma {:induction false} OutcomeIsDo(w: Writer, wasFailed: bool, was: Doc, call: Call, status: Status)
    requires DocOk(was) && DecimalsOk(w.decimals) && CallOk(call) && w.Outcome(wasFailed, was, call, status)
    ensures DocOk(Do(w.decimals, State(was, wasFailed), call).doc)
    ensures var next := Do(w.decimals, State(was, wasFailed), call);
      |DocSpool(w.h, next.doc)| <= SIZE_MAX ==> w.doc == next.doc && w.failed == next.failed
  {
    hide DecimalsOk, DocOk, DocSpool, Step, Poisons, CallOk;
    DoOk(w.decimals, State(was, wasFailed), call);
  }

  // Any sequence of calls, one after the other.
  method ExecuteAll(w: Writer, calls: seq<Call>)
    requires w.Valid() && DocOk(w.doc) && CallsOk(calls)
    requires Fits(w.h, w.decimals, State(w.doc, w.failed), calls)
    modifies w
    ensures w.Valid() && DocOk(w.doc)
    ensures State(w.doc, w.failed) == Run(w.decimals, State(old(w.doc), old(w.failed)), calls)
    decreases |calls|
  {
    hide DecimalsOk, DocOk, DocSpool, Do, CallOk, Poisons, Step, DocStack, ContainerPos, Expected, ExpectedAfter;
    if calls != [] {
      ghost var s := State(w.doc, w.failed);
      var status := Execute(w, calls[0]);
      OutcomeIsDo(w, s.failed, s.doc, calls[0], status);
      ExecuteAll(w, calls[1..]);
    }
  }

  // What a writer holds decides all that it consists of.
  lemma {:induction false} SameFields(a: Writer, b: Writer)
    requires a.Valid() && b.Valid() && !a.failed && !b.failed && a.doc == b.doc && a.h == b.h
    ensures a.spool == b.spool && a.stack == b.stack && a.currentContainer == b.currentContainer
    ensures a.expected == b.expected && a.expectedAfterValue == b.expectedAfterValue
  {
  }

  // Two writers that hold the same: one takes a text in chunks, the other one as a whole.
  method WriteBothWays(a: Writer, b: Writer, kind: TextKind, chunks: seq<bytes>, text: bytes)
    requires a != b && a.Valid() && b.Valid() && !a.failed && !b.failed
    requires a.doc == b.doc && a.h == b.h && a.decimals == b.decimals && Awaits(a.doc, kind)
    requires text == Concat(chunks) && Acceptable(kind, text)
    requires Fits(a.h, a.decimals, State(a.doc, false), InChunks(kind, chunks))
    modifies a, b
    ensures a.Valid() && b.Valid() && !a.failed && !b.failed && a.doc == b.doc
    ensures a.spool == b.spool && a.stack == b.stack && a.currentContainer == b.currentContainer
    ensures a.expected == b.expected && a.expectedAfterValue == b.expectedAfterValue
  {
    hide DecimalsOk, DocOk, DocSpool, Do, Awaits, Acceptable, Run, Fits, Add, Step, DocStack, ContainerPos, Expected;
    hide ExpectedAfter;
    ghost var s := State(a.doc, false);
    ChunkingInvisible(a.decimals, a.doc, kind, chunks);
    LastFits(a.h, a.decimals, s, InChunks(kind, chunks));
    ExecuteAll(a, InChunks(kind, chunks));
    AddIsOk(kind, text);
    var status := Execute(b, Add(kind, text));
    OutcomeIsDo(b, false, s.doc, Add(kind, text), status);
    SameFields(a, b);
  }

  lemma {:induction false} AddIsOk(kind: TextKind, text: bytes)
    ensures CallOk(Add(kind, text))
  {
  }

  lemma {:induction false} LastFits(h: Hash, decimals: Decimals, s: State, calls: seq<Call>)
    requires DecimalsOk(decimals) && DocOk(s.doc) && CallsOk(calls) && calls != [] && Fits(h, decimals, s, calls)
    ensures |DocSpool(h, Run(decimals, s, calls).doc)| <= SIZE_MAX
    decreases |calls|
  {
    hide DocOk, DocSpool, Do, CallOk, DecimalsOk;
    DoOk(decimals, s, calls[0]);
    if |calls| > 1 {
      LastFits(h, decimals, Do(decimals, s, calls[0]), calls[1..]);
    } else {
      assert Run(decimals, s, calls) == Do(decimals, s, calls[0]);
    }
  }
}
