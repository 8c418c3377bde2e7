// The whole way round: a finished writer is written out, the file is printed as JSON, the
// text is parsed into a second writer, and that is written out again.
module Rewrite {
  import opened Wrappers
  import opened Bytes
  import opened Layout
  import opened KeyOrder
  import opened Utf8
  import opened Tree
  import opened Document
  import opened Writer
  import opened Output
  import opened Emitter
  import opened Retrieve
  import opened Json
  import opened Grammar
  import opened StringParser
  import opened JsonParser
  import opened Fixpoint

  lemma {:induction false} SameSizes(a: seq<bytes>, b: seq<bytes>)
    requires |a| == |b| && forall i :: 0 <= i < |a| ==> |a[i]| == |b[i]|
    ensures |Concat(a)| == |Concat(b)|
  {
    if a != [] {
      SameSizes(a[1..], b[1..]);
    }
  }

  // The canonical form takes as much room in the spool as the document itself.
  lemma {:induction false} CanonicalSpoolSize(h: Hash, t: Value)
    requires WellFormed(t)
    ensures WellFormed(Canonical(h, t)) && |Spool(h, Canonical(h, t))| == |Spool(h, t)|
    decreases t
  {
    hide ValidUtf8, Order, Encode, Size, SpoolKey;
    CanonicalWellFormed(h, t);
    match t
    case Scalar(_) =>
    case Array(items) =>
      forall i | 0 <= i < |items|
        ensures |Spool(h, CanonicalItems(h, items)[i])| == |Spool(h, items[i])|
      {
        CanonicalSpoolSize(h, items[i]);
      }
      SameSizes(SpoolItems(h, CanonicalItems(h, items)), SpoolItems(h, items));
    case Object(pairs) => CanonicalPairsSpoolSize(h, pairs);
  }

  lemma {:induction false} CanonicalPairsSpoolSize(h: Hash, pairs: seq<Pair>)
    requires AllPairsWellFormed(pairs) && WellFormed(Canonical(h, Object(pairs)))
    ensures |Spool(h, Canonical(h, Object(pairs)))| == |Spool(h, Object(pairs))|
    decreases pairs
  {
    hide ValidUtf8, Order, Canonical, Spool, SpoolKey;
    var order := Order(h, PairKeys(pairs));
    CanonicalOrder(h, pairs);
    var canonical := Pick(CanonicalPairs(h, pairs), order);
    SpoolsObject(h, canonical);
    SpoolsObject(h, pairs);
    var spooled, again := SpoolPairs(h, pairs), SpoolPairs(h, canonical);
    var picked := Pick(spooled, order);
    forall i | 0 <= i < |pairs|
      ensures |again[i]| == |picked[i]|
    {
      assert WellFormedPair(pairs[order[i]]);
      CanonicalSpoolSize(h, pairs[order[i]].value);
    }
    SameSizes(again, picked);
    OrderPermutes(h, PairKeys(pairs), spooled);
    ConcatPermuted(picked, spooled);
  }

  lemma {:induction false} SpoolsObject(h: Hash, pairs: seq<Pair>)
    requires WellFormed(Object(pairs))
    ensures AllPairsWellFormed(pairs) && |Spool(h, Object(pairs))| == 17 + |Concat(SpoolPairs(h, pairs))|
  {
    hide ValidUtf8, Encode, Size, SpoolPairs;
  }

  // A finished document.
  ghost predicate Finished(w: Writer, t: Value)
    reads w
  {
    !w.failed && w.doc == Doc([], Some(t), Closed)
  }

  lemma {:induction false} FinishedSize(w: Writer, t: Value)
    requires w.Valid() && Finished(w, t)
    ensures WellFormed(t) && |Spool(w.h, t)| <= SIZE_MAX && |Encode(w.h, t)| <= SIZE_MAX
  {
    hide DecimalsOk, Encode, Spool, Expected, ExpectedAfter;
    RootSpool(w.h, w.doc);
    EncodeFitsSpool(w.h, t);
  }

  lemma {:induction false} EmptyFits(h: Hash, decimals: Decimals, buf: bytes, t: Value, e: Error)
    requires WellFormed(t) && |Spool(h, t)| <= SIZE_MAX
    requires ParseValue(decimals, buf, 0) == Some((t, |buf|))
    ensures DocOk(EMPTY) && Ready(false, EMPTY) && !Fails(h, decimals, buf, 0, EMPTY, e)
    ensures AcceptsValue(EMPTY) && AddValue(EMPTY, t) == Doc([], Some(t), Closed)
  {
    hide ParseValue, Spool, WellFormed;
    NoFrames(h);
  }

  // For a document without numbers this always works, and both files are the same.
  method RewriteThroughJson(w: Writer, again: Writer, ghost t: Value)
    returns (status: Status, first: bytes, second: bytes)
    requires w.Valid() && again.Valid() && w != again && again.h == w.h
    requires Finished(w, t) && NumberFree(t) && t != Scalar([TRUE])
    requires !again.failed && again.doc == EMPTY
    modifies w`stack, again
    ensures status == Success && first == second && WellFormed(t) && first == Encode(w.h, t)
  {
    hide DecimalsOk, DocOk, DocSpool, DocStack, ContainerPos, Expected, ExpectedAfter, AcceptsValue, NumberFree, WellFormed;
    hide Encode, JsonOf, ParseValue, Canonical, Ready, Fails, Spool, AddValue;
    FinishedSize(w, t);
    CanonicalFixpoint(w.h, again.decimals, t);
    CanonicalSpoolSize(w.h, t);
    var file := new Sink();
    status := Write(w, file);
    EmptyPlus(Encode(w.h, t));
    first, second := file.data, [];
    EmptyPlus(JsonOf(first).value);
    var json := new Sink();
    status := ToJson(first, json);
    var parser := new Parser(again, json.data);
    EmptyFits(w.h, again.decimals, json.data, Canonical(w.h, t), OutOfVirtualMemory);
    status := ParseJson(parser);
    EmptyParsed(parser, Canonical(w.h, t), status);
    var copy := new Sink();
    status := Write(again, copy);
    second := copy.data;
  }

  lemma {:induction false} EmptyPlus(s: bytes)
    ensures [] + s == s
  {
  }

  lemma {:induction false} EmptyParsed(p: Parser, t: Value, status: Status)
    requires DocOk(EMPTY) && Parsed(p, false, EMPTY, 0, status) && WellFormed(t) && |Spool(p.w.h, t)| <= SIZE_MAX
    requires ParseValue(p.w.decimals, p.buf, 0) == Some((t, |p.buf|))
    ensures status == Success && Finished(p.w, t)
  {
    hide ParseValue, Spool, WellFormed, DecimalsOk, Fails;
    match status
    case Success => EmptyFits(p.w.h, p.w.decimals, p.buf, t, OutOfVirtualMemory);
    case Failure(e) => EmptyFits(p.w.h, p.w.decimals, p.buf, t, e);
  }
}
