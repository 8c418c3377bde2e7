// From the file format to JSON (lib/reader.c, lib/reader/array.c, object.c, string.c).
module Json {
  import opened Wrappers
  import opened Bytes
  import opened Layout
  import opened Reader
  import opened Codec
  import opened KeyOrder
  import opened Utf8
  import opened Tree
  import opened Retrieve
  import opened Output
  import opened Escape
  import opened DecimalText

  const COMMA: byte := 0x2C
  const COLON: byte := 0x3A
  const OPEN_BRACKET: byte := 0x5B
  const CLOSE_BRACKET: byte := 0x5D
  const OPEN_BRACE: byte := 0x7B
  const CLOSE_BRACE: byte := 0x7D

  const NULL_TEXT: bytes := [0x6E, 0x75, 0x6C, 0x6C]
  const FALSE_TEXT: bytes := [0x66, 0x61, 0x6C, 0x73, 0x65]
  const TRUE_TEXT: bytes := [0x74, 0x72, 0x75, 0x65]

  // ---------- What is printed, for any buffer ----------

  function StringText(buf: bytes): Result<bytes>
    requires buf != []
  {
    if ValidUtf8(buf[1..]) then Ok(Quoted(buf[1..])) else Err(InvalidUtf8)
  }

  // Everything but arrays and objects.
  function ScalarText(buf: bytes): Result<bytes>
    requires buf != []
  {
    var t := buf[0];
    if t == 0x00 then Err(FileFormatError)
    else if t == 0x01 || t == 0x05 then Ok(NULL_TEXT)
    else if t == 0x02 then Ok(FALSE_TEXT)
    else if t == 0x03 then Ok(TRUE_TEXT)
    else if t == 0x08 then StringText(buf)
    else if t / 2 == 13 then IntegerTextOf(buf)
    else if t / 16 == 2 then DecimalTextOf(buf)
    else Err(UnsupportedDataType)
  }

  function Comma(index: nat): bytes {
    if index > 0 then [COMMA] else []
  }

  function JsonOf(buf: bytes): Result<bytes>
    decreases |buf|, 1, 0
  {
    if buf == [] then Err(ParameterIsZero)
    else if buf[0] / 16 == 3 then
      var a :- ArrayAnalyze(buf);
      var items :- JsonItems(buf, a, a.count);
      Ok([OPEN_BRACKET] + items + [CLOSE_BRACKET])
    else if 4 <= buf[0] / 16 <= 7 then
      var a :- ObjectAnalyze(buf);
      var pairs :- JsonPairs(buf, a, a.count);
      Ok([OPEN_BRACE] + pairs + [CLOSE_BRACE])
    else ScalarText(buf)
  }

  // The first n items, with commas between them.
  function JsonItems(buf: bytes, a: ArrayAnalysis, n: nat): Result<bytes>
    requires ArrayFits(buf, a) && n <= a.count
    decreases |buf|, 0, n
  {
    if n == 0 then Ok([])
    else
      var before :- JsonItems(buf, a, n - 1);
      var slice :- ArrayGetIndex(buf, a, n - 1);
      var item :- JsonOf(Cut(buf, slice));
      Ok(before + Comma(n - 1) + item)
  }

  function JsonPairs(buf: bytes, a: ObjectAnalysis, n: nat): Result<bytes>
    requires ObjectFits(buf, a) && n <= a.count
    decreases |buf|, 0, n
  {
    if n == 0 then Ok([])
    else
      var before :- JsonPairs(buf, a, n - 1);
      var pair :- JsonPair(buf, a, n - 1);
      Ok(before + pair)
  }

  function JsonPair(buf: bytes, a: ObjectAnalysis, k: nat): Result<bytes>
    requires ObjectFits(buf, a) && k < a.count
    decreases |buf|, 0, k
  {
    var member :- ObjectGetIndex(buf, a, k);
    var value :- JsonOf(Cut(buf, member.value));
    Ok(Comma(k) + Quoted(Cut(buf, member.key)) + [COLON] + value)
  }

  lemma {:induction false} ItemsFail(buf: bytes, a: ArrayAnalysis, k: nat, n: nat)
    requires ArrayFits(buf, a) && k <= n <= a.count && JsonItems(buf, a, k).Err?
    ensures JsonItems(buf, a, n) == JsonItems(buf, a, k)
  {
    hide ArrayGetIndex, ArrayFits, JsonOf;
    if k < n {
      ItemsFail(buf, a, k, n - 1);
    }
  }

  lemma {:induction false} PairsFail(buf: bytes, a: ObjectAnalysis, k: nat, n: nat)
    requires ObjectFits(buf, a) && k <= n <= a.count && JsonPairs(buf, a, k).Err?
    ensures JsonPairs(buf, a, n) == JsonPairs(buf, a, k)
  {
    hide ObjectFits, JsonPair;
    if k < n {
      PairsFail(buf, a, k, n - 1);
    }
  }

  // ---------- The printer ----------

  // What every printing method does: the whole text, or an error after part of it.
  ghost predicate Printed(r: Result<bytes>, before: bytes, after: bytes, status: Status) {
    match r
    case Ok(text) => status == Success && after == before + text
    case Err(e) => status == Failure(e) && before <= after
  }

  lemma {:induction false} Chain3(a: bytes, b: bytes, c: bytes, d: bytes)
    ensures a + b + c + d == a + (b + c + d)
    ensures c == [] ==> a + b + d == a + (b + c + d)
  {
  }

  lemma {:induction false} Chain4(a: bytes, b: bytes, c: bytes, d: bytes, e: bytes)
    ensures a + b + c + d + e == a + (b + c + d + e)
    ensures b == [] ==> a + c + d + e == a + (b + c + d + e)
  {
  }

  // _bijson_array_to_json
  method ArrayToJson(buf: bytes, sink: Sink) returns (status: Status)
    requires buf != [] && buf[0] / 16 == 3
    modifies sink
    ensures Printed(JsonOf(buf), old(sink.data), sink.data, status)
    decreases |buf|, 0, 1
  {
    hide ArrayAnalyze, ArrayGetIndex, ArrayFits;
    var analysis := ArrayAnalyze(buf);
    if analysis.Err? { return Failure(analysis.error); }
    var a := analysis.value;
    ghost var before := old(sink.data) + [OPEN_BRACKET];
    sink.Write([OPEN_BRACKET]);
    for u := 0 to a.count
      invariant JsonItems(buf, a, u).Ok?
      invariant sink.data == before + JsonItems(buf, a, u).value
    {
      ghost var items := JsonItems(buf, a, u).value;
      if u > 0 {
        sink.Write([COMMA]);
      }
      var item := ArrayGetIndex(buf, a, u);
      if item.Err? {
        ItemsFail(buf, a, u + 1, a.count);
        return Failure(item.error);
      }
      ItemShorter(buf, a, u);
      status := ToJson(Cut(buf, item.value), sink);
      if status.Failure? {
        ItemsFail(buf, a, u + 1, a.count);
        return;
      }
      Chain3(before, items, Comma(u), JsonOf(Cut(buf, item.value)).value);
    }
    sink.Write([CLOSE_BRACKET]);
    Chain3(old(sink.data), [OPEN_BRACKET], JsonItems(buf, a, a.count).value, [CLOSE_BRACKET]);
    return Success;
  }

  lemma {:induction false} ItemShorter(buf: bytes, a: ArrayAnalysis, k: nat)
    requires ArrayFits(buf, a) && ArrayGetIndex(buf, a, k).Ok?
    ensures var slice := ArrayGetIndex(buf, a, k).value;
      slice.start + slice.size <= |buf| && |Cut(buf, slice)| < |buf|
  {
    hide ArrayGetIndex;
  }

  lemma {:induction false} MemberShorter(buf: bytes, a: ObjectAnalysis, k: nat)
    requires ObjectFits(buf, a) && ObjectGetIndex(buf, a, k).Ok?
    ensures var member := ObjectGetIndex(buf, a, k).value;
      && member.key.start + member.key.size <= |buf|
      && member.value.start + member.value.size <= |buf| && |Cut(buf, member.value)| < |buf|
  {
    hide ObjectGetIndex;
  }

  // One round of the loop of _bijson_object_to_json.
  method PairToJson(buf: bytes, a: ObjectAnalysis, k: nat, sink: Sink) returns (status: Status)
    requires ObjectFits(buf, a) && k < a.count
    modifies sink
    ensures Printed(JsonPair(buf, a, k), old(sink.data), sink.data, status)
    decreases |buf|, 0, 0
  {
    hide ObjectGetIndex, ObjectFits, Quoted;
    if k > 0 {
      sink.Write([COMMA]);
    }
    var member := ObjectGetIndex(buf, a, k);
    if member.Err? {
      return Failure(member.error);
    }
    MemberShorter(buf, a, k);
    var key := Cut(buf, member.value.key);
    RawStringToJson(key, sink);
    sink.Write([COLON]);
    status := ToJson(Cut(buf, member.value.value), sink);
    if status.Success? {
      Chain4(old(sink.data), Comma(k), Quoted(key), [COLON], JsonOf(Cut(buf, member.value.value)).value);
    }
  }

  // _bijson_object_to_json
  method ObjectToJson(buf: bytes, sink: Sink) returns (status: Status)
    requires buf != [] && 4 <= buf[0] / 16 <= 7
    modifies sink
    ensures Printed(JsonOf(buf), old(sink.data), sink.data, status)
    decreases |buf|, 0, 1
  {
    hide ObjectAnalyze, JsonPair, ObjectFits;
    var analysis := ObjectAnalyze(buf);
    if analysis.Err? { return Failure(analysis.error); }
    var a := analysis.value;
    ghost var before := old(sink.data) + [OPEN_BRACE];
    sink.Write([OPEN_BRACE]);
    for u := 0 to a.count
      invariant JsonPairs(buf, a, u).Ok?
      invariant sink.data == before + JsonPairs(buf, a, u).value
    {
      ghost var pairs := JsonPairs(buf, a, u).value;
      status := PairToJson(buf, a, u, sink);
      if status.Failure? {
        PairsFail(buf, a, u + 1, a.count);
        return;
      }
      Associate(before, pairs, JsonPair(buf, a, u).value);
    }
    sink.Write([CLOSE_BRACE]);
    Chain3(old(sink.data), [OPEN_BRACE], JsonPairs(buf, a, a.count).value, [CLOSE_BRACE]);
    return Success;
  }

  // _bijson_string_to_json
  method StringToJson(buf: bytes, sink: Sink) returns (status: Status)
    requires buf != []
    modifies sink
    ensures Printed(StringText(buf), old(sink.data), sink.data, status)
  {
    hide ValidUtf8, Quoted;
    status := CheckValidUtf8(buf[1..]);
    if status.Success? {
      RawStringToJson(buf[1..], sink);
    }
  }

  // bijson_to_json
  method ToJson(buf: bytes, sink: Sink) returns (status: Status)
    modifies sink
    ensures Printed(JsonOf(buf), old(sink.data), sink.data, status)
    decreases |buf|, 1, 0
  {
    hide StringText, IntegerTextOf, DecimalTextOf;
    if buf == [] {
      return Failure(ParameterIsZero);
    }
    var t := buf[0];
    if t / 16 == 0 {
      if t == 0x00 { return Failure(FileFormatError); }
      if t == 0x01 || t == 0x05 { sink.Write(NULL_TEXT); return Success; }
      if t == 0x02 { sink.Write(FALSE_TEXT); return Success; }
      if t == 0x03 { sink.Write(TRUE_TEXT); return Success; }
      if t == 0x08 { status := StringToJson(buf, sink); return; }
    } else if t / 16 == 1 {
      if t / 2 == 13 { status := IntegerToJson(buf, sink); return; }
    } else if t / 16 == 2 {
      status := DecimalToJson(buf, sink);
      return;
    } else if t / 16 == 3 {
      status := ArrayToJson(buf, sink);
      return;
    } else if 4 <= t / 16 <= 7 {
      status := ObjectToJson(buf, sink);
      return;
    }
    return Failure(UnsupportedDataType);
  }

  // ---------- The text of a tree ----------

  function Print(t: Value): Result<bytes>
    requires WellFormed(t)
    decreases t, 1, 0
  {
    match t
    case Scalar(data) => ScalarText(data)
    case Array(items) =>
      var text :- PrintItems(items, |items|);
      Ok([OPEN_BRACKET] + text + [CLOSE_BRACKET])
    case Object(pairs) =>
      var text :- PrintPairs(pairs, |pairs|);
      Ok([OPEN_BRACE] + text + [CLOSE_BRACE])
  }

  function PrintItems(items: seq<Value>, n: nat): Result<bytes>
    requires AllWellFormed(items) && n <= |items|
    decreases items, 0, n
  {
    if n == 0 then Ok([])
    else
      var before :- PrintItems(items, n - 1);
      var item :- Print(items[n - 1]);
      Ok(before + Comma(n - 1) + item)
  }

  function PrintPairs(pairs: seq<Pair>, n: nat): Result<bytes>
    requires AllPairsWellFormed(pairs) && n <= |pairs|
    decreases pairs, 0, n
  {
    if n == 0 then Ok([])
    else
      assert WellFormedPair(pairs[n - 1]);
      var before :- PrintPairs(pairs, n - 1);
      var value :- Print(pairs[n - 1].value);
      Ok(before + (Comma(n - 1) + Quoted(pairs[n - 1].key) + [COLON] + value))
  }

  lemma {:induction false} CanonicalWellFormed(h: Hash, t: Value)
    requires WellFormed(t)
    ensures WellFormed(Canonical(h, t))
    decreases t
  {
    hide ValidUtf8, Order;
    match t
    case Scalar(_) =>
    case Array(items) =>
      forall i | 0 <= i < |items|
        ensures WellFormed(CanonicalItems(h, items)[i])
      {
        CanonicalWellFormed(h, items[i]);
      }
    case Object(pairs) =>
      OrderSelects(h, PairKeys(pairs));
      var order := Order(h, PairKeys(pairs));
      forall i | 0 <= i < |pairs|
        ensures WellFormedPair(CanonicalPairs(h, pairs)[i])
      {
        assert WellFormedPair(pairs[i]);
        CanonicalWellFormed(h, pairs[i].value);
      }
      assert AllPairsWellFormed(Pick(CanonicalPairs(h, pairs), order));
  }

  // Printing the encoded document is printing the document, with each object's pairs in
  // their emitted order.
  lemma {:induction false} EncodedPrints(h: Hash, t: Value)
    requires WellFormed(t) && |Encode(h, t)| <= SIZE_MAX
    ensures WellFormed(Canonical(h, t))
    ensures JsonOf(Encode(h, t)) == Print(Canonical(h, t))
    decreases t, 1, 0
  {
    CanonicalWellFormed(h, t);
    hide ArrayBytes, ObjectBytes, SortedEntries, EncodeItems, Order, JsonItems, JsonPairs, ScalarText, ValidUtf8;
    hide ArrayAnalyze, ObjectAnalyze, ArrayFits, ObjectFits, JsonOf, Print, PrintItems, PrintPairs, WellFormed;
    match t
    case Scalar(data) => ScalarPrints(data);
    case Array(items) =>
      ArrayRoundTrip(EncodeItems(h, items), 0);
      ItemsWellFormed(h, items);
      ItemsPrint(h, items, |items|);
      ArrayPrints(EncodeItems(h, items), CanonicalItems(h, items));
    case Object(pairs) =>
      SortedKeysValid(h, pairs);
      ObjectRoundTrip(SortedEntries(h, pairs), 0);
      OrderSelects(h, PairKeys(pairs));
      PairsWellFormed(h, pairs);
      PairsPrint(h, pairs, |pairs|);
      ObjectPrints(SortedEntries(h, pairs), Pick(CanonicalPairs(h, pairs), Order(h, PairKeys(pairs))));
  }

  lemma {:induction false} ItemsWellFormed(h: Hash, items: seq<Value>)
    requires WellFormed(Canonical(h, Array(items))) && WellFormed(Array(items))
    ensures AllWellFormed(items) && AllWellFormed(CanonicalItems(h, items))
  {
  }

  lemma {:induction false} PairsWellFormed(h: Hash, pairs: seq<Pair>)
    requires WellFormed(Canonical(h, Object(pairs))) && WellFormed(Object(pairs))
    requires Selects(Order(h, PairKeys(pairs)), |pairs|) && |Order(h, PairKeys(pairs))| == |pairs|
    ensures AllPairsWellFormed(pairs)
    ensures AllPairsWellFormed(Pick(CanonicalPairs(h, pairs), Order(h, PairKeys(pairs))))
  {
    hide Order, ValidUtf8;
    assert Canonical(h, Object(pairs)) == Object(Pick(CanonicalPairs(h, pairs), Order(h, PairKeys(pairs))));
  }

  lemma {:induction false} ScalarPrints(data: bytes)
    requires WrittenScalar(data)
    ensures WellFormed(Scalar(data)) && JsonOf(data) == ScalarText(data) == Print(Scalar(data))
  {
    hide ValidUtf8, ScalarText;
  }

  lemma {:induction false} ArrayPrints(encoded: seq<bytes>, items: seq<Value>)
    requires NoneEmpty(encoded) && AllWellFormed(items)
    requires ArrayAnalyze(ArrayBytes(encoded)).Ok?
    requires var b := ArrayBytes(encoded);
      && ArrayAnalyze(b).value.count == |items|
      && JsonItems(b, ArrayAnalyze(b).value, |items|) == PrintItems(items, |items|)
    ensures WellFormed(Array(items)) && JsonOf(ArrayBytes(encoded)) == Print(Array(items))
  {
    hide ArrayBytes, JsonItems, PrintItems, ArrayAnalyze, ArrayFits, ValidUtf8;
    ArrayTypeByte(encoded);
  }

  lemma {:induction false} ObjectPrints(encoded: seq<Entry>, pairs: seq<Pair>)
    requires NoneEmpty(Values(encoded)) && AllPairsWellFormed(pairs)
    requires ObjectAnalyze(ObjectBytes(encoded)).Ok?
    requires var b := ObjectBytes(encoded);
      && ObjectAnalyze(b).value.count == |pairs|
      && JsonPairs(b, ObjectAnalyze(b).value, |pairs|) == PrintPairs(pairs, |pairs|)
    ensures WellFormed(Object(pairs)) && JsonOf(ObjectBytes(encoded)) == Print(Object(pairs))
  {
    hide ObjectBytes, JsonPairs, PrintPairs, ObjectAnalyze, ObjectFits, ValidUtf8;
    ObjectTypeByte(encoded);
  }

  lemma {:induction false} ItemsPrint(h: Hash, items: seq<Value>, n: nat)
    requires AllWellFormed(items) && |ArrayBytes(EncodeItems(h, items))| <= SIZE_MAX && n <= |items|
    requires ArrayAnalyze(ArrayBytes(EncodeItems(h, items))).Ok?
    requires ArrayAnalyze(ArrayBytes(EncodeItems(h, items))).value.count == |items|
    requires AllWellFormed(CanonicalItems(h, items))
    ensures var b := ArrayBytes(EncodeItems(h, items));
      JsonItems(b, ArrayAnalyze(b).value, n) == PrintItems(CanonicalItems(h, items), n)
    decreases items, 0, n
  {
    hide ArrayBytes, ArrayAnalyze, ArrayGetIndex, ArrayFits, WellFormed, Encode, Canonical, JsonOf, Print;
    if n > 0 {
      var b := ArrayBytes(EncodeItems(h, items));
      var a := ArrayAnalyze(b).value;
      ItemsPrint(h, items, n - 1);
      ArrayRoundTrip(EncodeItems(h, items), n - 1);
      assert Cut(b, ArrayGetIndex(b, a, n - 1).value) == Encode(h, items[n - 1]);
      EncodedItemFits(EncodeItems(h, items), n - 1);
      EncodedPrints(h, items[n - 1]);
    }
  }

  lemma {:induction false} EncodedItemFits(items: seq<bytes>, k: nat)
    requires NoneEmpty(items) && k < |items| && |ArrayBytes(items)| <= SIZE_MAX
    ensures |items[k]| <= SIZE_MAX
  {
    hide LittleEndian, IntTable;
    ConcatAt(items, k);
  }

  lemma {:induction false} PairsPrint(h: Hash, pairs: seq<Pair>, n: nat)
    requires AllPairsWellFormed(pairs) && |ObjectBytes(SortedEntries(h, pairs))| <= SIZE_MAX && n <= |pairs|
    requires ObjectAnalyze(ObjectBytes(SortedEntries(h, pairs))).Ok?
    requires ObjectAnalyze(ObjectBytes(SortedEntries(h, pairs))).value.count == |pairs|
    requires Selects(Order(h, PairKeys(pairs)), |pairs|) && |Order(h, PairKeys(pairs))| == |pairs|
    requires AllPairsWellFormed(Pick(CanonicalPairs(h, pairs), Order(h, PairKeys(pairs))))
    ensures var b := ObjectBytes(SortedEntries(h, pairs));
      JsonPairs(b, ObjectAnalyze(b).value, n)
      == PrintPairs(Pick(CanonicalPairs(h, pairs), Order(h, PairKeys(pairs))), n)
    decreases pairs, 0, n
  {
    hide ObjectBytes, ObjectAnalyze, ObjectGetIndex, ObjectFits, WellFormed, Encode, Canonical, Order;
    hide ValidUtf8, JsonOf, Print, Quoted;
    if n > 0 {
      var entries := SortedEntries(h, pairs);
      var b, k := ObjectBytes(entries), Order(h, PairKeys(pairs))[n - 1];
      PairsPrint(h, pairs, n - 1);
      SortedKeysValid(h, pairs);
      ObjectRoundTrip(entries, n - 1);
      assert entries[n - 1] == Entry(pairs[k].key, Encode(h, pairs[k].value));
      EncodedValueFits(entries, n - 1);
      assert WellFormedPair(pairs[k]);
      EncodedPrints(h, pairs[k].value);
    }
  }

  lemma {:induction false} EncodedValueFits(entries: seq<Entry>, k: nat)
    requires NoneEmpty(Values(entries)) && k < |entries| && |ObjectBytes(entries)| <= SIZE_MAX
    ensures |entries[k].value| <= SIZE_MAX
  {
    hide LittleEndian, IntTable;
    ConcatAt(Values(entries), k);
  }
}
