// Type dispatch (lib/reader.c), reading a whole document by index, and the binary round trip.
module Retrieve {
  import opened Wrappers
  import opened Bytes
  import opened Storage
  import opened Layout
  import opened Reader
  import opened Codec
  import opened KeyOrder
  import opened Utf8
  import opened Tree

  datatype ValueType =
    | NullType | FalseType | TrueType | UndefinedType | StringType | BytesType
    | FloatType | DecimalFloatType | DecimalFloatDpdType
    | SnanType | QnanType | InfType | IntegerType | DecimalType | ArrayType | ObjectType

  // bijson_get_value_type
  function GetValueType(buf: bytes): Result<ValueType> {
    if buf == [] then Err(ParameterIsZero)
    else
      var t := buf[0];
      if t / 16 == 0 then
        if t == 0x00 then Err(FileFormatError)
        else if t == 0x01 then Ok(NullType)
        else if t == 0x05 then Ok(UndefinedType)
        else if t == 0x02 then Ok(FalseType)
        else if t == 0x03 then Ok(TrueType)
        else if t == 0x08 then Ok(StringType)
        else if t == 0x09 then Ok(BytesType)
        else if t == 0x0A then Ok(FloatType)
        else if t == 0x0B then Ok(DecimalFloatType)
        else if t == 0x0C then Ok(DecimalFloatDpdType)
        else Err(UnsupportedDataType)
      else if t / 16 == 1 then
        if t / 2 == 8 then Ok(SnanType)
        else if t / 2 == 9 then Ok(QnanType)
        else if t / 2 == 10 then Ok(InfType)
        else if t / 2 == 12 then Ok(IntegerType)
        else if t / 2 == 13 then Ok(DecimalType)
        else Err(UnsupportedDataType)
      else if t / 16 == 2 then Ok(DecimalType)
      else if t / 16 == 3 then Ok(ArrayType)
      else if 4 <= t / 16 <= 7 then Ok(ObjectType)
      else Err(UnsupportedDataType)
  }

  // Reading everything below a value through the index functions.
  function Retrieve(buf: bytes): Result<Value>
    decreases |buf|, 1, 0
  {
    var valueType :- GetValueType(buf);
    if valueType == ArrayType then
      var a :- ArrayAnalyze(buf);
      var items :- RetrieveItems(buf, a, a.count);
      Ok(Array(items))
    else if valueType == ObjectType then
      var a :- ObjectAnalyze(buf);
      var pairs :- RetrievePairs(buf, a, a.count);
      Ok(Object(pairs))
    else Ok(Scalar(buf))
  }

  function RetrieveItems(buf: bytes, a: ArrayAnalysis, n: nat): Result<seq<Value>>
    requires ArrayFits(buf, a) && n <= a.count
    decreases |buf|, 0, n
  {
    if n == 0 then Ok([])
    else
      var before :- RetrieveItems(buf, a, n - 1);
      var slice :- ArrayGetIndex(buf, a, n - 1);
      var item :- Retrieve(Cut(buf, slice));
      Ok(before + [item])
  }

  function RetrievePairs(buf: bytes, a: ObjectAnalysis, n: nat): Result<seq<Pair>>
    requires ObjectFits(buf, a) && n <= a.count
    decreases |buf|, 0, n
  {
    if n == 0 then Ok([])
    else
      var before :- RetrievePairs(buf, a, n - 1);
      var member :- ObjectGetIndex(buf, a, n - 1);
      var value :- Retrieve(Cut(buf, member.value));
      Ok(before + [Pair(Cut(buf, member.key), value)])
  }

  // ---------- The canonical form ----------

  // The pairs of every object in the order in which they are emitted.
  function Canonical(h: Hash, t: Value): Value
    decreases t, 1
  {
    match t
    case Scalar(_) => t
    case Array(items) => Array(CanonicalItems(h, items))
    case Object(pairs) =>
      OrderSelects(h, PairKeys(pairs));
      Object(Pick(CanonicalPairs(h, pairs), Order(h, PairKeys(pairs))))
  }

  function CanonicalItems(h: Hash, items: seq<Value>): (r: seq<Value>)
    ensures |r| == |items| && forall i :: 0 <= i < |items| ==> r[i] == Canonical(h, items[i])
    decreases items, 0
  {
    seq(|items|, i requires 0 <= i < |items| => Canonical(h, items[i]))
  }

  function CanonicalPairs(h: Hash, pairs: seq<Pair>): (r: seq<Pair>)
    ensures |r| == |pairs|
    ensures forall i :: 0 <= i < |pairs| ==> r[i] == Pair(pairs[i].key, Canonical(h, pairs[i].value))
    decreases pairs, 0
  {
    seq(|pairs|, i requires 0 <= i < |pairs| => Pair(pairs[i].key, Canonical(h, pairs[i].value)))
  }

  // The writer stores "undefined" as 0x04, which the reader does not know.
  predicate HasUndefined(t: Value) {
    match t
    case Scalar(data) => data != [] && data[0] == UNDEFINED
    case Array(items) => exists i :: 0 <= i < |items| && HasUndefined(items[i])
    case Object(pairs) => exists i :: 0 <= i < |pairs| && HasUndefinedPair(pairs[i])
  }

  predicate HasUndefinedPair(p: Pair) {
    HasUndefined(p.value)
  }

  // The types of the format description, README.md:75-155, by the first byte of a value.
  function DescribedType(t: byte): Option<ValueType> {
    match t
    case 0x01 => Some(NullType)
    case 0x02 => Some(FalseType)
    case 0x03 => Some(TrueType)
    case 0x04 => Some(UndefinedType)
    case 0x08 => Some(StringType)
    case 0x09 => Some(BytesType)
    case 0x10 => Some(SnanType)
    case 0x11 => Some(SnanType)
    case 0x12 => Some(QnanType)
    case 0x13 => Some(QnanType)
    case 0x14 => Some(InfType)
    case 0x15 => Some(InfType)
    case 0x1A => Some(DecimalType)
    case 0x1B => Some(DecimalType)
    case _ =>
      if 0x20 <= t < 0x30 then Some(DecimalType)
      else if 0x30 <= t < 0x40 then Some(ArrayType)
      else if 0x40 <= t < 0x80 then Some(ObjectType)
      else None
  }

  // Every value that is written has its described type, apart from "undefined".
  lemma {:induction false} TypeOfEncoded(h: Hash, t: Value)
    requires WellFormed(t)
    ensures var b := Encode(h, t);
      && DescribedType(b[0]).Some?
      && GetValueType(b) == (if b[0] == 0x04 then Err(UnsupportedDataType) else Ok(DescribedType(b[0]).value))
      && match t
         case Scalar(data) => b == data && DescribedType(b[0]).value !in {ArrayType, ObjectType}
         case Array(_) => DescribedType(b[0]) == Some(ArrayType)
         case Object(_) => DescribedType(b[0]) == Some(ObjectType)
  {
    hide LittleEndian, IntTable, Concat, ValueOffset, EncodeItems, SortedEntries, ValidUtf8;
    match t
    case Scalar(_) =>
    case Array(items) => ArrayTypeByte(EncodeItems(h, items));
    case Object(pairs) => ObjectTypeByte(SortedEntries(h, pairs));
  }

  lemma {:induction false} ArrayTypeByte(items: seq<bytes>)
    requires NoneEmpty(items)
    ensures 0x30 <= ArrayBytes(items)[0] <= 0x3F
  {
    hide LittleEndian, IntTable, Concat, ValueOffset, StorageSize;
  }

  lemma {:induction false} ObjectTypeByte(entries: seq<Entry>)
    requires NoneEmpty(Values(entries))
    ensures 0x40 <= ObjectBytes(entries)[0] <= 0x7F
  {
    hide LittleEndian, IntTable, Concat, ValueOffset, StorageSize;
  }

  // The binary round trip: reading what was written, by index and to the bottom, gives the
  // document back with every object's pairs in their emitted order. It fails exactly when
  // the document holds "undefined".
  lemma {:induction false} BinaryRoundTrip(h: Hash, t: Value)
    requires WellFormed(t) && |Encode(h, t)| <= SIZE_MAX
    ensures Retrieve(Encode(h, t)) ==
      if HasUndefined(t) then Err(UnsupportedDataType) else Ok(Canonical(h, t))
    decreases t, 1
  {
    hide ArrayBytes, ObjectBytes, GetValueType, SortedEntries, EncodeItems, Order, RetrieveItems, RetrievePairs;
    hide ArrayAnalyze, ObjectAnalyze;
    TypeOfEncoded(h, t);
    match t
    case Scalar(_) =>
    case Array(items) =>
      ArrayRoundTrip(EncodeItems(h, items), 0);
      ItemsRoundTrip(h, items, |items|);
      assert CanonicalItems(h, items)[..|items|] == CanonicalItems(h, items);
    case Object(pairs) =>
      var order := Order(h, PairKeys(pairs));
      SortedKeysValid(h, pairs);
      ObjectRoundTrip(SortedEntries(h, pairs), 0);
      PairsRoundTrip(h, pairs, |pairs|);
      OrderSelects(h, PairKeys(pairs));
      SomePairUndefined(h, pairs);
      assert Pick(CanonicalPairs(h, pairs), order)[..|pairs|] == Pick(CanonicalPairs(h, pairs), order);
  }

  lemma {:induction false} SortedKeysValid(h: Hash, pairs: seq<Pair>)
    requires AllPairsWellFormed(pairs)
    ensures forall k :: 0 <= k < |pairs| ==> ValidUtf8(SortedEntries(h, pairs)[k].key)
  {
    hide ValidUtf8, Order, Encode;
    OrderSelects(h, PairKeys(pairs));
    forall k | 0 <= k < |pairs|
      ensures ValidUtf8(SortedEntries(h, pairs)[k].key)
    {
      assert WellFormedPair(pairs[Order(h, PairKeys(pairs))[k]]);
    }
  }

  // Whether one of the first n items, or pairs in emitted order, holds "undefined".
  ghost predicate AnyUndefined(items: seq<Value>, n: nat)
    requires n <= |items|
  {
    exists i :: 0 <= i < n && HasUndefined(items[i])
  }

  ghost predicate AnyPairUndefined(pairs: seq<Pair>, n: nat)
    requires n <= |pairs|
  {
    exists i :: 0 <= i < n && HasUndefinedPair(pairs[i])
  }

  lemma {:induction false} SomePairUndefined(h: Hash, pairs: seq<Pair>)
    ensures Selects(Order(h, PairKeys(pairs)), |pairs|) && |Order(h, PairKeys(pairs))| == |pairs|
    ensures AnyPairUndefined(pairs, |pairs|) <==> AnyPairUndefined(Pick(pairs, Order(h, PairKeys(pairs))), |pairs|)
  {
    hide Order, HasUndefinedPair;
    var order := Order(h, PairKeys(pairs));
    OrderSelects(h, PairKeys(pairs));
    if AnyPairUndefined(pairs, |pairs|) {
      var i :| 0 <= i < |pairs| && HasUndefinedPair(pairs[i]);
      OrderCovers(h, PairKeys(pairs), i);
      var j :| 0 <= j < |order| && order[j] == i;
      assert HasUndefinedPair(Pick(pairs, order)[j]);
    }
  }

  lemma {:induction false} ItemsRoundTrip(h: Hash, items: seq<Value>, n: nat)
    requires AllWellFormed(items) && |ArrayBytes(EncodeItems(h, items))| <= SIZE_MAX && n <= |items|
    requires ArrayAnalyze(ArrayBytes(EncodeItems(h, items))).Ok?
    requires ArrayAnalyze(ArrayBytes(EncodeItems(h, items))).value.count == |items|
    ensures var b := ArrayBytes(EncodeItems(h, items));
      RetrieveItems(b, ArrayAnalyze(b).value, n) ==
      if AnyUndefined(items, n) then Err(UnsupportedDataType) else Ok(CanonicalItems(h, items)[..n])
    decreases items, n
  {
    hide ArrayBytes, ArrayAnalyze, ArrayGetIndex, WellFormed, Encode, HasUndefined, Canonical, Retrieve;
    if n > 0 {
      var b := ArrayBytes(EncodeItems(h, items));
      var a := ArrayAnalyze(b).value;
      var canonical := CanonicalItems(h, items);
      ItemsRoundTrip(h, items, n - 1);
      ArrayRoundTrip(EncodeItems(h, items), n - 1);
      assert Cut(b, ArrayGetIndex(b, a, n - 1).value) == Encode(h, items[n - 1]);
      BinaryRoundTrip(h, items[n - 1]);
      assert canonical[..n] == canonical[..n - 1] + [canonical[n - 1]];
      assert AnyUndefined(items, n) <==> AnyUndefined(items, n - 1) || HasUndefined(items[n - 1]);
    }
  }

  lemma {:induction false} PairsRoundTrip(h: Hash, pairs: seq<Pair>, n: nat)
    requires AllPairsWellFormed(pairs) && |ObjectBytes(SortedEntries(h, pairs))| <= SIZE_MAX && n <= |pairs|
    requires ObjectAnalyze(ObjectBytes(SortedEntries(h, pairs))).Ok?
    requires ObjectAnalyze(ObjectBytes(SortedEntries(h, pairs))).value.count == |pairs|
    ensures Selects(Order(h, PairKeys(pairs)), |pairs|) && |Order(h, PairKeys(pairs))| == |pairs|
    ensures var b, order := ObjectBytes(SortedEntries(h, pairs)), Order(h, PairKeys(pairs));
      RetrievePairs(b, ObjectAnalyze(b).value, n) ==
      if AnyPairUndefined(Pick(pairs, order), n) then Err(UnsupportedDataType)
      else Ok(Pick(CanonicalPairs(h, pairs), order)[..n])
    decreases pairs, n
  {
    hide ObjectBytes, ObjectAnalyze, ObjectGetIndex, WellFormed, Encode, HasUndefinedPair, Canonical, Order, ValidUtf8;
    hide Retrieve, AnyPairUndefined;
    OrderSelects(h, PairKeys(pairs));
    NoneUndefined(Pick(pairs, Order(h, PairKeys(pairs))));
    if n > 0 {
      var order := Order(h, PairKeys(pairs));
      PairsRoundTrip(h, pairs, n - 1);
      PairRoundTrip(h, pairs, n - 1);
      OneMore(Pick(CanonicalPairs(h, pairs), order), n);
      OneMoreUndefined(Pick(pairs, order), n);
    }
  }

  lemma {:induction false} OneMore<T>(s: seq<T>, n: nat)
    requires 0 < n <= |s|
    ensures s[..n] == s[..n - 1] + [s[n - 1]]
  {
  }

  lemma {:induction false} NoneUndefined(pairs: seq<Pair>)
    ensures !AnyPairUndefined(pairs, 0)
  {
  }

  lemma {:induction false} OneMoreUndefined(pairs: seq<Pair>, n: nat)
    requires 0 < n <= |pairs|
    ensures AnyPairUndefined(pairs, n) <==> AnyPairUndefined(pairs, n - 1) || HasUndefinedPair(pairs[n - 1])
  {
    hide HasUndefinedPair;
  }

  lemma {:induction false} PairRoundTrip(h: Hash, pairs: seq<Pair>, k: nat)
    requires AllPairsWellFormed(pairs) && |ObjectBytes(SortedEntries(h, pairs))| <= SIZE_MAX && k < |pairs|
    requires ObjectAnalyze(ObjectBytes(SortedEntries(h, pairs))).Ok?
    ensures Selects(Order(h, PairKeys(pairs)), |pairs|) && |Order(h, PairKeys(pairs))| == |pairs|
    ensures var b, pair := ObjectBytes(SortedEntries(h, pairs)), pairs[Order(h, PairKeys(pairs))[k]];
      var member := ObjectGetIndex(b, ObjectAnalyze(b).value, k);
      && member.Ok?
      && Cut(b, member.value.key) == pair.key
      && Retrieve(Cut(b, member.value.value)) ==
         if HasUndefinedPair(pair) then Err(UnsupportedDataType) else Ok(Canonical(h, pair.value))
    decreases pairs, 0
  {
    hide ObjectBytes, ObjectAnalyze, ObjectGetIndex, WellFormed, Encode, HasUndefined, Canonical, Order, ValidUtf8, Retrieve;
    OrderSelects(h, PairKeys(pairs));
    var entries, pair := SortedEntries(h, pairs), pairs[Order(h, PairKeys(pairs))[k]];
    SortedKeysValid(h, pairs);
    ObjectRoundTrip(entries, k);
    assert entries[k] == Entry(pair.key, Encode(h, pair.value));
    assert WellFormedPair(pair);
    BinaryRoundTrip(h, pair.value);
  }
}
