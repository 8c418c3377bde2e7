// Documents as trees, their file format, and their form in the writer's spool.
module Tree {
  import opened Bytes
  import opened Storage
  import opened Layout
  import opened KeyOrder
  import opened Utf8

  // A scalar is given by its bytes in the file: the type byte and the payload.
  datatype Value =
    | Scalar(data: bytes)
    | Array(items: seq<Value>)
    | Object(pairs: seq<Pair>)

  datatype Pair = Pair(key: bytes, value: Value)

  const NULL: byte := 0x01
  const FALSE: byte := 0x02
  const TRUE: byte := 0x03
  const UNDEFINED: byte := 0x04
  const STRING: byte := 0x08
  const BYTES: byte := 0x09

  // The scalars that the writer's functions produce.
  predicate WrittenScalar(data: bytes) {
    && data != []
    && (data[0] in {NULL, FALSE, TRUE, UNDEFINED, STRING, BYTES} || 0x10 <= data[0] <= 0x15
        || 0x1A <= data[0] <= 0x1B || 0x20 <= data[0] <= 0x2F)
    && (data[0] == STRING ==> ValidUtf8(data[1..]))
  }

  predicate WellFormed(t: Value) {
    match t
    case Scalar(data) => WrittenScalar(data)
    case Array(items) => forall i :: 0 <= i < |items| ==> WellFormed(items[i])
    case Object(pairs) => forall i :: 0 <= i < |pairs| ==> WellFormedPair(pairs[i])
  }

  predicate WellFormedPair(p: Pair) {
    ValidUtf8(p.key) && WellFormed(p.value)
  }

  predicate AllWellFormed(items: seq<Value>) {
    forall i :: 0 <= i < |items| ==> WellFormed(items[i])
  }

  predicate AllPairsWellFormed(pairs: seq<Pair>) {
    forall i :: 0 <= i < |pairs| ==> WellFormedPair(pairs[i])
  }

  function PairKeys(pairs: seq<Pair>): (keys: seq<bytes>)
    ensures |keys| == |pairs| && forall i :: 0 <= i < |pairs| ==> keys[i] == pairs[i].key
  {
    seq(|pairs|, i requires 0 <= i < |pairs| => pairs[i].key)
  }

  // ---------- The file format ----------

  function Encode(h: Hash, t: Value): (b: bytes)
    requires WellFormed(t)
    ensures b != []
    decreases t, 1
  {
    match t
    case Scalar(data) => data
    case Array(items) => ArrayBytes(EncodeItems(h, items))
    case Object(pairs) => ObjectBytes(SortedEntries(h, pairs))
  }

  function EncodeItems(h: Hash, items: seq<Value>): (r: seq<bytes>)
    requires AllWellFormed(items)
    ensures |r| == |items| && NoneEmpty(r)
    ensures forall i :: 0 <= i < |items| ==> r[i] == Encode(h, items[i])
    decreases items, 0
  {
    seq(|items|, i requires 0 <= i < |items| => Encode(h, items[i]))
  }

  function EncodePairs(h: Hash, pairs: seq<Pair>): (r: seq<Entry>)
    requires AllPairsWellFormed(pairs)
    ensures |r| == |pairs|
    ensures forall i :: 0 <= i < |pairs| ==> r[i] == Entry(pairs[i].key, Encode(h, pairs[i].value))
    decreases pairs, 0
  {
    seq(|pairs|, i requires 0 <= i < |pairs| => Entry(pairs[i].key, Encode(h, pairs[i].value)))
  }

  function SortedEntries(h: Hash, pairs: seq<Pair>): (r: seq<Entry>)
    requires AllPairsWellFormed(pairs)
    ensures |r| == |pairs| && NoneEmpty(Values(r))
    decreases pairs, 1
  {
    OrderSelects(h, PairKeys(pairs));
    Pick(EncodePairs(h, pairs), Order(h, PairKeys(pairs)))
  }

  // ---------- The spool ----------

  const SCALAR_TAG: byte := 0
  const OBJECT_TAG: byte := 1
  const ARRAY_TAG: byte := 2

  // A value in the spool: a tag, the size of the rest, and for containers the size of their
  // output. Everything the writer relies on later is in these sizes.
  function Spool(h: Hash, t: Value): (b: bytes)
    requires WellFormed(t)
    ensures |b| >= 9
    decreases t, 1
  {
    match t
    case Scalar(data) => [SCALAR_TAG] + Size(|data|) + data
    case Array(items) => SpoolContainer(ARRAY_TAG, |Encode(h, t)|, Concat(SpoolItems(h, items)))
    case Object(pairs) => SpoolContainer(OBJECT_TAG, |Encode(h, t)|, Concat(SpoolPairs(h, pairs)))
  }

  function SpoolContainer(tag: byte, outputSize: nat, body: bytes): (b: bytes)
    ensures |b| == 17 + |body|
  {
    [tag] + Size(8 + |body|) + Size(outputSize) + body
  }

  function SpoolItems(h: Hash, items: seq<Value>): (r: seq<bytes>)
    requires AllWellFormed(items)
    ensures |r| == |items|
    ensures forall i :: 0 <= i < |items| ==> r[i] == Spool(h, items[i])
    decreases items, 0
  {
    seq(|items|, i requires 0 <= i < |items| => Spool(h, items[i]))
  }

  function SpoolKey(key: bytes): bytes {
    Size(|key|) + key
  }

  function SpoolPairs(h: Hash, pairs: seq<Pair>): (r: seq<bytes>)
    requires AllPairsWellFormed(pairs)
    ensures |r| == |pairs|
    ensures forall i :: 0 <= i < |pairs| ==> r[i] == SpoolKey(pairs[i].key) + Spool(h, pairs[i].value)
    decreases pairs, 0
  {
    seq(|pairs|, i requires 0 <= i < |pairs| => SpoolKey(pairs[i].key) + Spool(h, pairs[i].value))
  }

  // ---------- Sizes ----------

  // Output sizes in terms of what both passes of the writer sum up.
  function ArraySize(count: nat, itemsSize: nat, lastSize: nat): nat
    requires count > 0 ==> lastSize + count - 1 <= itemsSize
  {
    if count == 0 then 1
    else 1 + WidthBytes(StorageSize1(count))
         + (count - 1) * Width(itemsSize - lastSize - (count - 1))
         + itemsSize
  }

  function ObjectSize(count: nat, keysSize: nat, valuesSize: nat, lastSize: nat): nat
    requires count > 0 ==> lastSize + count - 1 <= valuesSize
  {
    if count == 0 then 1
    else 1 + WidthBytes(StorageSize1(count))
         + count * Width(keysSize)
         + (count - 1) * Width(valuesSize - lastSize - (count - 1))
         + keysSize + valuesSize
  }

  lemma {:induction false} LastSize(values: seq<bytes>)
    requires values != [] && NoneEmpty(values)
    ensures |values[|values| - 1]| + |values| - 1 <= |Concat(values)|
    ensures ValueOffset(values, |values| - 1) == |Concat(values)| - |values[|values| - 1]| - (|values| - 1)
  {
    ConcatAt(values, |values| - 1);
    StartsGrow(values, 0, |values| - 1);
    StartsGrow(values, |values|, |values|);
  }

  lemma {:induction false} ArrayBytesSize(items: seq<bytes>)
    requires NoneEmpty(items)
    ensures items == [] ==> |ArrayBytes(items)| == ArraySize(0, 0, 0)
    ensures items != [] ==>
      && |items[|items| - 1]| + |items| - 1 <= |Concat(items)|
      && |ArrayBytes(items)| == ArraySize(|items|, |Concat(items)|, |items[|items| - 1]|)
  {
    if items != [] {
      LastSize(items);
      StorageSizesAgree(|items|);
      SpanIsProduct(|items| - 1, WidthBytes(ValueOffsetsWidth(items)));
    }
  }

  lemma {:induction false} ObjectBytesSize(entries: seq<Entry>)
    requires NoneEmpty(Values(entries))
    ensures entries == [] ==> |ObjectBytes(entries)| == ObjectSize(0, 0, 0, 0)
    ensures entries != [] ==>
      && |entries[|entries| - 1].value| + |entries| - 1 <= |Concat(Values(entries))|
      && |ObjectBytes(entries)| == ObjectSize(|entries|, |Concat(Keys(entries))|, |Concat(Values(entries))|,
                                              |entries[|entries| - 1].value|)
  {
    if entries != [] {
      LastSize(Values(entries));
      StorageSizesAgree(|entries|);
      SpanIsProduct(|entries|, Width(|Concat(Keys(entries))|));
      SpanIsProduct(|entries| - 1, WidthBytes(ValueOffsetsWidth(Values(entries))));
    }
  }

  lemma {:induction false} ConcatWithout(b: seq<bytes>, j: nat)
    requires j < |b|
    ensures |Concat(b)| == |b[j]| + |Concat(b[..j] + b[j + 1..])|
    ensures multiset(b[..j] + b[j + 1..]) == multiset(b) - multiset{b[j]}
  {
    var left, right := b[..j], b[j + 1..];
    assert b == left + ([b[j]] + right);
    ConcatSplit(left, [b[j]] + right);
    ConcatSplit([b[j]], right);
    ConcatSplit(left, right);
    ConcatOne(b[j]);
  }

  // Concatenation in another order has the same length.
  lemma {:induction false} ConcatPermuted(a: seq<bytes>, b: seq<bytes>)
    requires multiset(a) == multiset(b)
    ensures |Concat(a)| == |Concat(b)|
    decreases |a|
  {
    hide Concat;
    assert |multiset(a)| == |a| && |multiset(b)| == |b|;
    if a == [] {
      assert b == [];
    } else {
      assert a[0] in multiset(b);
      var j :| 0 <= j < |b| && b[j] == a[0];
      ConcatWithout(a, 0);
      ConcatWithout(b, j);
      ConcatPermuted(a[..0] + a[1..], b[..j] + b[j + 1..]);
    }
  }

  lemma {:induction false} SortedEntriesSizes(h: Hash, pairs: seq<Pair>)
    requires AllPairsWellFormed(pairs)
    ensures var sorted, entries := SortedEntries(h, pairs), EncodePairs(h, pairs);
      && |Concat(Keys(sorted))| == |Concat(Keys(entries))|
      && |Concat(Values(sorted))| == |Concat(Values(entries))|
  {
    var sorted, entries, order := SortedEntries(h, pairs), EncodePairs(h, pairs), Order(h, PairKeys(pairs));
    OrderSelects(h, PairKeys(pairs));
    OrderPermutes(h, PairKeys(pairs), Keys(entries));
    OrderPermutes(h, PairKeys(pairs), Values(entries));
    assert Keys(sorted) == Pick(Keys(entries), order);
    assert Values(sorted) == Pick(Values(entries), order);
    ConcatPermuted(Keys(sorted), Keys(entries));
    ConcatPermuted(Values(sorted), Values(entries));
  }

  // a's blocks are at least gap shorter than b's, one by one; so are their sums.
  lemma {:induction false} ConcatShorter(a: seq<bytes>, b: seq<bytes>, gap: nat)
    requires |a| == |b| && forall i :: 0 <= i < |a| ==> |a[i]| + gap <= |b[i]|
    ensures |Concat(a)| + Span(|a|, gap) <= |Concat(b)|
  {
    if a != [] {
      ConcatShorter(a[1..], b[1..], gap);
    }
  }

  lemma {:induction false} KeysAndValuesShorter(entries: seq<Entry>, b: seq<bytes>)
    requires |entries| == |b|
    requires forall i :: 0 <= i < |b| ==> |entries[i].key| + |entries[i].value| + 17 <= |b[i]|
    ensures |Concat(Keys(entries))| + |Concat(Values(entries))| + 17 * |b| <= |Concat(b)|
  {
    if b != [] {
      KeysAndValuesShorter(entries[1..], b[1..]);
      assert Keys(entries)[1..] == Keys(entries[1..]);
      assert Values(entries)[1..] == Values(entries[1..]);
    }
  }

  lemma {:induction false} SizesBounded(count: nat, w: nat)
    requires w <= 8
    ensures count * w <= 8 * count
  {
  }

  // The output of a value is shorter than its spooled form by at least its header. So once
  // the spool fits in memory, no output size or offset overflows 64 bits.
  lemma {:induction false} EncodeFitsSpool(h: Hash, t: Value)
    requires WellFormed(t)
    ensures |Encode(h, t)| + 9 <= |Spool(h, t)|
    decreases t
  {
    match t
    case Scalar(_) =>
    case Array(items) =>
      var encoded, spooled := EncodeItems(h, items), SpoolItems(h, items);
      forall i | 0 <= i < |items|
        ensures |encoded[i]| + 9 <= |spooled[i]|
      {
        EncodeFitsSpool(h, items[i]);
      }
      ConcatShorter(encoded, spooled, 9);
      SpanIsProduct(|items|, 9);
      ArrayBytesSize(encoded);
      if items != [] {
        SizesBounded(|items| - 1, WidthBytes(ValueOffsetsWidth(encoded)));
        LastSize(encoded);
      }
    case Object(pairs) =>
      ObjectFitsSpool(h, pairs);
  }

  lemma {:induction false} ObjectFitsSpool(h: Hash, pairs: seq<Pair>)
    requires AllPairsWellFormed(pairs)
    ensures |ObjectBytes(SortedEntries(h, pairs))| + 9 <= 17 + |Concat(SpoolPairs(h, pairs))|
    decreases pairs
  {
    hide Concat, Encode, Spool, ObjectBytes, SortedEntries, ValidUtf8, ValueOffset;
    var entries, sorted, spooled := EncodePairs(h, pairs), SortedEntries(h, pairs), SpoolPairs(h, pairs);
    forall i | 0 <= i < |pairs|
      ensures |entries[i].key| + |entries[i].value| + 17 <= |spooled[i]|
    {
      EncodeFitsSpool(h, pairs[i].value);
    }
    KeysAndValuesShorter(entries, spooled);
    SortedEntriesSizes(h, pairs);
    ObjectBytesSize(sorted);
    if pairs != [] {
      SizesBounded(|pairs|, Width(|Concat(Keys(sorted))|));
      SizesBounded(|pairs| - 1, WidthBytes(ValueOffsetsWidth(Values(sorted))));
      LastSize(Values(sorted));
    }
  }
}
