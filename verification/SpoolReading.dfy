// Reading values back from the spool by their positions (lib/writer/container.c), and the
// two loops that sum up a container when it is closed.
module SpoolReading {
  import opened Bytes
  import opened Layout
  import opened KeyOrder
  import opened Tree

  function ReadSize(spool: bytes, off: nat): nat
    requires off + 8 <= |spool|
  {
    FromLittleEndian(spool[off..off + 8])
  }

  // A value's tag and sizes are inside the spool.
  predicate HasHeader(spool: bytes, off: nat) {
    off + 9 <= |spool| && (spool[off] != SCALAR_TAG ==> off + 17 <= |spool|)
  }

  // _bijson_writer_size_value
  function SizeValue(spool: bytes, off: nat): nat
    requires HasHeader(spool, off)
  {
    if spool[off] == SCALAR_TAG then ReadSize(spool, off + 1) else ReadSize(spool, off + 9)
  }

  // The position after the value at off.
  function ValueEnd(spool: bytes, off: nat): nat
    requires HasHeader(spool, off)
  {
    off + 1 + 8 + ReadSize(spool, off + 1)
  }

  lemma {:induction false} SizeAt(spool: bytes, off: nat, n: nat)
    requires At(spool, off, Size(n)) && n <= SIZE_MAX
    ensures ReadSize(spool, off) == n
  {
    SizeReads(n);
  }

  lemma {:induction false} ContainerAt(spool: bytes, off: nat, tag: byte, outputSize: nat, body: bytes)
    requires At(spool, off, SpoolContainer(tag, outputSize, body))
    ensures At(spool, off, [tag]) && At(spool, off + 1, Size(8 + |body|))
    ensures At(spool, off + 9, Size(outputSize)) && At(spool, off + 17, body)
  {
    hide At, Size;
    AtSplit(spool, off, [tag] + Size(8 + |body|) + Size(outputSize), body);
    AtSplit(spool, off, [tag] + Size(8 + |body|), Size(outputSize));
    AtSplit(spool, off, [tag], Size(8 + |body|));
  }

  lemma {:induction false} TagAt(spool: bytes, off: nat, tag: byte)
    requires At(spool, off, [tag])
    ensures off < |spool| && spool[off] == tag
  {
    assert spool[off..off + 1][0] == spool[off];
  }

  lemma {:induction false} ScalarAt(spool: bytes, off: nat, data: bytes)
    requires At(spool, off, [SCALAR_TAG] + Size(|data|) + data) && |spool| <= SIZE_MAX
    ensures HasHeader(spool, off) && spool[off] == SCALAR_TAG
    ensures ReadSize(spool, off + 1) == |data| && At(spool, off + 9, data)
  {
    hide Size;
    AtSplit(spool, off, [SCALAR_TAG] + Size(|data|), data);
    AtSplit(spool, off, [SCALAR_TAG], Size(|data|));
    TagAt(spool, off, SCALAR_TAG);
    SizeAt(spool, off + 1, |data|);
  }

  // Both sizes of a container are read as they were stored.
  lemma {:induction false} ContainerReads(spool: bytes, off: nat, tag: byte, outputSize: nat, body: bytes)
    requires At(spool, off, SpoolContainer(tag, outputSize, body))
    requires tag != SCALAR_TAG && |spool| <= SIZE_MAX && outputSize <= SIZE_MAX
    ensures HasHeader(spool, off) && spool[off] == tag
    ensures ReadSize(spool, off + 1) == 8 + |body| && ReadSize(spool, off + 9) == outputSize
    ensures At(spool, off + 17, body)
  {
    hide Size;
    ContainerAt(spool, off, tag, outputSize, body);
    TagAt(spool, off, tag);
    SizeAt(spool, off + 1, 8 + |body|);
    SizeAt(spool, off + 9, outputSize);
  }

  // The size that the writer reads for a spooled value is the exact size of its output.
  lemma {:induction false} ValueReads(h: Hash, spool: bytes, off: nat, t: Value)
    requires WellFormed(t) && At(spool, off, Spool(h, t)) && |spool| <= SIZE_MAX
    ensures HasHeader(spool, off)
    ensures SizeValue(spool, off) == |Encode(h, t)|
    ensures ValueEnd(spool, off) == off + |Spool(h, t)|
  {
    hide At, Size, Concat;
    EncodeFitsSpool(h, t);
    InSpool(spool, off, Spool(h, t));
    match t
    case Scalar(data) => ScalarAt(spool, off, data);
    case Array(items) =>
      ContainerReads(spool, off, ARRAY_TAG, |Encode(h, t)|, Concat(SpoolItems(h, items)));
    case Object(pairs) =>
      ContainerReads(spool, off, OBJECT_TAG, |Encode(h, t)|, Concat(SpoolPairs(h, pairs)));
  }

  lemma {:induction false} InSpool(spool: bytes, off: nat, s: bytes)
    requires At(spool, off, s)
    ensures off + |s| <= |spool|
  {
  }

  lemma {:induction false} InnerAt(spool: bytes, start: nat, ss: seq<bytes>, k: nat)
    requires At(spool, start, Concat(ss)) && k < |ss|
    ensures At(spool, start + Start(ss, k), ss[k])
    ensures Start(ss, k + 1) == Start(ss, k) + |ss[k]|
    ensures start + Start(ss, k + 1) <= start + |Concat(ss)| <= |spool|
  {
    ConcatAt(ss, k);
    hide Concat, Start;
    forall i | 0 <= i < |ss[k]|
      ensures spool[start + Start(ss, k)..start + Start(ss, k) + |ss[k]|][i] == ss[k][i]
    {
      var c, s := Concat(ss), Start(ss, k);
      assert c[s + i] == c[s..s + |ss[k]|][i];
      assert spool[start + (s + i)] == spool[start..start + |c|][s + i];
    }
  }

  // A value lies at off, and the next one at end.
  ghost predicate ValueLies(h: Hash, spool: bytes, off: nat, t: Value, end: nat)
    requires WellFormed(t)
  {
    && At(spool, off, Spool(h, t))
    && HasHeader(spool, off) && SizeValue(spool, off) == |Encode(h, t)|
    && off < ValueEnd(spool, off) == end <= |spool|
  }

  lemma {:induction false} ItemReads(h: Hash, spool: bytes, start: nat, items: seq<Value>, k: nat)
    requires AllWellFormed(items) && k < |items| && |spool| <= SIZE_MAX
    requires At(spool, start, Concat(SpoolItems(h, items)))
    ensures ValueLies(h, spool, start + Start(SpoolItems(h, items), k), items[k], start + Start(SpoolItems(h, items), k + 1))
  {
    hide At, Concat, Spool, SizeValue, ValueEnd, HasHeader, Start;
    InnerAt(spool, start, SpoolItems(h, items), k);
    ValueReads(h, spool, start + Start(SpoolItems(h, items), k), items[k]);
  }

  // The loop of bijson_writer_end_array.
  method ScanArray(h: Hash, spool: bytes, start: nat, ghost items: seq<Value>)
    returns (count: nat, itemsSize: nat, lastSize: nat)
    requires AllWellFormed(items) && |spool| <= SIZE_MAX
    requires At(spool, start, Concat(SpoolItems(h, items)))
    requires start + |Concat(SpoolItems(h, items))| == |spool|
    ensures count == |items| && itemsSize == |Concat(EncodeItems(h, items))|
    ensures items != [] ==> lastSize == |Encode(h, items[|items| - 1])|
  {
    hide At, Concat, Spool, SizeValue, ValueEnd, HasHeader, WellFormed, Encode;
    ghost var spooled, encoded := SpoolItems(h, items), EncodeItems(h, items);
    StartsGrow(spooled, 0, |items|);
    StartOfFirst(spooled);
    StartOfFirst(encoded);
    count, itemsSize, lastSize := 0, 0, 0;
    var off := start;
    while off < |spool|
      invariant count <= |items|
      invariant off == start + Start(spooled, count)
      invariant itemsSize == Start(encoded, count)
      invariant count > 0 ==> lastSize == |encoded[count - 1]|
    {
      ItemReads(h, spool, start, items, count);
      ConcatAt(encoded, count);
      lastSize := SizeValue(spool, off);
      itemsSize := itemsSize + lastSize;
      off := ValueEnd(spool, off);
      count := count + 1;
    }
    StartsGrow(encoded, |items|, |items|);
    if count < |items| {
      ItemReads(h, spool, start, items, count);
    }
  }

  // ---------- Objects ----------

  // The key in front of a value: its length and its bytes.
  lemma {:induction false} KeyReads(spool: bytes, off: nat, key: bytes, rest: bytes)
    requires At(spool, off, SpoolKey(key) + rest) && |spool| <= SIZE_MAX
    ensures off + 8 + |key| <= |spool|
    ensures ReadSize(spool, off) == |key| && spool[off + 8..off + 8 + |key|] == key
    ensures At(spool, off + 8 + |key|, rest)
  {
    hide Size;
    AtSplit(spool, off, Size(|key|) + key, rest);
    AtSplit(spool, off, Size(|key|), key);
    SizeAt(spool, off, |key|);
  }

  predicate HasKey(spool: bytes, off: nat) {
    off + 8 <= |spool| && off + 8 + ReadSize(spool, off) <= |spool|
  }

  function SpooledKey(spool: bytes, off: nat): bytes
    requires HasKey(spool, off)
  {
    spool[off + 8..off + 8 + ReadSize(spool, off)]
  }

  // The position of the value that belongs to the key at off.
  function ValuePos(spool: bytes, off: nat): nat
    requires HasKey(spool, off)
  {
    off + 8 + ReadSize(spool, off)
  }

  lemma {:induction false} PairReads(h: Hash, spool: bytes, start: nat, pairs: seq<Pair>, k: nat)
    requires AllPairsWellFormed(pairs) && k < |pairs| && |spool| <= SIZE_MAX
    requires At(spool, start, Concat(SpoolPairs(h, pairs)))
    ensures var off := start + Start(SpoolPairs(h, pairs), k);
      && HasKey(spool, off) && SpooledKey(spool, off) == pairs[k].key
      && At(spool, ValuePos(spool, off), Spool(h, pairs[k].value))
      && HasHeader(spool, ValuePos(spool, off))
      && SizeValue(spool, ValuePos(spool, off)) == |Encode(h, pairs[k].value)|
      && off < ValueEnd(spool, ValuePos(spool, off)) == start + Start(SpoolPairs(h, pairs), k + 1) <= |spool|
  {
    hide At, Concat, Spool, SpoolKey, SizeValue, ValueEnd, HasHeader, Start, ReadSize;
    var off := start + Start(SpoolPairs(h, pairs), k);
    InnerAt(spool, start, SpoolPairs(h, pairs), k);
    KeyReads(spool, off, pairs[k].key, Spool(h, pairs[k].value));
    SpoolKeySize(pairs[k].key);
    ValueReads(h, spool, off + 8 + |pairs[k].key|, pairs[k].value);
  }

  lemma {:induction false} SpoolKeySize(key: bytes)
    ensures |SpoolKey(key)| == 8 + |key|
  {
  }

  // best comes after every other key among the first n.
  ghost predicate IsHighest(h: Hash, keys: seq<bytes>, n: nat, best: nat) {
    && best < n <= |keys|
    && forall i :: 0 <= i < n && i != best ==> Before(h, KeyAt(keys), i, best)
  }

  // One comparison with the highest key so far keeps track of the highest of all.
  lemma {:induction false} HighestStep(h: Hash, keys: seq<bytes>, n: nat, best: nat)
    requires n < |keys| && IsHighest(h, keys, n, best)
    ensures IsHighest(h, keys, n + 1, if CompareKeys(h, keys[n], keys[best]) >= 0 then n else best)
  {
    hide CompareKeys;
    KeysAreOrdered(h, keys[n], keys[best], keys[n]);
    if CompareKeys(h, keys[n], keys[best]) >= 0 {
      forall i | 0 <= i < n
        ensures Before(h, KeyAt(keys), i, n)
      {
        BeforeIsOrder(h, KeyAt(keys), i, best, n);
      }
    }
  }

  // The highest of all keys is the one that sorting puts last.
  lemma {:induction false} HighestIsLast(h: Hash, pairs: seq<Pair>, best: nat)
    requires AllPairsWellFormed(pairs) && IsHighest(h, PairKeys(pairs), |pairs|, best)
    ensures SortedEntries(h, pairs)[|pairs| - 1].value == Encode(h, pairs[best].value)
  {
    OrderSelects(h, PairKeys(pairs));
    LastInOrder(h, PairKeys(pairs), best);
  }

  // The loop of bijson_writer_end_object: it sums up keys and values and keeps the highest
  // key so far, without sorting.
  method ScanObject(h: Hash, spool: bytes, start: nat, ghost pairs: seq<Pair>)
    returns (count: nat, keysSize: nat, valuesSize: nat, lastSize: nat)
    requires AllPairsWellFormed(pairs) && |spool| <= SIZE_MAX
    requires At(spool, start, Concat(SpoolPairs(h, pairs)))
    requires start + |Concat(SpoolPairs(h, pairs))| == |spool|
    ensures count == |pairs|
    ensures keysSize == |Concat(PairKeys(pairs))|
    ensures valuesSize == |Concat(Values(EncodePairs(h, pairs)))|
    ensures pairs != [] ==> lastSize == |SortedEntries(h, pairs)[|pairs| - 1].value|
  {
    hide At, Concat, Spool, SizeValue, ValueEnd, HasHeader, HasKey, SpooledKey, ValuePos;
    hide WellFormed, Encode, CompareKeys, IsHighest, Start;
    ghost var spooled, keys := SpoolPairs(h, pairs), PairKeys(pairs);
    ghost var values := Values(EncodePairs(h, pairs));
    ghost var best := 0;
    StartsGrow(spooled, 0, |pairs|);
    StartOfFirst(spooled);
    StartOfFirst(keys);
    StartOfFirst(values);
    count, keysSize, valuesSize, lastSize := 0, 0, 0, 0;
    var highestKey := [];
    var off := start;
    while off < |spool|
      invariant count <= |pairs|
      invariant off == start + Start(spooled, count)
      invariant keysSize == Start(keys, count) && valuesSize == Start(values, count)
      invariant count > 0 ==> IsHighest(h, keys, count, best) && best < count
      invariant count > 0 ==> highestKey == keys[best] && lastSize == |values[best]|
    {
      PairReads(h, spool, start, pairs, count);
      ConcatAt(keys, count);
      ConcatAt(values, count);
      var key := SpooledKey(spool, off);
      var valueSize := SizeValue(spool, ValuePos(spool, off));
      keysSize := keysSize + |key|;
      valuesSize := valuesSize + valueSize;
      var c := if count == 0 then 0 else CompareKeys(h, key, highestKey);
      if count == 0 {
        FirstIsHighest(h, keys);
      } else {
        HighestStep(h, keys, count, best);
      }
      if c >= 0 {
        highestKey, lastSize := key, valueSize;
        best := count;
      }
      off := ValueEnd(spool, ValuePos(spool, off));
      count := count + 1;
    }
    if count < |pairs| {
      PairReads(h, spool, start, pairs, count);
    }
    StartsGrow(keys, |pairs|, |pairs|);
    StartsGrow(values, |pairs|, |pairs|);
    if pairs != [] {
      HighestIsLast(h, pairs, best);
    }
  }

  lemma {:induction false} FirstIsHighest(h: Hash, keys: seq<bytes>)
    requires keys != []
    ensures IsHighest(h, keys, 1, 0)
  {
  }
}
