// Reading back by index what the layouts put down.
module Codec {
  import opened Wrappers
  import opened Bytes
  import opened Storage
  import opened Layout
  import opened Reader
  import opened Utf8

  // An integer is read back where it was put, if the width chosen for it holds it.
  lemma {:induction false} EntryReads(buf: bytes, pos: nat, vals: seq<nat>, w: nat, k: nat)
    requires k < |vals| && At(buf, pos, IntTable(vals, w))
    ensures pos + Span(|vals|, w) <= |buf|
    ensures ReadEntry(buf, pos, w, |vals|, k) == FromLittleEndian(LittleEndian(vals[k], w))
  {
    hide LittleEndian, FromLittleEndian, IntTable, Span;
    var table, s, entry := IntTable(vals, w), Span(k, w), LittleEndian(vals[k], w);
    assert At(table, s, entry) by {
      IntTableAt(vals, w, k);
    }
    AtInside(buf, pos, table, s, entry);
    SpanInside(k, |vals|, w);
    assert ReadEntry(buf, pos, w, |vals|, k) == ReadInt(buf, pos + s, w);
  }

  lemma {:induction false} AtInside(buf: bytes, pos: nat, outer: bytes, s: nat, inner: bytes)
    requires At(buf, pos, outer) && At(outer, s, inner)
    ensures At(buf, pos + s, inner)
  {
    forall i | 0 <= i < |inner|
      ensures buf[pos + s..pos + s + |inner|][i] == inner[i]
    {
      assert outer[s + i] == outer[s..s + |inner|][i] == inner[i];
      assert buf[pos + (s + i)] == buf[pos..pos + |outer|][s + i];
    }
  }

  // In any width that holds the largest of them.
  lemma {:induction false} TableReads(buf: bytes, pos: nat, vals: seq<nat>, max: nat, w: nat, k: nat)
    requires k < |vals| && vals[k] <= max < Pow256(w)
    requires At(buf, pos, IntTable(vals, w))
    ensures pos + Span(|vals|, w) <= |buf|
    ensures ReadEntry(buf, pos, w, |vals|, k) == vals[k]
  {
    EntryReads(buf, pos, vals, w, k);
    LittleEndianHolds(vals[k], w);
  }

  lemma {:induction false} WidthSuffices(max: nat)
    requires max <= SIZE_MAX
    ensures max < Pow256(Width(max))
  {
    StorageSizeIsLeast(max, StorageSize(max));
  }

  lemma {:induction false} IntReads(buf: bytes, pos: nat, v: nat)
    requires v <= SIZE_MAX && At(buf, pos, LittleEndian(v, Width(v)))
    ensures ReadInt(buf, pos, Width(v)) == v
  {
    WidthHolds(v, v);
  }

  lemma {:induction false} ConcatReads(buf: bytes, pos: nat, ss: seq<bytes>, k: nat)
    requires k < |ss| && At(buf, pos, Concat(ss))
    ensures pos + Start(ss, k) + |ss[k]| <= |buf|
    ensures Cut(buf, Slice(pos + Start(ss, k), |ss[k]|)) == ss[k]
  {
    ConcatAt(ss, k);
    AtInside(buf, pos, Concat(ss), Start(ss, k), ss[k]);
  }

  lemma {:induction false} OffsetsBounded(values: seq<bytes>, k: nat)
    requires NoneEmpty(values) && k < |values|
    ensures ValueOffset(values, k) <= ValueOffset(values, |values| - 1) <= |Concat(values)| - |values|
    ensures ValueOffset(values, k + 1) + 1 == ValueOffset(values, k) + |values[k]|
    ensures ValueOffset(values, |values|) == |Concat(values)| - |values|
    ensures ValueOffset(values, k) == Start(values, k) - k
  {
    StartsGrow(values, k, |values| - 1);
    StartsGrow(values, |values| - 1, |values|);
    ConcatAt(values, k);
  }

  // ---------- Arrays ----------

  function ArrayParts(items: seq<bytes>): (a: ArrayAnalysis)
    requires items != [] && NoneEmpty(items)
  {
    var n, w := |items|, WidthBytes(ValueOffsetsWidth(items));
    var itemIndex := 1 + Width(n - 1);
    OffsetsBounded(items, 0);
    ArrayAnalysis(n, n - 1, w, |Concat(items)| - n, itemIndex, itemIndex + Span(n - 1, w))
  }

  lemma {:induction false} ArrayPlaces(items: seq<bytes>)
    requires items != [] && NoneEmpty(items)
    ensures var b, a := ArrayBytes(items), ArrayParts(items);
      && b[0] == 0x30 + 4 * ValueOffsetsWidth(items) + StorageSize(a.count1)
      && At(b, 1, LittleEndian(a.count1, Width(a.count1)))
      && At(b, a.itemIndex, IntTable(ValueOffsets(items), a.indexItemSize))
      && At(b, a.itemDataStart, Concat(items))
      && |b| == a.itemDataStart + |Concat(items)|
  {
    hide At, LittleEndian, IntTable, Concat, Span;
    var b, a := ArrayBytes(items), ArrayParts(items);
    var head := [0x30 + 4 * ValueOffsetsWidth(items) + StorageSize(a.count1)];
    var count := LittleEndian(a.count1, Width(a.count1));
    var table := IntTable(ValueOffsets(items), a.indexItemSize);
    assert b == head + count + table + Concat(items);
    ThreeAfter(head, count, table, Concat(items));
  }

  lemma {:induction false} ThreeAfter(a: bytes, b: bytes, c: bytes, d: bytes)
    ensures var all := a + b + c + d;
      At(all, |a|, b) && At(all, |a| + |b|, c) && At(all, |a| + |b| + |c|, d)
  {
    FiveAfter(a, b, c, d, [], []);
    assert a + b + c + d + [] + [] == a + b + c + d;
  }

  // The type byte packs two-bit widths that the readers mask out again.
  lemma {:induction false} TypeBits(low: nat, mid: nat, high: nat)
    requires low < 4 && mid < 4 && high < 4
    ensures var t := 0x40 + 16 * high + 4 * mid + low;
      t / 64 == 1 && t % 4 == low && (t / 4) % 4 == mid && (t / 16) % 4 == high
    ensures var t := 0x30 + 4 * mid + low;
      t / 16 == 3 && t % 4 == low && (t / 4) % 4 == mid
  {
  }

  // The count and the offset width are read as they were written.
  lemma {:induction false} ArrayHeadReads(b: bytes, a: ArrayAnalysis, countWidth: nat, itemWidth: nat)
    requires countWidth < 4 && itemWidth < 4
    requires |b| > 1 && b[0] == 0x30 + 4 * itemWidth + countWidth
    requires 1 + WidthBytes(countWidth) == a.itemIndex <= |b|
    requires ReadInt(b, 1, WidthBytes(countWidth)) == a.count1 < SIZE_MAX
    requires a.indexItemSize == WidthBytes(itemWidth)
    requires ArrayFits(b, a) && a.count > 0
    ensures ArrayAnalyze(b) == Ok(a)
  {
    hide ReadInt, Span;
    TypeBits(countWidth, itemWidth, 0);
    assert ArrayAnalyzeCount(b) == Ok((a.count, a.itemIndex));
    SpanOfZero(a.count);
    CountFits(a.count, |b| - a.itemIndex, 0, a.indexItemSize);
  }

  lemma {:induction false} ArrayAnalyzes(items: seq<bytes>)
    requires items != [] && NoneEmpty(items) && |ArrayBytes(items)| <= SIZE_MAX
    ensures ArrayAnalyze(ArrayBytes(items)) == Ok(ArrayParts(items))
  {
    hide At, ArrayBytes, IntTable, Concat, LittleEndian, FromLittleEndian, Span, ArrayAnalyze, ReadInt;
    var b, a := ArrayBytes(items), ArrayParts(items);
    ArrayPlaces(items);
    OffsetsBounded(items, 0);
    IntReads(b, 1, a.count1);
    ArrayHeadReads(b, a, StorageSize(a.count1), ValueOffsetsWidth(items));
  }

  // Item i is read back from wherever the offsets and the items have been laid down.
  lemma {:induction false} ArrayItemReads(b: bytes, a: ArrayAnalysis, items: seq<bytes>, i: nat)
    requires i < |items| && NoneEmpty(items) && |Concat(items)| <= SIZE_MAX
    requires ArrayFits(b, a) && a.count == |items| && ValueOffset(items, |items| - 1) < Pow256(a.indexItemSize)
    requires At(b, a.itemIndex, IntTable(ValueOffsets(items), a.indexItemSize))
    requires At(b, a.itemDataStart, Concat(items)) && |b| == a.itemDataStart + |Concat(items)|
    ensures var r := ArrayGetIndex(b, a, i); r.Ok? && Cut(b, r.value) == items[i]
  {
    hide At, IntTable, Concat, Span, ReadEntry, ValueOffset, Start;
    var offsets, max := ValueOffsets(items), ValueOffset(items, |items| - 1);
    OffsetsBounded(items, i);
    if i > 0 {
      OffsetsBounded(items, i - 1);
      TableReads(b, a.itemIndex, offsets, max, a.indexItemSize, i - 1);
    } else {
      StartOfFirst(items);
    }
    if i < a.count1 {
      OffsetsBounded(items, i + 1);
      TableReads(b, a.itemIndex, offsets, max, a.indexItemSize, i);
    }
    ConcatReads(b, a.itemDataStart, items, i);
  }

  // Every index reads back its item, and no other index reads anything.
  lemma {:induction false} ArrayRoundTrip(items: seq<bytes>, i: nat)
    requires NoneEmpty(items) && |ArrayBytes(items)| <= SIZE_MAX
    ensures ArrayAnalyze(ArrayBytes(items)).Ok? && ArrayAnalyze(ArrayBytes(items)).value.count == |items|
    ensures var b := ArrayBytes(items);
      var r := ArrayIndex(b, i);
      if i < |items| then r.Ok? && r.value.start + r.value.size <= |b| && Cut(b, r.value) == items[i]
      else r == Err(IndexOutOfRange)
  {
    hide IntTable, Concat, At, Span, LittleEndian, FromLittleEndian;
    if items == [] {
      assert ArrayAnalyzeCount([0x30]) == Ok((0, 0));
    } else {
      hide ArrayAnalyze, ArrayBytes;
      ArrayAnalyzes(items);
      if i < |items| {
        ArrayPlaces(items);
        OffsetsBounded(items, |items| - 1);
        WidthSuffices(ValueOffset(items, |items| - 1));
        ArrayItemReads(ArrayBytes(items), ArrayParts(items), items, i);
      }
    }
  }

  // ---------- Objects ----------

  function ObjectParts(entries: seq<Entry>): (a: ObjectAnalysis)
    requires entries != [] && NoneEmpty(Values(entries))
  {
    var keys, values := Keys(entries), Values(entries);
    var n, kw, vw := |entries|, Width(|Concat(keys)|), WidthBytes(ValueOffsetsWidth(values));
    var keyIndex := 1 + Width(n - 1);
    var valueIndex := keyIndex + Span(n, kw);
    var keyDataStart := valueIndex + Span(n - 1, vw);
    var valueDataStart := keyDataStart + |Concat(keys)|;
    ObjectAnalysis(n, n - 1, keyIndex, kw, |Concat(keys)|, keyDataStart,
                   valueIndex, vw, valueDataStart, |Concat(values)|)
  }

  lemma {:induction false} ObjectPlaces(entries: seq<Entry>)
    requires entries != [] && NoneEmpty(Values(entries))
    ensures var b, a := ObjectBytes(entries), ObjectParts(entries);
      && b[0] == 0x40 + 16 * ValueOffsetsWidth(Values(entries))
                 + 4 * StorageSize(a.lastKeyEndOffset) + StorageSize(a.count1)
      && At(b, 1, LittleEndian(a.count1, Width(a.count1)))
      && At(b, a.keyIndex, IntTable(KeyOffsets(Keys(entries)), a.keyIndexItemSize))
      && At(b, a.valueIndex, IntTable(ValueOffsets(Values(entries)), a.valueIndexItemSize))
      && At(b, a.keyDataStart, Concat(Keys(entries)))
      && At(b, a.valueDataStart, Concat(Values(entries)))
      && |b| == a.valueDataStart + a.valueDataSize
  {
    hide At, LittleEndian, IntTable, Concat, Span;
    var b, a := ObjectBytes(entries), ObjectParts(entries);
    var keys, values := Concat(Keys(entries)), Concat(Values(entries));
    var head := [0x40 + 16 * ValueOffsetsWidth(Values(entries))
                 + 4 * StorageSize(a.lastKeyEndOffset) + StorageSize(a.count1)];
    var count := LittleEndian(a.count1, Width(a.count1));
    var keyTable := IntTable(KeyOffsets(Keys(entries)), a.keyIndexItemSize);
    var valueTable := IntTable(ValueOffsets(Values(entries)), a.valueIndexItemSize);
    assert b == head + count + keyTable + valueTable + keys + values;
    FiveAfter(head, count, keyTable, valueTable, keys, values);
  }

  lemma {:induction false} FiveAfter(a: bytes, b: bytes, c: bytes, d: bytes, e: bytes, f: bytes)
    ensures var all := a + b + c + d + e + f;
      && At(all, |a|, b)
      && At(all, |a| + |b|, c)
      && At(all, |a| + |b| + |c|, d)
      && At(all, |a| + |b| + |c| + |d|, e)
      && At(all, |a| + |b| + |c| + |d| + |e|, f)
  {
  }

  lemma {:induction false} ObjectHeadReads(b: bytes, a: ObjectAnalysis, countWidth: nat, keyWidth: nat, valueWidth: nat)
    requires countWidth < 4 && keyWidth < 4 && valueWidth < 4
    requires |b| > 1 && b[0] == 0x40 + 16 * valueWidth + 4 * keyWidth + countWidth
    requires 1 + WidthBytes(countWidth) == a.keyIndex <= |b|
    requires ReadInt(b, 1, WidthBytes(countWidth)) == a.count1 < SIZE_MAX
    requires a.keyIndexItemSize == WidthBytes(keyWidth) && a.valueIndexItemSize == WidthBytes(valueWidth)
    requires ObjectFits(b, a) && a.count > 0
    requires a.keyIndex + Span(a.count, a.keyIndexItemSize) <= |b|
    requires ReadEntry(b, a.keyIndex, a.keyIndexItemSize, a.count, a.count1) == a.lastKeyEndOffset <= SIZE_MAX
    ensures ObjectAnalyze(b) == Ok(a)
  {
    hide ReadInt, ReadEntry, Span;
    TypeBits(countWidth, keyWidth, valueWidth);
    assert ObjectAnalyzeCount(b) == Ok((a.count, a.keyIndex));
    CountFits(a.count, |b| - a.keyIndex, a.keyIndexItemSize, a.valueIndexItemSize);
  }

  lemma {:induction false} ObjectAnalyzes(entries: seq<Entry>)
    requires entries != [] && NoneEmpty(Values(entries)) && |ObjectBytes(entries)| <= SIZE_MAX
    ensures ObjectAnalyze(ObjectBytes(entries)) == Ok(ObjectParts(entries))
  {
    hide At, ObjectBytes, IntTable, Concat, LittleEndian, FromLittleEndian, Span, ObjectAnalyze, ReadInt, ReadEntry;
    var b, a := ObjectBytes(entries), ObjectParts(entries);
    var keys := Keys(entries);
    ObjectPlaces(entries);
    OffsetsBounded(Values(entries), 0);
    IntReads(b, 1, a.count1);
    StartsGrow(keys, a.count, a.count);
    WidthSuffices(|Concat(keys)|);
    TableReads(b, a.keyIndex, KeyOffsets(keys), |Concat(keys)|, a.keyIndexItemSize, a.count1);
    ObjectHeadReads(b, a, StorageSize(a.count1), StorageSize(a.lastKeyEndOffset), ValueOffsetsWidth(Values(entries)));
  }

  lemma {:induction false} ObjectKeyReads(b: bytes, a: ObjectAnalysis, keys: seq<bytes>, i: nat)
    requires i < |keys| && |Concat(keys)| == a.lastKeyEndOffset <= SIZE_MAX
    requires ObjectFits(b, a) && a.count == |keys| && a.lastKeyEndOffset < Pow256(a.keyIndexItemSize)
    requires At(b, a.keyIndex, IntTable(KeyOffsets(keys), a.keyIndexItemSize))
    requires At(b, a.keyDataStart, Concat(keys))
    ensures var r := ObjectKeySlice(b, a, i); r.Ok? && Cut(b, r.value) == keys[i]
  {
    hide At, IntTable, Concat, Span, ReadEntry, Start;
    StartsGrow(keys, i, |keys|);
    StartsGrow(keys, i + 1, |keys|);
    if i > 0 {
      TableReads(b, a.keyIndex, KeyOffsets(keys), a.lastKeyEndOffset, a.keyIndexItemSize, i - 1);
    } else {
      StartOfFirst(keys);
    }
    if i < a.count1 {
      TableReads(b, a.keyIndex, KeyOffsets(keys), a.lastKeyEndOffset, a.keyIndexItemSize, i);
    }
    ConcatAt(keys, i);
    ConcatReads(b, a.keyDataStart, keys, i);
  }

  lemma {:induction false} ObjectValueReads(b: bytes, a: ObjectAnalysis, values: seq<bytes>, i: nat)
    requires i < |values| && NoneEmpty(values) && |Concat(values)| == a.valueDataSize <= SIZE_MAX
    requires ObjectFits(b, a) && a.count == |values| && ValueOffset(values, |values| - 1) < Pow256(a.valueIndexItemSize)
    requires At(b, a.valueIndex, IntTable(ValueOffsets(values), a.valueIndexItemSize))
    requires At(b, a.valueDataStart, Concat(values))
    ensures var r := ObjectValueSlice(b, a, i); r.Ok? && Cut(b, r.value) == values[i]
  {
    hide At, IntTable, Concat, Span, ReadEntry, ValueOffset, Start;
    var offsets, max := ValueOffsets(values), ValueOffset(values, |values| - 1);
    OffsetsBounded(values, i);
    if i > 0 {
      OffsetsBounded(values, i - 1);
      TableReads(b, a.valueIndex, offsets, max, a.valueIndexItemSize, i - 1);
    } else {
      StartOfFirst(values);
    }
    if i < a.count1 {
      OffsetsBounded(values, i + 1);
      TableReads(b, a.valueIndex, offsets, max, a.valueIndexItemSize, i);
    }
    ConcatReads(b, a.valueDataStart, values, i);
  }

  lemma {:induction false} ObjectWidths(entries: seq<Entry>)
    requires entries != [] && NoneEmpty(Values(entries)) && |ObjectBytes(entries)| <= SIZE_MAX
    ensures var a, values := ObjectParts(entries), Values(entries);
      && a.lastKeyEndOffset < Pow256(a.keyIndexItemSize)
      && ValueOffset(values, |values| - 1) < Pow256(a.valueIndexItemSize)
      && a.valueDataSize <= SIZE_MAX && a.lastKeyEndOffset <= SIZE_MAX
  {
    hide At, LittleEndian, IntTable, Concat, Span, ObjectBytes, ValueOffset;
    ObjectPlaces(entries);
    OffsetsBounded(Values(entries), |entries| - 1);
    WidthSuffices(|Concat(Keys(entries))|);
    WidthSuffices(ValueOffset(Values(entries), |entries| - 1));
  }

  // Every index reads back its key and value; no other index reads anything. The reader
  // checks the keys it returns, so they must be valid UTF-8.
  lemma {:induction false} ObjectRoundTrip(entries: seq<Entry>, i: nat)
    requires NoneEmpty(Values(entries)) && |ObjectBytes(entries)| <= SIZE_MAX
    requires forall k :: 0 <= k < |entries| ==> ValidUtf8(entries[k].key)
    ensures ObjectAnalyze(ObjectBytes(entries)).Ok? && ObjectAnalyze(ObjectBytes(entries)).value.count == |entries|
    ensures var b := ObjectBytes(entries);
      var r := ObjectIndex(b, i);
      if i < |entries| then
        && r.Ok?
        && r.value.key.start + r.value.key.size <= |b| && Cut(b, r.value.key) == entries[i].key
        && r.value.value.start + r.value.value.size <= |b| && Cut(b, r.value.value) == entries[i].value
      else r == Err(IndexOutOfRange)
  {
    hide IntTable, Concat, At, Span, LittleEndian, FromLittleEndian;
    if entries == [] {
      assert ObjectAnalyzeCount([0x40]) == Ok((0, 0));
    } else {
      hide ObjectAnalyze, ObjectBytes, ObjectKeySlice, ObjectValueSlice, Pow256, ValueOffset;
      ObjectAnalyzes(entries);
      if i < |entries| {
        ObjectPlaces(entries);
        ObjectWidths(entries);
        ObjectKeyReads(ObjectBytes(entries), ObjectParts(entries), Keys(entries), i);
        ObjectValueReads(ObjectBytes(entries), ObjectParts(entries), Values(entries), i);
      }
    }
  }
}
