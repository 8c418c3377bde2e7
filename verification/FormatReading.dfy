// The file format as README.md of the repository describes it, in any of the widths that it
// allows and not only in those that this writer chooses: the reader reads all of it.
module FormatReading {
  import opened Wrappers
  import opened Bytes
  import opened Storage
  import opened Layout
  import opened Reader
  import opened Codec
  import opened Utf8
  import opened DecimalText

  // The number of bytes that two bits of a type byte stand for.
  function BytesFor(bits: nat): nat
    requires bits < 4
  {
    if bits == 0 then 1 else if bits == 1 then 2 else if bits == 2 then 4 else 8
  }

  // An array whose count and offsets are stored in these widths.
  function ArrayLaid(items: seq<bytes>, countBits: nat, offsetBits: nat): bytes
    requires items != [] && NoneEmpty(items) && countBits < 4 && offsetBits < 4
  {
    [0x30 + countBits + 4 * offsetBits]
    + LittleEndian(|items| - 1, BytesFor(countBits))
    + IntTable(ValueOffsets(items), BytesFor(offsetBits))
    + Concat(items)
  }

  lemma {:induction false} ArrayIsRead(items: seq<bytes>, countBits: nat, offsetBits: nat, i: nat)
    requires items != [] && NoneEmpty(items) && countBits < 4 && offsetBits < 4
    requires |items| - 1 < Pow256(BytesFor(countBits)) && ValueOffset(items, |items| - 1) < Pow256(BytesFor(offsetBits))
    requires |ArrayLaid(items, countBits, offsetBits)| <= SIZE_MAX
    ensures var b := ArrayLaid(items, countBits, offsetBits);
      var r := ArrayIndex(b, i);
      && ArrayAnalyze(b).Ok? && ArrayAnalyze(b).value.count == |items|
      && if i < |items| then r.Ok? && r.value.start + r.value.size <= |b| && Cut(b, r.value) == items[i]
         else r == Err(IndexOutOfRange)
  {
    hide LittleEndian, FromLittleEndian, IntTable, Concat, Span, At, ArrayAnalyze, Pow256, ValueOffset, ReadInt;
    var b, n, cw, w := ArrayLaid(items, countBits, offsetBits), |items|, BytesFor(countBits), BytesFor(offsetBits);
    OffsetsBounded(items, 0);
    ArrayLaidPlaces(items, countBits, offsetBits);
    var a := ArrayAnalysis(n, n - 1, w, |Concat(items)| - n, 1 + cw, 1 + cw + Span(n - 1, w));
    CountReads(b, n - 1, cw);
    ArrayHeadReads(b, a, countBits, offsetBits);
    if i < n {
      ArrayItemReads(b, a, items, i);
    }
  }

  lemma {:induction false} CountReads(b: bytes, v: nat, w: nat)
    requires v < Pow256(w) && At(b, 1, LittleEndian(v, w))
    ensures 1 + w <= |b| && ReadInt(b, 1, w) == v
  {
    LittleEndianHolds(v, w);
  }

  lemma {:induction false} ArrayLaidPlaces(items: seq<bytes>, countBits: nat, offsetBits: nat)
    requires items != [] && NoneEmpty(items) && countBits < 4 && offsetBits < 4
    ensures var b, n, cw, w := ArrayLaid(items, countBits, offsetBits), |items|, BytesFor(countBits), BytesFor(offsetBits);
      && |b| > 1 && b[0] == 0x30 + 4 * offsetBits + countBits
      && At(b, 1, LittleEndian(n - 1, cw))
      && At(b, 1 + cw, IntTable(ValueOffsets(items), w))
      && At(b, 1 + cw + Span(n - 1, w), Concat(items))
      && |b| == 1 + cw + Span(n - 1, w) + |Concat(items)|
  {
    hide At, IntTable, Concat, Span, LittleEndian;
    var b, n, cw, w := ArrayLaid(items, countBits, offsetBits), |items|, BytesFor(countBits), BytesFor(offsetBits);
    var head: bytes := [0x30 + countBits + 4 * offsetBits];
    var count, table := LittleEndian(n - 1, cw), IntTable(ValueOffsets(items), w);
    AtWhole(head, count, table + Concat(items));
    AtWhole(head + count, table, Concat(items));
    AtWhole(head + count + table, Concat(items), []);
    assert b == head + count + (table + Concat(items)) == head + count + table + Concat(items) + [];
    EncodedSize(n - 1, cw);
  }

  lemma {:induction false} EncodedSize(v: nat, w: nat)
    ensures |LittleEndian(v, w)| == w
  {
  }

  // An object whose count, key offsets and value offsets are stored in these widths.
  function ObjectLaid(entries: seq<Entry>, countBits: nat, keyBits: nat, valueBits: nat): bytes
    requires entries != [] && NoneEmpty(Values(entries)) && countBits < 4 && keyBits < 4 && valueBits < 4
  {
    [0x40 + countBits + 4 * keyBits + 16 * valueBits]
    + LittleEndian(|entries| - 1, BytesFor(countBits))
    + IntTable(KeyOffsets(Keys(entries)), BytesFor(keyBits))
    + IntTable(ValueOffsets(Values(entries)), BytesFor(valueBits))
    + Concat(Keys(entries))
    + Concat(Values(entries))
  }

  function LaidParts(entries: seq<Entry>, countBits: nat, keyBits: nat, valueBits: nat): ObjectAnalysis
    requires entries != [] && NoneEmpty(Values(entries)) && countBits < 4 && keyBits < 4 && valueBits < 4
  {
    var keys, values := Keys(entries), Values(entries);
    var n, kw, vw := |entries|, BytesFor(keyBits), BytesFor(valueBits);
    var keyIndex := 1 + BytesFor(countBits);
    var valueIndex := keyIndex + Span(n, kw);
    var keyDataStart := valueIndex + Span(n - 1, vw);
    var valueDataStart := keyDataStart + |Concat(keys)|;
    ObjectAnalysis(n, n - 1, keyIndex, kw, |Concat(keys)|, keyDataStart, valueIndex, vw, valueDataStart, |Concat(values)|)
  }

  lemma {:induction false} ObjectLaidPlaces(entries: seq<Entry>, countBits: nat, keyBits: nat, valueBits: nat)
    requires entries != [] && NoneEmpty(Values(entries)) && countBits < 4 && keyBits < 4 && valueBits < 4
    ensures var b, a := ObjectLaid(entries, countBits, keyBits, valueBits), LaidParts(entries, countBits, keyBits, valueBits);
      && |b| > 1 && b[0] == 0x40 + 16 * valueBits + 4 * keyBits + countBits
      && At(b, 1, LittleEndian(a.count1, BytesFor(countBits)))
      && At(b, a.keyIndex, IntTable(KeyOffsets(Keys(entries)), a.keyIndexItemSize))
      && At(b, a.valueIndex, IntTable(ValueOffsets(Values(entries)), a.valueIndexItemSize))
      && At(b, a.keyDataStart, Concat(Keys(entries)))
      && At(b, a.valueDataStart, Concat(Values(entries)))
      && |b| == a.valueDataStart + a.valueDataSize
  {
    hide At, LittleEndian, IntTable, Concat, Span;
    var b, a := ObjectLaid(entries, countBits, keyBits, valueBits), LaidParts(entries, countBits, keyBits, valueBits);
    var keys, values := Concat(Keys(entries)), Concat(Values(entries));
    var head: bytes := [0x40 + countBits + 4 * keyBits + 16 * valueBits];
    var count := LittleEndian(a.count1, BytesFor(countBits));
    var keyTable := IntTable(KeyOffsets(Keys(entries)), a.keyIndexItemSize);
    var valueTable := IntTable(ValueOffsets(Values(entries)), a.valueIndexItemSize);
    EncodedSize(a.count1, BytesFor(countBits));
    assert b == head + count + keyTable + valueTable + keys + values;
    FiveAfter(head, count, keyTable, valueTable, keys, values);
  }

  lemma {:induction false} ObjectLaidAnalyzes(entries: seq<Entry>, countBits: nat, keyBits: nat, valueBits: nat)
    requires entries != [] && NoneEmpty(Values(entries)) && countBits < 4 && keyBits < 4 && valueBits < 4
    requires |entries| - 1 < Pow256(BytesFor(countBits)) && |Concat(Keys(entries))| < Pow256(BytesFor(keyBits))
    requires |ObjectLaid(entries, countBits, keyBits, valueBits)| <= SIZE_MAX
    ensures ObjectAnalyze(ObjectLaid(entries, countBits, keyBits, valueBits)) == Ok(LaidParts(entries, countBits, keyBits, valueBits))
  {
    hide At, ObjectLaid, IntTable, Concat, LittleEndian, FromLittleEndian, Span, ObjectAnalyze, ReadInt, ReadEntry, Pow256;
    var b, a := ObjectLaid(entries, countBits, keyBits, valueBits), LaidParts(entries, countBits, keyBits, valueBits);
    var keys := Keys(entries);
    ObjectLaidPlaces(entries, countBits, keyBits, valueBits);
    OffsetsBounded(Values(entries), 0);
    CountReads(b, a.count1, BytesFor(countBits));
    StartsGrow(keys, a.count, a.count);
    TableReads(b, a.keyIndex, KeyOffsets(keys), |Concat(keys)|, a.keyIndexItemSize, a.count1);
    ObjectHeadReads(b, a, countBits, keyBits, valueBits);
  }

  lemma {:induction false} ObjectIsRead(entries: seq<Entry>, countBits: nat, keyBits: nat, valueBits: nat, i: nat)
    requires entries != [] && NoneEmpty(Values(entries)) && countBits < 4 && keyBits < 4 && valueBits < 4
    requires |entries| - 1 < Pow256(BytesFor(countBits)) && |Concat(Keys(entries))| < Pow256(BytesFor(keyBits))
    requires ValueOffset(Values(entries), |entries| - 1) < Pow256(BytesFor(valueBits))
    requires |ObjectLaid(entries, countBits, keyBits, valueBits)| <= SIZE_MAX
    requires forall k :: 0 <= k < |entries| ==> ValidUtf8(entries[k].key)
    ensures var b := ObjectLaid(entries, countBits, keyBits, valueBits);
      var r := ObjectIndex(b, i);
      && ObjectAnalyze(b).Ok? && ObjectAnalyze(b).value.count == |entries|
      && if i < |entries| then
           && r.Ok?
           && r.value.key.start + r.value.key.size <= |b| && Cut(b, r.value.key) == entries[i].key
           && r.value.value.start + r.value.value.size <= |b| && Cut(b, r.value.value) == entries[i].value
         else r == Err(IndexOutOfRange)
  {
    hide IntTable, Concat, At, Span, LittleEndian, FromLittleEndian, ObjectAnalyze, ObjectLaid, ObjectKeySlice;
    hide ObjectValueSlice, Pow256, ValueOffset, ValidUtf8;
    ObjectLaidAnalyzes(entries, countBits, keyBits, valueBits);
    ObjectLaidPlaces(entries, countBits, keyBits, valueBits);
    var b, a := ObjectLaid(entries, countBits, keyBits, valueBits), LaidParts(entries, countBits, keyBits, valueBits);
    if i < |entries| {
      ObjectKeyReads(b, a, Keys(entries), i);
      ObjectValueReads(b, a, Values(entries), i);
    }
  }

  // A decimal with the length of its exponent, less one, in a width of its own: bits 0 and 1 of
  // the type say which, bit 2 is the sign of the mantissa and bit 3 that of the exponent.
  lemma {:induction false} DecimalIsRead(bits: nat, negative: bool, down: bool, exponent: bytes, mantissa: bytes)
    requires bits < 4 && 0 < |exponent| <= SIZE_MAX && mantissa != [] && |exponent| - 1 < Pow256(BytesFor(bits))
    ensures var t := 0x20 + bits + (if negative then 4 else 0) + (if down then 8 else 0);
      DecimalAnalyze([t] + LittleEndian(|exponent| - 1, BytesFor(bits)) + exponent + mantissa)
      == Ok(DecimalAnalysis(exponent, mantissa, down, negative))
  {
    hide LittleEndian, FromLittleEndian, Pow256;
    var t := 0x20 + bits + (if negative then 4 else 0) + (if down then 8 else 0);
    var w := BytesFor(bits);
    var length := LittleEndian(|exponent| - 1, w);
    LittleEndianHolds(|exponent| - 1, w);
    EncodedSize(|exponent| - 1, w);
    DecimalBits(bits, negative, down);
    DecimalCut([t] + length + exponent + mantissa, t, length, exponent, mantissa);
  }

  lemma {:induction false} DecimalCut(data: bytes, t: byte, length: bytes, exponent: bytes, mantissa: bytes)
    requires data == [t] + length + exponent + mantissa && |length| == WidthBytes(t % 4)
    requires FromLittleEndian(length) == |exponent| - 1 < SIZE_MAX && mantissa != []
    ensures DecimalAnalyze(data) == Ok(DecimalAnalysis(exponent, mantissa, t / 8 % 2 == 1, t / 4 % 2 == 1))
  {
    hide FromLittleEndian;
    var w := |length|;
    assert data[1..1 + w] == length;
    assert data[1 + w..1 + w + |exponent|] == exponent && data[1 + w + |exponent|..] == mantissa;
  }

  lemma {:induction false} DecimalBits(bits: nat, negative: bool, down: bool)
    requires bits < 4
    ensures var t := 0x20 + bits + (if negative then 4 else 0) + (if down then 8 else 0);
      && t % 4 == bits && (t / 4 % 2 == 1 <==> negative) && (t / 8 % 2 == 1 <==> down)
  {
  }
}
