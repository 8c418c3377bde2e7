// Random access into arrays and objects (lib/reader/array.c, lib/reader/object.c,
// lib/reader/object/index.c). Pointers into the buffer are positions in it.
module Reader {
  import opened Wrappers
  import opened Arithmetic
  import opened Bytes
  import opened Storage
  import opened Layout
  import opened Utf8

  // A value found inside a buffer: the C code's (pointer, size) pair.
  datatype Slice = Slice(start: nat, size: nat)

  ghost predicate Inside(slice: Slice, lo: nat, hi: nat) {
    lo <= slice.start && slice.start + slice.size <= hi
  }

  function Cut(buf: bytes, slice: Slice): (b: bytes)
    requires slice.start + slice.size <= |buf|
    ensures |b| == slice.size
  {
    buf[slice.start..slice.start + slice.size]
  }

  function ReadInt(buf: bytes, pos: nat, width: nat): nat
    requires pos + width <= |buf|
  {
    FromLittleEndian(buf[pos..pos + width])
  }

  // ---------- Arrays ----------

  // When count is zero the C code leaves the other fields unset.
  datatype ArrayAnalysis = ArrayAnalysis(
    count: nat,
    count1: nat,
    indexItemSize: nat,
    highestValidOffset: nat,
    itemIndex: nat,
    itemDataStart: nat)

  // What a successful analysis guarantees: the index and one byte for each item fit.
  ghost predicate ArrayFits(buf: bytes, a: ArrayAnalysis) {
    a.count > 0 ==>
      && a.count == a.count1 + 1
      && a.itemIndex > 0 && a.indexItemSize > 0
      && a.itemDataStart == a.itemIndex + Span(a.count1, a.indexItemSize)
      && a.itemDataStart + a.count + a.highestValidOffset == |buf|
  }

  // _bijson_array_analyze_count: the count and the position after it.
  function ArrayAnalyzeCount(buf: bytes): (r: Result<(nat, nat)>)
    ensures r.Ok? && r.value.0 > 0 ==> 0 < r.value.1 <= |buf|
  {
    if buf == [] then Err(ParameterIsZero)
    else if buf[0] / 16 != 3 then Err(TypeMismatch)
    else if |buf| == 1 then Ok((0, 0))
    else
      var countSize := WidthBytes(buf[0] % 4);
      if 1 + countSize > |buf| then Err(FileFormatError)
      else
        var rawCount := ReadInt(buf, 1, countSize);
        if rawCount > SIZE_MAX - 1 then Err(FileFormatError)
        else Ok((rawCount + 1, 1 + countSize))
  }

  // The format check of both analyze functions, in terms of what it protects: n entries of
  // the first table, n - 1 of the second, and one byte for each item.
  lemma {:induction false} CountFits(count: nat, size: nat, a: nat, b: nat)
    requires count > 0
    ensures count <= (size + b) / (a + b + 1) <==> Span(count, a) + Span(count - 1, b) + count <= size
  {
    SpanIsProduct(count, a);
    SpanIsProduct(count - 1, b);
    DivAtLeast(count, size + b, a + b + 1);
    Distribute3(count, a, b);
  }

  lemma {:induction false} Distribute3(count: nat, a: nat, b: nat)
    requires count > 0
    ensures (a + b + 1) * count == count * a + (count - 1) * b + b + count
  {
  }

  lemma {:induction false} DivAtLeast(q: nat, n: nat, d: nat)
    requires d > 0
    ensures q <= n / d <==> d * q <= n
  {
    var r := n / d;
    assert d * r <= n < d * r + d == d * (r + 1);
    if q <= r { Multiples(d, q, r); } else { Multiples(d, r + 1, q); }
  }

  lemma {:induction false} SpanOfZero(n: nat)
    ensures Span(n, 0) == 0
  {
    SpanIsProduct(n, 0);
  }

  // _bijson_array_analyze
  function ArrayAnalyze(buf: bytes): (r: Result<ArrayAnalysis>)
    ensures r.Ok? ==> ArrayFits(buf, r.value)
  {
    var (count, itemIndex) :- ArrayAnalyzeCount(buf);
    if count == 0 then Ok(ArrayAnalysis(0, 0, 0, 0, 0, 0))
    else
      var indexAndDataSize := |buf| - itemIndex;
      var indexItemSize := WidthBytes((buf[0] / 4) % 4);
      if count > (indexAndDataSize + indexItemSize) / (indexItemSize + 1) then Err(FileFormatError)
      else
        SpanOfZero(count);
        CountFits(count, indexAndDataSize, 0, indexItemSize);
        var itemDataStart := itemIndex + Span(count - 1, indexItemSize);
        var itemDataSize := |buf| - itemDataStart;
        Ok(ArrayAnalysis(count, count - 1, indexItemSize, itemDataSize - count, itemIndex, itemDataStart))
  }

  // Entry k of a table of n integers, each w bytes wide, that starts at position table.
  function ReadEntry(buf: bytes, table: nat, w: nat, n: nat, k: nat): nat
    requires k < n && table + Span(n, w) <= |buf|
  {
    SpanInside(k, n, w);
    ReadInt(buf, table + Span(k, w), w)
  }

  // _bijson_analyzed_array_get_index
  function ArrayGetIndex(buf: bytes, a: ArrayAnalysis, index: nat): (r: Result<Slice>)
    requires ArrayFits(buf, a)
    ensures r.Ok? ==> index < a.count && r.value.size > 0 && Inside(r.value, a.itemDataStart, |buf|)
  {
    if index >= a.count then Err(IndexOutOfRange)
    else
      var rawStart :=
        if index == 0 then 0 else ReadEntry(buf, a.itemIndex, a.indexItemSize, a.count1, index - 1);
      if rawStart > SIZE_MAX then Err(FileFormatError)
      else if rawStart > a.highestValidOffset then Err(FileFormatError)
      else
        var start := rawStart + index;
        var rawEnd :=
          if index == a.count1 then a.highestValidOffset else ReadEntry(buf, a.itemIndex, a.indexItemSize, a.count1, index);
        if rawEnd > SIZE_MAX then Err(FileFormatError)
        else if rawEnd > a.highestValidOffset then Err(FileFormatError)
        else
          var end := rawEnd + index + 1;
          if start >= end then Err(FileFormatError)
          else Ok(Slice(a.itemDataStart + start, end - start))
  }

  // bijson_array_get_index
  function ArrayIndex(buf: bytes, index: nat): Result<Slice> {
    var a :- ArrayAnalyze(buf);
    ArrayGetIndex(buf, a, index)
  }

  // ---------- Objects ----------

  datatype ObjectAnalysis = ObjectAnalysis(
    count: nat,
    count1: nat,
    keyIndex: nat,
    keyIndexItemSize: nat,
    lastKeyEndOffset: nat,
    keyDataStart: nat,
    valueIndex: nat,
    valueIndexItemSize: nat,
    valueDataStart: nat,
    valueDataSize: nat)

  ghost predicate ObjectFits(buf: bytes, a: ObjectAnalysis) {
    a.count > 0 ==>
      && a.count == a.count1 + 1
      && a.keyIndex > 0 && a.keyIndexItemSize > 0 && a.valueIndexItemSize > 0
      && a.valueIndex == a.keyIndex + Span(a.count, a.keyIndexItemSize)
      && a.keyDataStart == a.valueIndex + Span(a.count1, a.valueIndexItemSize)
      && a.valueDataStart == a.keyDataStart + a.lastKeyEndOffset
      && a.valueDataStart + a.valueDataSize == |buf|
      && a.count <= a.valueDataSize
  }

  // _bijson_object_analyze_count
  function ObjectAnalyzeCount(buf: bytes): (r: Result<(nat, nat)>)
    ensures r.Ok? && r.value.0 > 0 ==> 0 < r.value.1 <= |buf|
  {
    if buf == [] then Err(ParameterIsZero)
    else if buf[0] / 64 != 1 then Err(TypeMismatch)
    else if |buf| == 1 then Ok((0, 0))
    else
      var countSize := WidthBytes(buf[0] % 4);
      if 1 + countSize > |buf| then Err(FileFormatError)
      else
        var rawCount := ReadInt(buf, 1, countSize);
        if rawCount > SIZE_MAX - 1 then Err(FileFormatError)
        else Ok((rawCount + 1, 1 + countSize))
  }

  // _bijson_object_analyze
  function ObjectAnalyze(buf: bytes): (r: Result<ObjectAnalysis>)
    ensures r.Ok? ==> ObjectFits(buf, r.value)
  {
    var (count, keyIndex) :- ObjectAnalyzeCount(buf);
    if count == 0 then Ok(ObjectAnalysis(0, 0, 0, 0, 0, 0, 0, 0, 0, 0))
    else
      var indexAndDataSize := |buf| - keyIndex;
      var keySize := WidthBytes((buf[0] / 4) % 4);
      var valueSize := WidthBytes((buf[0] / 16) % 4);
      if count > (indexAndDataSize + valueSize) / (keySize + valueSize + 1) then Err(FileFormatError)
      else
        CountFits(count, indexAndDataSize, keySize, valueSize);
        var valueIndex := keyIndex + Span(count, keySize);
        var keyDataStart := valueIndex + Span(count - 1, valueSize);
        var lastKeyEnd := ReadEntry(buf, keyIndex, keySize, count, count - 1);
        if lastKeyEnd > SIZE_MAX then Err(FileFormatError)
        else if lastKeyEnd > |buf| - keyDataStart - count then Err(FileFormatError)
        else
          var valueDataStart := keyDataStart + lastKeyEnd;
          Ok(ObjectAnalysis(count, count - 1, keyIndex, keySize, lastKeyEnd, keyDataStart,
                            valueIndex, valueSize, valueDataStart, |buf| - valueDataStart))
  }

  datatype Member = Member(key: Slice, value: Slice)

  // The key part of _bijson_analyzed_object_get_index, before the UTF-8 check.
  function ObjectKeySlice(buf: bytes, a: ObjectAnalysis, index: nat): (r: Result<Slice>)
    requires ObjectFits(buf, a) && index < a.count
    ensures r.Ok? ==> Inside(r.value, a.keyDataStart, a.valueDataStart)
  {
    var rawStart :=
      if index == 0 then 0 else ReadEntry(buf, a.keyIndex, a.keyIndexItemSize, a.count, index - 1);
    if rawStart > SIZE_MAX then Err(FileFormatError)
    else if rawStart > a.lastKeyEndOffset then Err(FileFormatError)
    else
      var rawEnd :=
        if index == a.count1 then a.lastKeyEndOffset else ReadEntry(buf, a.keyIndex, a.keyIndexItemSize, a.count, index);
      if rawEnd > SIZE_MAX then Err(FileFormatError)
      else if rawEnd > a.lastKeyEndOffset then Err(FileFormatError)
      else if rawStart > rawEnd then Err(FileFormatError)
      else Ok(Slice(a.keyDataStart + rawStart, rawEnd - rawStart))
  }

  // The value part of _bijson_analyzed_object_get_index.
  function ObjectValueSlice(buf: bytes, a: ObjectAnalysis, index: nat): (r: Result<Slice>)
    requires ObjectFits(buf, a) && index < a.count
    ensures r.Ok? ==> r.value.size > 0 && Inside(r.value, a.valueDataStart, |buf|)
  {
    var highest := a.valueDataSize - a.count;
    var rawStart :=
      if index == 0 then 0 else ReadEntry(buf, a.valueIndex, a.valueIndexItemSize, a.count1, index - 1);
    if rawStart > SIZE_MAX then Err(FileFormatError)
    else if rawStart > highest then Err(FileFormatError)
    else
      var start := rawStart + index;
      var rawEnd :=
        if index == a.count1 then highest else ReadEntry(buf, a.valueIndex, a.valueIndexItemSize, a.count1, index);
      if rawEnd > SIZE_MAX then Err(FileFormatError)
      else if rawEnd > highest then Err(FileFormatError)
      else
        var end := if index == a.count1 then a.valueDataSize else rawEnd + index + 1;
        if start >= end then Err(FileFormatError)
        else Ok(Slice(a.valueDataStart + start, end - start))
  }

  // _bijson_analyzed_object_get_index
  function ObjectGetIndex(buf: bytes, a: ObjectAnalysis, index: nat): (r: Result<Member>)
    requires ObjectFits(buf, a)
    ensures r.Ok? ==>
      && index < a.count && r.value.value.size > 0
      && Inside(r.value.key, a.keyDataStart, a.valueDataStart)
      && Inside(r.value.value, a.valueDataStart, |buf|)
      && ValidUtf8(Cut(buf, r.value.key))
  {
    if index >= a.count then Err(IndexOutOfRange)
    else
      var key :- ObjectKeySlice(buf, a, index);
      var value :- ObjectValueSlice(buf, a, index);
      if !ValidUtf8(Cut(buf, key)) then Err(FileFormatError)
      else Ok(Member(key, value))
  }

  // bijson_object_get_index
  function ObjectIndex(buf: bytes, index: nat): Result<Member> {
    var a :- ObjectAnalyze(buf);
    ObjectGetIndex(buf, a, index)
  }

  // ---------- Any buffer: what can be read tiles the data regions ----------

  function Cuts(buf: bytes, slices: seq<Slice>): (items: seq<bytes>)
    requires forall i :: 0 <= i < |slices| ==> slices[i].start + slices[i].size <= |buf|
    ensures |items| == |slices|
  {
    seq(|slices|, i requires 0 <= i < |slices| => Cut(buf, slices[i]))
  }

  // The slices lie one after the other, from lo to hi.
  ghost predicate Tiles(slices: seq<Slice>, lo: nat, hi: nat) {
    && slices != []
    && slices[0].start == lo
    && slices[|slices| - 1].start + slices[|slices| - 1].size == hi
    && forall i :: 0 <= i < |slices| - 1 ==> slices[i].start + slices[i].size == slices[i + 1].start
  }

  lemma {:induction false} TilesCover(buf: bytes, slices: seq<Slice>, lo: nat, hi: nat)
    requires Tiles(slices, lo, hi)
    requires forall i :: 0 <= i < |slices| ==> slices[i].start + slices[i].size <= |buf|
    ensures lo <= hi <= |buf| && Concat(Cuts(buf, slices)) == buf[lo..hi]
  {
    var first := Cut(buf, slices[0]);
    assert Cuts(buf, slices) == [first] + Cuts(buf, slices[1..]);
    if |slices| > 1 {
      assert slices[0].start + slices[0].size == slices[1].start;
      TilesCover(buf, slices[1..], slices[1].start, hi);
    }
  }

  ghost predicate ArrayReadable(buf: bytes, a: ArrayAnalysis)
    requires ArrayFits(buf, a)
  {
    forall i :: 0 <= i < a.count ==> ArrayGetIndex(buf, a, i).Ok?
  }

  ghost function ArraySlices(buf: bytes, a: ArrayAnalysis): (slices: seq<Slice>)
    requires ArrayFits(buf, a) && ArrayReadable(buf, a)
    ensures |slices| == a.count
    ensures forall i :: 0 <= i < a.count ==> ArrayGetIndex(buf, a, i) == Ok(slices[i])
  {
    seq(a.count, i requires 0 <= i < a.count => ArrayGetIndex(buf, a, i).value)
  }

  // For any accepted buffer, well formed or not: the items that index reads return lie one
  // after the other and cover the data region exactly.
  lemma {:induction false} ArrayPartition(buf: bytes, a: ArrayAnalysis)
    requires ArrayFits(buf, a) && ArrayReadable(buf, a) && a.count > 0
    ensures Tiles(ArraySlices(buf, a), a.itemDataStart, |buf|)
    ensures Concat(Cuts(buf, ArraySlices(buf, a))) == buf[a.itemDataStart..]
  {
    var slices := ArraySlices(buf, a);
    forall i | 0 <= i < a.count - 1
      ensures slices[i].start + slices[i].size == slices[i + 1].start
    {
      assert ArrayGetIndex(buf, a, i) == Ok(slices[i]) && ArrayGetIndex(buf, a, i + 1) == Ok(slices[i + 1]);
    }
    TilesCover(buf, slices, a.itemDataStart, |buf|);
  }

  ghost predicate ObjectReadable(buf: bytes, a: ObjectAnalysis)
    requires ObjectFits(buf, a)
  {
    forall i :: 0 <= i < a.count ==> ObjectGetIndex(buf, a, i).Ok?
  }

  ghost function KeySlices(buf: bytes, a: ObjectAnalysis): (slices: seq<Slice>)
    requires ObjectFits(buf, a) && ObjectReadable(buf, a)
    ensures |slices| == a.count
    ensures forall i :: 0 <= i < a.count ==> ObjectKeySlice(buf, a, i) == Ok(slices[i])
  {
    seq(a.count, i requires 0 <= i < a.count => ObjectGetIndex(buf, a, i).value.key)
  }

  ghost function ValueSlices(buf: bytes, a: ObjectAnalysis): (slices: seq<Slice>)
    requires ObjectFits(buf, a) && ObjectReadable(buf, a)
    ensures |slices| == a.count
    ensures forall i :: 0 <= i < a.count ==> ObjectValueSlice(buf, a, i) == Ok(slices[i])
  {
    seq(a.count, i requires 0 <= i < a.count => ObjectGetIndex(buf, a, i).value.value)
  }

  // The same for an object: its keys cover the key region and its values the value region.
  lemma {:induction false} ObjectPartition(buf: bytes, a: ObjectAnalysis)
    requires ObjectFits(buf, a) && ObjectReadable(buf, a) && a.count > 0
    ensures Tiles(KeySlices(buf, a), a.keyDataStart, a.valueDataStart)
    ensures Tiles(ValueSlices(buf, a), a.valueDataStart, |buf|)
    ensures Concat(Cuts(buf, KeySlices(buf, a))) == buf[a.keyDataStart..a.valueDataStart]
    ensures Concat(Cuts(buf, ValueSlices(buf, a))) == buf[a.valueDataStart..]
  {
    hide ObjectKeySlice, ObjectValueSlice, ObjectGetIndex, Concat;
    var keys, values := KeySlices(buf, a), ValueSlices(buf, a);
    KeysAbut(buf, a, keys);
    ValuesAbut(buf, a, values);
    TilesCover(buf, keys, a.keyDataStart, a.valueDataStart);
    TilesCover(buf, values, a.valueDataStart, |buf|);
  }

  lemma {:induction false} KeysAbut(buf: bytes, a: ObjectAnalysis, keys: seq<Slice>)
    requires ObjectFits(buf, a) && |keys| == a.count > 0
    requires forall i :: 0 <= i < a.count ==> ObjectKeySlice(buf, a, i) == Ok(keys[i])
    ensures Tiles(keys, a.keyDataStart, a.valueDataStart)
  {
    forall i | 0 <= i < a.count - 1
      ensures keys[i].start + keys[i].size == keys[i + 1].start
    {
      assert ObjectKeySlice(buf, a, i) == Ok(keys[i]) && ObjectKeySlice(buf, a, i + 1) == Ok(keys[i + 1]);
    }
  }

  lemma {:induction false} ValuesAbut(buf: bytes, a: ObjectAnalysis, values: seq<Slice>)
    requires ObjectFits(buf, a) && |values| == a.count > 0
    requires forall i :: 0 <= i < a.count ==> ObjectValueSlice(buf, a, i) == Ok(values[i])
    ensures Tiles(values, a.valueDataStart, |buf|)
  {
    forall i | 0 <= i < a.count - 1
      ensures values[i].start + values[i].size == values[i + 1].start
    {
      assert ObjectValueSlice(buf, a, i) == Ok(values[i]) && ObjectValueSlice(buf, a, i + 1) == Ok(values[i + 1]);
    }
  }
}
