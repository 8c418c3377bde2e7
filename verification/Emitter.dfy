// The second pass (lib/writer.c, lib/writer/array.c, lib/writer/object.c): from the spool to
// the file format. A position in the spool stands for a pointer into it, and the stack holds
// the positions of an object's members while they are sorted and written.
module Emitter {
  import opened Wrappers
  import opened Bytes
  import opened Storage
  import opened Layout
  import opened Output
  import opened KeyOrder
  import opened Tree
  import opened Document
  import opened SpoolReading
  import opened Writer

  // ---------- Arrays ----------

  // The first loop of _bijson_writer_write_array: all items but the last.
  method SumItems(h: Hash, spool: bytes, start: nat, end: nat, ghost items: seq<Value>)
    returns (count1: nat, itemsSize: nat)
    requires AllWellFormed(items) && items != [] && |spool| <= SIZE_MAX
    requires At(spool, start, Concat(SpoolItems(h, items)))
    requires end == start + |Concat(SpoolItems(h, items))|
    ensures count1 == |items| - 1
    ensures itemsSize == Start(EncodeItems(h, items), |items| - 1)
  {
    hide At, Concat, Spool, SizeValue, ValueEnd, HasHeader, WellFormed, Encode, Start;
    ghost var spooled, encoded := SpoolItems(h, items), EncodeItems(h, items);
    StartOfFirst(spooled);
    StartOfFirst(encoded);
    StartsGrow(spooled, |items|, |items|);
    count1, itemsSize := 0, 0;
    var item := start;
    while true
      invariant count1 < |items|
      invariant item == start + Start(spooled, count1)
      invariant itemsSize == Start(encoded, count1)
      decreases |items| - count1
    {
      ItemReads(h, spool, start, items, count1);
      var next := ValueEnd(spool, item);
      if next == end {
        if count1 + 1 < |items| {
          ItemReads(h, spool, start, items, count1 + 1);
          StartsGrow(spooled, count1 + 2, |items|);
        }
        break;
      }
      ConcatAt(encoded, count1);
      itemsSize := itemsSize + SizeValue(spool, item);
      count1 := count1 + 1;
      item := next;
    }
  }

  method WriteItemOffsets(h: Hash, spool: bytes, sink: Sink, start: nat, count1: nat, width: nat, ghost items: seq<Value>)
    requires AllWellFormed(items) && |items| == count1 + 1 && width < 4 && |spool| <= SIZE_MAX
    requires At(spool, start, Concat(SpoolItems(h, items)))
    modifies sink
    ensures sink.data == old(sink.data) + IntTable(ValueOffsets(EncodeItems(h, items)), WidthBytes(width))
  {
    hide At, Concat, Spool, SizeValue, ValueEnd, HasHeader, WellFormed, Encode, ValueOffset, LittleEndian, IntTable;
    ghost var spooled, encoded := SpoolItems(h, items), EncodeItems(h, items);
    ghost var offsets, w := ValueOffsets(encoded), WidthBytes(width);
    StartOfFirst(spooled);
    OffsetStep(encoded, 0);
    assert IntTable(offsets[..0], w) == [] by { EmptyTable(offsets, w); }
    var item, offset := start, 0;
    for z := 0 to count1
      invariant item == start + Start(spooled, z)
      invariant offset == ValueOffset(encoded, z)
      invariant sink.data == old(sink.data) + IntTable(offsets[..z], w)
    {
      ItemReads(h, spool, start, items, z);
      OffsetStep(encoded, z);
      offset := offset + (SizeValue(spool, item) - 1);
      item := ValueEnd(spool, item);
      sink.WriteCompactInt(offset, width);
      IntTablePrefix(old(sink.data), offsets, z, w);
    }
    assert offsets[..count1] == offsets;
  }

  lemma {:induction false} EmptyTable(vals: seq<nat>, w: nat)
    ensures IntTable(vals[..0], w) == []
  {
  }

  lemma {:induction false} IntTablePrefix(before: bytes, vals: seq<nat>, k: nat, w: nat)
    requires k < |vals|
    ensures before + IntTable(vals[..k + 1], w) == before + IntTable(vals[..k], w) + LittleEndian(vals[k], w)
  {
    hide LittleEndian;
    assert vals[..k + 1][..k] == vals[..k];
  }

  lemma {:induction false} OffsetStep(values: seq<bytes>, k: nat)
    requires NoneEmpty(values) && k < |values|
    ensures ValueOffset(values, 0) == 0
    ensures ValueOffset(values, k + 1) + 1 == ValueOffset(values, k) + |values[k]|
    ensures |values[k]| >= 1
  {
    StartOfFirst(values);
    ConcatAt(values, k);
  }

  method WriteItems(w: Writer, sink: Sink, start: nat, count: nat, ghost items: seq<Value>)
    requires AllWellFormed(items) && |items| == count && |w.spool| <= SIZE_MAX
    requires At(w.spool, start, Concat(SpoolItems(w.h, items)))
    modifies w`stack, sink
    ensures w.stack == old(w.stack)
    ensures sink.data == old(sink.data) + Concat(EncodeItems(w.h, items))
    decreases items, 0
  {
    hide At, Concat, Spool, SizeValue, ValueEnd, HasHeader, Encode;
    ghost var spooled, encoded := SpoolItems(w.h, items), EncodeItems(w.h, items);
    StartOfFirst(spooled);
    ConcatPrefix(encoded, 0);
    var item := start;
    for z := 0 to count
      invariant item == start + Start(spooled, z)
      invariant w.stack == old(w.stack)
      invariant sink.data == old(sink.data) + Concat(encoded[..z])
    {
      ItemReads(w.h, w.spool, start, items, z);
      ConcatPrefix(encoded, z + 1);
      WriteValue(w, sink, item, items[z]);
      Associate(old(sink.data), Concat(encoded[..z]), encoded[z]);
      item := ValueEnd(w.spool, item);
    }
    assert encoded[..count] == encoded;
  }

  lemma {:induction false} ConcatPrefix(ss: seq<bytes>, k: nat)
    requires k <= |ss|
    ensures k == 0 ==> Concat(ss[..k]) == []
    ensures k > 0 ==> Concat(ss[..k]) == Concat(ss[..k - 1]) + ss[k - 1]
  {
    if k > 0 {
      assert ss[..k] == ss[..k - 1] + [ss[k - 1]];
      ConcatSplit(ss[..k - 1], [ss[k - 1]]);
      ConcatOne(ss[k - 1]);
    }
  }

  // _bijson_writer_write_array; pos is the position of the container's two sizes.
  method WriteArray(w: Writer, sink: Sink, pos: nat, ghost items: seq<Value>)
    requires AllWellFormed(items) && |w.spool| <= SIZE_MAX && pos + 16 <= |w.spool|
    requires ReadSize(w.spool, pos) == 8 + |Concat(SpoolItems(w.h, items))|
    requires At(w.spool, pos + 16, Concat(SpoolItems(w.h, items)))
    modifies w`stack, sink
    ensures w.stack == old(w.stack)
    ensures sink.data == old(sink.data) + ArrayBytes(EncodeItems(w.h, items))
    decreases items, 1
  {
    hide At, Concat, LittleEndian, IntTable, ReadSize, StorageSize, Spool, Encode, WellFormed, Start;
    var spoolSize := ReadSize(w.spool, pos);
    var start := pos + 16;
    ghost var encoded := EncodeItems(w.h, items);
    EmptyItems(w.h, items);
    if spoolSize == 8 {
      sink.Write([0x30]);
      return;
    }
    var end := start + spoolSize - 8;
    var count1, itemsSize := SumItems(w.h, w.spool, start, end, items);
    LastOffset(encoded);
    itemsSize := itemsSize - count1;
    var countWidth, offsetsWidth := StorageSize(count1), StorageSize(itemsSize);
    assert offsetsWidth == ValueOffsetsWidth(encoded);
    sink.Write([0x30 + 4 * offsetsWidth + countWidth]);
    sink.WriteCompactInt(count1, countWidth);
    WriteItemOffsets(w.h, w.spool, sink, start, count1, offsetsWidth, items);
    WriteItems(w, sink, start, count1 + 1, items);
    Chain5(old(sink.data), [0x30 + 4 * offsetsWidth + countWidth], LittleEndian(count1, WidthBytes(countWidth)),
           IntTable(ValueOffsets(encoded), WidthBytes(offsetsWidth)), Concat(encoded));
  }

  lemma {:induction false} LastOffset(items: seq<bytes>)
    requires NoneEmpty(items) && items != []
    ensures |items| - 1 <= Start(items, |items| - 1)
    ensures ValueOffsetsWidth(items) == StorageSize(Start(items, |items| - 1) - (|items| - 1))
  {
    StartsGrow(items, 0, |items| - 1);
    StartOfFirst(items);
  }

  lemma {:induction false} Chain5(a: bytes, b: bytes, c: bytes, d: bytes, e: bytes)
    ensures a + b + c + d + e == a + (b + c + d + e)
  {
  }

  lemma {:induction false} EmptyItems(h: Hash, items: seq<Value>)
    requires AllWellFormed(items)
    ensures |Concat(SpoolItems(h, items))| == 0 <==> items == []
  {
    hide Spool;
    if items != [] {
      assert |SpoolItems(h, items)[0]| >= 9;
    }
  }

  // ---------- Values ----------

  // What a pointer to a spooled value leads to.
  lemma {:induction false} ValueForm(h: Hash, spool: bytes, pos: nat, t: Value)
    requires WellFormed(t) && At(spool, pos, Spool(h, t)) && |spool| <= SIZE_MAX
    ensures HasHeader(spool, pos)
    ensures match t
      case Scalar(data) =>
        spool[pos] == SCALAR_TAG && ReadSize(spool, pos + 1) == |data| && At(spool, pos + 9, data)
      case Array(items) =>
        && spool[pos] == ARRAY_TAG && pos + 17 <= |spool|
        && ReadSize(spool, pos + 1) == 8 + |Concat(SpoolItems(h, items))|
        && At(spool, pos + 17, Concat(SpoolItems(h, items)))
      case Object(pairs) =>
        && spool[pos] == OBJECT_TAG && pos + 17 <= |spool|
        && ReadSize(spool, pos + 1) == 8 + |Concat(SpoolPairs(h, pairs))|
        && At(spool, pos + 17, Concat(SpoolPairs(h, pairs)))
  {
    hide At, Concat, Size, ReadSize, Encode;
    EncodeFitsSpool(h, t);
    InSpool(spool, pos, Spool(h, t));
    match t
    case Scalar(data) => ScalarAt(spool, pos, data);
    case Array(items) =>
      ContainerReads(spool, pos, ARRAY_TAG, |Encode(h, t)|, Concat(SpoolItems(h, items)));
    case Object(pairs) =>
      ContainerReads(spool, pos, OBJECT_TAG, |Encode(h, t)|, Concat(SpoolPairs(h, pairs)));
  }

  // _bijson_writer_write_value
  method WriteValue(w: Writer, sink: Sink, pos: nat, ghost t: Value)
    requires WellFormed(t) && At(w.spool, pos, Spool(w.h, t)) && |w.spool| <= SIZE_MAX
    modifies w`stack, sink
    ensures w.stack == old(w.stack)
    ensures sink.data == old(sink.data) + Encode(w.h, t)
    decreases t, 2
  {
    hide At, Concat, Spool, ReadSize, ArrayBytes, ObjectBytes, EncodeItems, SortedEntries, SpoolItems, SpoolPairs;
    ValueForm(w.h, w.spool, pos, t);
    var tag := w.spool[pos];
    if tag == SCALAR_TAG {
      WriteScalar(w, sink, pos, t.data);
    } else if tag == OBJECT_TAG {
      WriteObject(w, sink, pos + 1, t.pairs);
    } else {
      assert tag == ARRAY_TAG;
      WriteArray(w, sink, pos + 1, t.items);
    }
  }

  // _bijson_writer_write_scalar
  method WriteScalar(w: Writer, sink: Sink, pos: nat, ghost data: bytes)
    requires HasHeader(w.spool, pos) && ReadSize(w.spool, pos + 1) == |data| && At(w.spool, pos + 9, data)
    modifies sink
    ensures sink.data == old(sink.data) + data
  {
    var size := ReadSize(w.spool, pos + 1);
    sink.Write(w.spool[pos + 9..pos + 9 + size]);
  }

  // ---------- Objects ----------

  ghost function Positions(start: nat, spooled: seq<bytes>): (r: seq<nat>)
    ensures |r| == |spooled| && forall i :: 0 <= i < |spooled| ==> r[i] == start + Start(spooled, i)
  {
    seq(|spooled|, i requires 0 <= i < |spooled| => start + Start(spooled, i))
  }

  // The key that a position points at.
  function KeyOf(spool: bytes): nat -> bytes {
    (off: nat) => if HasKey(spool, off) then SpooledKey(spool, off) else []
  }

  // What the C standard promises of qsort: a sorted rearrangement.
  method Qsort(h: Hash, spool: bytes, items: seq<nat>) returns (sorted: seq<nat>)
    requires Distinct(items)
    ensures multiset(sorted) == multiset(items) && Sorted(h, KeyOf(spool), sorted)
    ensures |sorted| == |items|
  {
    SortSorts(h, KeyOf(spool), items);
    sorted := Sort(h, KeyOf(spool), items);
    assert |multiset(sorted)| == |multiset(items)|;
  }

  // The spooled pairs lie at start, and sorted lists their positions in the final order.
  ghost predicate Members(h: Hash, spool: bytes, start: nat, pairs: seq<Pair>, sorted: seq<nat>)
    requires AllPairsWellFormed(pairs)
  {
    && At(spool, start, Concat(SpoolPairs(h, pairs)))
    && Selects(Order(h, PairKeys(pairs)), |pairs|)
    && sorted == Pick(Positions(start, SpoolPairs(h, pairs)), Order(h, PairKeys(pairs)))
  }

  lemma {:induction false} PositionsSorted(h: Hash, spool: bytes, start: nat, pairs: seq<Pair>, sorted: seq<nat>)
    requires AllPairsWellFormed(pairs) && |spool| <= SIZE_MAX
    requires At(spool, start, Concat(SpoolPairs(h, pairs)))
    requires multiset(sorted) == multiset(Positions(start, SpoolPairs(h, pairs)))
    requires Sorted(h, KeyOf(spool), sorted)
    ensures Members(h, spool, start, pairs, sorted)
  {
    hide At, Concat, Spool, SpoolKey, SizeValue, ValueEnd, HasHeader, Start, HasKey, SpooledKey, ValuePos;
    hide Order, Sorted;
    var spooled, positions := SpoolPairs(h, pairs), Positions(start, SpoolPairs(h, pairs));
    PositionsAscend(h, start, pairs);
    forall i | 0 <= i < |pairs|
      ensures KeyOf(spool)(positions[i]) == pairs[i].key
    {
      PairReads(h, spool, start, pairs, i);
    }
    OrderSelects(h, PairKeys(pairs));
    SortedPositions(h, KeyOf(spool), PairKeys(pairs), positions, sorted);
  }

  lemma {:induction false} PositionsAscend(h: Hash, start: nat, pairs: seq<Pair>)
    requires AllPairsWellFormed(pairs)
    ensures Ascending(Positions(start, SpoolPairs(h, pairs)))
  {
    hide Concat, Spool, SpoolKey, Start;
    var spooled := SpoolPairs(h, pairs);
    forall i, j | 0 <= i < j < |pairs|
      ensures Start(spooled, i) < Start(spooled, j)
    {
      ConcatAt(spooled, i);
      StartsGrow(spooled, i + 1, j);
    }
  }

  // What the pointer to member z of the sorted list leads to.
  lemma {:induction false} MemberReads(h: Hash, spool: bytes, start: nat, pairs: seq<Pair>, sorted: seq<nat>, z: nat)
    requires AllPairsWellFormed(pairs) && |spool| <= SIZE_MAX
    requires Members(h, spool, start, pairs, sorted) && z < |pairs|
    ensures |Order(h, PairKeys(pairs))| == |sorted| == |pairs|
    ensures var k, entry := Order(h, PairKeys(pairs))[z], SortedEntries(h, pairs)[z];
      && k < |pairs|
      && HasKey(spool, sorted[z]) && SpooledKey(spool, sorted[z]) == entry.key
      && At(spool, ValuePos(spool, sorted[z]), Spool(h, pairs[k].value))
      && HasHeader(spool, ValuePos(spool, sorted[z]))
      && SizeValue(spool, ValuePos(spool, sorted[z])) == |entry.value|
      && entry.value == Encode(h, pairs[k].value)
  {
    hide At, Concat, Spool, SpoolKey, SizeValue, ValueEnd, HasHeader, Start, HasKey, SpooledKey, ValuePos;
    hide Order, Encode;
    OrderSelects(h, PairKeys(pairs));
    PairReads(h, spool, start, pairs, Order(h, PairKeys(pairs))[z]);
  }

  // The first loop of _bijson_writer_write_object: it pushes the members' positions.
  method CollectMembers(w: Writer, start: nat, end: nat, ghost pairs: seq<Pair>)
    returns (count: nat, keysSize: nat, valuesSize: nat)
    requires AllPairsWellFormed(pairs) && |w.spool| <= SIZE_MAX
    requires At(w.spool, start, Concat(SpoolPairs(w.h, pairs)))
    requires end == start + |Concat(SpoolPairs(w.h, pairs))|
    modifies w`stack
    ensures w.stack == old(w.stack) + Positions(start, SpoolPairs(w.h, pairs))
    ensures count == |pairs| && keysSize == |Concat(PairKeys(pairs))|
    ensures valuesSize == |Concat(Values(EncodePairs(w.h, pairs)))|
  {
    hide At, Concat, Spool, SpoolKey, SizeValue, ValueEnd, HasHeader, Start, HasKey, SpooledKey, ValuePos;
    hide WellFormedPair, Encode;
    ghost var spooled, keys := SpoolPairs(w.h, pairs), PairKeys(pairs);
    ghost var values := Values(EncodePairs(w.h, pairs));
    ghost var positions := Positions(start, spooled);
    StartOfFirst(spooled);
    StartOfFirst(keys);
    StartOfFirst(values);
    StartsGrow(spooled, |pairs|, |pairs|);
    count, keysSize, valuesSize := 0, 0, 0;
    var item := start;
    while item != end
      invariant count <= |pairs|
      invariant item == start + Start(spooled, count)
      invariant keysSize == Start(keys, count) && valuesSize == Start(values, count)
      invariant w.stack == old(w.stack) + positions[..count]
      decreases |pairs| - count
    {
      PairReads(w.h, w.spool, start, pairs, count);
      ConcatAt(keys, count);
      ConcatAt(values, count);
      w.PushStack(item);
      assert positions[..count + 1] == positions[..count] + [item];
      keysSize := keysSize + |SpooledKey(w.spool, item)|;
      valuesSize := valuesSize + SizeValue(w.spool, ValuePos(w.spool, item));
      item := ValueEnd(w.spool, ValuePos(w.spool, item));
      count := count + 1;
    }
    if count < |pairs| {
      PairReads(w.h, w.spool, start, pairs, count);
      StartsGrow(spooled, count + 1, |pairs|);
    }
    StartsGrow(keys, |pairs|, |pairs|);
    StartsGrow(values, |pairs|, |pairs|);
    assert positions[..|pairs|] == positions;
  }

  method WriteKeyOffsets(h: Hash, spool: bytes, sink: Sink, sorted: seq<nat>, width: nat, ghost start: nat, ghost pairs: seq<Pair>)
    requires AllPairsWellFormed(pairs) && |spool| <= SIZE_MAX
    requires Members(h, spool, start, pairs, sorted) && |sorted| == |pairs| && width < 4
    modifies sink
    ensures sink.data == old(sink.data) + IntTable(KeyOffsets(Keys(SortedEntries(h, pairs))), WidthBytes(width))
  {
    hide Members, Spool, SizeValue, HasHeader, HasKey, SpooledKey, ValuePos, Start, LittleEndian, IntTable, Order;
    hide SortedEntries, At;
    ghost var keys := Keys(SortedEntries(h, pairs));
    ghost var offsets, w := KeyOffsets(keys), WidthBytes(width);
    StartOfFirst(keys);
    assert IntTable(offsets[..0], w) == [] by { EmptyTable(offsets, w); }
    var offset := 0;
    for z := 0 to |sorted|
      invariant offset == Start(keys, z)
      invariant sink.data == old(sink.data) + IntTable(offsets[..z], w)
    {
      MemberReads(h, spool, start, pairs, sorted, z);
      ConcatAt(keys, z);
      offset := offset + |SpooledKey(spool, sorted[z])|;
      sink.WriteCompactInt(offset, width);
      IntTablePrefix(old(sink.data), offsets, z, w);
    }
    assert offsets[..|sorted|] == offsets;
  }

  method WriteValueOffsets(h: Hash, spool: bytes, sink: Sink, sorted: seq<nat>, width: nat, ghost start: nat, ghost pairs: seq<Pair>)
    requires AllPairsWellFormed(pairs) && |spool| <= SIZE_MAX
    requires Members(h, spool, start, pairs, sorted) && |sorted| == |pairs| && pairs != [] && width < 4
    modifies sink
    ensures sink.data == old(sink.data) + IntTable(ValueOffsets(Values(SortedEntries(h, pairs))), WidthBytes(width))
  {
    hide Members, Spool, SizeValue, HasHeader, HasKey, SpooledKey, ValuePos, ValueOffset, LittleEndian, IntTable;
    hide Order, SortedEntries, At;
    ghost var values := Values(SortedEntries(h, pairs));
    ghost var offsets, w := ValueOffsets(values), WidthBytes(width);
    OffsetStep(values, 0);
    assert IntTable(offsets[..0], w) == [] by { EmptyTable(offsets, w); }
    var offset := 0;
    for z := 0 to |sorted| - 1
      invariant offset == ValueOffset(values, z)
      invariant sink.data == old(sink.data) + IntTable(offsets[..z], w)
    {
      MemberReads(h, spool, start, pairs, sorted, z);
      OffsetStep(values, z);
      offset := offset + (SizeValue(spool, ValuePos(spool, sorted[z])) - 1);
      sink.WriteCompactInt(offset, width);
      IntTablePrefix(old(sink.data), offsets, z, w);
    }
    assert offsets[..|sorted| - 1] == offsets;
  }

  method WriteKeys(h: Hash, spool: bytes, sink: Sink, sorted: seq<nat>, ghost start: nat, ghost pairs: seq<Pair>)
    requires AllPairsWellFormed(pairs) && |spool| <= SIZE_MAX
    requires Members(h, spool, start, pairs, sorted) && |sorted| == |pairs|
    modifies sink
    ensures sink.data == old(sink.data) + Concat(Keys(SortedEntries(h, pairs)))
  {
    hide Members, Spool, SizeValue, HasHeader, HasKey, SpooledKey, ValuePos, Order, SortedEntries, Concat, At;
    ghost var keys := Keys(SortedEntries(h, pairs));
    ConcatPrefix(keys, 0);
    for z := 0 to |sorted|
      invariant sink.data == old(sink.data) + Concat(keys[..z])
    {
      MemberReads(h, spool, start, pairs, sorted, z);
      ConcatPrefix(keys, z + 1);
      Associate(old(sink.data), Concat(keys[..z]), keys[z]);
      sink.Write(SpooledKey(spool, sorted[z]));
    }
    assert keys[..|sorted|] == keys;
  }

  // The members are read from the stack again each time, since writing a value may use it.
  method WriteValues(w: Writer, sink: Sink, stackUsed: nat, count: nat, ghost start: nat, ghost pairs: seq<Pair>)
    requires stackUsed + count == |w.stack| && count == |pairs|
    requires AllPairsWellFormed(pairs) && |w.spool| <= SIZE_MAX
    requires Members(w.h, w.spool, start, pairs, w.stack[stackUsed..])
    modifies w`stack, sink
    ensures w.stack == old(w.stack)
    ensures sink.data == old(sink.data) + Concat(Values(SortedEntries(w.h, pairs)))
    decreases pairs, 0
  {
    hide Members, Spool, SizeValue, HasHeader, HasKey, SpooledKey, ValuePos, Order, SortedEntries, Concat, At, Encode;
    ghost var values, sorted := Values(SortedEntries(w.h, pairs)), w.stack[stackUsed..];
    ConcatPrefix(values, 0);
    for z := 0 to count
      invariant w.stack == old(w.stack)
      invariant sink.data == old(sink.data) + Concat(values[..z])
    {
      MemberReads(w.h, w.spool, start, pairs, sorted, z);
      ConcatPrefix(values, z + 1);
      Associate(old(sink.data), Concat(values[..z]), values[z]);
      var item := w.stack[stackUsed + z];
      assert item == sorted[z];
      ghost var k := Order(w.h, PairKeys(pairs))[z];
      assert WellFormedPair(pairs[k]);
      WriteValue(w, sink, ValuePos(w.spool, item), pairs[k].value);
    }
    assert values[..count] == values;
  }

  // _bijson_writer_write_object
  method WriteObject(w: Writer, sink: Sink, pos: nat, ghost pairs: seq<Pair>)
    requires AllPairsWellFormed(pairs) && |w.spool| <= SIZE_MAX && pos + 16 <= |w.spool|
    requires ReadSize(w.spool, pos) == 8 + |Concat(SpoolPairs(w.h, pairs))|
    requires At(w.spool, pos + 16, Concat(SpoolPairs(w.h, pairs)))
    modifies w`stack, sink
    ensures w.stack == old(w.stack)
    ensures sink.data == old(sink.data) + ObjectBytes(SortedEntries(w.h, pairs))
    decreases pairs, 2
  {
    hide At, Concat, ReadSize, Members, SortedEntries, Sorted, Order;
    var spoolSize := ReadSize(w.spool, pos);
    var start := pos + 16;
    EmptyPairs(w.h, pairs);
    if spoolSize == 8 {
      sink.Write([0x40]);
      return;
    }
    var stackUsed := |w.stack|;
    var count, keysSize, valuesSize := CollectMembers(w, start, start + spoolSize - 8, pairs);
    var items := w.stack[stackUsed..];
    assert items == Positions(start, SpoolPairs(w.h, pairs));
    PositionsAscend(w.h, start, pairs);
    var sorted := Qsort(w.h, w.spool, items);
    PositionsSorted(w.h, w.spool, start, pairs, sorted);
    w.stack := w.stack[..stackUsed] + sorted;
    WriteSortedObject(w, sink, stackUsed, count, keysSize, valuesSize, start, pairs);
    w.stack := w.stack[..stackUsed];
  }

  // The type byte, the count and the four tables and regions of an object that is not empty.
  function ObjectHead(entries: seq<Entry>): (b: bytes)
    requires entries != [] && NoneEmpty(Values(entries))
  {
    var countWidth := StorageSize(|entries| - 1);
    var keyWidth := StorageSize(|Concat(Keys(entries))|);
    [0x40 + 16 * ValueOffsetsWidth(Values(entries)) + 4 * keyWidth + countWidth]
    + LittleEndian(|entries| - 1, WidthBytes(countWidth))
  }

  lemma {:induction false} ObjectIs(before: bytes, entries: seq<Entry>)
    requires entries != [] && NoneEmpty(Values(entries))
    ensures var keyWidth := StorageSize(|Concat(Keys(entries))|);
      before + ObjectHead(entries)
      + IntTable(KeyOffsets(Keys(entries)), WidthBytes(keyWidth))
      + IntTable(ValueOffsets(Values(entries)), WidthBytes(ValueOffsetsWidth(Values(entries))))
      + Concat(Keys(entries)) + Concat(Values(entries))
      == before + ObjectBytes(entries)
  {
    hide LittleEndian, IntTable, Concat, StorageSize, ValueOffset;
    var keyWidth := StorageSize(|Concat(Keys(entries))|);
    Chain7(before, [0x40 + 16 * ValueOffsetsWidth(Values(entries)) + 4 * keyWidth + StorageSize(|entries| - 1)],
           LittleEndian(|entries| - 1, Width(|entries| - 1)),
           IntTable(KeyOffsets(Keys(entries)), WidthBytes(keyWidth)),
           IntTable(ValueOffsets(Values(entries)), WidthBytes(ValueOffsetsWidth(Values(entries)))),
           Concat(Keys(entries)), Concat(Values(entries)));
    Associate(before, [0x40 + 16 * ValueOffsetsWidth(Values(entries)) + 4 * keyWidth + StorageSize(|entries| - 1)],
              LittleEndian(|entries| - 1, Width(|entries| - 1)));
  }

  // The widths are computed from the sums of the first loop and the last member.
  method WriteObjectHead(h: Hash, spool: bytes, sink: Sink, sorted: seq<nat>, keysSize: nat, valuesSize: nat,
                         ghost start: nat, ghost pairs: seq<Pair>)
    returns (keyWidth: nat, valueWidth: nat)
    requires AllPairsWellFormed(pairs) && pairs != [] && |spool| <= SIZE_MAX
    requires Members(h, spool, start, pairs, sorted) && |sorted| == |pairs|
    requires keysSize == |Concat(PairKeys(pairs))| && valuesSize == |Concat(Values(EncodePairs(h, pairs)))|
    modifies sink
    ensures sink.data == old(sink.data) + ObjectHead(SortedEntries(h, pairs))
    ensures keyWidth == StorageSize(|Concat(Keys(SortedEntries(h, pairs)))|) < 4
    ensures valueWidth == ValueOffsetsWidth(Values(SortedEntries(h, pairs))) < 4
  {
    hide Members, SizeValue, HasHeader, HasKey, SpooledKey, ValuePos, Order, SortedEntries, Concat, At, Encode;
    hide StorageSize, LittleEndian, EncodePairs, Spool, ValueOffset;
    ghost var entries := SortedEntries(h, pairs);
    SortedEntriesSizes(h, pairs);
    EncodePairsKeys(h, pairs);
    LastSize(Values(entries));
    var count1 := |sorted| - 1;
    MemberReads(h, spool, start, pairs, sorted, count1);
    var offsetsSize := valuesSize - SizeValue(spool, ValuePos(spool, sorted[count1])) - count1;
    var countWidth := StorageSize(count1);
    keyWidth, valueWidth := StorageSize(keysSize), StorageSize(offsetsSize);
    sink.Write([0x40 + 16 * valueWidth + 4 * keyWidth + countWidth]);
    sink.WriteCompactInt(count1, countWidth);
    Associate(old(sink.data), [0x40 + 16 * valueWidth + 4 * keyWidth + countWidth], LittleEndian(count1, WidthBytes(countWidth)));
  }

  // The rest of _bijson_writer_write_object, once the members' positions are sorted.
  method WriteSortedObject(w: Writer, sink: Sink, stackUsed: nat, count: nat, keysSize: nat, valuesSize: nat,
                           ghost start: nat, ghost pairs: seq<Pair>)
    requires stackUsed + count == |w.stack| && count == |pairs| > 0
    requires AllPairsWellFormed(pairs) && |w.spool| <= SIZE_MAX
    requires Members(w.h, w.spool, start, pairs, w.stack[stackUsed..])
    requires keysSize == |Concat(PairKeys(pairs))| && valuesSize == |Concat(Values(EncodePairs(w.h, pairs)))|
    modifies w`stack, sink
    ensures w.stack == old(w.stack)
    ensures sink.data == old(sink.data) + ObjectBytes(SortedEntries(w.h, pairs))
    decreases pairs, 1
  {
    hide Members, Order, SortedEntries, Concat, At, Encode, StorageSize, LittleEndian, IntTable, EncodePairs;
    hide ObjectBytes, ObjectHead;
    hide ValueOffset, ValueOffsetsWidth, KeyOffsets, ValueOffsets, Spool;
    var sorted := w.stack[stackUsed..];
    var keyWidth, valueWidth := WriteObjectHead(w.h, w.spool, sink, sorted, keysSize, valuesSize, start, pairs);
    WriteKeyOffsets(w.h, w.spool, sink, sorted, keyWidth, start, pairs);
    WriteValueOffsets(w.h, w.spool, sink, sorted, valueWidth, start, pairs);
    WriteKeys(w.h, w.spool, sink, sorted, start, pairs);
    WriteValues(w, sink, stackUsed, count, start, pairs);
    ObjectIs(old(sink.data), SortedEntries(w.h, pairs));
  }

  lemma {:induction false} Chain7(a: bytes, b: bytes, c: bytes, d: bytes, e: bytes, f: bytes, g: bytes)
    ensures a + b + c + d + e + f + g == a + (b + c + d + e + f + g)
  {
  }

  lemma {:induction false} EmptyPairs(h: Hash, pairs: seq<Pair>)
    requires AllPairsWellFormed(pairs)
    ensures |Concat(SpoolPairs(h, pairs))| == 0 <==> pairs == []
    ensures pairs == [] ==> ObjectBytes(SortedEntries(h, pairs)) == [0x40]
  {
    hide Spool, SpoolKey;
    if pairs != [] {
      assert |SpoolPairs(h, pairs)[0]| >= 9;
    }
  }

  // ---------- The whole document ----------

  // _bijson_writer_write. It may be called again: nothing of the writer changes. A root that
  // is a number with a wrong size is noticed here, and only here.
  method Write(w: Writer, sink: Sink) returns (status: Status)
    requires w.Valid()
    modifies w`stack, sink
    ensures w.Valid() && w.stack == old(w.stack)
    ensures status ==
      if w.failed then Failure(WriterFailed)
      else if w.doc.frames != [] || InTheMaking(w.doc.open) then Failure(UnmatchedEnd)
      else if w.doc.root.None? then Failure(BadRoot)
      else Success
    ensures status.Failure? ==> sink.data == old(sink.data)
    ensures status.Success? ==>
      && WellFormed(w.doc.root.value)
      && sink.data == old(sink.data) + Encode(w.h, w.doc.root.value)
  {
    hide Spool, FramesSpool, FrameStack, DecimalsOk, HasHeader, At;
    if w.failed {
      return Failure(WriterFailed);
    }
    StackEmpty(w.h, w.doc);
    if |w.stack| != 0 {
      return Failure(UnmatchedEnd);
    }
    var spoolUsed := |w.spool|;
    RootSpool(w.h, w.doc);
    if spoolUsed == 0 {
      return Failure(BadRoot);
    }
    ghost var t := if w.doc.root.Some? then w.doc.root.value else Scalar([]);
    if w.broken {
      BrokenRoot(w.h, w.doc);
    } else {
      ValueReads(w.h, w.spool, 0, t);
    }
    var rootSize := ReadSize(w.spool, 1) + 1 + 8;
    if rootSize != spoolUsed {
      return Failure(BadRoot);
    }
    WriteValue(w, sink, 0, t);
    return Success;
  }

  // _bijson_io_write_to_malloc with a writer: what does not fit a first buffer of 4096 bytes is
  // written a second time, into a buffer of the size that the first pass has counted. Of what
  // is written, a buffer keeps as much as fits.
  method WriteToMalloc(w: Writer) returns (status: Status, result: bytes)
    requires w.Valid()
    modifies w`stack
    ensures w.Valid() && w.stack == old(w.stack)
    ensures status.Success? <==> !w.failed && w.doc.frames == [] && !InTheMaking(w.doc.open) && w.doc.root.Some?
    ensures status.Success? ==> WellFormed(w.doc.root.value) && result == Encode(w.h, w.doc.root.value)
  {
    hide DecimalsOk, DocOk, DocSpool, DocStack, Expected, ExpectedAfter, Encode, WellFormed, ContainerPos;
    result := [];
    var size := 4096;
    var pass := new Sink();
    status := Write(w, pass);
    if status.Failure? { return; }
    var written := |pass.data|;
    result := if written <= size then pass.data else pass.data[..size];
    if written > size {
      size := written;
      pass := new Sink();
      status := Write(w, pass);
      if status.Failure? { return; }
      written := |pass.data|;
      result := if written <= size then pass.data else pass.data[..size];
    }
    assert [] + Encode(w.h, w.doc.root.value) == Encode(w.h, w.doc.root.value);
  }

  lemma {:induction false} StackEmpty(h: Hash, doc: Doc)
    requires DocOk(doc)
    ensures |DocStack(h, doc)| == 0 <==> doc.frames == [] && !InTheMaking(doc.open)
  {
    hide FramesSpool, ContainerPos;
  }

  lemma {:induction false} RootSpool(h: Hash, doc: Doc)
    requires DocOk(doc) && doc.frames == [] && !InTheMaking(doc.open)
    ensures doc.root.None? && !doc.open.Broken? <==> DocSpool(h, doc) == []
    ensures doc.root.Some? ==>
      && DocSpool(h, doc) == Spool(h, doc.root.value)
      && At(DocSpool(h, doc), 0, Spool(h, doc.root.value))
  {
    hide Spool;
    NoFrames(h);
  }

  // The size that stands at the front of the spool is not the size of what follows.
  lemma {:induction false} BrokenRoot(h: Hash, doc: Doc)
    requires DocOk(doc) && doc.frames == [] && doc.open.Broken?
    ensures |DocSpool(h, doc)| >= 9 && ReadSize(DocSpool(h, doc), 1) + 9 != |DocSpool(h, doc)|
  {
    hide Size;
    var number := doc.open.number;
    NoFrames(h);
    assert DocSpool(h, doc) == [SCALAR_TAG] + Size(number.size) + number.data;
    AtWhole([SCALAR_TAG], Size(number.size), number.data);
    SizeAt(DocSpool(h, doc), 1, number.size);
  }
}
