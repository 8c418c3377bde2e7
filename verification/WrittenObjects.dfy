// Looking up keys in objects that the writer has written.
module WrittenObjects {
  import opened Wrappers
  import opened Bytes
  import opened Layout
  import opened Reader
  import opened Codec
  import opened KeyOrder
  import opened Utf8
  import opened Tree
  import opened Retrieve
  import opened Lookup

  // The file of an object, and its analysis.
  ghost predicate Written(h: Hash, pairs: seq<Pair>, buf: bytes, a: ObjectAnalysis) {
    && AllPairsWellFormed(pairs)
    && buf == Encode(h, Object(pairs)) && |buf| <= SIZE_MAX
    && ObjectAnalyze(buf) == Ok(a)
  }

  // Member i of the file is the pair that sorting puts in place i.
  lemma {:induction false} WrittenMember(h: Hash, pairs: seq<Pair>, buf: bytes, a: ObjectAnalysis, i: nat)
    requires Written(h, pairs, buf, a)
    ensures a.count == |pairs| == |Order(h, PairKeys(pairs))| && ObjectFits(buf, a)
    ensures Selects(Order(h, PairKeys(pairs)), |pairs|)
    ensures i < |pairs| ==>
      var pair := pairs[Order(h, PairKeys(pairs))[i]];
      && Readable(buf, a, i) && EntryKey(buf, a, i) == pair.key
      && WellFormed(pair.value)
      && Cut(buf, ObjectGetIndex(buf, a, i).value.value) == Encode(h, pair.value)
  {
    hide ObjectAnalyze, ObjectGetIndex, ObjectBytes, Order, ValidUtf8;
    var entries := SortedEntries(h, pairs);
    OrderSelects(h, PairKeys(pairs));
    SortedKeysValid(h, pairs);
    ObjectRoundTrip(entries, i);
    if i < |pairs| {
      assert WellFormedPair(pairs[Order(h, PairKeys(pairs))[i]]);
    }
  }

  // What the writer writes is sorted as lookups expect it.
  lemma {:induction false} WrittenIsSorted(h: Hash, pairs: seq<Pair>, buf: bytes, a: ObjectAnalysis)
    requires Written(h, pairs, buf, a)
    ensures ObjectFits(buf, a) && SortedObject(h, buf, a)
  {
    hide ObjectAnalyze, ObjectGetIndex, Order, CompareKeys, Written, EntryKey, Readable;
    var keys, order := PairKeys(pairs), Order(h, PairKeys(pairs));
    WrittenMember(h, pairs, buf, a, 0);
    OrderSortsKeys(h, keys);
    forall i | 0 <= i < a.count
      ensures Readable(buf, a, i) && EntryKey(buf, a, i) == Pick(keys, order)[i]
    {
      WrittenMember(h, pairs, buf, a, i);
    }
  }

  ghost predicate HasKey(pairs: seq<Pair>, key: bytes) {
    exists i :: 0 <= i < |pairs| && pairs[i].key == key
  }

  // A key occurs in the file exactly if it was written.
  lemma {:induction false} WrittenKeys(h: Hash, pairs: seq<Pair>, buf: bytes, a: ObjectAnalysis, key: bytes)
    requires Written(h, pairs, buf, a)
    ensures ObjectFits(buf, a) && (KeyOccurs(buf, a, key) <==> HasKey(pairs, key))
  {
    hide ObjectAnalyze, ObjectGetIndex, Order, Written, EntryKey, Readable;
    var keys, order := PairKeys(pairs), Order(h, PairKeys(pairs));
    WrittenMember(h, pairs, buf, a, 0);
    if KeyOccurs(buf, a, key) {
      var i :| 0 <= i < a.count && HasKeyAt(buf, a, key, i);
      WrittenMember(h, pairs, buf, a, i);
    }
    if HasKey(pairs, key) {
      var k :| 0 <= k < |pairs| && pairs[k].key == key;
      OrderCovers(h, keys, k);
      var i :| 0 <= i < |order| && order[i] == k;
      WrittenMember(h, pairs, buf, a, i);
      assert HasKeyAt(buf, a, key, i);
    }
  }

  // The pairs with a key, in order of insertion.
  function Insertions(pairs: seq<Pair>, key: bytes, n: nat): (r: seq<nat>)
    requires n <= |pairs|
    ensures forall k: nat :: k in r <==> k < n && pairs[k].key == key
    ensures forall i :: 0 <= i < |r| ==> r[i] < n
    ensures Ascending(r)
  {
    if n == 0 then []
    else if pairs[n - 1].key == key then Insertions(pairs, key, n - 1) + [n - 1]
    else Insertions(pairs, key, n - 1)
  }

  lemma {:induction false} AscendingIsUnique(a: seq<nat>, b: seq<nat>)
    requires Ascending(a) && Ascending(b) && forall k :: k in a <==> k in b
    ensures a == b
    decreases |a|
  {
    EmptyTogether(a, b);
    if a != [] {
      LastIsLargest(a, b);
      var x, c, d := a[|a| - 1], a[..|a| - 1], b[..|b| - 1];
      assert a == c + [x] && b == d + [x];
      forall k
        ensures k in c <==> k in d
      {
        assert k in a <==> k in c || k == x;
        assert k in b <==> k in d || k == x;
        LastNotBefore(a);
        LastNotBefore(b);
      }
      AscendingIsUnique(c, d);
    }
  }

  lemma {:induction false} EmptyTogether(a: seq<nat>, b: seq<nat>)
    requires forall k :: k in a <==> k in b
    ensures a == [] <==> b == []
  {
    assert a != [] ==> a[0] in a;
    assert b != [] ==> b[0] in b;
  }

  lemma {:induction false} LastNotBefore(a: seq<nat>)
    requires Ascending(a) && a != []
    ensures a[|a| - 1] !in a[..|a| - 1]
  {
  }

  lemma {:induction false} LastIsLargest(a: seq<nat>, b: seq<nat>)
    requires Ascending(a) && Ascending(b) && a != [] && b != [] && forall k :: k in a <==> k in b
    ensures a[|a| - 1] == b[|b| - 1]
  {
    assert a[|a| - 1] in a && b[|b| - 1] in b;
    var i :| 0 <= i < |b| && b[i] == a[|a| - 1];
    var j :| 0 <= j < |a| && a[j] == b[|b| - 1];
  }

  // The exact range of a key lists the pairs with that key in order of insertion.
  lemma {:induction false} RangeInInsertionOrder(h: Hash, pairs: seq<Pair>, buf: bytes, a: ObjectAnalysis, key: bytes,
      start: nat, end: nat)
    requires Written(h, pairs, buf, a) && ObjectFits(buf, a)
    requires ExactRange(buf, a, key, start, end)
    ensures end <= |Order(h, PairKeys(pairs))|
    ensures Order(h, PairKeys(pairs))[start..end] == Insertions(pairs, key, |pairs|)
  {
    hide ObjectAnalyze, ObjectGetIndex, Order, Written, EntryKey, Readable, Insertions, Ascending;
    var keys, order := PairKeys(pairs), Order(h, PairKeys(pairs));
    WrittenMember(h, pairs, buf, a, 0);
    var range := order[start..end];
    forall i | 0 <= i < |order|
      ensures start <= i < end <==> pairs[order[i]].key == key
    {
      WrittenMember(h, pairs, buf, a, i);
      assert HasKeyAt(buf, a, key, i) <==> EntryKey(buf, a, i) == key;
    }
    RangeAscends(h, pairs, key, start, end);
    forall k: nat
      ensures k in range <==> k < |pairs| && pairs[k].key == key
    {
      if k < |pairs| && pairs[k].key == key {
        OrderCovers(h, keys, k);
        var i :| 0 <= i < |order| && order[i] == k;
        assert range[i - start] == k;
      }
    }
    AscendingIsUnique(range, Insertions(pairs, key, |pairs|));
  }

  lemma {:induction false} RangeAscends(h: Hash, pairs: seq<Pair>, key: bytes, start: nat, end: nat)
    requires start <= end <= |Order(h, PairKeys(pairs))| && Selects(Order(h, PairKeys(pairs)), |pairs|)
    requires forall i :: start <= i < end ==> pairs[Order(h, PairKeys(pairs))[i]].key == key
    ensures Ascending(Order(h, PairKeys(pairs))[start..end])
  {
    hide Order;
    var order := Order(h, PairKeys(pairs));
    forall i, j | 0 <= i < j < end - start
      ensures order[start..end][i] < order[start..end][j]
    {
      OrderIsStable(h, PairKeys(pairs), start + i, start + j);
      assert pairs[order[start + i]].key == pairs[order[start + j]].key;
    }
  }

  // bijson_object_get_key_range on a written object: it finds all values of a key, in order of
  // insertion, or reports that the key was not written.
  method FindWrittenRange(h: Hash, buf: bytes, a: ObjectAnalysis, key: bytes, builtin: bool, ghost pairs: seq<Pair>)
    returns (r: Result<(nat, nat)>)
    requires IsHash(h) && Written(h, pairs, buf, a)
    ensures a.count == |pairs| == |Order(h, PairKeys(pairs))|
    ensures !GuessesPastEnd(a.count, builtin, h(key)) ==>
      if HasKey(pairs, key) then
        && r.Ok? && r.value.0 <= r.value.1 <= |pairs|
        && Order(h, PairKeys(pairs))[r.value.0..r.value.1] == Insertions(pairs, key, |pairs|)
      else r == Err(KeyNotFound)
    ensures GuessesPastEnd(a.count, builtin, h(key)) ==> r == Err(IndexOutOfRange)
  {
    hide ObjectAnalyze, ObjectGetIndex, Order, SortedObject, ExactRange, KeyOccurs, HasKey, Insertions, GuessesPastEnd;
    hide ObjectFits;
    WrittenMember(h, pairs, buf, a, 0);
    WrittenIsSorted(h, pairs, buf, a);
    WrittenKeys(h, pairs, buf, a, key);
    CountBounded(buf, a);
    var range, readings := GetKeyRange(h, buf, a, key, builtin);
    r := range;
    if HasKey(pairs, key) && !GuessesPastEnd(a.count, builtin, h(key)) {
      ExactBounds(buf, a, key, r.value.0, r.value.1);
      RangeInInsertionOrder(h, pairs, buf, a, key, r.value.0, r.value.1);
    }
  }

  lemma {:induction false} CountBounded(buf: bytes, a: ObjectAnalysis)
    requires ObjectFits(buf, a) && |buf| <= SIZE_MAX
    ensures a.count <= SIZE_MAX
  {
  }

  lemma {:induction false} ExactBounds(buf: bytes, a: ObjectAnalysis, key: bytes, start: nat, end: nat)
    requires ObjectFits(buf, a) && ExactRange(buf, a, key, start, end)
    ensures start < end <= a.count
  {
    hide HasKeyAt;
  }

  // bijson_object_get_key on a written object: it returns the bytes of a value that was
  // written under the key, if there is one.
  method FindWritten(h: Hash, buf: bytes, a: ObjectAnalysis, key: bytes, builtin: bool, ghost pairs: seq<Pair>)
    returns (r: Result<Slice>)
    requires IsHash(h) && Written(h, pairs, buf, a)
    ensures !GuessesPastEnd(a.count, builtin, h(key)) ==>
      if HasKey(pairs, key) then
        r.Ok? && r.value.start + r.value.size <= |buf| && IsValueOf(h, pairs, key, Cut(buf, r.value))
      else r == Err(KeyNotFound)
    ensures GuessesPastEnd(a.count, builtin, h(key)) ==> r == Err(IndexOutOfRange)
  {
    hide ObjectAnalyze, ObjectGetIndex, Order, SortedObject, KeyOccurs, HasKey, GuessesPastEnd, ObjectFits, MaxAttempts;
    WrittenIsSorted(h, pairs, buf, a);
    WrittenKeys(h, pairs, buf, a, key);
    WrittenMember(h, pairs, buf, a, 0);
    ghost var rounds;
    r, rounds := GetKey(h, buf, a, key, builtin);
    if r.Ok? {
      ghost var i :| 0 <= i < a.count && StoredAt(buf, a, key, i, r.value);
      StoredIsWritten(h, pairs, buf, a, key, i, r.value);
    }
  }

  ghost predicate IsValueOf(h: Hash, pairs: seq<Pair>, key: bytes, value: bytes)
    requires AllPairsWellFormed(pairs)
  {
    exists k :: 0 <= k < |pairs| && pairs[k].key == key && WellFormedPair(pairs[k]) && Encode(h, pairs[k].value) == value
  }

  lemma {:induction false} StoredIsWritten(h: Hash, pairs: seq<Pair>, buf: bytes, a: ObjectAnalysis, key: bytes, i: nat, value: Slice)
    requires Written(h, pairs, buf, a) && ObjectFits(buf, a) && i < a.count && StoredAt(buf, a, key, i, value)
    ensures value.start + value.size <= |buf| && IsValueOf(h, pairs, key, Cut(buf, value))
  {
    hide ObjectAnalyze, ObjectGetIndex, Order, Encode, ValidUtf8;
    WrittenMember(h, pairs, buf, a, i);
    assert WellFormedPair(pairs[Order(h, PairKeys(pairs))[i]]);
  }
}
