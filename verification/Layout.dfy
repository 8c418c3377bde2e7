// The bytes of arrays and objects (README.md, sections "0x30..0x3F: array" and
// "0x40..0x7F: object"), given the bytes of their members.
module Layout {
  import opened Bytes
  import opened Storage

  function Concat(ss: seq<bytes>): bytes {
    if ss == [] then [] else ss[0] + Concat(ss[1..])
  }

  // Where member k starts when the members lie one after the other.
  function Start(ss: seq<bytes>, k: nat): nat
    requires k <= |ss|
  {
    |Concat(ss[..k])|
  }

  lemma {:induction false} StartOfFirst(ss: seq<bytes>)
    ensures Start(ss, 0) == 0
  {
    assert ss[..0] == [];
  }

  predicate NoneEmpty(ss: seq<bytes>) {
    forall i :: 0 <= i < |ss| ==> ss[i] != []
  }

  lemma {:induction false} ConcatSplit(a: seq<bytes>, b: seq<bytes>)
    ensures Concat(a + b) == Concat(a) + Concat(b)
  {
    if a == [] {
      assert a + b == b;
    } else {
      ConcatSplit(a[1..], b);
      assert (a + b)[1..] == a[1..] + b;
      Associate(a[0], Concat(a[1..]), Concat(b));
    }
  }

  lemma {:induction false} Associate(a: bytes, b: bytes, c: bytes)
    ensures a + (b + c) == (a + b) + c
  {
  }

  lemma {:induction false} ConcatOne(s: bytes)
    ensures Concat([s]) == s
  {
    assert [s][1..] == [];
  }

  lemma {:induction false} ConcatAt(ss: seq<bytes>, k: nat)
    requires k < |ss|
    ensures Start(ss, k + 1) == Start(ss, k) + |ss[k]| <= |Concat(ss)|
    ensures At(Concat(ss), Start(ss, k), ss[k])
  {
    hide Concat, At;
    var before, item, after := Concat(ss[..k]), ss[k], Concat(ss[k + 1..]);
    assert Concat(ss[..k + 1]) == before + item by {
      assert ss[..k + 1] == ss[..k] + [item];
      ConcatSplit(ss[..k], [item]);
      ConcatOne(item);
    }
    assert Concat(ss) == before + item + after by {
      assert ss == ss[..k + 1] + ss[k + 1..];
      ConcatSplit(ss[..k + 1], ss[k + 1..]);
    }
    AtWhole(before, item, after);
  }

  lemma {:induction false} StartsGrow(ss: seq<bytes>, j: nat, k: nat)
    requires j <= k <= |ss|
    ensures Start(ss, j) <= Start(ss, k) <= |Concat(ss)|
    ensures NoneEmpty(ss) ==> Start(ss, j) + (k - j) <= Start(ss, k)
    ensures Start(ss, |ss|) == |Concat(ss)|
    decreases |ss| - j
  {
    assert ss[..|ss|] == ss;
    if j < k {
      ConcatAt(ss, j);
      StartsGrow(ss, j + 1, k);
    } else if k < |ss| {
      ConcatAt(ss, k);
      StartsGrow(ss, k + 1, |ss|);
    }
  }

  // n * w, the size of a table of n integers that are w bytes wide.
  function Span(n: nat, w: nat): nat {
    if n == 0 then 0 else Span(n - 1, w) + w
  }

  lemma {:induction false} SpanIsProduct(n: nat, w: nat)
    ensures Span(n, w) == n * w
  {
    if n > 0 {
      SpanIsProduct(n - 1, w);
    }
  }

  lemma {:induction false} SpanInside(k: nat, n: nat, w: nat)
    requires k < n
    ensures Span(k, w) + w <= Span(n, w)
  {
    if k < n - 1 {
      SpanInside(k, n - 1, w);
    }
  }

  // A list of integers, each w bytes wide.
  function IntTable(vals: seq<nat>, w: nat): (b: bytes)
    ensures |b| == Span(|vals|, w)
  {
    if vals == [] then [] else
      IntTable(vals[..|vals| - 1], w) + LittleEndian(vals[|vals| - 1], w)
  }

  lemma {:induction false} IntTableAt(vals: seq<nat>, w: nat, k: nat)
    requires k < |vals|
    ensures At(IntTable(vals, w), Span(k, w), LittleEndian(vals[k], w))
  {
    if k < |vals| - 1 {
      SpanInside(k, |vals| - 1, w);
      IntTableAt(vals[..|vals| - 1], w, k);
      assert IntTable(vals, w)[..Span(|vals| - 1, w)] == IntTable(vals[..|vals| - 1], w);
    }
  }

  // The offset of value k, counted without the type bytes of values 0..k-1.
  function ValueOffset(values: seq<bytes>, k: nat): nat
    requires k <= |values| && NoneEmpty(values)
  {
    StartsGrow(values, 0, k);
    Start(values, k) - k
  }

  // The stored value offsets: those of values 1, 2, ... (the first is always zero).
  function ValueOffsets(values: seq<bytes>): (offsets: seq<nat>)
    requires values != [] && NoneEmpty(values)
    ensures |offsets| == |values| - 1
  {
    seq(|values| - 1, z requires 0 <= z < |values| - 1 => ValueOffset(values, z + 1))
  }

  // The stored key offsets point to the end of each key.
  function KeyOffsets(keys: seq<bytes>): (offsets: seq<nat>)
    ensures |offsets| == |keys|
  {
    seq(|keys|, z requires 0 <= z < |keys| => Start(keys, z + 1))
  }

  // Width of the stored value offsets: the last of them is the largest.
  function ValueOffsetsWidth(values: seq<bytes>): (w: nat)
    requires values != [] && NoneEmpty(values)
    ensures w < 4
  {
    StorageSize(ValueOffset(values, |values| - 1))
  }

  function ArrayBytes(items: seq<bytes>): (b: bytes)
    requires NoneEmpty(items)
    ensures b != []
  {
    if items == [] then [0x30]
    else
      var countWidth := StorageSize(|items| - 1);
      var itemWidth := ValueOffsetsWidth(items);
      [0x30 + 4 * itemWidth + countWidth]
      + LittleEndian(|items| - 1, WidthBytes(countWidth))
      + IntTable(ValueOffsets(items), WidthBytes(itemWidth))
      + Concat(items)
  }

  datatype Entry = Entry(key: bytes, value: bytes)

  function Keys(entries: seq<Entry>): (keys: seq<bytes>)
    ensures |keys| == |entries|
    ensures forall i :: 0 <= i < |entries| ==> keys[i] == entries[i].key
  {
    seq(|entries|, i requires 0 <= i < |entries| => entries[i].key)
  }

  function Values(entries: seq<Entry>): (values: seq<bytes>)
    ensures |values| == |entries|
    ensures forall i :: 0 <= i < |entries| ==> values[i] == entries[i].value
  {
    seq(|entries|, i requires 0 <= i < |entries| => entries[i].value)
  }

  // The entries must already be in their final order.
  function ObjectBytes(entries: seq<Entry>): (b: bytes)
    requires NoneEmpty(Values(entries))
    ensures b != []
  {
    if entries == [] then [0x40]
    else
      var keys, values := Keys(entries), Values(entries);
      var countWidth := StorageSize(|entries| - 1);
      var keyWidth := StorageSize(|Concat(keys)|);
      var valueWidth := ValueOffsetsWidth(values);
      [0x40 + 16 * valueWidth + 4 * keyWidth + countWidth]
      + LittleEndian(|entries| - 1, WidthBytes(countWidth))
      + IntTable(KeyOffsets(keys), WidthBytes(keyWidth))
      + IntTable(ValueOffsets(values), WidthBytes(valueWidth))
      + Concat(keys)
      + Concat(values)
  }
}
