// The order of object members: by hash, then length, then bytes of the key, and in order of
// insertion when the keys are equal.
module KeyOrder {
  import opened Bytes

  // rapidhash. The proofs hold for every hash function.
  type Hash = bytes -> nat

  // memcmp on two blocks of the same size
  function Memcmp(a: bytes, b: bytes): (c: int)
    requires |a| == |b|
  {
    if a == [] then 0
    else if a[0] != b[0] then (if a[0] < b[0] then -1 else 1)
    else Memcmp(a[1..], b[1..])
  }

  // _bijson_get_key_entry_cmp, and the same comparison in lib/writer/object.c
  function CompareKeys(h: Hash, a: bytes, b: bytes): int {
    if h(a) == h(b) then
      if |a| == |b| then Memcmp(a, b)
      else if |a| < |b| then -1 else 1
    else if h(a) < h(b) then -1 else 1
  }

  lemma {:induction false} MemcmpOrders(a: bytes, b: bytes, c: bytes)
    requires |a| == |b| == |c|
    ensures Memcmp(a, b) == 0 <==> a == b
    ensures Memcmp(a, b) == -Memcmp(b, a)
    ensures Memcmp(a, b) <= 0 && Memcmp(b, c) <= 0 ==> Memcmp(a, c) <= 0
  {
    if a != [] {
      MemcmpOrders(a[1..], b[1..], c[1..]);
      assert a == [a[0]] + a[1..] && b == [b[0]] + b[1..];
    }
  }

  // The first byte in which two blocks differ.
  predicate FirstDifference(a: bytes, b: bytes, i: nat) {
    i < |a| && i < |b| && a[..i] == b[..i] && a[i] != b[i]
  }

  lemma {:induction false} DifferenceBehind(a: bytes, b: bytes, i: nat)
    requires |a| == |b| > 0 && a[0] == b[0] && FirstDifference(a, b, i)
    ensures i > 0 && FirstDifference(a[1..], b[1..], i - 1)
  {
    assert a[1..][..i - 1] == a[..i][1..] && b[1..][..i - 1] == b[..i][1..];
  }

  lemma {:induction false} DifferenceBefore(a: bytes, b: bytes, i: nat)
    requires |a| == |b| > 0 && a[0] == b[0] && FirstDifference(a[1..], b[1..], i)
    ensures FirstDifference(a, b, i + 1)
  {
    assert a[..i + 1] == [a[0]] + a[1..][..i] && b[..i + 1] == [b[0]] + b[1..][..i];
  }

  predicate DiffersBelow(a: bytes, b: bytes, i: nat) {
    FirstDifference(a, b, i) && a[i] < b[i]
  }

  // Blocks are ordered as by a dictionary.
  lemma {:induction false} MemcmpMeans(a: bytes, b: bytes)
    requires |a| == |b|
    ensures Memcmp(a, b) < 0 <==> exists i: nat :: DiffersBelow(a, b, i)
  {
    if a != [] {
      MemcmpMeans(a[1..], b[1..]);
      if a[0] < b[0] {
        assert DiffersBelow(a, b, 0);
      } else if a[0] == b[0] {
        forall i: nat | DiffersBelow(a, b, i)
          ensures i > 0 && DiffersBelow(a[1..], b[1..], i - 1)
        {
          DifferenceBehind(a, b, i);
        }
        forall i: nat | DiffersBelow(a[1..], b[1..], i)
          ensures DiffersBelow(a, b, i + 1)
        {
          DifferenceBefore(a, b, i);
        }
      }
    }
  }

  // By hash, then by length, then by bytes.
  lemma {:induction false} KeysCompare(h: Hash, a: bytes, b: bytes)
    ensures CompareKeys(h, a, b) < 0 <==>
      || h(a) < h(b)
      || (h(a) == h(b) && |a| < |b|)
      || (h(a) == h(b) && |a| == |b| && exists i: nat :: DiffersBelow(a, b, i))
  {
    hide Memcmp;
    if |a| == |b| {
      MemcmpMeans(a, b);
    }
  }

  // A total order on keys, whatever the hash function does.
  lemma {:induction false} KeysAreOrdered(h: Hash, a: bytes, b: bytes, c: bytes)
    ensures CompareKeys(h, a, b) == 0 <==> a == b
    ensures CompareKeys(h, a, b) == -CompareKeys(h, b, a)
    ensures CompareKeys(h, a, b) <= 0 && CompareKeys(h, b, c) <= 0 ==> CompareKeys(h, a, c) <= 0
  {
    if |a| == |b| == |c| {
      MemcmpOrders(a, b, c);
    } else if |a| == |b| {
      MemcmpOrders(a, b, a);
    }
  }

  // ---------- Sorting ----------

  // _bijson_writer_object_object_item_cmp says "before": items x and y are told apart by
  // their keys or, for equal keys, by their positions.
  predicate Before(h: Hash, key: nat -> bytes, x: nat, y: nat) {
    var c := CompareKeys(h, key(x), key(y));
    c < 0 || (c == 0 && x < y)
  }

  lemma {:induction false} BeforeIsOrder(h: Hash, key: nat -> bytes, x: nat, y: nat, z: nat)
    ensures x != y ==> (Before(h, key, x, y) <==> !Before(h, key, y, x))
    ensures !Before(h, key, x, x)
    ensures Before(h, key, x, y) && Before(h, key, y, z) ==> Before(h, key, x, z)
  {
    KeysAreOrdered(h, key(x), key(y), key(z));
    KeysAreOrdered(h, key(z), key(x), key(y));
    KeysAreOrdered(h, key(x), key(x), key(x));
  }

  ghost predicate Sorted(h: Hash, key: nat -> bytes, s: seq<nat>) {
    forall i, j :: 0 <= i < j < |s| ==> Before(h, key, s[i], s[j])
  }

  function Insert(h: Hash, key: nat -> bytes, x: nat, s: seq<nat>): seq<nat> {
    if s == [] then [x]
    else if Before(h, key, x, s[0]) then [x] + s
    else [s[0]] + Insert(h, key, x, s[1..])
  }

  // A specification of sorting; SortIsUnique shows that no other result is possible.
  function Sort(h: Hash, key: nat -> bytes, s: seq<nat>): seq<nat> {
    if s == [] then [] else Insert(h, key, s[0], Sort(h, key, s[1..]))
  }

  predicate Distinct(s: seq<nat>) {
    forall i, j :: 0 <= i < j < |s| ==> s[i] != s[j]
  }

  lemma {:induction false} SortedCons(h: Hash, key: nat -> bytes, x: nat, s: seq<nat>)
    requires Sorted(h, key, s) && forall y :: y in s ==> Before(h, key, x, y)
    ensures Sorted(h, key, [x] + s)
  {
    forall i, j | 0 <= i < j < |s| + 1
      ensures Before(h, key, ([x] + s)[i], ([x] + s)[j])
    {
      if i > 0 {
        assert Before(h, key, s[i - 1], s[j - 1]);
      } else {
        assert s[j - 1] in s;
      }
    }
  }

  lemma {:induction false} InsertSorts(h: Hash, key: nat -> bytes, x: nat, s: seq<nat>)
    requires Sorted(h, key, s) && x !in s
    ensures Sorted(h, key, Insert(h, key, x, s))
    ensures multiset(Insert(h, key, x, s)) == multiset{x} + multiset(s)
  {
    hide Before;
    if s == [] {
    } else if Before(h, key, x, s[0]) {
      forall y | y in s
        ensures Before(h, key, x, y)
      {
        BeforeIsOrder(h, key, x, s[0], y);
      }
      SortedCons(h, key, x, s);
    } else {
      assert s == [s[0]] + s[1..];
      InsertSorts(h, key, x, s[1..]);
      BeforeIsOrder(h, key, x, s[0], x);
      forall y | y in Insert(h, key, x, s[1..])
        ensures Before(h, key, s[0], y)
      {
        assert y in multiset(Insert(h, key, x, s[1..]));
      }
      SortedCons(h, key, s[0], Insert(h, key, x, s[1..]));
    }
  }

  lemma {:induction false} SortSorts(h: Hash, key: nat -> bytes, s: seq<nat>)
    requires Distinct(s)
    ensures Sorted(h, key, Sort(h, key, s))
    ensures multiset(Sort(h, key, s)) == multiset(s)
  {
    if s != [] {
      SortSorts(h, key, s[1..]);
      assert s == [s[0]] + s[1..];
      assert s[0] !in multiset(s[1..]);
      InsertSorts(h, key, s[0], Sort(h, key, s[1..]));
    }
  }

  // Whatever algorithm qsort uses: a sorted rearrangement is the only one.
  lemma {:induction false} SortIsUnique(h: Hash, key: nat -> bytes, a: seq<nat>, b: seq<nat>)
    requires Sorted(h, key, a) && Sorted(h, key, b) && multiset(a) == multiset(b)
    ensures a == b
  {
    hide Before;
    assert |multiset(a)| == |a| && |multiset(b)| == |b|;
    if a != [] {
      FirstOfSorted(h, key, a, b);
      assert a == [a[0]] + a[1..] && b == [b[0]] + b[1..];
      assert multiset(a[1..]) == multiset(a) - multiset{a[0]};
      SortIsUnique(h, key, a[1..], b[1..]);
    }
  }

  lemma {:induction false} FirstOfSorted(h: Hash, key: nat -> bytes, a: seq<nat>, b: seq<nat>)
    requires Sorted(h, key, a) && Sorted(h, key, b) && multiset(a) == multiset(b) && a != [] && b != []
    ensures a[0] == b[0]
  {
    hide Before;
    assert a[0] in multiset(b) && b[0] in multiset(a);
    var i :| 0 <= i < |b| && b[i] == a[0];
    var j :| 0 <= j < |a| && a[j] == b[0];
    BeforeIsOrder(h, key, a[0], b[0], a[0]);
  }

  // ---------- The order of a list of keys ----------

  function Upto(n: nat): (s: seq<nat>)
    ensures |s| == n && forall i :: 0 <= i < n ==> s[i] == i
  {
    seq(n, i => i)
  }

  function KeyAt(keys: seq<bytes>): nat -> bytes {
    (i: nat) => if i < |keys| then keys[i] else []
  }

  // The positions of the keys, in the order in which the writer emits them.
  function Order(h: Hash, keys: seq<bytes>): seq<nat> {
    Sort(h, KeyAt(keys), Upto(|keys|))
  }

  predicate Selects(order: seq<nat>, n: nat) {
    forall i :: 0 <= i < |order| ==> order[i] < n
  }

  function Pick<T>(s: seq<T>, order: seq<nat>): (r: seq<T>)
    requires Selects(order, |s|)
    ensures |r| == |order| && forall i :: 0 <= i < |order| ==> r[i] == s[order[i]]
  {
    seq(|order|, i requires 0 <= i < |order| => s[order[i]])
  }

  lemma {:induction false} OrderSelects(h: Hash, keys: seq<bytes>)
    ensures |Order(h, keys)| == |keys| && Selects(Order(h, keys), |keys|)
    ensures Sorted(h, KeyAt(keys), Order(h, keys))
    ensures multiset(Order(h, keys)) == multiset(Upto(|keys|))
  {
    var order := Order(h, keys);
    SortSorts(h, KeyAt(keys), Upto(|keys|));
    assert |multiset(order)| == |order|;
    forall i | 0 <= i < |order|
      ensures order[i] < |keys|
    {
      assert order[i] in multiset(order);
    }
  }

  // Every position occurs in the order.
  lemma {:induction false} OrderCovers(h: Hash, keys: seq<bytes>, i: nat)
    requires i < |keys|
    ensures i in Order(h, keys)
  {
    OrderSelects(h, keys);
    assert Upto(|keys|)[i] == i;
    assert i in multiset(Order(h, keys));
  }

  lemma {:induction false} PickConcat<T>(s: seq<T>, a: seq<nat>, b: seq<nat>)
    requires Selects(a, |s|) && Selects(b, |s|)
    ensures Selects(a + b, |s|) && Pick(s, a + b) == Pick(s, a) + Pick(s, b)
  {
  }

  function Without(s: seq<nat>, j: nat): seq<nat>
    requires j < |s|
  {
    s[..j] + s[j + 1..]
  }

  lemma {:induction false} PickWithout<T>(s: seq<T>, b: seq<nat>, j: nat)
    requires Selects(b, |s|) && j < |b|
    ensures Selects(Without(b, j), |s|)
    ensures multiset(Without(b, j)) == multiset(b) - multiset{b[j]}
    ensures multiset(Pick(s, b)) == multiset{s[b[j]]} + multiset(Pick(s, Without(b, j)))
  {
    hide Pick;
    var left, right := b[..j], b[j + 1..];
    assert b == left + ([b[j]] + right);
    PickConcat(s, left, right);
    PickConcat(s, [b[j]], right);
    PickConcat(s, left, [b[j]] + right);
    PickOne(s, b[j]);
  }

  lemma {:induction false} PickOne<T>(s: seq<T>, i: nat)
    requires i < |s|
    ensures Selects([i], |s|) && Pick(s, [i]) == [s[i]]
  {
  }

  lemma {:induction false} PickPermutes<T>(s: seq<T>, a: seq<nat>, b: seq<nat>)
    requires Selects(a, |s|) && Selects(b, |s|) && multiset(a) == multiset(b)
    ensures multiset(Pick(s, a)) == multiset(Pick(s, b))
    decreases |a|
  {
    assert |multiset(a)| == |a| && |multiset(b)| == |b|;
    if a != [] {
      assert a[0] in multiset(b);
      var j :| 0 <= j < |b| && b[j] == a[0];
      PickWithout(s, a, 0);
      PickWithout(s, b, j);
      PickPermutes(s, Without(a, 0), Without(b, j));
    }
  }

  lemma {:induction false} PickAll<T>(s: seq<T>)
    ensures Pick(s, Upto(|s|)) == s
  {
  }

  // Sorting rearranges and loses nothing.
  lemma {:induction false} OrderPermutes<T>(h: Hash, keys: seq<bytes>, s: seq<T>)
    requires |s| == |keys|
    ensures Selects(Order(h, keys), |s|)
    ensures multiset(Pick(s, Order(h, keys))) == multiset(s)
  {
    OrderSelects(h, keys);
    PickPermutes(s, Order(h, keys), Upto(|s|));
    PickAll(s);
  }

  predicate Ascending(positions: seq<nat>) {
    forall i, j :: 0 <= i < j < |positions| ==> positions[i] < positions[j]
  }

  // Sorting pointers into the spool is sorting the keys they point at: since the pointers
  // ascend, breaking ties by address breaks them by order of insertion.
  lemma {:induction false} SortedPositions(h: Hash, key: nat -> bytes, keys: seq<bytes>, positions: seq<nat>, sorted: seq<nat>)
    requires |positions| == |keys| && Ascending(positions)
    requires forall i :: 0 <= i < |keys| ==> key(positions[i]) == keys[i]
    requires multiset(sorted) == multiset(positions) && Sorted(h, key, sorted)
    ensures Selects(Order(h, keys), |positions|)
    ensures sorted == Pick(positions, Order(h, keys))
  {
    var order := Order(h, keys);
    OrderSelects(h, keys);
    var picked := Pick(positions, order);
    forall i, j | 0 <= i < j < |picked|
      ensures Before(h, key, picked[i], picked[j])
    {
      assert Before(h, KeyAt(keys), order[i], order[j]);
    }
    OrderPermutes(h, keys, positions);
    SortIsUnique(h, key, sorted, picked);
  }

  // The last member: every other one comes before it.
  lemma {:induction false} LastInOrder(h: Hash, keys: seq<bytes>, last: nat)
    requires last < |keys|
    requires forall i :: 0 <= i < |keys| && i != last ==> Before(h, KeyAt(keys), i, last)
    ensures |Order(h, keys)| == |keys| && Order(h, keys)[|keys| - 1] == last
  {
    var order := Order(h, keys);
    OrderSelects(h, keys);
    OrderCovers(h, keys, last);
    var i :| 0 <= i < |order| && order[i] == last;
    if i < |order| - 1 {
      var y := order[|order| - 1];
      assert Before(h, KeyAt(keys), last, y);
      BeforeIsOrder(h, KeyAt(keys), last, y, last);
      assert false;
    }
  }

  ghost predicate KeysSorted(h: Hash, keys: seq<bytes>) {
    forall i, j :: 0 <= i < j < |keys| ==> CompareKeys(h, keys[i], keys[j]) <= 0
  }

  lemma {:induction false} OrderSortsKeys(h: Hash, keys: seq<bytes>)
    ensures Selects(Order(h, keys), |keys|) && KeysSorted(h, Pick(keys, Order(h, keys)))
  {
    OrderSelects(h, keys);
    var order := Order(h, keys);
    forall i, j | 0 <= i < j < |order|
      ensures CompareKeys(h, keys[order[i]], keys[order[j]]) <= 0
    {
      assert Before(h, KeyAt(keys), order[i], order[j]);
    }
  }

  // Sorting what is sorted changes nothing, which makes the emitted form canonical.
  lemma {:induction false} OrderOfSorted(h: Hash, keys: seq<bytes>)
    requires KeysSorted(h, keys)
    ensures Order(h, keys) == Upto(|keys|)
  {
    var all := Upto(|keys|);
    OrderSelects(h, keys);
    forall i, j | 0 <= i < j < |all|
      ensures Before(h, KeyAt(keys), all[i], all[j])
    {
      assert CompareKeys(h, keys[i], keys[j]) <= 0;
    }
    SortIsUnique(h, KeyAt(keys), Order(h, keys), all);
  }

  // Members with equal keys stay in order of insertion.
  lemma {:induction false} OrderIsStable(h: Hash, keys: seq<bytes>, i: nat, j: nat)
    requires i < j < |Order(h, keys)|
    ensures Order(h, keys)[i] < |keys| && Order(h, keys)[j] < |keys|
    ensures keys[Order(h, keys)[i]] == keys[Order(h, keys)[j]] ==> Order(h, keys)[i] < Order(h, keys)[j]
  {
    OrderSelects(h, keys);
    var x, y := Order(h, keys)[i], Order(h, keys)[j];
    assert Before(h, KeyAt(keys), x, y);
    KeysAreOrdered(h, keys[x], keys[y], keys[x]);
  }
}
