// Print, parse, write again: the canonical fixpoint of documents without numbers.
module Fixpoint {
  import opened Wrappers
  import opened Bytes
  import opened Layout
  import opened KeyOrder
  import opened Utf8
  import opened Tree
  import opened Document
  import opened Retrieve
  import opened Escape
  import opened Json
  import opened Grammar

  // ---------- Documents that JSON can express exactly ----------

  predicate PlainScalar(data: bytes) {
    || data == [NULL] || data == [FALSE] || data == [TRUE]
    || (data != [] && data[0] == STRING && ValidUtf8(data[1..]))
  }

  predicate NumberFree(t: Value) {
    match t
    case Scalar(data) => PlainScalar(data)
    case Array(items) => forall i :: 0 <= i < |items| ==> NumberFree(items[i])
    case Object(pairs) => forall i :: 0 <= i < |pairs| ==> NumberFreePair(pairs[i])
  }

  predicate NumberFreePair(p: Pair) {
    ValidUtf8(p.key) && NumberFree(p.value)
  }

  predicate AllNumberFree(items: seq<Value>) {
    forall i :: 0 <= i < |items| ==> NumberFree(items[i])
  }

  predicate AllPairsNumberFree(pairs: seq<Pair>) {
    forall i :: 0 <= i < |pairs| ==> NumberFreePair(pairs[i])
  }

  lemma {:induction false} NumberFreeWellFormed(t: Value)
    requires NumberFree(t)
    ensures WellFormed(t)
    decreases t
  {
    hide ValidUtf8;
    match t
    case Scalar(_) =>
    case Array(items) =>
      forall i | 0 <= i < |items|
        ensures WellFormed(items[i])
      {
        NumberFreeWellFormed(items[i]);
      }
    case Object(pairs) =>
      forall i | 0 <= i < |pairs|
        ensures WellFormedPair(pairs[i])
      {
        assert NumberFreePair(pairs[i]);
        NumberFreeWellFormed(pairs[i].value);
      }
  }

  // ---------- The text ----------

  function ScalarJson(data: bytes): bytes
    requires PlainScalar(data)
  {
    if data[0] == NULL then NULL_TEXT
    else if data[0] == FALSE then FALSE_TEXT
    else if data[0] == TRUE then TRUE_TEXT
    else Quoted(data[1..])
  }

  function Text(t: Value): bytes
    requires NumberFree(t)
    decreases t, 1, 0
  {
    match t
    case Scalar(data) => ScalarJson(data)
    case Array(items) => [OPEN_BRACKET] + ItemsText(items, |items|) + [CLOSE_BRACKET]
    case Object(pairs) => [OPEN_BRACE] + PairsText(pairs, |pairs|) + [CLOSE_BRACE]
  }

  function ItemsText(items: seq<Value>, n: nat): bytes
    requires AllNumberFree(items) && n <= |items|
    decreases items, 0, n
  {
    if n == 0 then [] else ItemsText(items, n - 1) + Comma(n - 1) + Text(items[n - 1])
  }

  function PairText(p: Pair): bytes
    requires NumberFreePair(p)
    decreases p, 2, 0
  {
    Quoted(p.key) + [COLON] + Text(p.value)
  }

  function PairsText(pairs: seq<Pair>, n: nat): bytes
    requires AllPairsNumberFree(pairs) && n <= |pairs|
    decreases pairs, 0, n
  {
    if n == 0 then [] else PairsText(pairs, n - 1) + Comma(n - 1) + PairText(pairs[n - 1])
  }

  // Printing such a document succeeds, with this text.
  lemma {:induction false} PrintsText(t: Value)
    requires NumberFree(t)
    ensures WellFormed(t) && Print(t) == Ok(Text(t))
    decreases t, 1, 0
  {
    hide ValidUtf8, Quoted;
    NumberFreeWellFormed(t);
    match t
    case Scalar(_) =>
    case Array(items) => PrintsItems(items, |items|);
    case Object(pairs) => PrintsPairs(pairs, |pairs|);
  }

  lemma {:induction false} PrintsItems(items: seq<Value>, n: nat)
    requires AllNumberFree(items) && AllWellFormed(items) && n <= |items|
    ensures PrintItems(items, n) == Ok(ItemsText(items, n))
    decreases items, 0, n
  {
    hide NumberFree, WellFormed, Text, Print;
    if n > 0 {
      PrintsItems(items, n - 1);
      PrintsText(items[n - 1]);
    }
  }

  lemma {:induction false} PrintsPairs(pairs: seq<Pair>, n: nat)
    requires AllPairsNumberFree(pairs) && AllPairsWellFormed(pairs) && n <= |pairs|
    ensures PrintPairs(pairs, n) == Ok(PairsText(pairs, n))
    decreases pairs, 0, n
  {
    hide NumberFree, WellFormed, Text, Print, Quoted, ValidUtf8;
    if n > 0 {
      var p := pairs[n - 1];
      assert NumberFreePair(p) && WellFormedPair(p);
      PrintsPairs(pairs, n - 1);
      PrintsText(p.value);
      Join4(PairsText(pairs, n - 1), Comma(n - 1), Quoted(p.key), [COLON], Text(p.value));
    }
  }

  lemma {:induction false} Join4(a: bytes, b: bytes, c: bytes, d: bytes, e: bytes)
    ensures a + (b + c + d + e) == a + b + (c + d + e)
  {
  }

  // ---------- Reading the text back ----------

  lemma {:induction false} AtPrefix(buf: bytes, pos: nat, a: bytes, b: bytes)
    requires At(buf, pos, b) && a <= b
    ensures At(buf, pos, a)
  {
    AtSplit(buf, pos, a, b[|a|..]);
    assert a + b[|a|..] == b;
  }

  lemma {:induction false} CharAt(buf: bytes, pos: nat, a: bytes, c: byte)
    requires At(buf, pos, a + [c])
    ensures At(buf, pos, a) && pos + |a| < |buf| && buf[pos + |a|] == c
  {
    AtSplit(buf, pos, a, [c]);
    assert buf[pos + |a|..pos + |a| + 1][0] == buf[pos + |a|];
  }

  // How a text begins: never with whitespace or a closing bracket.
  predicate StartsValue(c: byte) {
    c == OPEN_BRACKET || c == OPEN_BRACE || c == QUOTE || c == 0x6E || c == 0x66 || c == 0x74
  }

  lemma {:induction false} TextStarts(t: Value, buf: bytes, pos: nat)
    requires NumberFree(t) && At(buf, pos, Text(t))
    ensures Text(t) != [] && pos + |Text(t)| <= |buf| && StartsValue(buf[pos])
    ensures SkipWs(buf, pos) == Some(pos)
  {
    hide ItemsText, PairsText, EscapeAll, ValidUtf8;
    assert StartsValue(Text(t)[0]);
    assert buf[pos..pos + |Text(t)|][0] == buf[pos];
  }

  lemma {:induction false} QuotedReads(s: bytes, buf: bytes, pos: nat)
    requires ValidUtf8(s) && At(buf, pos, Quoted(s))
    ensures pos < |buf| && buf[pos] == QUOTE
    ensures StringAt(buf, pos) == Some((s, pos + |Quoted(s)|))
  {
    hide EscapeAll, Unescape, ValidUtf8;
    var inner := EscapeAll(s) + [QUOTE];
    assert Quoted(s) == [QUOTE] + inner;
    AtSplit(buf, pos, [QUOTE], inner);
    assert buf[pos..pos + 1][0] == buf[pos];
    EscapeRoundTrip(s, buf, pos + 1);
  }

  // Where "true" is the very last thing, the parser refuses it.
  predicate CutShort(t: Value, buf: bytes, pos: nat) {
    t == Scalar([TRUE]) && pos + 4 == |buf|
  }

  // Reading the text of a document gives the document back, unless it is "true" at the end.
  lemma {:induction false} TextParses(decimals: Decimals, t: Value, buf: bytes, pos: nat)
    requires NumberFree(t) && At(buf, pos, Text(t))
    ensures ParseValue(decimals, buf, pos) ==
      (if CutShort(t, buf, pos) then None else Some((t, pos + |Text(t)|)))
    decreases t, 1, 0
  {
    hide ItemsText, PairsText, ScalarAt, SkipWs, At, ParseItem, ParsePair, NumberFree;
    TextStarts(t, buf, pos);
    match t
    case Scalar(data) => ScalarParses(decimals, t, buf, pos);
    case Array(items) => ArrayParses(decimals, items, buf, pos);
    case Object(pairs) => ObjectParses(decimals, pairs, buf, pos);
  }

  lemma {:induction false} ScalarParses(decimals: Decimals, t: Value, buf: bytes, pos: nat)
    requires NumberFree(t) && t.Scalar? && At(buf, pos, Text(t)) && SkipWs(buf, pos) == Some(pos)
    ensures ParseValue(decimals, buf, pos) ==
      (if CutShort(t, buf, pos) then None else Some((t, pos + |Text(t)|)))
  {
    hide SkipWs, StringAt, NumberAt, Quoted, ValidUtf8;
    if t.data[0] == STRING {
      QuotedReads(t.data[1..], buf, pos);
      assert [STRING] + t.data[1..] == t.data;
    } else {
      assert buf[pos..pos + |Text(t)|][0] == buf[pos];
    }
  }

  lemma {:induction false} ItemsTextPrefix(items: seq<Value>, k: nat, n: nat)
    requires AllNumberFree(items) && k <= n <= |items|
    ensures ItemsText(items, k) <= ItemsText(items, n)
    ensures k < n ==> ItemsText(items, k) + Comma(k) + Text(items[k]) <= ItemsText(items, n)
  {
    hide NumberFree, Text, Comma;
    if k < n {
      ItemsTextPrefix(items, k, n - 1);
    }
  }

  // The text of item k and the character behind it.
  lemma {:induction false} ItemAt(items: seq<Value>, buf: bytes, pos: nat, k: nat)
    requires AllNumberFree(items) && k < |items|
    requires At(buf, pos, ItemsText(items, |items|) + [CLOSE_BRACKET])
    ensures At(buf, pos + |ItemsText(items, k)| + |Comma(k)|, Text(items[k]))
    ensures var end := pos + |ItemsText(items, k + 1)|;
      && end == pos + |ItemsText(items, k)| + |Comma(k)| + |Text(items[k])|
      && end < |buf| && buf[end] == if k + 1 == |items| then CLOSE_BRACKET else COMMA
  {
    hide NumberFree, Text, ItemsText, At;
    var all := ItemsText(items, |items|);
    var before, text := ItemsText(items, k) + Comma(k), Text(items[k]);
    ItemsTextStep(items, k);
    CharAt(buf, pos, all, CLOSE_BRACKET);
    ItemsTextPrefix(items, k, |items|);
    AtPrefix(buf, pos, before + text, all);
    AtSplit(buf, pos, before, text);
    if k + 1 < |items| {
      ItemsTextPrefix(items, k + 1, |items|);
      assert ItemsText(items, k + 1) + [COMMA] <= all;
      AtPrefix(buf, pos, ItemsText(items, k + 1) + [COMMA], all);
      CharAt(buf, pos, ItemsText(items, k + 1), COMMA);
    }
  }

  lemma {:induction false} ItemsTextStep(items: seq<Value>, k: nat)
    requires AllNumberFree(items) && k < |items|
    ensures ItemsText(items, k + 1) == ItemsText(items, k) + Comma(k) + Text(items[k])
    ensures ItemsText(items, 0) == []
  {
    hide NumberFree, Text;
  }

  // From item k on, with the items before it already read.
  lemma {:induction false} ItemParses(decimals: Decimals, items: seq<Value>, buf: bytes, pos: nat, k: nat)
    requires AllNumberFree(items) && k < |items|
    requires At(buf, pos, ItemsText(items, |items|) + [CLOSE_BRACKET])
    ensures ParseItem(decimals, buf, pos + |ItemsText(items, k)| + |Comma(k)|, items[..k])
         == Some((Array(items), pos + |ItemsText(items, |items|)| + 1))
    decreases items, 0, |items| - k
  {
    hide NumberFree, Text, ItemsText, At, ParseValue, SkipWs;
    var start, end := pos + |ItemsText(items, k)| + |Comma(k)|, pos + |ItemsText(items, k + 1)|;
    ItemAt(items, buf, pos, k);
    TextParses(decimals, items[k], buf, start);
    TrueIsShort(items[k]);
    assert items[..k] + [items[k]] == items[..k + 1];
    SkipsNone(buf, end);
    if k + 1 < |items| {
      ItemParses(decimals, items, buf, pos, k + 1);
    } else {
      assert items[..k + 1] == items;
    }
  }

  lemma {:induction false} TrueIsShort(t: Value)
    requires NumberFree(t)
    ensures t == Scalar([TRUE]) ==> |Text(t)| == 4
  {
  }

  lemma {:induction false} SkipsNone(buf: bytes, pos: nat)
    requires pos < |buf| && !IsWs(buf[pos])
    ensures SkipWs(buf, pos) == Some(pos)
  {
  }

  lemma {:induction false} ArrayParses(decimals: Decimals, items: seq<Value>, buf: bytes, pos: nat)
    requires NumberFree(Array(items)) && At(buf, pos, Text(Array(items))) && SkipWs(buf, pos) == Some(pos)
    ensures ParseValue(decimals, buf, pos) == Some((Array(items), pos + |Text(Array(items))|))
    decreases items, 1, 0
  {
    hide NumberFree, ItemsText, At, SkipWs, ParseItem, Text;
    ArrayText(items);
    Enclosed(buf, pos, OPEN_BRACKET, ItemsText(items, |items|), CLOSE_BRACKET);
    if items == [] {
      EmptyText(items);
      Empty(buf, pos + 1, CLOSE_BRACKET);
      SkipsNone(buf, pos + 1);
    } else {
      ItemsTextStep(items, 0);
      ItemAt(items, buf, pos + 1, 0);
      TextStarts(items[0], buf, pos + 1);
      ItemParses(decimals, items, buf, pos + 1, 0);
      assert items[..0] == [];
    }
  }

  lemma {:induction false} ArrayText(items: seq<Value>)
    requires NumberFree(Array(items))
    ensures AllNumberFree(items)
    ensures Text(Array(items)) == [OPEN_BRACKET] + ItemsText(items, |items|) + [CLOSE_BRACKET]
  {
    hide ItemsText;
  }

  lemma {:induction false} Enclosed(buf: bytes, pos: nat, first: byte, body: bytes, last: byte)
    requires At(buf, pos, [first] + body + [last])
    ensures pos < |buf| && buf[pos] == first && At(buf, pos + 1, body + [last])
  {
    hide At;
    assert [first] + body + [last] == [] + [first] + (body + [last]);
    AtSplit(buf, pos, [] + [first], body + [last]);
    CharAt(buf, pos, [], first);
  }

  lemma {:induction false} Empty(buf: bytes, pos: nat, last: byte)
    requires At(buf, pos, [] + [last])
    ensures pos < |buf| && buf[pos] == last
  {
    CharAt(buf, pos, [], last);
  }

  lemma {:induction false} EmptyText(items: seq<Value>)
    requires items == []
    ensures ItemsText(items, 0) == []
  {
  }

  lemma {:induction false} PairsTextStep(pairs: seq<Pair>, k: nat)
    requires AllPairsNumberFree(pairs) && k < |pairs|
    ensures PairsText(pairs, k + 1) == PairsText(pairs, k) + Comma(k) + PairText(pairs[k])
    ensures PairsText(pairs, 0) == []
  {
    hide NumberFreePair, PairText;
  }

  lemma {:induction false} PairsTextPrefix(pairs: seq<Pair>, k: nat, n: nat)
    requires AllPairsNumberFree(pairs) && k <= n <= |pairs|
    ensures PairsText(pairs, k) <= PairsText(pairs, n)
    ensures k < n ==> PairsText(pairs, k) + Comma(k) + PairText(pairs[k]) <= PairsText(pairs, n)
  {
    hide NumberFreePair, PairText, Comma;
    if k < n {
      PairsTextPrefix(pairs, k, n - 1);
    }
  }

  // The text of pair k and the character behind it.
  lemma {:induction false} PairAt(pairs: seq<Pair>, buf: bytes, pos: nat, k: nat)
    requires AllPairsNumberFree(pairs) && k < |pairs|
    requires At(buf, pos, PairsText(pairs, |pairs|) + [CLOSE_BRACE])
    ensures At(buf, pos + |PairsText(pairs, k)| + |Comma(k)|, PairText(pairs[k]))
    ensures var end := pos + |PairsText(pairs, k + 1)|;
      && end == pos + |PairsText(pairs, k)| + |Comma(k)| + |PairText(pairs[k])|
      && end < |buf| && buf[end] == if k + 1 == |pairs| then CLOSE_BRACE else COMMA
  {
    hide NumberFreePair, PairText, PairsText, At;
    var all := PairsText(pairs, |pairs|);
    var before, text := PairsText(pairs, k) + Comma(k), PairText(pairs[k]);
    PairsTextStep(pairs, k);
    CharAt(buf, pos, all, CLOSE_BRACE);
    PairsTextPrefix(pairs, k, |pairs|);
    AtPrefix(buf, pos, before + text, all);
    AtSplit(buf, pos, before, text);
    if k + 1 < |pairs| {
      PairsTextPrefix(pairs, k + 1, |pairs|);
      assert PairsText(pairs, k + 1) + [COMMA] <= all;
      AtPrefix(buf, pos, PairsText(pairs, k + 1) + [COMMA], all);
      CharAt(buf, pos, PairsText(pairs, k + 1), COMMA);
    }
  }

  // The key of a pair, the colon, and the text of its value.
  lemma {:induction false} KeyReads(p: Pair, buf: bytes, pos: nat)
    requires NumberFreePair(p) && At(buf, pos, PairText(p))
    ensures pos < |buf| && buf[pos] == QUOTE
    ensures ParseKey(buf, pos) == Some((p.key, pos + |Quoted(p.key)| + 1))
    ensures At(buf, pos + |Quoted(p.key)| + 1, Text(p.value))
  {
    hide NumberFree, Text, At, SkipWs, StringAt, ValidUtf8, Quoted;
    var key, value := Quoted(p.key), Text(p.value);
    AtSplit(buf, pos, key + [COLON], value);
    CharAt(buf, pos, key, COLON);
    QuotedReads(p.key, buf, pos);
    SkipsNone(buf, pos);
    SkipsNone(buf, pos + |key|);
  }

  lemma {:induction false} PairParses(decimals: Decimals, pairs: seq<Pair>, buf: bytes, pos: nat, k: nat)
    requires AllPairsNumberFree(pairs) && k < |pairs|
    requires At(buf, pos, PairsText(pairs, |pairs|) + [CLOSE_BRACE])
    ensures ParsePair(decimals, buf, pos + |PairsText(pairs, k)| + |Comma(k)|, pairs[..k])
         == Some((Object(pairs), pos + |PairsText(pairs, |pairs|)| + 1))
    decreases pairs, 0, |pairs| - k
  {
    hide NumberFree, PairsText, At, ParseValue, SkipWs, ParseKey, ValidUtf8, Quoted;
    var start, end := pos + |PairsText(pairs, k)| + |Comma(k)|, pos + |PairsText(pairs, k + 1)|;
    var key, value := pairs[k].key, start + |Quoted(pairs[k].key)| + 1;
    PairAt(pairs, buf, pos, k);
    assert NumberFreePair(pairs[k]);
    KeyReads(pairs[k], buf, start);
    TextParses(decimals, pairs[k].value, buf, value);
    TrueIsShort(pairs[k].value);
    hide Text;
    assert value + |Text(pairs[k].value)| == end;
    assert pairs[..k] + [Pair(key, pairs[k].value)] == pairs[..k + 1];
    SkipsNone(buf, end);
    assert ParseMember(decimals, buf, value, pairs[..k], key) == AfterPair(decimals, buf, end, pairs[..k + 1]);
    if k + 1 < |pairs| {
      PairParses(decimals, pairs, buf, pos, k + 1);
    } else {
      assert pairs[..k + 1] == pairs;
    }
  }

  lemma {:induction false} ObjectParses(decimals: Decimals, pairs: seq<Pair>, buf: bytes, pos: nat)
    requires NumberFree(Object(pairs)) && At(buf, pos, Text(Object(pairs))) && SkipWs(buf, pos) == Some(pos)
    ensures ParseValue(decimals, buf, pos) == Some((Object(pairs), pos + |Text(Object(pairs))|))
    decreases pairs, 1, 0
  {
    hide NumberFree, PairsText, At, SkipWs, ParsePair, Text, ParseKey, ValidUtf8;
    ObjectText(pairs);
    Enclosed(buf, pos, OPEN_BRACE, PairsText(pairs, |pairs|), CLOSE_BRACE);
    if pairs == [] {
      EmptyPairsText(pairs);
      Empty(buf, pos + 1, CLOSE_BRACE);
      SkipsNone(buf, pos + 1);
    } else {
      PairsTextStep(pairs, 0);
      PairAt(pairs, buf, pos + 1, 0);
      assert NumberFreePair(pairs[0]);
      KeyReads(pairs[0], buf, pos + 1);
      SkipsNone(buf, pos + 1);
      PairParses(decimals, pairs, buf, pos + 1, 0);
      assert pairs[..0] == [];
    }
  }

  lemma {:induction false} ObjectText(pairs: seq<Pair>)
    requires NumberFree(Object(pairs))
    ensures AllPairsNumberFree(pairs)
    ensures Text(Object(pairs)) == [OPEN_BRACE] + PairsText(pairs, |pairs|) + [CLOSE_BRACE]
  {
    hide PairsText, ValidUtf8;
  }

  lemma {:induction false} EmptyPairsText(pairs: seq<Pair>)
    requires pairs == []
    ensures PairsText(pairs, 0) == []
  {
  }

  // ---------- Writing again ----------

  // An object in canonical form: its keys are already in order.
  lemma {:induction false} CanonicalOrder(h: Hash, pairs: seq<Pair>)
    ensures var order := Order(h, PairKeys(pairs));
      && Selects(order, |pairs|) && |order| == |pairs|
      && Canonical(h, Object(pairs)) == Object(Pick(CanonicalPairs(h, pairs), order))
      && PairKeys(Pick(CanonicalPairs(h, pairs), order)) == Pick(PairKeys(pairs), order)
      && Order(h, Pick(PairKeys(pairs), order)) == Upto(|pairs|)
  {
    hide Order, Sorted;
    var keys, order := PairKeys(pairs), Order(h, PairKeys(pairs));
    OrderSelects(h, keys);
    OrderSortsKeys(h, keys);
    OrderOfSorted(h, Pick(keys, order));
    assert PairKeys(Pick(CanonicalPairs(h, pairs), order)) == Pick(keys, order);
  }

  // The canonical form is written as the same bytes.
  lemma {:induction false} CanonicalEncodes(h: Hash, t: Value)
    requires WellFormed(t)
    ensures WellFormed(Canonical(h, t)) && Encode(h, Canonical(h, t)) == Encode(h, t)
    decreases t
  {
    hide ValidUtf8, Order, ArrayBytes, ObjectBytes;
    CanonicalWellFormed(h, t);
    match t
    case Scalar(_) =>
    case Array(items) =>
      var canonical := CanonicalItems(h, items);
      forall i | 0 <= i < |items|
        ensures Encode(h, canonical[i]) == Encode(h, items[i])
      {
        CanonicalEncodes(h, items[i]);
      }
      assert EncodeItems(h, canonical) == EncodeItems(h, items);
    case Object(pairs) => CanonicalPairsEncode(h, pairs);
  }

  lemma {:induction false} CanonicalPairsEncode(h: Hash, pairs: seq<Pair>)
    requires AllPairsWellFormed(pairs) && WellFormed(Canonical(h, Object(pairs)))
    ensures Encode(h, Canonical(h, Object(pairs))) == Encode(h, Object(pairs))
    decreases pairs
  {
    hide ValidUtf8, Order, ObjectBytes, Canonical, Encode;
    var order := Order(h, PairKeys(pairs));
    CanonicalOrder(h, pairs);
    var canonical := Pick(CanonicalPairs(h, pairs), order);
    EncodesObject(h, canonical);
    EncodesObject(h, pairs);
    var again, first := SortedEntries(h, canonical), SortedEntries(h, pairs);
    forall i | 0 <= i < |pairs|
      ensures again[i] == first[i]
    {
      assert WellFormedPair(pairs[order[i]]);
      CanonicalEncodes(h, pairs[order[i]].value);
    }
    assert again == first;
  }

  lemma {:induction false} EncodesObject(h: Hash, pairs: seq<Pair>)
    requires WellFormed(Object(pairs))
    ensures AllPairsWellFormed(pairs) && Encode(h, Object(pairs)) == ObjectBytes(SortedEntries(h, pairs))
  {
    hide ValidUtf8, ObjectBytes, SortedEntries;
  }

  // It is its own canonical form.
  lemma {:induction false} CanonicalOnce(h: Hash, t: Value)
    ensures Canonical(h, Canonical(h, t)) == Canonical(h, t)
    decreases t
  {
    hide Order;
    match t
    case Scalar(_) =>
    case Array(items) =>
      forall i | 0 <= i < |items|
        ensures Canonical(h, Canonical(h, items[i])) == Canonical(h, items[i])
      {
        CanonicalOnce(h, items[i]);
      }
      assert CanonicalItems(h, CanonicalItems(h, items)) == CanonicalItems(h, items);
    case Object(pairs) =>
      var order := Order(h, PairKeys(pairs));
      CanonicalOrder(h, pairs);
      var canonical := Pick(CanonicalPairs(h, pairs), order);
      forall i | 0 <= i < |pairs|
        ensures Canonical(h, canonical[i].value) == canonical[i].value
      {
        CanonicalOnce(h, pairs[order[i]].value);
      }
      assert CanonicalPairs(h, canonical) == canonical;
      PickAll(canonical);
  }

  lemma {:induction false} CanonicalNumberFree(h: Hash, t: Value)
    requires NumberFree(t)
    ensures NumberFree(Canonical(h, t))
    decreases t
  {
    hide ValidUtf8, Order;
    match t
    case Scalar(_) =>
    case Array(items) =>
      forall i | 0 <= i < |items|
        ensures NumberFree(CanonicalItems(h, items)[i])
      {
        CanonicalNumberFree(h, items[i]);
      }
    case Object(pairs) =>
      OrderSelects(h, PairKeys(pairs));
      forall i | 0 <= i < |pairs|
        ensures NumberFreePair(CanonicalPairs(h, pairs)[i])
      {
        assert NumberFreePair(pairs[i]);
        CanonicalNumberFree(h, pairs[i].value);
      }
      assert AllPairsNumberFree(Pick(CanonicalPairs(h, pairs), Order(h, PairKeys(pairs))));
  }

  lemma {:induction false} AtStart(s: bytes)
    ensures At(s, 0, s)
  {
  }

  // Printing a written document without numbers and parsing the text gives back the document
  // in canonical form, and that is written as the same bytes again. The one exception is a
  // document that consists of "true" alone.
  lemma {:induction false} CanonicalFixpoint(h: Hash, decimals: Decimals, t: Value)
    requires NumberFree(t) && WellFormed(t) && |Encode(h, t)| <= SIZE_MAX
    ensures WellFormed(Canonical(h, t)) && Encode(h, Canonical(h, t)) == Encode(h, t)
    ensures JsonOf(Encode(h, t)).Ok?
    ensures var text := JsonOf(Encode(h, t)).value;
      ParseValue(decimals, text, 0) == if t == Scalar([TRUE]) then None else Some((Canonical(h, t), |text|))
  {
    hide Text, ParseValue, JsonOf, Encode, ValidUtf8;
    var canonical := Canonical(h, t);
    CanonicalNumberFree(h, t);
    CanonicalEncodes(h, t);
    EncodedPrints(h, t);
    PrintsText(canonical);
    AtStart(Text(canonical));
    TextParses(decimals, canonical, Text(canonical), 0);
    TrueIsShort(canonical);
  }
}
