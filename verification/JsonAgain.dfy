// Printing any buffer and parsing the text: the same document again, with every number as it is
// stored for the text that was printed for it.
module JsonAgain {
  import opened Wrappers
  import opened Bytes
  import opened Utf8
  import opened Tree
  import opened Document
  import opened DecimalText
  import opened Json
  import opened Grammar
  import opened JsonStrings
  import opened JsonSyntax
  import opened JsonTexts
  import Retrieve
  import opened JsonPrinting
  import opened Fixpoint

  predicate IsNumber(data: bytes) {
    data != [] && (data[0] in {0x1A, 0x1B} || 0x20 <= data[0] <= 0x2F)
  }

  // Scalars that come back: null and its other form as null, false, true and strings as they
  // are, and numbers as what is stored for their text.
  predicate ScalarAgain(decimals: Decimals, was: bytes, now: bytes) {
    && was != []
    && if IsNumber(was) then ScalarText(was).Ok? && Counted(decimals, ScalarText(was).value) == Some(now)
       else if was[0] in {0x01, 0x05} then now == [0x01]
       else if was[0] in {0x02, 0x03} then now == [was[0]]
       else was[0] == 0x08 && now == was
  }

  predicate Again(decimals: Decimals, was: Value, now: Value) {
    match was
    case Scalar(data) => now.Scalar? && ScalarAgain(decimals, data, now.data)
    case Array(items) =>
      && now.Array? && |now.items| == |items|
      && forall i :: 0 <= i < |items| ==> Again(decimals, items[i], now.items[i])
    case Object(pairs) =>
      && now.Object? && |now.pairs| == |pairs|
      && forall i :: 0 <= i < |pairs| ==> PairAgain(decimals, pairs[i], now.pairs[i])
  }

  predicate PairAgain(decimals: Decimals, was: Pair, now: Pair) {
    was.key == now.key && Again(decimals, was.value, now.value)
  }

  lemma {:induction false} MeansAgain(decimals: Decimals, t: Text, was: Value)
    requires Shaped(t) && Shows(t, was) && Meaning(decimals, t).Some?
    ensures Again(decimals, was, Meaning(decimals, t).value)
    decreases t, 0
  {
    hide ItemsMeaning, MembersMeaning, ItemShaped, MemberShaped, ItemShows, MemberShows, PiecesValue, ValidUtf8, Counted;
    hide IntegerTextOf, DecimalTextOf;
    match t
    case ArrayText(items, _) =>
      ItemsMeanAgain(decimals, items, was.items);
    case ObjectText(members, _) =>
      MembersMeanAgain(decimals, members, was.pairs);
    case _ =>
  }

  lemma {:induction false} ItemsMeanAgain(decimals: Decimals, items: seq<Item>, was: seq<Value>)
    requires ItemsShaped(items) && |items| == |was| && forall i :: 0 <= i < |items| ==> ItemShows(items[i], was[i])
    requires ItemsMeaning(decimals, items).Some?
    ensures |ItemsMeaning(decimals, items).value| == |was|
    ensures forall i :: 0 <= i < |was| ==> Again(decimals, was[i], ItemsMeaning(decimals, items).value[i])
    decreases items, 0
  {
    hide ItemsMeaning, ItemShaped, Meaning, Again, Shows;
    if items == [] {
      NoItems(decimals);
    } else {
      ItemsMean(decimals, items);
      MeansAgain(decimals, items[0].value, was[0]);
      ItemsMeanAgain(decimals, items[1..], was[1..]);
      var now := ItemsMeaning(decimals, items).value;
      forall i | 0 <= i < |was|
        ensures Again(decimals, was[i], now[i])
      {
        if i > 0 {
          assert was[1..][i - 1] == was[i];
        }
      }
    }
  }

  lemma {:induction false} MembersMeanAgain(decimals: Decimals, members: seq<JsonSyntax.Member>, was: seq<Pair>)
    requires MembersShaped(members) && |members| == |was| && forall i :: 0 <= i < |members| ==> MemberShows(members[i], was[i])
    requires MembersMeaning(decimals, members).Some?
    ensures |MembersMeaning(decimals, members).value| == |was|
    ensures forall i :: 0 <= i < |was| ==> PairAgain(decimals, was[i], MembersMeaning(decimals, members).value[i])
    decreases members, 0
  {
    hide MembersMeaning, MemberShaped, Meaning, Again, Shows, PiecesValue, ValidUtf8, ItemShaped;
    if members == [] {
      NoItems(decimals);
    } else {
      MembersMean(decimals, members);
      MeansAgain(decimals, members[0].item.value, was[0].value);
      MembersMeanAgain(decimals, members[1..], was[1..]);
      var now := MembersMeaning(decimals, members).value;
      forall i | 0 <= i < |was|
        ensures PairAgain(decimals, was[i], now[i])
      {
        if i > 0 {
          assert was[1..][i - 1] == was[i];
        }
      }
    }
  }

  // Only a number with a wrong size, a key or string that is no UTF-8, or "true" alone stops the
  // parser.
  lemma {:induction false} PrintedParses(decimals: Decimals, buf: bytes)
    requires JsonOf(buf).Ok?
    ensures Retrieve.Retrieve(buf).Ok?
    ensures var text, was := JsonOf(buf).value, Retrieve.Retrieve(buf).value;
      var r := ParseValue(decimals, text, 0);
      && (r.Some? ==> r.value.1 == |text| && Again(decimals, was, r.value.0))
      && (r.None? ==> text == [0x74, 0x72, 0x75, 0x65] || exists t: Text :: Unreadable(decimals, t, text))
  {
    hide JsonOf, ParseValue, Meaning, Shows, Again, Numbered, Retrieve.Retrieve, At, Ends;
    var text := JsonOf(buf).value;
    var t := PrintedIsText(buf);
    AtStart(text);
    EndsHere(t, text);
    TextReads(decimals, t, text, 0);
    if Meaning(decimals, t).Some? {
      MeansAgain(decimals, t, Retrieve.Retrieve(buf).value);
    } else {
      assert Unreadable(decimals, t, text);
    }
    TrueIs(t);
  }

  lemma {:induction false} TrueIs(t: Text)
    requires Shaped(t)
    ensures t.TrueText? ==> Rendered(t) == [0x74, 0x72, 0x75, 0x65]
  {
  }

  // The text holds something that the writer cannot take.
  ghost predicate Unreadable(decimals: Decimals, t: Text, text: bytes) {
    Shaped(t) && Numbered(t, true) && Rendered(t) == text && Meaning(decimals, t).None?
  }

  lemma {:induction false} EndsHere(t: Text, text: bytes)
    ensures Ends(t, text, |text|)
  {
  }
}
