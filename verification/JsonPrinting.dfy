// What bijson_to_json prints (lib/reader.c:74-117), as a text of RFC 8259: for every buffer that
// it does not refuse, whoever wrote it.
module JsonPrinting {
  import opened Wrappers
  import opened Bytes
  import opened Layout
  import opened Utf8
  import opened Tree
  import opened Reader
  import opened Retrieve
  import opened Digits
  import opened DecimalText
  import opened Escape
  import opened Json
  import opened JsonNumbers
  import opened JsonStrings
  import opened JsonSyntax

  // ---------- What a text shows of a value ----------

  // The type bytes are those of the format description.
  predicate Shows(t: Text, v: Value)
    requires Shaped(t)
  {
    match t
    case NullText => v.Scalar? && v.data != [] && v.data[0] in {0x01, 0x05}
    case FalseText => v.Scalar? && v.data != [] && v.data[0] == 0x02
    case TrueText => v.Scalar? && v.data != [] && v.data[0] == 0x03
    case StringText(pieces) => v.Scalar? && v.data == [0x08] + PiecesValue(pieces)
    case NumberText(number) =>
      && v.Scalar? && v.data != []
      && (if v.data[0] in {0x1A, 0x1B} then IntegerTextOf(v.data) == Ok(number)
          else 0x20 <= v.data[0] <= 0x2F && DecimalTextOf(v.data) == Ok(number))
    case ArrayText(items, _) =>
      && v.Array? && |items| == |v.items|
      && forall i :: 0 <= i < |items| ==> ItemShows(items[i], v.items[i])
    case ObjectText(members, _) =>
      && v.Object? && |members| == |v.pairs|
      && forall i :: 0 <= i < |members| ==> MemberShows(members[i], v.pairs[i])
  }

  predicate ItemShows(item: Item, v: Value)
    requires ItemShaped(item)
  {
    Shows(item.value, v)
  }

  predicate MemberShows(m: JsonSyntax.Member, p: Pair)
    requires MemberShaped(m)
  {
    assert ItemShaped(m.item);
    PiecesValue(m.key) == p.key && Shows(m.item.value, p.value)
  }

  // There is no whitespace between the tokens.
  predicate Compact(t: Text) {
    match t
    case ArrayText(items, gap) => gap == [] && forall i :: 0 <= i < |items| ==> ItemCompact(items[i])
    case ObjectText(members, gap) => gap == [] && forall i :: 0 <= i < |members| ==> MemberCompact(members[i])
    case _ => true
  }

  predicate ItemCompact(item: Item) {
    item.before == [] && Compact(item.value) && item.behind == []
  }

  predicate MemberCompact(m: JsonSyntax.Member) {
    m.before == [] && m.behind == [] && ItemCompact(m.item)
  }

  predicate ItemsCompact(items: seq<Item>) {
    forall i :: 0 <= i < |items| ==> ItemCompact(items[i])
  }

  predicate MembersCompact(members: seq<JsonSyntax.Member>) {
    forall i :: 0 <= i < |members| ==> MemberCompact(members[i])
  }

  // ---------- Strings ----------

  lemma {:induction false} EscapedByte(c: byte) returns (p: Piece)
    ensures PieceOk(p) && PieceText(p) == EscapeByte(c) && PieceValue(p) == [c]
  {
    if PlainEscape(c) != 0 {
      p := Short(PlainEscape(c));
    } else if c < 32 {
      p := Unicode(c, [0x30, 0x30, HexDigit(c / 16), HexDigit(c % 16)]);
    } else {
      p := Unescaped(c);
    }
  }

  lemma {:induction false} EscapedPieces(s: bytes) returns (pieces: seq<Piece>)
    ensures PiecesOk(pieces) && PiecesText(pieces) == EscapeAll(s) && PiecesValue(pieces) == s
    ensures Literal(pieces) == Quoted(s)
  {
    hide PieceOk, PieceText, PieceValue, EscapeByte;
    if s == [] {
      pieces := [];
    } else {
      var first := EscapedByte(s[0]);
      var rest := EscapedPieces(s[1..]);
      EscapeCons(s);
      pieces := [first] + rest;
      assert pieces[1..] == rest;
      assert [s[0]] + s[1..] == s;
    }
  }

  // No other literal for the same text is shorter.
  lemma {:induction false} EscapedIsShortest(pieces: seq<Piece>)
    requires PiecesOk(pieces)
    ensures |EscapeAll(PiecesValue(pieces))| <= |PiecesText(pieces)|
  {
    hide PieceOk, PieceText, PieceValue;
    if pieces != [] {
      EscapedIsShortest(pieces[1..]);
      EscapeConcat(PieceValue(pieces[0]), PiecesValue(pieces[1..]));
      PieceIsShortest(pieces[0]);
    }
  }

  lemma {:induction false} EscapeConcat(a: bytes, b: bytes)
    ensures EscapeAll(a + b) == EscapeAll(a) + EscapeAll(b)
  {
    hide EscapeByte, EscapeAll;
    if b == [] {
      assert a + b == a;
      EscapeNothing();
    } else {
      var init, last := b[..|b| - 1], b[|b| - 1];
      assert (a + b)[..|a + b| - 1] == a + init;
      EscapeConcat(a, init);
      EscapeLast(a + b);
      EscapeLast(b);
      Regrouped3(EscapeAll(a), EscapeAll(init), EscapeByte(last));
    }
  }

  lemma {:induction false} EscapeNothing()
    ensures EscapeAll([]) == []
  {
  }

  lemma {:induction false} EscapeLast(s: bytes)
    requires s != []
    ensures EscapeAll(s) == EscapeAll(s[..|s| - 1]) + EscapeByte(s[|s| - 1])
  {
    hide EscapeByte;
  }

  lemma {:induction false} Regrouped3(a: bytes, b: bytes, c: bytes)
    ensures a + b + c == a + (b + c)
  {
  }

  lemma {:induction false} PieceIsShortest(p: Piece)
    requires PieceOk(p)
    ensures |EscapeAll(PieceValue(p))| <= |PieceText(p)|
  {
    hide EscapeAll, EncodeScalar, Spells, HexFor;
    match p
    case Unescaped(c) => EscapeOne(c);
    case Short(letter) => EscapeOne(ShortEscape(letter).value); ShortIsShort(letter);
    case Unicode(code, hex) => SpellsFour(hex, code); EscapedScalar(code);
    case Surrogates(high, highHex, low, lowHex) =>
      SpellsFour(highHex, high);
      SpellsFour(lowHex, low);
      EscapedScalar(SurrogatePair(high, low) - 0x10000);
  }

  lemma {:induction false} ShortIsShort(letter: byte)
    requires ShortEscape(letter).Some?
    ensures |EscapeByte(ShortEscape(letter).value)| <= 2
  {
  }

  lemma {:induction false} EscapeOne(c: byte)
    ensures EscapeAll([c]) == EscapeByte(c)
  {
    assert [c][..0] == [];
  }

  lemma {:induction false} EscapedScalar(code: nat)
    requires code <= 0xFFFFF
    ensures |EscapeAll(EncodeScalar(code))| <= 6
  {
    if code <= 0x7F {
      EscapeOne(code);
    } else {
      HighBytes(EncodeScalar(code));
    }
  }

  lemma {:induction false} HighBytes(s: bytes)
    requires forall i :: 0 <= i < |s| ==> s[i] >= 0x80
    ensures EscapeAll(s) == s
  {
    if s != [] {
      HighBytes(s[..|s| - 1]);
      assert s == s[..|s| - 1] + [s[|s| - 1]];
    }
  }

  // ---------- Numbers ----------

  lemma {:induction false} PartBegins(b: bytes)
    requires b != [] && PartText(b).Ok?
    ensures AllDigits(PartText(b).value) && PartText(b).value != [] && PartText(b).value[0] != ZERO
  {
    hide Padded, FromLittleEndian;
    if |b| > 8 {
      PartBegins(b[8..]);
    }
  }

  lemma {:induction false} IntegerIsNumber(negative: bool, a: bytes)
    requires AllDigits(a) && a != [] && (a[0] != ZERO || a == [ZERO])
    ensures RfcNumber(Sign(negative) + a)
  {
    var s, n := Sign(negative) + a, |Sign(negative)|;
    assert s[n..|s|] == a && s[|s|..|s|] == [] && s[|s|..] == [];
    CutIsNumber(s, n, |s|, |s|);
  }

  lemma {:induction false} ScientificIsNumber(negative: bool, a: bytes, down: bool, b: bytes)
    requires AllDigits(a) && a != [] && a[0] != ZERO && AllDigits(b) && b != []
    ensures RfcNumber(Sign(negative) + a + [LOWER_E] + Sign(down) + b)
  {
    var s, n := Sign(negative) + a + [LOWER_E] + Sign(down) + b, |Sign(negative)|;
    var m := n + |a|;
    assert s[n..m] == a && s[m..m] == [];
    assert s[m..] == [LOWER_E] + Sign(down) + b;
    if down {
      assert s[m..][2..] == b;
    } else {
      assert s[m..][1..] == b;
    }
    CutIsNumber(s, n, m, m);
  }

  lemma {:induction false} PrintedNumbers(buf: bytes)
    requires buf != []
    ensures IntegerTextOf(buf).Ok? ==> RfcNumber(IntegerTextOf(buf).value)
    ensures DecimalTextOf(buf).Ok? ==> RfcNumber(DecimalTextOf(buf).value)
  {
    hide PartText, RfcNumber, DecimalAnalyze;
    if |buf| == 1 {
      IntegerIsNumber(buf[0] % 2 == 1, [ZERO]);
    } else if PartText(buf[1..]).Ok? {
      PartBegins(buf[1..]);
      IntegerIsNumber(buf[0] % 2 == 1, PartText(buf[1..]).value);
    }
    if DecimalTextOf(buf).Ok? {
      var a := DecimalAnalyze(buf).value;
      PartBegins(a.significand);
      PartBegins(a.exponent);
      ScientificIsNumber(a.significandNegative, PartText(a.significand).value, a.exponentNegative, PartText(a.exponent).value);
    }
  }

  // ---------- Scalars ----------

  lemma {:induction false} PrintedScalar(buf: bytes) returns (t: Text)
    requires buf != [] && ScalarText(buf).Ok?
    ensures Shaped(t) && Numbered(t, true) && Compact(t)
    ensures Rendered(t) == ScalarText(buf).value && Shows(t, Scalar(buf))
    ensures GetValueType(buf).Ok? && GetValueType(buf).value !in {ArrayType, ObjectType}
  {
    hide IntegerTextOf, DecimalTextOf, RfcNumber, ValidUtf8, Quoted, PiecesText, PiecesValue, Literal;
    PrintedNumbers(buf);
    var c := buf[0];
    if c == 0x01 || c == 0x05 {
      t := NullText;
    } else if c == 0x02 {
      t := FalseText;
    } else if c == 0x03 {
      t := TrueText;
    } else if c == 0x08 {
      var pieces := EscapedPieces(buf[1..]);
      t := StringText(pieces);
      assert buf == [0x08] + buf[1..];
    } else {
      t := NumberText(ScalarText(buf).value);
    }
  }

  // What is not printed, by the first byte of the value.
  lemma {:induction false} NotPrinted(buf: bytes)
    requires buf != []
    ensures buf[0] == 0x00 ==> JsonOf(buf) == Err(FileFormatError)
    ensures buf[0] in {0x04, 0x06, 0x07} || 0x09 <= buf[0] <= 0x19 || 0x1C <= buf[0] <= 0x1F || buf[0] >= 0x80 ==>
      JsonOf(buf) == Err(UnsupportedDataType)
    ensures buf[0] == 0x08 && !ValidUtf8(buf[1..]) ==> JsonOf(buf) == Err(InvalidUtf8)
  {
    hide IntegerTextOf, DecimalTextOf, ValidUtf8, Quoted;
  }

  // ---------- Items and members, from the first to the last ----------

  function Joined(items: seq<Item>, n: nat): bytes
    requires ItemsShaped(items) && n <= |items|
  {
    if n == 0 then [] else Joined(items, n - 1) + (if n > 1 then [0x2C] else []) + RenderedItem(items[n - 1])
  }

  lemma {:induction false} JoinedRest(items: seq<Item>, n: nat)
    requires ItemsShaped(items) && n < |items|
    ensures ItemsShaped(items[n..])
    ensures RenderedItems(items) == Joined(items, n) + (if n > 0 then [0x2C] else []) + RenderedItems(items[n..])
  {
    hide RenderedItem, ItemShaped, RenderedItems, Joined;
    if n == 0 {
      assert items[0..] == items;
      NoneJoined();
    } else {
      JoinedRest(items, n - 1);
      JoinedStep(items, n - 1);
      var rest := items[n - 1..];
      assert rest[1..] == items[n..];
      RenderedItemsStep(rest);
      Rejoined(Joined(items, n - 1), if n > 1 then [0x2C] else [], RenderedItem(items[n - 1]), [0x2C], RenderedItems(items[n..]));
    }
  }

  lemma {:induction false} RenderedItemsStep(items: seq<Item>)
    requires ItemsShaped(items) && items != []
    ensures ItemsShaped(items[1..])
    ensures RenderedItems(items) == RenderedItem(items[0]) + if |items| == 1 then [0x5D] else [0x2C] + RenderedItems(items[1..])
  {
    hide RenderedItem, ItemShaped;
  }

  lemma {:induction false} JoinedAll(items: seq<Item>)
    requires ItemsShaped(items) && items != []
    ensures RenderedItems(items) == Joined(items, |items|) + [0x5D]
  {
    hide RenderedItem, ItemShaped, RenderedItems, Joined;
    var n := |items| - 1;
    JoinedRest(items, n);
    assert items[n..] == [items[n]];
    OneItem(items[n]);
    JoinedStep(items, n);
  }

  lemma {:induction false} OneItem(item: Item)
    requires ItemShaped(item)
    ensures RenderedItems([item]) == RenderedItem(item) + [0x5D]
  {
    hide RenderedItem, ItemShaped;
  }

  lemma {:induction false} JoinedStep(items: seq<Item>, n: nat)
    requires ItemsShaped(items) && n < |items|
    ensures Joined(items, n + 1) == Joined(items, n) + (if n > 0 then [0x2C] else []) + RenderedItem(items[n])
  {
    hide RenderedItem, ItemShaped;
  }

  lemma {:induction false} JoinedFront(items: seq<Item>, item: Item, n: nat)
    requires ItemsShaped(items) && ItemShaped(item) && n <= |items|
    ensures ItemsShaped(items + [item]) && Joined(items + [item], n) == Joined(items, n)
  {
    hide RenderedItem, ItemShaped;
    if n > 0 {
      JoinedFront(items, item, n - 1);
    }
  }

  function Listed(members: seq<JsonSyntax.Member>, n: nat): bytes
    requires MembersShaped(members) && n <= |members|
  {
    if n == 0 then [] else Listed(members, n - 1) + (if n > 1 then [0x2C] else []) + RenderedMember(members[n - 1])
  }

  lemma {:induction false} ListedRest(members: seq<JsonSyntax.Member>, n: nat)
    requires MembersShaped(members) && n < |members|
    ensures MembersShaped(members[n..])
    ensures RenderedMembers(members) == Listed(members, n) + (if n > 0 then [0x2C] else []) + RenderedMembers(members[n..])
  {
    hide RenderedMember, MemberShaped, RenderedMembers, Listed;
    if n == 0 {
      assert members[0..] == members;
      NoneJoined();
    } else {
      ListedRest(members, n - 1);
      ListedStep(members, n - 1);
      var rest := members[n - 1..];
      assert rest[1..] == members[n..];
      RenderedMembersStep(rest);
      Rejoined(Listed(members, n - 1), if n > 1 then [0x2C] else [], RenderedMember(members[n - 1]), [0x2C],
               RenderedMembers(members[n..]));
    }
  }

  lemma {:induction false} RenderedMembersStep(members: seq<JsonSyntax.Member>)
    requires MembersShaped(members) && members != []
    ensures MembersShaped(members[1..])
    ensures RenderedMembers(members)
         == RenderedMember(members[0]) + if |members| == 1 then [0x7D] else [0x2C] + RenderedMembers(members[1..])
  {
    hide RenderedMember, MemberShaped;
  }

  lemma {:induction false} ListedAll(members: seq<JsonSyntax.Member>)
    requires MembersShaped(members) && members != []
    ensures RenderedMembers(members) == Listed(members, |members|) + [0x7D]
  {
    hide RenderedMember, MemberShaped, RenderedMembers, Listed;
    var n := |members| - 1;
    ListedRest(members, n);
    assert members[n..] == [members[n]];
    OneMember(members[n]);
    ListedStep(members, n);
  }

  lemma {:induction false} OneMember(m: JsonSyntax.Member)
    requires MemberShaped(m)
    ensures RenderedMembers([m]) == RenderedMember(m) + [0x7D]
  {
    hide RenderedMember, MemberShaped;
  }

  lemma {:induction false} ListedStep(members: seq<JsonSyntax.Member>, n: nat)
    requires MembersShaped(members) && n < |members|
    ensures Listed(members, n + 1) == Listed(members, n) + (if n > 0 then [0x2C] else []) + RenderedMember(members[n])
  {
    hide RenderedMember, MemberShaped;
  }

  lemma {:induction false} ListedFront(members: seq<JsonSyntax.Member>, m: JsonSyntax.Member, n: nat)
    requires MembersShaped(members) && MemberShaped(m) && n <= |members|
    ensures MembersShaped(members + [m]) && Listed(members + [m], n) == Listed(members, n)
  {
    hide RenderedMember, MemberShaped;
    if n > 0 {
      ListedFront(members, m, n - 1);
    }
  }

  // ---------- Everything ----------

  // What is printed is a text of the standard, and it shows what is found in the buffer by
  // reading it index by index.
  lemma {:induction false} PrintedIsText(buf: bytes) returns (t: Text)
    requires JsonOf(buf).Ok?
    ensures Shaped(t) && Numbered(t, true) && Compact(t) && Rendered(t) == JsonOf(buf).value
    ensures Retrieve.Retrieve(buf).Ok? && Shows(t, Retrieve.Retrieve(buf).value)
    decreases |buf|, 1, 0
  {
    hide ArrayAnalyze, ObjectAnalyze, ArrayFits, ObjectFits, JsonItems, JsonPairs, RetrieveItems, RetrievePairs, ScalarText;
    hide Shows, Shaped, Numbered, Rendered, Compact;
    if buf[0] / 16 == 3 {
      var a := ArrayAnalyze(buf).value;
      var items := PrintedItems(buf, a, a.count);
      t := ArrayPrinted(items, RetrieveItems(buf, a, a.count).value);
    } else if 4 <= buf[0] / 16 <= 7 {
      var a := ObjectAnalyze(buf).value;
      var members := PrintedMembers(buf, a, a.count);
      t := ObjectPrinted(members, RetrievePairs(buf, a, a.count).value);
    } else {
      t := PrintedScalar(buf);
    }
  }

  lemma {:induction false} ArrayPrinted(items: seq<Item>, values: seq<Value>) returns (t: Text)
    requires ItemsShaped(items) && ItemsNumbered(items, true) && ItemsCompact(items) && |items| == |values|
    requires forall i :: 0 <= i < |items| ==> ItemShows(items[i], values[i])
    ensures Shaped(t) && Numbered(t, true) && Compact(t) && Shows(t, Array(values))
    ensures Rendered(t) == [OPEN_BRACKET] + Joined(items, |items|) + [CLOSE_BRACKET]
  {
    hide ItemShaped, ItemNumbered, ItemCompact, ItemShows, RenderedItems, Joined;
    t := ArrayText(items, []);
    if items != [] {
      JoinedAll(items);
    } else {
      NoneJoined();
    }
  }

  lemma {:induction false} NoneJoined()
    ensures Joined([], 0) == [] && Listed([], 0) == []
    ensures forall items | ItemsShaped(items) :: Joined(items, 0) == []
    ensures forall members | MembersShaped(members) :: Listed(members, 0) == []
  {
  }

  lemma {:induction false} Rejoined(a: bytes, b: bytes, c: bytes, d: bytes, e: bytes)
    ensures a + b + (c + (d + e)) == a + b + c + d + e
  {
  }

  lemma {:induction false} ObjectPrinted(members: seq<JsonSyntax.Member>, pairs: seq<Pair>) returns (t: Text)
    requires MembersShaped(members) && MembersNumbered(members, true) && MembersCompact(members)
    requires MembersShow(members, pairs)
    ensures Shaped(t) && Numbered(t, true) && Compact(t) && Shows(t, Object(pairs))
    ensures Rendered(t) == [OPEN_BRACE] + Listed(members, |members|) + [CLOSE_BRACE]
  {
    hide MemberShaped, MemberNumbered, MemberCompact, MemberShows, RenderedMembers, Listed;
    t := ObjectText(members, []);
    if members != [] {
      ListedAll(members);
    } else {
      NoneJoined();
    }
  }

  lemma {:induction false} BareItem(t: Text, v: Value)
    requires Shaped(t) && Numbered(t, true) && Compact(t) && Shows(t, v)
    ensures var item := Item([], t, []);
      && ItemShaped(item) && ItemNumbered(item, true) && ItemCompact(item) && ItemShows(item, v)
      && RenderedItem(item) == Rendered(t)
  {
    hide Rendered, Shows;
    assert [] + Rendered(t) + [] == Rendered(t);
  }

  lemma {:induction false} PrintedItems(buf: bytes, a: ArrayAnalysis, n: nat) returns (items: seq<Item>)
    requires ArrayFits(buf, a) && n <= a.count && JsonItems(buf, a, n).Ok?
    ensures |items| == n && ItemsShaped(items) && ItemsNumbered(items, true) && ItemsCompact(items)
    ensures Joined(items, n) == JsonItems(buf, a, n).value
    ensures RetrieveItems(buf, a, n).Ok? && |RetrieveItems(buf, a, n).value| == n
    ensures forall i :: 0 <= i < n ==> ItemShows(items[i], RetrieveItems(buf, a, n).value[i])
    decreases |buf|, 0, n
  {
    hide ArrayFits, ArrayGetIndex, JsonOf, Retrieve.Retrieve, ItemShaped, ItemNumbered, ItemShows, RenderedItem, Rendered, Shows;
    hide Shaped, Numbered, ItemCompact, Compact;
    if n == 0 {
      items := [];
    } else {
      var front := PrintedItems(buf, a, n - 1);
      var slice := ArrayGetIndex(buf, a, n - 1).value;
      ItemShorter(buf, a, n - 1);
      var t := PrintedIsText(Cut(buf, slice));
      BareItem(t, Retrieve.Retrieve(Cut(buf, slice)).value);
      var item := Item([], t, []);
      JoinedFront(front, item, n - 1);
      items := front + [item];
    }
  }

  lemma {:induction false} BareMember(key: bytes, t: Text, v: Value) returns (m: JsonSyntax.Member)
    requires Shaped(t) && Numbered(t, true) && Compact(t) && Shows(t, v)
    ensures MemberShaped(m) && MemberNumbered(m, true) && MemberCompact(m) && MemberShows(m, Pair(key, v))
    ensures RenderedMember(m) == Quoted(key) + [COLON] + Rendered(t)
  {
    hide Rendered, Shows, PiecesText, PiecesValue, Quoted, Literal, RenderedItem, Shaped, Numbered, Compact;
    var pieces := EscapedPieces(key);
    BareItem(t, v);
    m := JsonSyntax.Member.Member([], pieces, [], Item([], t, []));
    MemberIs(m);
    assert [] + Literal(pieces) + [] + [0x3A] == Quoted(key) + [COLON];
  }

  lemma {:induction false} MemberIs(m: JsonSyntax.Member)
    requires IsBlank(m.before) && PiecesOk(m.key) && IsBlank(m.behind) && ItemShaped(m.item)
    ensures MemberShaped(m)
    ensures RenderedMember(m) == m.before + Literal(m.key) + m.behind + [0x3A] + RenderedItem(m.item)
  {
    hide ItemShaped, RenderedItem, Literal;
  }

  // The pair at index k.
  function PairAt(buf: bytes, a: ObjectAnalysis, k: nat): Result<Pair>
    requires ObjectFits(buf, a) && k < a.count
  {
    var member :- ObjectGetIndex(buf, a, k);
    var value :- Retrieve.Retrieve(Cut(buf, member.value));
    Ok(Pair(Cut(buf, member.key), value))
  }

  lemma {:induction false} PrintedMember(buf: bytes, a: ObjectAnalysis, k: nat) returns (m: JsonSyntax.Member)
    requires ObjectFits(buf, a) && k < a.count && JsonPair(buf, a, k).Ok?
    ensures MemberShaped(m) && MemberNumbered(m, true) && MemberCompact(m)
    ensures JsonPair(buf, a, k).value == Comma(k) + RenderedMember(m)
    ensures PairAt(buf, a, k).Ok? && MemberShows(m, PairAt(buf, a, k).value)
    decreases |buf|, 0, k
  {
    hide ObjectFits, ObjectGetIndex, JsonOf, Retrieve.Retrieve, MemberShaped, MemberNumbered, MemberShows, RenderedMember;
    hide Rendered, Shows, Shaped, Numbered, Quoted, MemberCompact, Compact;
    var member := ObjectGetIndex(buf, a, k).value;
    MemberShorter(buf, a, k);
    var key, value := Cut(buf, member.key), Cut(buf, member.value);
    var t := PrintedIsText(value);
    m := BareMember(key, t, Retrieve.Retrieve(value).value);
    Regrouped(Comma(k), Quoted(key), [COLON], Rendered(t));
  }

  lemma {:induction false} Regrouped(a: bytes, b: bytes, c: bytes, d: bytes)
    ensures a + b + c + d == a + (b + c + d)
  {
  }

  predicate MembersShow(members: seq<JsonSyntax.Member>, pairs: seq<Pair>)
    requires MembersShaped(members)
  {
    |members| == |pairs| && forall i :: 0 <= i < |members| ==> MemberShows(members[i], pairs[i])
  }

  lemma {:induction false} OneMoreShown(members: seq<JsonSyntax.Member>, pairs: seq<Pair>, m: JsonSyntax.Member, pair: Pair)
    requires MembersShaped(members) && MembersNumbered(members, true) && MembersShow(members, pairs)
    requires MemberShaped(m) && MemberNumbered(m, true) && MemberShows(m, pair)
    requires MembersCompact(members) && MemberCompact(m)
    ensures MembersShaped(members + [m]) && MembersNumbered(members + [m], true) && MembersCompact(members + [m])
    ensures MembersShow(members + [m], pairs + [pair])
  {
    hide MemberShaped, MemberNumbered, MemberCompact, MemberShows;
  }

  lemma {:induction false} PrintedMembers(buf: bytes, a: ObjectAnalysis, n: nat) returns (members: seq<JsonSyntax.Member>)
    requires ObjectFits(buf, a) && n <= a.count && JsonPairs(buf, a, n).Ok?
    ensures |members| == n && MembersShaped(members) && MembersNumbered(members, true) && MembersCompact(members)
    ensures Listed(members, n) == JsonPairs(buf, a, n).value
    ensures RetrievePairs(buf, a, n).Ok? && MembersShow(members, RetrievePairs(buf, a, n).value)
    decreases |buf|, 0, n
  {
    hide ObjectFits, JsonPair, PairAt, MemberShaped, MemberNumbered, MemberShows, RenderedMember, Listed;
    hide MembersShaped, MembersNumbered, MembersCompact, MembersShow, RetrievePairs, MemberCompact;
    if n == 0 {
      members := [];
      NoneJoined();
      NoneShown(buf, a);
    } else {
      var front := PrintedMembers(buf, a, n - 1);
      var m := PrintedMember(buf, a, n - 1);
      ListedFront(front, m, n - 1);
      members := front + [m];
      ListedStep(members, n - 1);
      RetrievedPair(buf, a, n);
      OneMoreShown(front, RetrievePairs(buf, a, n - 1).value, m, PairAt(buf, a, n - 1).value);
      Regrouped3(JsonPairs(buf, a, n - 1).value, Comma(n - 1), RenderedMember(m));
    }
  }

  lemma {:induction false} NoneShown(buf: bytes, a: ObjectAnalysis)
    requires ObjectFits(buf, a)
    ensures MembersShaped([]) && MembersNumbered([], true) && MembersCompact([])
    ensures RetrievePairs(buf, a, 0).Ok? && MembersShow([], RetrievePairs(buf, a, 0).value)
  {
    hide ObjectFits;
  }

  lemma {:induction false} RetrievedPair(buf: bytes, a: ObjectAnalysis, n: nat)
    requires ObjectFits(buf, a) && 0 < n <= a.count && RetrievePairs(buf, a, n - 1).Ok? && PairAt(buf, a, n - 1).Ok?
    ensures RetrievePairs(buf, a, n) == Ok(RetrievePairs(buf, a, n - 1).value + [PairAt(buf, a, n - 1).value])
  {
    hide ObjectFits, ObjectGetIndex, Retrieve.Retrieve;
  }
}
