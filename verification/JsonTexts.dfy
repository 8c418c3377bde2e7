// The parser's grammar against the syntax trees of RFC 8259: every text of the standard is
// read as what it stands for, wherever it lies.
module JsonTexts {
  import opened Wrappers
  import opened Bytes
  import opened Utf8
  import opened Tree
  import opened Document
  import opened Digits
  import opened Escape
  import opened Json
  import opened Grammar
  import opened JsonNumbers
  import opened JsonStrings
  import opened JsonSyntax

  // ---------- Whitespace ----------

  lemma {:induction false} BlankSkipped(buf: bytes, pos: nat, s: bytes)
    requires IsBlank(s) && At(buf, pos, s) && pos + |s| < |buf| && !IsWs(buf[pos + |s|])
    ensures SkipWs(buf, pos) == Some(pos + |s|)
    decreases |s|
  {
    if s != [] {
      ByteOf(buf, pos, s, 0);
      assert buf[pos + 1..pos + 1 + |s[1..]|] == s[1..] by {
        assert buf[pos..pos + |s|][1..] == s[1..];
      }
      BlankSkipped(buf, pos + 1, s[1..]);
    }
  }

  // A value begins behind the whitespace.
  lemma {:induction false} ParsedBehind(decimals: Decimals, buf: bytes, pos: nat, start: nat)
    requires SkipWs(buf, pos) == Some(start)
    ensures ParseValue(decimals, buf, pos) == ParseValue(decimals, buf, start)
    ensures SkipWs(buf, start) == Some(start)
  {
    hide ParseItem, ParsePair, ScalarAt;
    assert SkipWs(buf, start) == Some(start);
  }

  // ---------- How a text begins and ends ----------

  predicate StartsText(c: byte) {
    !IsWs(c) && c != 0x5D && c != 0x7D
  }

  lemma {:induction false} NumberCharacters(s: bytes)
    requires RfcNumber(s)
    ensures s != [] && StartsNumber(s[0])
    ensures forall i :: 0 <= i < |s| ==> NumberCharacter(s[i])
  {
    hide RfcNumber, IntPart, FracPart, ExpPart;
    var a, b, c := NumberCuts(s);
    CutCharacters(s, a, b, c);
    forall i | 0 <= i < |s|
      ensures NumberCharacter(s[i])
    {
    }
  }

  predicate NumberCharacter(c: byte) {
    IsDigit(c) || IsSign(c) || IsExponentMark(c) || c == POINT
  }

  // Whatever else follows cannot continue a number.
  lemma {:induction false} OthersStop(s: bytes, x: byte)
    requires !NumberCharacter(x)
    ensures CannotContinue(s, x)
  {
    hide RfcNumber, NumberCharacter;
    forall t: bytes
      ensures !RfcNumber(s + [x] + t)
    {
      var longer := s + [x] + t;
      assert longer[|s|] == x;
      if RfcNumber(longer) {
        NumberCharacters(longer);
      }
    }
  }

  lemma {:induction false} TextBegins(t: Text)
    requires Shaped(t) && Numbered(t, true)
    ensures Rendered(t) != [] && StartsText(Rendered(t)[0])
  {
    hide RenderedItems, RenderedMembers, RfcNumber, PiecesText;
    if t.NumberText? {
      NumberCharacters(t.number);
    }
  }

  // Where a number ends, the text does not go on with what could belong to it.
  ghost predicate Ends(t: Text, buf: bytes, end: nat) {
    t.NumberText? && end < |buf| ==> CannotContinue(t.number, buf[end])
  }

  // Only where nothing follows is "true" not read.
  predicate CutOff(t: Text, buf: bytes, pos: nat) {
    t.TrueText? && pos + 4 == |buf|
  }

  function Read(v: Option<Value>, end: nat): Option<(Value, nat)> {
    if v.None? then None else Some((v.value, end))
  }

  function ReadArray(before: seq<Value>, items: Option<seq<Value>>, end: nat): Option<(Value, nat)> {
    if items.None? then None else Some((Array(before + items.value), end))
  }

  function ReadObject(before: seq<Pair>, pairs: Option<seq<Pair>>, end: nat): Option<(Value, nat)> {
    if pairs.None? then None else Some((Object(before + pairs.value), end))
  }

  // ---------- Every text is read ----------

  // A text of the standard is read as what it stands for, up to its end. It is refused only if
  // one of its strings is no UTF-8, or one of its numbers is stored with a wrong size, or if it
  // is "true" and nothing follows.
  lemma {:induction false} TextReads(decimals: Decimals, t: Text, buf: bytes, pos: nat)
    requires Shaped(t) && Numbered(t, true) && At(buf, pos, Rendered(t)) && Ends(t, buf, pos + |Rendered(t)|)
    ensures ParseValue(decimals, buf, pos)
         == if CutOff(t, buf, pos) then None else Read(Meaning(decimals, t), pos + |Rendered(t)|)
    decreases t, 0
  {
    hide RenderedItems, RenderedMembers, ScalarAt, SkipWs, At, ParseItem, ParsePair, RfcNumber, ParseValue, Ends, PiecesText;
    TextBegins(t);
    ByteOf(buf, pos, Rendered(t), 0);
    NothingSkipped(buf, pos);
    match t
    case ArrayText(items, gap) => ArrayReads(decimals, t, buf, pos);
    case ObjectText(members, gap) => ObjectReads(decimals, t, buf, pos);
    case _ => ScalarReads(decimals, t, buf, pos);
  }

  lemma {:induction false} NothingSkipped(buf: bytes, pos: nat)
    requires pos < |buf| && !IsWs(buf[pos])
    ensures SkipWs(buf, pos) == Some(pos)
  {
  }

  lemma {:induction false} ScalarReads(decimals: Decimals, t: Text, buf: bytes, pos: nat)
    requires !t.ArrayText? && !t.ObjectText? && Shaped(t) && Numbered(t, true)
    requires At(buf, pos, Rendered(t)) && Ends(t, buf, pos + |Rendered(t)|) && SkipWs(buf, pos) == Some(pos)
    ensures ParseValue(decimals, buf, pos)
         == if CutOff(t, buf, pos) then None else Read(Meaning(decimals, t), pos + |Rendered(t)|)
  {
    hide SkipWs, StringAt, NumberAt, ValidUtf8, RfcNumber, PiecesText, PiecesValue, CannotContinue, Counted;
    TextBegins(t);
    ByteOf(buf, pos, Rendered(t), 0);
    match t
    case StringText(pieces) => LiteralReads(pieces, buf, pos);
    case NumberText(number) =>
      NumberCharacters(number);
      NumberReads(decimals, number, buf, pos);
    case _ =>
  }

  lemma {:induction false} LiteralReads(pieces: seq<Piece>, buf: bytes, pos: nat)
    requires PiecesOk(pieces) && At(buf, pos, Literal(pieces))
    ensures pos < |buf| && buf[pos] == 0x22
    ensures StringAt(buf, pos)
         == if ValidUtf8(PiecesValue(pieces)) then Some((PiecesValue(pieces), pos + |Literal(pieces)|)) else None
  {
    hide At, PiecesText, PiecesValue, Unescape, ValidUtf8;
    assert Literal(pieces) == [0x22] + (PiecesText(pieces) + [0x22]);
    AtSplit(buf, pos, [0x22], PiecesText(pieces) + [0x22]);
    ByteOf(buf, pos, [0x22], 0);
    PiecesRead(pieces, buf, pos + 1);
  }

  // A number of the standard is lexed to its end and handed to the writer as a whole.
  lemma {:induction false} NumberReads(decimals: Decimals, s: bytes, buf: bytes, pos: nat)
    requires RfcNumber(s) && At(buf, pos, s) && pos < |buf| && StartsNumber(buf[pos])
    requires pos + |s| < |buf| ==> CannotContinue(s, buf[pos + |s|])
    ensures NumberAt(decimals, buf, pos) == match Counted(decimals, s)
      case None => None
      case Some(data) => Some((Scalar(data), pos + |s|))
  {
    hide NumberEnd, RfcNumber, CannotContinue, Counted;
    NumbersAreLexed(buf, pos, s);
    assert buf[pos..pos + |s|] == s;
  }

  // ---------- Arrays ----------

  lemma {:induction false} ArrayReads(decimals: Decimals, t: Text, buf: bytes, pos: nat)
    requires t.ArrayText? && Shaped(t) && Numbered(t, true) && At(buf, pos, Rendered(t)) && SkipWs(buf, pos) == Some(pos)
    ensures ParseValue(decimals, buf, pos) == Read(Meaning(decimals, t), pos + |Rendered(t)|)
    decreases t.items, 1
  {
    hide RenderedItems, SkipWs, At, ParseItem, ItemsMeaning, ItemShaped, ItemNumbered;
    var items := t.items;
    if items == [] {
      var inner := t.gap + [0x5D];
      AtSplit(buf, pos, [0x5B], inner);
      ByteOf(buf, pos, [0x5B], 0);
      AtSplit(buf, pos + 1, t.gap, [0x5D]);
      ByteOf(buf, pos + 1 + |t.gap|, [0x5D], 0);
      BlankSkipped(buf, pos + 1, t.gap);
      assert ItemsMeaning(decimals, []) == Some([]) by { NoItems(decimals); }
    } else {
      AtSplit(buf, pos, [0x5B], RenderedItems(items));
      ByteOf(buf, pos, [0x5B], 0);
      ItemBegins(items, buf, pos + 1);
      var first := pos + 1 + |items[0].before|;
      ItemsRead(decimals, items, buf, pos + 1, []);
      ItemFrom(decimals, buf, pos + 1, first, []);
      if ItemsMeaning(decimals, items).Some? {
        assert [] + ItemsMeaning(decimals, items).value == ItemsMeaning(decimals, items).value;
      }
    }
  }

  lemma {:induction false} NoItems(decimals: Decimals)
    ensures ItemsMeaning(decimals, []) == Some([]) && MembersMeaning(decimals, []) == Some([])
  {
  }

  // Where the first item begins.
  lemma {:induction false} ItemBegins(items: seq<Item>, buf: bytes, pos: nat)
    requires items != [] && ItemsShaped(items) && ItemsNumbered(items, true) && At(buf, pos, RenderedItems(items))
    ensures var start := pos + |items[0].before|;
      start < |buf| && StartsText(buf[start]) && SkipWs(buf, pos) == Some(start)
  {
    hide At, Rendered, SkipWs, Shaped, Numbered;
    var item := items[0];
    ItemParts(item);
    var tail := RenderedItems(items)[|RenderedItem(item)|..];
    assert RenderedItems(items) == RenderedItem(item) + tail;
    AtSplit(buf, pos, RenderedItem(item), tail);
    ItemStarts(item, buf, pos);
  }

  lemma {:induction false} ItemParts(item: Item)
    requires ItemShaped(item)
    ensures IsBlank(item.before) && Shaped(item.value) && IsBlank(item.behind)
    ensures RenderedItem(item) == item.before + Rendered(item.value) + item.behind
  {
    hide Rendered;
  }

  lemma {:induction false} ItemStarts(item: Item, buf: bytes, pos: nat)
    requires ItemShaped(item) && ItemNumbered(item, true) && At(buf, pos, RenderedItem(item))
    ensures var start := pos + |item.before|;
      && start < |buf| && StartsText(buf[start]) && SkipWs(buf, pos) == Some(start)
      && At(buf, start, Rendered(item.value)) && At(buf, start + |Rendered(item.value)|, item.behind)
  {
    hide At, Rendered, SkipWs, Shaped, Numbered, RenderedItem;
    ItemParts(item);
    AtSplit(buf, pos, item.before + Rendered(item.value), item.behind);
    AtSplit(buf, pos, item.before, Rendered(item.value));
    NumberedItem(item);
    TextBegins(item.value);
    ByteOf(buf, pos + |item.before|, Rendered(item.value), 0);
    BlankSkipped(buf, pos, item.before);
  }

  lemma {:induction false} NumberedItem(item: Item)
    requires ItemNumbered(item, true)
    ensures Numbered(item.value, true)
  {
  }

  lemma {:induction false} ItemFrom(decimals: Decimals, buf: bytes, pos: nat, start: nat, items: seq<Value>)
    requires SkipWs(buf, pos) == Some(start)
    ensures ParseItem(decimals, buf, pos, items) == ParseItem(decimals, buf, start, items)
  {
    hide ParseValue, AfterItem;
    ParsedBehind(decimals, buf, pos, start);
  }

  // One value with whitespace around it, and the character behind that.
  lemma {:induction false} ItemReads(decimals: Decimals, item: Item, buf: bytes, pos: nat, x: byte)
    requires ItemShaped(item) && ItemNumbered(item, true) && At(buf, pos, RenderedItem(item) + [x])
    requires !IsWs(x) && !NumberCharacter(x)
    ensures Shaped(item.value)
    ensures var start := pos + |item.before|;
      var end := start + |Rendered(item.value)|;
      && ParseValue(decimals, buf, pos) == Read(Meaning(decimals, item.value), end)
      && SkipWs(buf, end) == Some(pos + |RenderedItem(item)|)
      && pos + |RenderedItem(item)| < |buf| && buf[pos + |RenderedItem(item)|] == x
    decreases item, 0
  {
    hide At, Rendered, SkipWs, Shaped, Numbered, RenderedItem, ParseValue, Meaning, NumberCharacter, IsWs, CannotContinue;
    ItemParts(item);
    NumberedItem(item);
    AtSplit(buf, pos, RenderedItem(item), [x]);
    ItemStarts(item, buf, pos);
    var start := pos + |item.before|;
    var end := start + |Rendered(item.value)|;
    var last := pos + |RenderedItem(item)|;
    ByteOf(buf, last, [x], 0);
    ParsedBehind(decimals, buf, pos, start);
    BlankSkipped(buf, end, item.behind);
    if item.behind != [] {
      ByteOf(buf, end, item.behind, 0);
      BlankStops(item.behind[0]);
    }
    OthersStop(if item.value.NumberText? then item.value.number else [], buf[end]);
    TextReads(decimals, item.value, buf, start);
    TrueIsFour(item.value);
  }

  lemma {:induction false} TrueIsFour(t: Text)
    requires Shaped(t)
    ensures t.TrueText? ==> |Rendered(t)| == 4
  {
  }

  lemma {:induction false} BlankStops(c: byte)
    requires c == 0x20 || c == 0x09 || c == 0x0A || c == 0x0D
    ensures !NumberCharacter(c)
  {
  }

  // The items from one on, with those before it already read.
  lemma {:induction false} ItemsRead(decimals: Decimals, items: seq<Item>, buf: bytes, pos: nat, before: seq<Value>)
    requires items != [] && ItemsShaped(items) && ItemsNumbered(items, true) && At(buf, pos, RenderedItems(items))
    ensures ParseItem(decimals, buf, pos, before)
         == ReadArray(before, ItemsMeaning(decimals, items), pos + |RenderedItems(items)|)
    decreases items, 0
  {
    hide At, Rendered, SkipWs, Shaped, Numbered, RenderedItem, ParseValue, Meaning, ItemShaped, ItemNumbered, RenderedItems;
    hide ItemsMeaning;
    var item, rest := items[0], items[1..];
    var next := pos + |RenderedItem(item)|;
    var x: byte := if rest == [] then 0x5D else 0x2C;
    ItemsSplit(items);
    var tail := if rest == [] then [] else RenderedItems(rest);
    AtSplit(buf, pos, RenderedItem(item) + [x], tail);
    ItemReads(decimals, item, buf, pos, x);
    ItemsMean(decimals, items);
    if Meaning(decimals, item.value).Some? {
      var v := Meaning(decimals, item.value).value;
      if rest == [] {
        NoItems(decimals);
        assert before + [v] == before + ([v] + []);
      } else {
        ItemsRead(decimals, rest, buf, next + 1, before + [v]);
        if ItemsMeaning(decimals, rest).Some? {
          assert before + [v] + ItemsMeaning(decimals, rest).value == before + ([v] + ItemsMeaning(decimals, rest).value);
        }
      }
    }
  }

  lemma {:induction false} ItemsSplit(items: seq<Item>)
    requires items != [] && ItemsShaped(items)
    ensures ItemShaped(items[0]) && ItemsShaped(items[1..])
    ensures RenderedItems(items)
         == RenderedItem(items[0]) + [if |items| == 1 then 0x5D else 0x2C]
            + (if |items| == 1 then [] else RenderedItems(items[1..]))
  {
    hide RenderedItem, ItemShaped;
  }

  lemma {:induction false} ItemsMean(decimals: Decimals, items: seq<Item>)
    requires items != [] && ItemsShaped(items)
    ensures ItemShaped(items[0]) && ItemsShaped(items[1..]) && Shaped(items[0].value)
    ensures var first, rest := Meaning(decimals, items[0].value), ItemsMeaning(decimals, items[1..]);
      ItemsMeaning(decimals, items) == if first.None? || rest.None? then None else Some([first.value] + rest.value)
  {
    hide Meaning;
    ItemParts(items[0]);
  }

  // ---------- Objects ----------

  lemma {:induction false} ObjectReads(decimals: Decimals, t: Text, buf: bytes, pos: nat)
    requires t.ObjectText? && Shaped(t) && Numbered(t, true) && At(buf, pos, Rendered(t)) && SkipWs(buf, pos) == Some(pos)
    ensures ParseValue(decimals, buf, pos) == Read(Meaning(decimals, t), pos + |Rendered(t)|)
    decreases t.members, 1
  {
    hide RenderedMembers, SkipWs, At, ParsePair, MembersMeaning, MemberShaped, MemberNumbered;
    var members := t.members;
    if members == [] {
      var inner := t.gap + [0x7D];
      AtSplit(buf, pos, [0x7B], inner);
      ByteOf(buf, pos, [0x7B], 0);
      AtSplit(buf, pos + 1, t.gap, [0x7D]);
      ByteOf(buf, pos + 1 + |t.gap|, [0x7D], 0);
      BlankSkipped(buf, pos + 1, t.gap);
      NoItems(decimals);
    } else {
      AtSplit(buf, pos, [0x7B], RenderedMembers(members));
      ByteOf(buf, pos, [0x7B], 0);
      MemberBegins(members, buf, pos + 1);
      MembersRead(decimals, members, buf, pos + 1, []);
      PairFrom(decimals, buf, pos + 1, pos + 1 + |members[0].before|, []);
      if MembersMeaning(decimals, members).Some? {
        assert [] + MembersMeaning(decimals, members).value == MembersMeaning(decimals, members).value;
      }
    }
  }

  lemma {:induction false} PairFrom(decimals: Decimals, buf: bytes, pos: nat, start: nat, pairs: seq<Pair>)
    requires SkipWs(buf, pos) == Some(start)
    ensures ParsePair(decimals, buf, pos, pairs) == ParsePair(decimals, buf, start, pairs)
  {
    hide ParseMember, StringAt;
    assert SkipWs(buf, start) == Some(start);
  }

  lemma {:induction false} MemberParts(m: Member)
    requires MemberShaped(m)
    ensures IsBlank(m.before) && PiecesOk(m.key) && IsBlank(m.behind) && ItemShaped(m.item)
    ensures RenderedMember(m) == m.before + (Literal(m.key) + (m.behind + ([0x3A] + RenderedItem(m.item))))
  {
    hide RenderedItem, ItemShaped, Literal;
  }

  // Where the first key begins.
  lemma {:induction false} MemberBegins(members: seq<Member>, buf: bytes, pos: nat)
    requires members != [] && MembersShaped(members) && At(buf, pos, RenderedMembers(members))
    ensures var start := pos + |members[0].before|;
      start < |buf| && buf[start] == 0x22 && SkipWs(buf, pos) == Some(start)
  {
    hide At, SkipWs, MemberShaped, RenderedMember, PiecesText, RenderedMembers, RenderedItem;
    var m := members[0];
    MembersSplit(members);
    MemberParts(m);
    var tail := RenderedMembers(members)[|RenderedMember(m)|..];
    assert RenderedMembers(members) == RenderedMember(m) + tail;
    AtSplit(buf, pos, RenderedMember(m), tail);
    var rest := m.behind + ([0x3A] + RenderedItem(m.item));
    AtSplit(buf, pos, m.before, Literal(m.key) + rest);
    AtSplit(buf, pos + |m.before|, Literal(m.key), rest);
    ByteOf(buf, pos + |m.before|, Literal(m.key), 0);
    BlankSkipped(buf, pos, m.before);
  }

  lemma {:induction false} MembersSplit(members: seq<Member>)
    requires members != [] && MembersShaped(members)
    ensures MemberShaped(members[0]) && MembersShaped(members[1..])
    ensures RenderedMembers(members)
         == RenderedMember(members[0]) + ([if |members| == 1 then 0x7D else 0x2C]
            + (if |members| == 1 then [] else RenderedMembers(members[1..])))
  {
    hide RenderedMember, MemberShaped;
  }

  // A key, with the colon behind it.
  lemma {:induction false} KeyRead(m: Member, buf: bytes, pos: nat)
    requires MemberShaped(m) && At(buf, pos, RenderedMember(m))
    ensures PiecesOk(m.key) && ItemShaped(m.item)
    ensures var start := pos + |RenderedMember(m)| - |RenderedItem(m.item)|;
      && start >= 0 && At(buf, start, RenderedItem(m.item))
      && ParseKey(buf, pos) == if ValidUtf8(PiecesValue(m.key)) then Some((PiecesValue(m.key), start)) else None
  {
    hide At, SkipWs, MemberShaped, RenderedMember, RenderedItem, ItemShaped, ValidUtf8, StringAt, Literal, PiecesValue;
    MemberParts(m);
    var key, item := Literal(m.key), RenderedItem(m.item);
    var a := pos + |m.before|;
    var b := a + |key|;
    var c := b + |m.behind|;
    AtSplit(buf, pos, m.before, key + (m.behind + ([0x3A] + item)));
    AtSplit(buf, a, key, m.behind + ([0x3A] + item));
    AtSplit(buf, b, m.behind, [0x3A] + item);
    AtSplit(buf, c, [0x3A], item);
    ByteOf(buf, c, [0x3A], 0);
    LiteralReads(m.key, buf, a);
    BlankSkipped(buf, pos, m.before);
    BlankSkipped(buf, b, m.behind);
  }

  lemma {:induction false} MembersRead(decimals: Decimals, members: seq<Member>, buf: bytes, pos: nat, before: seq<Pair>)
    requires members != [] && MembersShaped(members) && MembersNumbered(members, true)
    requires At(buf, pos, RenderedMembers(members))
    ensures ParsePair(decimals, buf, pos, before)
         == ReadObject(before, MembersMeaning(decimals, members), pos + |RenderedMembers(members)|)
    decreases members, 0
  {
    hide At, Rendered, SkipWs, Shaped, Numbered, RenderedItem, ParseValue, Meaning, MemberShaped, MemberNumbered, RenderedMembers;
    hide MembersMeaning, RenderedMember, ParseKey, ItemShaped, ItemNumbered, PiecesValue, ValidUtf8;
    var m, rest := members[0], members[1..];
    var next := pos + |RenderedMember(m)|;
    var x: byte := if rest == [] then 0x7D else 0x2C;
    MembersSplit(members);
    var tail := if rest == [] then [] else RenderedMembers(rest);
    AtSplit(buf, pos, RenderedMember(m), [x] + tail);
    AtSplit(buf, next, [x], tail);
    KeyRead(m, buf, pos);
    MembersMean(decimals, members);
    var start := next - |RenderedItem(m.item)|;
    AtSplit(buf, start, RenderedItem(m.item), [x]);
    NumberedMember(m);
    ItemReads(decimals, m.item, buf, start, x);
    if ValidUtf8(PiecesValue(m.key)) && Meaning(decimals, m.item.value).Some? {
      var pair := Pair(PiecesValue(m.key), Meaning(decimals, m.item.value).value);
      if rest == [] {
        NoItems(decimals);
        PairGoesOn(decimals, buf, pos, before, pair, start, next);
        assert before + [pair] == before + ([pair] + []);
      } else {
        MembersRead(decimals, rest, buf, next + 1, before + [pair]);
        PairGoesOn(decimals, buf, pos, before, pair, start, next);
        if MembersMeaning(decimals, rest).Some? {
          var others := MembersMeaning(decimals, rest).value;
          assert before + [pair] + others == before + ([pair] + others);
        }
      }
    }
  }

  lemma {:induction false} PairGoesOn(decimals: Decimals, buf: bytes, pos: nat, pairs: seq<Pair>, pair: Pair, start: nat, next: nat)
    requires ParseKey(buf, pos) == Some((pair.key, start)) && ParseValue(decimals, buf, start).Some?
    requires ParseValue(decimals, buf, start).value.0 == pair.value
    requires SkipWs(buf, ParseValue(decimals, buf, start).value.1) == Some(next) && buf[next] in {COMMA, CLOSE_BRACE}
    ensures ParsePair(decimals, buf, pos, pairs)
         == if buf[next] == COMMA then ParsePair(decimals, buf, next + 1, pairs + [pair])
            else Some((Object(pairs + [pair]), next + 1))
  {
    hide ParseKey, ParseValue, SkipWs;
    var end := ParseValue(decimals, buf, start).value.1;
    assert pair == Pair(pair.key, pair.value);
    assert ParsePair(decimals, buf, pos, pairs) == ParseMember(decimals, buf, start, pairs, pair.key);
    assert ParseMember(decimals, buf, start, pairs, pair.key) == AfterPair(decimals, buf, end, pairs + [pair]);
    if buf[next] == COMMA {
      assert AfterPair(decimals, buf, end, pairs + [pair]) == ParsePair(decimals, buf, next + 1, pairs + [pair]);
    }
  }

  lemma {:induction false} NumberedMember(m: Member)
    requires MemberNumbered(m, true)
    ensures ItemNumbered(m.item, true)
  {
  }

  lemma {:induction false} MembersMean(decimals: Decimals, members: seq<Member>)
    requires members != [] && MembersShaped(members)
    ensures MemberShaped(members[0]) && MembersShaped(members[1..])
    ensures PiecesOk(members[0].key) && ItemShaped(members[0].item) && Shaped(members[0].item.value)
    ensures var key, first := PiecesValue(members[0].key), Meaning(decimals, members[0].item.value);
      var rest := MembersMeaning(decimals, members[1..]);
      MembersMeaning(decimals, members)
      == if !ValidUtf8(key) || first.None? || rest.None? then None else Some([Pair(key, first.value)] + rest.value)
  {
    hide Meaning, ValidUtf8, PiecesValue, MemberMeaning, MemberShaped, MembersMeaning;
    MemberMeans(decimals, members[0]);
    MembersStep(decimals, members);
  }

  lemma {:induction false} MembersStep(decimals: Decimals, members: seq<Member>)
    requires members != [] && MembersShaped(members)
    ensures MemberShaped(members[0]) && MembersShaped(members[1..])
    ensures var first, rest := MemberMeaning(decimals, members[0]), MembersMeaning(decimals, members[1..]);
      MembersMeaning(decimals, members) == if first.None? || rest.None? then None else Some([first.value] + rest.value)
  {
    hide MemberMeaning, MemberShaped;
  }

  lemma {:induction false} MemberMeans(decimals: Decimals, m: Member)
    requires MemberShaped(m)
    ensures PiecesOk(m.key) && ItemShaped(m.item) && Shaped(m.item.value)
    ensures var key, value := PiecesValue(m.key), Meaning(decimals, m.item.value);
      MemberMeaning(decimals, m) == if !ValidUtf8(key) || value.None? then None else Some(Pair(key, value.value))
  {
    hide Meaning, ValidUtf8, PiecesValue;
    MemberParts(m);
    ItemParts(m.item);
  }
}
