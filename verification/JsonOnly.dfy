// What the parser reads besides the texts of RFC 8259: the same with numbers that lack some of
// their digits, and nothing else.
module JsonOnly {
  import opened Wrappers
  import opened Bytes
  import opened Utf8
  import opened Tree
  import opened Document
  import opened Escape
  import opened Json
  import opened Grammar
  import opened JsonNumbers
  import opened JsonStrings
  import opened JsonSyntax
  import opened JsonTexts

  lemma {:induction false} SkippedIsBlank(buf: bytes, pos: nat)
    requires SkipWs(buf, pos).Some?
    ensures var start := SkipWs(buf, pos).value;
      IsBlank(buf[pos..start]) && At(buf, pos, buf[pos..start])
    decreases |buf| - pos
  {
    if IsWs(buf[pos]) {
      SkippedIsBlank(buf, pos + 1);
      var start := SkipWs(buf, pos).value;
      assert buf[pos..start] == [buf[pos]] + buf[pos + 1..start];
    }
  }

  // Whatever is read is a text with whitespace in front of it, and is read as what it stands for.
  lemma {:induction false} OnlyTextsRead(decimals: Decimals, buf: bytes, pos: nat) returns (before: bytes, t: Text)
    requires ParseValue(decimals, buf, pos).Some?
    ensures IsBlank(before) && Shaped(t) && Numbered(t, false) && At(buf, pos, before + Rendered(t))
    ensures Meaning(decimals, t).Some?
    ensures ParseValue(decimals, buf, pos) == Read(Meaning(decimals, t), pos + |before| + |Rendered(t)|)
    decreases |buf| - pos, 1
  {
    hide SkipWs, At, ParseItem, ParsePair, ScalarAt, Shaped, Numbered, Rendered, Meaning;
    var start := SkipWs(buf, pos).value;
    SkippedIsBlank(buf, pos);
    before := buf[pos..start];
    if buf[start] == OPEN_BRACKET {
      t := OnlyArraysRead(decimals, buf, pos);
    } else if buf[start] == OPEN_BRACE {
      t := OnlyObjectsRead(decimals, buf, pos);
    } else {
      t := OnlyScalarsRead(decimals, buf, start);
    }
    AtSplit(buf, pos, before, Rendered(t));
  }

  lemma {:induction false} OnlyScalarsRead(decimals: Decimals, buf: bytes, pos: nat) returns (t: Text)
    requires pos < |buf| && ScalarAt(decimals, buf, pos).Some?
    ensures Shaped(t) && Numbered(t, false) && At(buf, pos, Rendered(t)) && Meaning(decimals, t).Some?
    ensures ScalarAt(decimals, buf, pos) == Read(Meaning(decimals, t), pos + |Rendered(t)|)
  {
    hide StringAt, NumberEnd, LooseNumber, PiecesText, PiecesValue, ValidUtf8, Counted;
    var c := buf[pos];
    if c == QUOTE {
      var pieces := OnlyLiteralsRead(buf, pos);
      t := StringText(pieces);
    } else if StartsNumber(c) {
      var end := NumberEnd(buf, pos).value;
      LexedLoosely(buf, pos, end);
      t := NumberText(buf[pos..end]);
    } else if c == 0x74 {
      t := TrueText;
    } else if c == 0x66 {
      t := FalseText;
    } else {
      t := NullText;
    }
  }

  lemma {:induction false} OnlyLiteralsRead(buf: bytes, pos: nat) returns (pieces: seq<Piece>)
    requires pos < |buf| && buf[pos] == QUOTE && StringAt(buf, pos).Some?
    ensures PiecesOk(pieces) && At(buf, pos, Literal(pieces)) && ValidUtf8(PiecesValue(pieces))
    ensures StringAt(buf, pos) == Some((PiecesValue(pieces), pos + |Literal(pieces)|))
  {
    hide At, PiecesText, PiecesValue, Unescape, ValidUtf8;
    pieces := OnlyPiecesRead(buf, pos + 1);
    assert buf[pos..pos + 1] == [0x22];
    TakenAt(buf, pos, 1);
    assert Literal(pieces) == [0x22] + (PiecesText(pieces) + [0x22]);
    AtSplit(buf, pos, [0x22], PiecesText(pieces) + [0x22]);
  }

  // ---------- Arrays ----------

  lemma {:induction false} OnlyArraysRead(decimals: Decimals, buf: bytes, pos: nat) returns (t: Text)
    requires SkipWs(buf, pos).Some? && buf[SkipWs(buf, pos).value] == OPEN_BRACKET
    requires ParseValue(decimals, buf, pos).Some?
    ensures Shaped(t) && Numbered(t, false) && At(buf, SkipWs(buf, pos).value, Rendered(t)) && Meaning(decimals, t).Some?
    ensures ParseValue(decimals, buf, pos) == Read(Meaning(decimals, t), SkipWs(buf, pos).value + |Rendered(t)|)
    decreases |buf| - pos, 0
  {
    hide SkipWs, At, ParseItem, ParsePair, ItemShaped, ItemNumbered, RenderedItems, ItemsMeaning;
    var start := SkipWs(buf, pos).value;
    var first := SkipWs(buf, start + 1).value;
    TakenAt(buf, start, 1);
    assert buf[start..start + 1] == [0x5B];
    if buf[first] == CLOSE_BRACKET {
      var gap := buf[start + 1..first];
      SkippedIsBlank(buf, start + 1);
      TakenAt(buf, first, 1);
      assert buf[first..first + 1] == [0x5D];
      t := ArrayText([], gap);
      AtSplit(buf, start + 1, gap, [0x5D]);
      AtSplit(buf, start, [0x5B], gap + [0x5D]);
      NoItems(decimals);
    } else {
      ItemFrom(decimals, buf, start + 1, first, []);
      var items := OnlyItemsRead(decimals, buf, start + 1, []);
      t := ArrayText(items, []);
      AtSplit(buf, start, [0x5B], RenderedItems(items));
      assert [] + ItemsMeaning(decimals, items).value == ItemsMeaning(decimals, items).value;
    }
  }

  lemma {:induction false} OnlyItemsRead(decimals: Decimals, buf: bytes, pos: nat, before: seq<Value>) returns (items: seq<Item>)
    requires ParseItem(decimals, buf, pos, before).Some?
    ensures items != [] && ItemsShaped(items) && ItemsNumbered(items, false) && At(buf, pos, RenderedItems(items))
    ensures ItemsMeaning(decimals, items).Some?
    ensures ParseItem(decimals, buf, pos, before)
         == ReadArray(before, ItemsMeaning(decimals, items), pos + |RenderedItems(items)|)
    decreases |buf| - pos, 2
  {
    hide SkipWs, At, ParseValue, ItemShaped, ItemNumbered, RenderedItems, ItemsMeaning, RenderedItem, Meaning, Rendered;
    hide Shaped, Numbered;
    ItemSteps(decimals, buf, pos, before);
    var front, t := OnlyTextsRead(decimals, buf, pos);
    var (v, end) := ParseValue(decimals, buf, pos).value;
    var next := SkipWs(buf, end).value;
    var behind := buf[end..next];
    var item := Item(front, t, behind);
    SkippedIsBlank(buf, end);
    ItemTaken(item, false);
    AtSplit(buf, pos, front + Rendered(t), behind);
    TakenAt(buf, next, 1);
    assert buf[next..next + 1] == [buf[next]];
    AtSplit(buf, pos, RenderedItem(item), [buf[next]]);
    var rest := [];
    if buf[next] == COMMA {
      rest := OnlyItemsRead(decimals, buf, next + 1, before + [v]);
      var others := ItemsMeaning(decimals, rest).value;
      assert before + [v] + others == before + ([v] + others);
    } else {
      NoItems(decimals);
      TakenAt(buf, next + 1, 0);
      assert buf[next + 1..next + 1] == [];
      assert before + [v] == before + ([v] + []);
    }
    items := [item] + rest;
    assert items[0] == item && items[1..] == rest;
    ItemsSplit(items);
    ItemsMean(decimals, items);
    var tail := if rest == [] then [] else RenderedItems(rest);
    AtSplit(buf, pos, RenderedItem(item) + [buf[next]], tail);
  }

  // How the rest of an array was read.
  lemma {:induction false} ItemSteps(decimals: Decimals, buf: bytes, pos: nat, items: seq<Value>)
    requires ParseItem(decimals, buf, pos, items).Some?
    ensures ParseValue(decimals, buf, pos).Some?
    ensures var end := ParseValue(decimals, buf, pos).value.1;
      var more := items + [ParseValue(decimals, buf, pos).value.0];
      && SkipWs(buf, end).Some?
      && var next := SkipWs(buf, end).value;
      && buf[next] in {0x5D, 0x2C}
      && ParseItem(decimals, buf, pos, items)
         == if buf[next] == 0x5D then Some((Array(more), next + 1)) else ParseItem(decimals, buf, next + 1, more)
  {
    hide ParseValue, SkipWs;
  }

  lemma {:induction false} ItemTaken(item: Item, strict: bool)
    requires IsBlank(item.before) && Shaped(item.value) && IsBlank(item.behind) && Numbered(item.value, strict)
    ensures ItemShaped(item) && ItemNumbered(item, strict)
    ensures RenderedItem(item) == item.before + Rendered(item.value) + item.behind
  {
    hide Rendered;
  }

  // ---------- Objects ----------

  lemma {:induction false} OnlyObjectsRead(decimals: Decimals, buf: bytes, pos: nat) returns (t: Text)
    requires SkipWs(buf, pos).Some? && buf[SkipWs(buf, pos).value] == OPEN_BRACE
    requires ParseValue(decimals, buf, pos).Some?
    ensures Shaped(t) && Numbered(t, false) && At(buf, SkipWs(buf, pos).value, Rendered(t)) && Meaning(decimals, t).Some?
    ensures ParseValue(decimals, buf, pos) == Read(Meaning(decimals, t), SkipWs(buf, pos).value + |Rendered(t)|)
    decreases |buf| - pos, 0
  {
    hide SkipWs, At, ParseItem, ParsePair, MemberShaped, MemberNumbered, RenderedMembers, MembersMeaning;
    var start := SkipWs(buf, pos).value;
    var first := SkipWs(buf, start + 1).value;
    TakenAt(buf, start, 1);
    assert buf[start..start + 1] == [0x7B];
    if buf[first] == CLOSE_BRACE {
      var gap := buf[start + 1..first];
      SkippedIsBlank(buf, start + 1);
      TakenAt(buf, first, 1);
      assert buf[first..first + 1] == [0x7D];
      t := ObjectText([], gap);
      AtSplit(buf, start + 1, gap, [0x7D]);
      AtSplit(buf, start, [0x7B], gap + [0x7D]);
      NoItems(decimals);
    } else {
      PairFrom(decimals, buf, start + 1, first, []);
      var members := OnlyMembersRead(decimals, buf, start + 1, []);
      t := ObjectText(members, []);
      AtSplit(buf, start, [0x7B], RenderedMembers(members));
      assert [] + MembersMeaning(decimals, members).value == MembersMeaning(decimals, members).value;
    }
  }

  // A key and its colon: the whitespace in front of the key, the key, and the whitespace behind it.
  lemma {:induction false} OnlyKeysRead(buf: bytes, pos: nat) returns (before: bytes, key: seq<Piece>, behind: bytes)
    requires ParseKey(buf, pos).Some?
    ensures IsBlank(before) && PiecesOk(key) && IsBlank(behind) && ValidUtf8(PiecesValue(key))
    ensures var s := before + (Literal(key) + (behind + [0x3A]));
      At(buf, pos, s) && ParseKey(buf, pos) == Some((PiecesValue(key), pos + |s|))
  {
    hide At, SkipWs, StringAt, Literal, ValidUtf8, PiecesValue;
    var start := SkipWs(buf, pos).value;
    SkippedIsBlank(buf, pos);
    before := buf[pos..start];
    key := OnlyLiteralsRead(buf, start);
    var end := StringAt(buf, start).value.1;
    var colon := SkipWs(buf, end).value;
    SkippedIsBlank(buf, end);
    behind := buf[end..colon];
    TakenAt(buf, colon, 1);
    assert buf[colon..colon + 1] == [0x3A];
    AtSplit(buf, end, behind, [0x3A]);
    AtSplit(buf, start, Literal(key), behind + [0x3A]);
    AtSplit(buf, pos, before, Literal(key) + (behind + [0x3A]));
  }

  lemma {:induction false} OnlyMembersRead(decimals: Decimals, buf: bytes, pos: nat, before: seq<Pair>)
    returns (members: seq<Member>)
    requires ParsePair(decimals, buf, pos, before).Some?
    ensures members != [] && MembersShaped(members) && MembersNumbered(members, false)
    ensures At(buf, pos, RenderedMembers(members)) && MembersMeaning(decimals, members).Some?
    ensures ParsePair(decimals, buf, pos, before)
         == ReadObject(before, MembersMeaning(decimals, members), pos + |RenderedMembers(members)|)
    decreases |buf| - pos, 2
  {
    hide SkipWs, At, ParseValue, MemberShaped, MemberNumbered, RenderedMembers, MembersMeaning, RenderedItem, Meaning, Rendered;
    hide Shaped, Numbered, ItemShaped, ItemNumbered, RenderedMember, ParseKey, ValidUtf8, PiecesValue, Literal;
    PairSteps(decimals, buf, pos, before);
    var front, key, colon := OnlyKeysRead(buf, pos);
    var (name, start) := ParseKey(buf, pos).value;
    var blank, t := OnlyTextsRead(decimals, buf, start);
    var (v, end) := ParseValue(decimals, buf, start).value;
    var next := SkipWs(buf, end).value;
    var behind := buf[end..next];
    var item := Item(blank, t, behind);
    var m := Member(front, key, colon, item);
    SkippedIsBlank(buf, end);
    ItemTaken(item, false);
    AtSplit(buf, start, blank + Rendered(t), behind);
    MemberTaken(m, false);
    var prefix := front + (Literal(key) + (colon + [0x3A]));
    AtSplit(buf, pos, prefix, RenderedItem(item));
    TakenAt(buf, next, 1);
    assert buf[next..next + 1] == [buf[next]];
    var rest := [];
    var pair := Pair(name, v);
    if buf[next] == COMMA {
      rest := OnlyMembersRead(decimals, buf, next + 1, before + [pair]);
      var others := MembersMeaning(decimals, rest).value;
      assert before + [pair] + others == before + ([pair] + others);
    } else {
      NoItems(decimals);
      TakenAt(buf, next + 1, 0);
      assert buf[next + 1..next + 1] == [];
      assert before + [pair] == before + ([pair] + []);
    }
    members := [m] + rest;
    assert members[0] == m && members[1..] == rest;
    MembersSplit(members);
    MembersMean(decimals, members);
    var tail := if rest == [] then [] else RenderedMembers(rest);
    AtSplit(buf, next, [buf[next]], tail);
    AtSplit(buf, pos, RenderedMember(m), [buf[next]] + tail);
  }

  // How the rest of an object was read.
  lemma {:induction false} PairSteps(decimals: Decimals, buf: bytes, pos: nat, pairs: seq<Pair>)
    requires ParsePair(decimals, buf, pos, pairs).Some?
    ensures ParseKey(buf, pos).Some? && ParseValue(decimals, buf, ParseKey(buf, pos).value.1).Some?
    ensures var end := ParseValue(decimals, buf, ParseKey(buf, pos).value.1).value.1;
      var more := pairs + [Pair(ParseKey(buf, pos).value.0, ParseValue(decimals, buf, ParseKey(buf, pos).value.1).value.0)];
      && SkipWs(buf, end).Some?
      && var next := SkipWs(buf, end).value;
      && buf[next] in {0x7D, 0x2C}
      && ParsePair(decimals, buf, pos, pairs)
         == if buf[next] == 0x7D then Some((Object(more), next + 1)) else ParsePair(decimals, buf, next + 1, more)
  {
    hide ParseValue, SkipWs, ParseKey;
    var start := ParseKey(buf, pos).value.1;
    var name := ParseKey(buf, pos).value.0;
    assert ParsePair(decimals, buf, pos, pairs) == ParseMember(decimals, buf, start, pairs, name);
    MemberSteps(decimals, buf, start, pairs, name);
  }

  lemma {:induction false} MemberSteps(decimals: Decimals, buf: bytes, pos: nat, pairs: seq<Pair>, key: bytes)
    requires ParseMember(decimals, buf, pos, pairs, key).Some?
    ensures ParseValue(decimals, buf, pos).Some?
    ensures var end := ParseValue(decimals, buf, pos).value.1;
      var more := pairs + [Pair(key, ParseValue(decimals, buf, pos).value.0)];
      && SkipWs(buf, end).Some?
      && var next := SkipWs(buf, end).value;
      && buf[next] in {0x7D, 0x2C}
      && ParseMember(decimals, buf, pos, pairs, key)
         == if buf[next] == 0x7D then Some((Object(more), next + 1)) else ParsePair(decimals, buf, next + 1, more)
  {
    hide ParseValue, SkipWs;
  }

  lemma {:induction false} MemberTaken(m: Member, strict: bool)
    requires IsBlank(m.before) && PiecesOk(m.key) && IsBlank(m.behind) && ItemShaped(m.item) && ItemNumbered(m.item, strict)
    ensures MemberShaped(m) && MemberNumbered(m, strict)
    ensures RenderedMember(m) == m.before + (Literal(m.key) + (m.behind + [0x3A])) + RenderedItem(m.item)
  {
    hide RenderedItem, ItemShaped, Literal;
  }
}
