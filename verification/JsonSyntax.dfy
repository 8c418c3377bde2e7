// The JSON texts of RFC 8259 as syntax trees, apart from any parser: the parser reads every one
// of them (lib/writer/parse.c:286-427).
module JsonSyntax {
  import opened Wrappers
  import opened Bytes
  import opened Utf8
  import opened Tree
  import opened Document
  import opened JsonNumbers
  import opened JsonStrings

  // ---------- The standard ----------

  datatype Text =
    | NullText
    | FalseText
    | TrueText
    | NumberText(number: bytes)
    | StringText(pieces: seq<Piece>)
    | ArrayText(items: seq<Item>, gap: bytes)
    | ObjectText(members: seq<Member>, gap: bytes)

  // A value with the whitespace in front of it and behind it.
  datatype Item = Item(before: bytes, value: Text, behind: bytes)

  // A member: the colon stands between the whitespace behind the key and the item.
  datatype Member = Member(before: bytes, key: seq<Piece>, behind: bytes, item: Item)

  // Space, horizontal tab, line feed and carriage return.
  predicate IsBlank(s: bytes) {
    forall i :: 0 <= i < |s| ==> s[i] == 0x20 || s[i] == 0x09 || s[i] == 0x0A || s[i] == 0x0D
  }

  // Everything but the numbers is as the standard has it.
  predicate Shaped(t: Text) {
    match t
    case StringText(pieces) => PiecesOk(pieces)
    case ArrayText(items, gap) => IsBlank(gap) && forall i :: 0 <= i < |items| ==> ItemShaped(items[i])
    case ObjectText(members, gap) => IsBlank(gap) && forall i :: 0 <= i < |members| ==> MemberShaped(members[i])
    case _ => true
  }

  predicate ItemShaped(item: Item) {
    IsBlank(item.before) && Shaped(item.value) && IsBlank(item.behind)
  }

  predicate MemberShaped(m: Member) {
    IsBlank(m.before) && PiecesOk(m.key) && IsBlank(m.behind) && ItemShaped(m.item)
  }

  predicate ItemsShaped(items: seq<Item>) {
    forall i :: 0 <= i < |items| ==> ItemShaped(items[i])
  }

  predicate MembersShaped(members: seq<Member>) {
    forall i :: 0 <= i < |members| ==> MemberShaped(members[i])
  }

  // The numbers are those of the standard, or those and others that lack some of their digits.
  ghost predicate Numbered(t: Text, strict: bool) {
    match t
    case NumberText(number) => if strict then RfcNumber(number) else LooseNumber(number)
    case ArrayText(items, _) => forall i :: 0 <= i < |items| ==> ItemNumbered(items[i], strict)
    case ObjectText(members, _) => forall i :: 0 <= i < |members| ==> MemberNumbered(members[i], strict)
    case _ => true
  }

  ghost predicate ItemNumbered(item: Item, strict: bool) {
    Numbered(item.value, strict)
  }

  ghost predicate MemberNumbered(m: Member, strict: bool) {
    Numbered(m.item.value, strict)
  }

  ghost predicate ItemsNumbered(items: seq<Item>, strict: bool) {
    forall i :: 0 <= i < |items| ==> ItemNumbered(items[i], strict)
  }

  ghost predicate MembersNumbered(members: seq<Member>, strict: bool) {
    forall i :: 0 <= i < |members| ==> MemberNumbered(members[i], strict)
  }

  function Literal(pieces: seq<Piece>): bytes
    requires PiecesOk(pieces)
  {
    [0x22] + PiecesText(pieces) + [0x22]
  }

  // The characters of a text.
  function Rendered(t: Text): bytes
    requires Shaped(t)
    decreases t, 0
  {
    match t
    case NullText => [0x6E, 0x75, 0x6C, 0x6C]
    case FalseText => [0x66, 0x61, 0x6C, 0x73, 0x65]
    case TrueText => [0x74, 0x72, 0x75, 0x65]
    case NumberText(number) => number
    case StringText(pieces) => Literal(pieces)
    case ArrayText(items, gap) =>
      [0x5B] + (if items == [] then gap + [0x5D] else RenderedItems(items))
    case ObjectText(members, gap) =>
      [0x7B] + (if members == [] then gap + [0x7D] else RenderedMembers(members))
  }

  function RenderedItem(item: Item): bytes
    requires ItemShaped(item)
    decreases item, 1
  {
    item.before + Rendered(item.value) + item.behind
  }

  function RenderedItems(items: seq<Item>): bytes
    requires items != [] && ItemsShaped(items)
    decreases items, 0
  {
    RenderedItem(items[0])
    + if |items| == 1 then [0x5D] else [0x2C] + RenderedItems(items[1..])
  }

  function RenderedMember(m: Member): bytes
    requires MemberShaped(m)
    decreases m, 1
  {
    m.before + Literal(m.key) + m.behind + [0x3A] + RenderedItem(m.item)
  }

  function RenderedMembers(members: seq<Member>): bytes
    requires members != [] && MembersShaped(members)
    decreases members, 0
  {
    RenderedMember(members[0])
    + if |members| == 1 then [0x7D] else [0x2C] + RenderedMembers(members[1..])
  }

  // ---------- What a text stands for ----------

  // Texts whose numbers can be stored with their right sizes, and whose strings are UTF-8.
  function Meaning(decimals: Decimals, t: Text): Option<Value>
    requires Shaped(t)
    decreases t, 0
  {
    match t
    case NullText => Some(Scalar([0x01]))
    case FalseText => Some(Scalar([0x02]))
    case TrueText => Some(Scalar([0x03]))
    case NumberText(number) =>
      (match Counted(decimals, number)
       case None => None
       case Some(data) => Some(Scalar(data)))
    case StringText(pieces) =>
      if ValidUtf8(PiecesValue(pieces)) then Some(Scalar([0x08] + PiecesValue(pieces))) else None
    case ArrayText(items, _) =>
      (match ItemsMeaning(decimals, items)
       case None => None
       case Some(values) => Some(Array(values)))
    case ObjectText(members, _) =>
      (match MembersMeaning(decimals, members)
       case None => None
       case Some(pairs) => Some(Object(pairs)))
  }

  function ItemsMeaning(decimals: Decimals, items: seq<Item>): Option<seq<Value>>
    requires ItemsShaped(items)
    decreases items, 0
  {
    if items == [] then Some([])
    else
      var first, rest := Meaning(decimals, items[0].value), ItemsMeaning(decimals, items[1..]);
      if first.None? || rest.None? then None else Some([first.value] + rest.value)
  }

  function MemberMeaning(decimals: Decimals, m: Member): Option<Pair>
    requires MemberShaped(m)
    decreases m, 1
  {
    assert ItemShaped(m.item);
    var value := Meaning(decimals, m.item.value);
    if !ValidUtf8(PiecesValue(m.key)) || value.None? then None else Some(Pair(PiecesValue(m.key), value.value))
  }

  function MembersMeaning(decimals: Decimals, members: seq<Member>): Option<seq<Pair>>
    requires MembersShaped(members)
    decreases members, 0
  {
    if members == [] then Some([])
    else
      var first, rest := MemberMeaning(decimals, members[0]), MembersMeaning(decimals, members[1..]);
      if first.None? || rest.None? then None else Some([first.value] + rest.value)
  }
}
