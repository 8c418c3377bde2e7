// The JSON texts that lib/writer/parse.c accepts, as a recursive grammar over positions in
// the text. It is section 2 of RFC 8259 with looser numbers.
module Grammar {
  import opened Wrappers
  import opened Bytes
  import opened Utf8
  import opened Tree
  import opened Document
  import opened Digits
  import opened Escape
  import opened Json
  import opened DecimalText

  const PLUS: byte := 0x2B
  const POINT: byte := 0x2E

  predicate IsWs(c: byte) {
    c == 0x20 || c == 0x09 || c == 0x0A || c == 0x0D
  }

  // The next position that is not whitespace, if there is one.
  function SkipWs(buf: bytes, pos: nat): (r: Option<nat>)
    ensures r.Some? ==> pos <= r.value < |buf| && !IsWs(buf[r.value])
    decreases |buf| - pos
  {
    if pos >= |buf| then None
    else if IsWs(buf[pos]) then SkipWs(buf, pos + 1)
    else Some(pos)
  }

  // ---------- Numbers ----------

  function SkipDigits(buf: bytes, pos: nat): (p: nat)
    requires pos <= |buf|
    ensures pos <= p <= |buf| && (p < |buf| ==> !IsDigit(buf[p]))
    decreases |buf| - pos
  {
    if pos < |buf| && IsDigit(buf[pos]) then SkipDigits(buf, pos + 1) else pos
  }

  // It skips a run of digits that nothing continues.
  lemma {:induction false} SkipsRun(buf: bytes, from: nat, end: nat)
    requires from <= end <= |buf| && (forall i :: from <= i < end ==> IsDigit(buf[i]))
    requires end < |buf| ==> !IsDigit(buf[end])
    ensures SkipDigits(buf, from) == end
    decreases end - from
  {
    if from < end {
      SkipsRun(buf, from + 1, end);
    }
  }

  // The loops over digits.
  method PassDigits(buf: bytes, from: nat) returns (pos: nat)
    requires from <= |buf|
    ensures pos == SkipDigits(buf, from)
  {
    pos := from;
    while pos < |buf| && IsDigit(buf[pos])
      invariant from <= pos <= |buf| && SkipDigits(buf, pos) == SkipDigits(buf, from)
    {
      pos := pos + 1;
    }
  }

  function SkipSign(buf: bytes, pos: nat, plus: bool): (p: nat)
    requires pos < |buf|
    ensures pos <= p <= |buf|
  {
    if buf[pos] == MINUS || (plus && buf[pos] == PLUS) then pos + 1 else pos
  }

  // Where a number ends: a sign, digits, a fraction and an exponent. Unlike section 6 of
  // RFC 8259 it does not ask for digits anywhere, only for one more character after "-",
  // ".", "e" and the exponent's sign.
  function NumberEnd(buf: bytes, pos: nat): (r: Option<nat>)
    requires pos < |buf|
    ensures r.Some? ==> pos <= r.value <= |buf|
    ensures r.Some? && (buf[pos] == MINUS || IsDigit(buf[pos])) ==> pos < r.value
  {
    var start := SkipSign(buf, pos, false);
    if start == |buf| then None
    else
      var whole := if buf[start] == ZERO then start + 1 else SkipDigits(buf, start);
      var fraction := FractionEnd(buf, whole);
      if fraction.None? then None else ExponentEnd(buf, fraction.value)
  }

  function FractionEnd(buf: bytes, pos: nat): (r: Option<nat>)
    requires pos <= |buf|
    ensures r.Some? ==> pos <= r.value <= |buf|
  {
    if pos == |buf| || buf[pos] != POINT then Some(pos)
    else if pos + 1 == |buf| then None
    else Some(SkipDigits(buf, pos + 1))
  }

  function ExponentEnd(buf: bytes, pos: nat): (r: Option<nat>)
    requires pos <= |buf|
    ensures r.Some? ==> pos <= r.value <= |buf|
  {
    if pos == |buf| || (buf[pos] != 0x65 && buf[pos] != 0x45) then Some(pos)
    else if pos + 1 == |buf| then None
    else
      var digits := SkipSign(buf, pos + 1, true);
      if digits == |buf| then None else Some(SkipDigits(buf, digits))
  }

  predicate StartsNumber(c: byte) {
    c == MINUS || IsDigit(c)
  }

  // A number that the writer can put down, with its right size.
  function NumberAt(decimals: Decimals, buf: bytes, pos: nat): (r: Option<(Value, nat)>)
    requires pos < |buf| && StartsNumber(buf[pos])
    ensures r.Some? ==> pos < r.value.1 <= |buf|
  {
    var end := NumberEnd(buf, pos);
    if end.None? then None
    else match Counted(decimals, buf[pos..end.value])
      case None => None
      case Some(data) => Some((Scalar(data), end.value))
  }

  // ---------- Strings and literals ----------

  // The text of the string literal at pos. The writer checks that it is valid UTF-8.
  function StringAt(buf: bytes, pos: nat): (r: Option<(bytes, nat)>)
    ensures r.Some? ==> pos < r.value.1 <= |buf| && ValidUtf8(r.value.0)
  {
    var r := Unescape(buf, pos + 1);
    if r.Some? && ValidUtf8(r.value.0) then r else None
  }

  function LiteralAt(buf: bytes, pos: nat, text: bytes, constant: byte): (r: Option<(Value, nat)>)
    ensures r.Some? && text != [] ==> pos < r.value.1 <= |buf|
  {
    if At(buf, pos, text) then Some((Scalar([constant]), pos + |text|)) else None
  }

  // The test for the end of the text is off by one here: "true" must not come last.
  function TrueAt(buf: bytes, pos: nat): (r: Option<(Value, nat)>)
    ensures r.Some? ==> pos < r.value.1 <= |buf|
  {
    if pos + 4 >= |buf| then None else LiteralAt(buf, pos, TRUE_TEXT, TRUE)
  }

  // ---------- Values ----------

  function ScalarAt(decimals: Decimals, buf: bytes, pos: nat): (r: Option<(Value, nat)>)
    requires pos < |buf|
    ensures r.Some? ==> pos < r.value.1 <= |buf|
  {
    var c := buf[pos];
    if c == QUOTE then
      var s := StringAt(buf, pos);
      if s.None? then None else Some((Scalar([STRING] + s.value.0), s.value.1))
    else if StartsNumber(c) then NumberAt(decimals, buf, pos)
    else if c == 0x74 then TrueAt(buf, pos)
    else if c == 0x66 then LiteralAt(buf, pos, FALSE_TEXT, FALSE)
    else if c == 0x6E then LiteralAt(buf, pos, NULL_TEXT, NULL)
    else None
  }

  // The value after pos, and the position after it.
  function ParseValue(decimals: Decimals, buf: bytes, pos: nat): (r: Option<(Value, nat)>)
    ensures r.Some? ==> pos < r.value.1 <= |buf|
    decreases |buf| - pos, 0
  {
    var start := SkipWs(buf, pos);
    if start.None? then None
    else
      var p := start.value;
      if buf[p] == OPEN_BRACKET then
        var first := SkipWs(buf, p + 1);
        if first.None? then None
        else if buf[first.value] == CLOSE_BRACKET then Some((Array([]), first.value + 1))
        else ParseItem(decimals, buf, first.value, [])
      else if buf[p] == OPEN_BRACE then
        var first := SkipWs(buf, p + 1);
        if first.None? then None
        else if buf[first.value] == CLOSE_BRACE then Some((Object([]), first.value + 1))
        else ParsePair(decimals, buf, first.value, [])
      else ScalarAt(decimals, buf, p)
  }

  // The rest of an array, from the next item on.
  function ParseItem(decimals: Decimals, buf: bytes, pos: nat, items: seq<Value>): (r: Option<(Value, nat)>)
    ensures r.Some? ==> pos < r.value.1 <= |buf|
    decreases |buf| - pos, 1
  {
    var item := ParseValue(decimals, buf, pos);
    if item.None? then None else AfterItem(decimals, buf, item.value.1, items + [item.value.0])
  }

  // The rest of an array, from behind an item.
  function AfterItem(decimals: Decimals, buf: bytes, pos: nat, items: seq<Value>): (r: Option<(Value, nat)>)
    ensures r.Some? ==> pos < r.value.1 <= |buf|
    decreases |buf| - pos, 0
  {
    var next := SkipWs(buf, pos);
    if next.None? then None
    else if buf[next.value] == CLOSE_BRACKET then Some((Array(items), next.value + 1))
    else if buf[next.value] == COMMA then ParseItem(decimals, buf, next.value + 1, items)
    else None
  }

  // A key, the colon after it, and where the value begins.
  function ParseKey(buf: bytes, pos: nat): (r: Option<(bytes, nat)>)
    ensures r.Some? ==> pos < r.value.1 <= |buf| && ValidUtf8(r.value.0)
  {
    var start := SkipWs(buf, pos);
    if start.None? || buf[start.value] != QUOTE then None
    else
      var key := StringAt(buf, start.value);
      if key.None? then None
      else
        var colon := SkipWs(buf, key.value.1);
        if colon.None? || buf[colon.value] != COLON then None
        else Some((key.value.0, colon.value + 1))
  }

  // The rest of an object, from the next key on.
  function ParsePair(decimals: Decimals, buf: bytes, pos: nat, pairs: seq<Pair>): (r: Option<(Value, nat)>)
    ensures r.Some? ==> pos < r.value.1 <= |buf|
    decreases |buf| - pos, 1
  {
    var key := ParseKey(buf, pos);
    if key.None? then None else ParseMember(decimals, buf, key.value.1, pairs, key.value.0)
  }

  // The rest of an object, from behind a colon.
  function ParseMember(decimals: Decimals, buf: bytes, pos: nat, pairs: seq<Pair>, key: bytes): (r: Option<(Value, nat)>)
    ensures r.Some? ==> pos < r.value.1 <= |buf|
    decreases |buf| - pos, 1
  {
    var value := ParseValue(decimals, buf, pos);
    if value.None? then None
    else AfterPair(decimals, buf, value.value.1, pairs + [Pair(key, value.value.0)])
  }

  // The rest of an object, from behind a value.
  function AfterPair(decimals: Decimals, buf: bytes, pos: nat, pairs: seq<Pair>): (r: Option<(Value, nat)>)
    ensures r.Some? ==> pos < r.value.1 <= |buf|
    decreases |buf| - pos, 0
  {
    var next := SkipWs(buf, pos);
    if next.None? then None
    else if buf[next.value] == CLOSE_BRACE then Some((Object(pairs), next.value + 1))
    else if buf[next.value] == COMMA then ParsePair(decimals, buf, next.value + 1, pairs)
    else None
  }

  // ---------- What is parsed can be written ----------

  lemma {:induction false} ScalarAtWritten(decimals: Decimals, buf: bytes, pos: nat)
    requires DecimalsOk(decimals) && pos < |buf| && ScalarAt(decimals, buf, pos).Some?
    ensures WellFormed(ScalarAt(decimals, buf, pos).value.0)
  {
    hide ValidUtf8, Unescape, NumberEnd;
    if buf[pos] == QUOTE {
      StringWritten(StringAt(buf, pos).value.0);
    }
  }

  // Every value that the grammar derives is one that the writer's functions can produce.
  lemma {:induction false} ParsedWellFormed(decimals: Decimals, buf: bytes, pos: nat)
    requires DecimalsOk(decimals) && ParseValue(decimals, buf, pos).Some?
    ensures WellFormed(ParseValue(decimals, buf, pos).value.0)
    decreases |buf| - pos, 0
  {
    hide ScalarAt, DecimalsOk, WrittenScalar, SkipWs, ParseKey, ValidUtf8;
    var p := SkipWs(buf, pos).value;
    if buf[p] == OPEN_BRACKET {
      var first := SkipWs(buf, p + 1).value;
      if buf[first] != CLOSE_BRACKET {
        ItemsWellFormed(decimals, buf, first, []);
      }
    } else if buf[p] == OPEN_BRACE {
      var first := SkipWs(buf, p + 1).value;
      if buf[first] != CLOSE_BRACE {
        PairsWellFormed(decimals, buf, first, []);
      }
    } else {
      ScalarAtWritten(decimals, buf, p);
    }
  }

  lemma {:induction false} ItemsWellFormed(decimals: Decimals, buf: bytes, pos: nat, items: seq<Value>)
    requires DecimalsOk(decimals) && ParseItem(decimals, buf, pos, items).Some? && AllWellFormed(items)
    ensures WellFormed(ParseItem(decimals, buf, pos, items).value.0)
    decreases |buf| - pos, 1
  {
    hide ParseValue, DecimalsOk, WrittenScalar, SkipWs;
    ParsedWellFormed(decimals, buf, pos);
    var (item, after) := ParseValue(decimals, buf, pos).value;
    var next := SkipWs(buf, after).value;
    if buf[next] == COMMA {
      ItemsWellFormed(decimals, buf, next + 1, items + [item]);
    }
  }

  lemma {:induction false} PairsWellFormed(decimals: Decimals, buf: bytes, pos: nat, pairs: seq<Pair>)
    requires DecimalsOk(decimals) && ParsePair(decimals, buf, pos, pairs).Some? && AllPairsWellFormed(pairs)
    ensures WellFormed(ParsePair(decimals, buf, pos, pairs).value.0)
    decreases |buf| - pos, 2
  {
    hide ParseMember, DecimalsOk, WrittenScalar, ParseKey, ValidUtf8;
    var (key, start) := ParseKey(buf, pos).value;
    MembersWellFormed(decimals, buf, start, pairs, key);
  }

  lemma {:induction false} MembersWellFormed(decimals: Decimals, buf: bytes, pos: nat, pairs: seq<Pair>, key: bytes)
    requires DecimalsOk(decimals) && ParseMember(decimals, buf, pos, pairs, key).Some?
    requires AllPairsWellFormed(pairs) && ValidUtf8(key)
    ensures WellFormed(ParseMember(decimals, buf, pos, pairs, key).value.0)
    decreases |buf| - pos, 1
  {
    hide ParseValue, DecimalsOk, WrittenScalar, SkipWs, ParsePair, ValidUtf8;
    ParsedWellFormed(decimals, buf, pos);
    var (value, after) := ParseValue(decimals, buf, pos).value;
    assert AfterPair(decimals, buf, after, pairs + [Pair(key, value)]).Some?;
    var next := SkipWs(buf, after).value;
    if buf[next] == COMMA {
      PairsWellFormed(decimals, buf, next + 1, pairs + [Pair(key, value)]);
    }
  }

  // ---------- Numbers with a wrong size ----------

  // The same numbers, with the sizes that they really have.
  function Corrected(decimals: Decimals): Decimals {
    (text: bytes) => match decimals(text)
      case Ok(number) => Ok(Number(|number.data|, number.data))
      case Err(e) => Err(e)
  }

  // A number begins at pos, and it is stored with a wrong size.
  predicate MiscountedAt(decimals: Decimals, buf: bytes, pos: nat) {
    && pos < |buf| && StartsNumber(buf[pos])
    && var end := NumberEnd(buf, pos);
       end.Some? && var r := decimals(buf[pos..end.value]); r.Ok? && Miscounted(r.value)
  }

  ghost predicate MiscountedFrom(decimals: Decimals, buf: bytes, pos: nat) {
    exists q :: pos <= q && MiscountedAt(decimals, buf, q)
  }

  // What is derived with the sizes as they are is derived with the right ones; what is only
  // derived with the right ones has a number with a wrong size.
  ghost predicate Agrees(decimals: Decimals, buf: bytes, pos: nat, r: Option<(Value, nat)>, corrected: Option<(Value, nat)>) {
    if r.Some? then corrected == r else corrected.Some? ==> MiscountedFrom(decimals, buf, pos)
  }

  lemma {:induction false} AgreesEarlier(decimals: Decimals, buf: bytes, pos: nat, later: nat,
      r: Option<(Value, nat)>, corrected: Option<(Value, nat)>)
    requires pos <= later && Agrees(decimals, buf, later, r, corrected)
    ensures Agrees(decimals, buf, pos, r, corrected)
  {
  }

  lemma {:induction false} ScalarsAgree(decimals: Decimals, buf: bytes, pos: nat)
    requires pos < |buf|
    ensures Agrees(decimals, buf, pos, ScalarAt(decimals, buf, pos), ScalarAt(Corrected(decimals), buf, pos))
  {
    hide NumberEnd, StringAt;
    if buf[pos] != QUOTE && StartsNumber(buf[pos]) && NumberAt(decimals, buf, pos).None? {
      if NumberAt(Corrected(decimals), buf, pos).Some? {
        assert MiscountedAt(decimals, buf, pos);
      }
    }
  }

  // A text without such numbers is parsed as the grammar alone has it.
  lemma {:induction false} OnlySizesMatter(decimals: Decimals, buf: bytes, pos: nat)
    ensures Agrees(decimals, buf, pos, ParseValue(decimals, buf, pos), ParseValue(Corrected(decimals), buf, pos))
    decreases |buf| - pos, 0
  {
    hide ScalarAt, MiscountedFrom, Corrected, SkipWs;
    var start := SkipWs(buf, pos);
    if start.Some? {
      var p := start.value;
      if buf[p] == OPEN_BRACKET || buf[p] == OPEN_BRACE {
        var first := SkipWs(buf, p + 1);
        if first.Some? {
          if buf[p] == OPEN_BRACKET {
            if buf[first.value] != CLOSE_BRACKET {
              ItemsAgree(decimals, buf, first.value, []);
              AgreesEarlier(decimals, buf, pos, first.value, ParseItem(decimals, buf, first.value, []),
                  ParseItem(Corrected(decimals), buf, first.value, []));
            }
          } else if buf[first.value] != CLOSE_BRACE {
            PairsAgree(decimals, buf, first.value, []);
            AgreesEarlier(decimals, buf, pos, first.value, ParsePair(decimals, buf, first.value, []),
                ParsePair(Corrected(decimals), buf, first.value, []));
          }
        }
      } else {
        ScalarsAgree(decimals, buf, p);
        AgreesEarlier(decimals, buf, pos, p, ScalarAt(decimals, buf, p), ScalarAt(Corrected(decimals), buf, p));
      }
    }
  }

  lemma {:induction false} ItemsAgree(decimals: Decimals, buf: bytes, pos: nat, items: seq<Value>)
    ensures Agrees(decimals, buf, pos, ParseItem(decimals, buf, pos, items), ParseItem(Corrected(decimals), buf, pos, items))
    decreases |buf| - pos, 1
  {
    hide ParseValue, MiscountedFrom, Corrected, SkipWs;
    OnlySizesMatter(decimals, buf, pos);
    var item := ParseValue(decimals, buf, pos);
    if item.Some? {
      var (value, after) := item.value;
      var next := SkipWs(buf, after);
      if next.Some? && buf[next.value] == COMMA {
        var more := items + [value];
        ItemsAgree(decimals, buf, next.value + 1, more);
        AgreesEarlier(decimals, buf, pos, next.value + 1, ParseItem(decimals, buf, next.value + 1, more),
            ParseItem(Corrected(decimals), buf, next.value + 1, more));
      }
    }
  }

  lemma {:induction false} PairsAgree(decimals: Decimals, buf: bytes, pos: nat, pairs: seq<Pair>)
    ensures Agrees(decimals, buf, pos, ParsePair(decimals, buf, pos, pairs), ParsePair(Corrected(decimals), buf, pos, pairs))
    decreases |buf| - pos, 2
  {
    hide ParseMember, MiscountedFrom, Corrected, ParseKey;
    var key := ParseKey(buf, pos);
    if key.Some? {
      var (name, start) := key.value;
      MembersAgree(decimals, buf, start, pairs, name);
      AgreesEarlier(decimals, buf, pos, start, ParseMember(decimals, buf, start, pairs, name),
          ParseMember(Corrected(decimals), buf, start, pairs, name));
    }
  }

  lemma {:induction false} MembersAgree(decimals: Decimals, buf: bytes, pos: nat, pairs: seq<Pair>, key: bytes)
    ensures Agrees(decimals, buf, pos, ParseMember(decimals, buf, pos, pairs, key), ParseMember(Corrected(decimals), buf, pos, pairs, key))
    decreases |buf| - pos, 1
  {
    hide ParseValue, MiscountedFrom, Corrected, SkipWs, ParsePair;
    OnlySizesMatter(decimals, buf, pos);
    var item := ParseValue(decimals, buf, pos);
    if item.Some? {
      var (value, after) := item.value;
      var next := SkipWs(buf, after);
      if next.Some? && buf[next.value] == COMMA {
        var more := pairs + [Pair(key, value)];
        PairsAgree(decimals, buf, next.value + 1, more);
        AgreesEarlier(decimals, buf, pos, next.value + 1, ParsePair(decimals, buf, next.value + 1, more),
            ParsePair(Corrected(decimals), buf, next.value + 1, more));
      }
    }
  }
}
