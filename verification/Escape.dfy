// JSON string literals: the escaper of lib/reader/string.c and the escapes that
// lib/writer/parse.c understands (section 7 of RFC 8259).
module Escape {
  import opened Wrappers
  import opened Bytes
  import opened Layout
  import opened Utf8
  import opened Output

  const QUOTE: byte := 0x22
  const BACKSLASH: byte := 0x5C
  const SLASH: byte := 0x2F
  const LOWER_U: byte := 0x75

  // ---------- Writing ----------

  // The letter of a two-character escape, or 0 if there is none.
  function PlainEscape(c: byte): byte {
    if c == QUOTE then QUOTE
    else if c == BACKSLASH then BACKSLASH
    else if c == 0x08 then 0x62
    else if c == 0x0C then 0x66
    else if c == 0x0A then 0x6E
    else if c == 0x0D then 0x72
    else if c == 0x09 then 0x74
    else 0
  }

  function HexDigit(v: nat): byte
    requires v < 16
  {
    if v < 10 then 0x30 + v else 0x41 + (v - 10)
  }

  predicate NeedsEscape(c: byte) {
    PlainEscape(c) != 0 || c < 32
  }

  function EscapeByte(c: byte): (b: bytes)
    ensures b != []
  {
    if PlainEscape(c) != 0 then [BACKSLASH, PlainEscape(c)]
    else if c < 32 then [BACKSLASH, LOWER_U, 0x30, 0x30, HexDigit(c / 16), HexDigit(c % 16)]
    else [c]
  }

  function EscapeAll(s: bytes): bytes {
    if s == [] then [] else EscapeAll(s[..|s| - 1]) + EscapeByte(s[|s| - 1])
  }

  // A JSON string literal.
  function Quoted(s: bytes): bytes {
    [QUOTE] + EscapeAll(s) + [QUOTE]
  }

  lemma {:induction false} EscapePlain(s: bytes, from: nat, to: nat)
    requires from <= to <= |s|
    requires forall i :: from <= i < to ==> !NeedsEscape(s[i])
    ensures EscapeAll(s[..to]) == EscapeAll(s[..from]) + s[from..to]
  {
    hide EscapeByte, NeedsEscape;
    if from < to {
      EscapePlain(s, from, to - 1);
      PlainByte(s[to - 1]);
      assert s[..to][..to - 1] == s[..to - 1];
      assert s[from..to] == s[from..to - 1] + [s[to - 1]];
    }
  }

  lemma {:induction false} PlainByte(c: byte)
    requires !NeedsEscape(c)
    ensures EscapeByte(c) == [c]
  {
  }

  // _bijson_raw_string_to_json: runs of ordinary bytes are flushed before each escape.
  method RawStringToJson(s: bytes, sink: Sink)
    modifies sink
    ensures sink.data == old(sink.data) + Quoted(s)
  {
    hide EscapeByte;
    ghost var before := old(sink.data) + [QUOTE];
    sink.Write([QUOTE]);
    var pos, written := 0, 0;
    while pos < |s|
      invariant written <= pos <= |s|
      invariant forall i :: written <= i < pos ==> !NeedsEscape(s[i])
      invariant sink.data == before + EscapeAll(s[..written])
    {
      var start, c := pos, s[pos];
      pos := pos + 1;
      var plainEscape := PlainEscape(c);
      if plainEscape == 0 && c >= 32 {
        continue;
      }
      EscapePlain(s, written, start);
      EscapeSnoc(before, s, start);
      if start > written {
        Associate(before, EscapeAll(s[..written]), s[written..start]);
        sink.Write(s[written..start]);
      } else {
        assert s[..written] == s[..start];
      }
      written := pos;
      EscapeByteIs(c);
      if plainEscape != 0 {
        sink.Write([BACKSLASH, plainEscape]);
      } else {
        sink.Write([BACKSLASH, LOWER_U, 0x30, 0x30, HexDigit(c / 16), HexDigit(c % 16)]);
      }
    }
    EscapePlain(s, written, |s|);
    assert s[..|s|] == s;
    Associate(before, EscapeAll(s[..written]), s[written..]);
    if pos > written {
      sink.Write(s[written..pos]);
    }
    sink.Write([QUOTE]);
    Associate(old(sink.data), [QUOTE], EscapeAll(s));
    Associate(old(sink.data), [QUOTE] + EscapeAll(s), [QUOTE]);
  }

  lemma {:induction false} EscapeByteIs(c: byte)
    ensures PlainEscape(c) != 0 ==> EscapeByte(c) == [BACKSLASH, PlainEscape(c)]
    ensures PlainEscape(c) == 0 && c < 32 ==>
      EscapeByte(c) == [BACKSLASH, LOWER_U, 0x30, 0x30, HexDigit(c / 16), HexDigit(c % 16)]
  {
  }

  lemma {:induction false} EscapeSnoc(before: bytes, s: bytes, k: nat)
    requires k < |s|
    ensures before + EscapeAll(s[..k + 1]) == before + EscapeAll(s[..k]) + EscapeByte(s[k])
  {
    hide EscapeByte;
    assert s[..k + 1][..k] == s[..k];
  }

  // ---------- Reading ----------

  function HexValue(c: byte): Option<nat> {
    if 0x30 <= c <= 0x39 then Some(c - 0x30)
    else if 0x41 <= c <= 0x46 then Some(c - 0x41 + 10)
    else if 0x61 <= c <= 0x66 then Some(c - 0x61 + 10)
    else None
  }

  // The number written in n hexadecimal digits.
  function HexNumber(s: bytes): (r: Option<nat>)
    ensures r.Some? && |s| <= 4 ==> r.value < 0x1_0000
    ensures r.Some? && |s| <= 3 ==> r.value < 0x1000
    ensures r.Some? && |s| <= 2 ==> r.value < 0x100
    ensures r.Some? && |s| <= 1 ==> r.value < 0x10
    ensures r.Some? && |s| <= 0 ==> r.value < 1
  {
    if s == [] then Some(0)
    else
      var high, low := HexNumber(s[..|s| - 1]), HexValue(s[|s| - 1]);
      if high.Some? && low.Some? then Some(16 * high.value + low.value) else None
  }

  // _bijson_parse_json_unichar
  method ParseUnichar(hex: bytes) returns (r: Result<nat>)
    requires |hex| == 4
    ensures HexNumber(hex) == if r.Ok? then Some(r.value) else None
    ensures r.Err? ==> r.error == InvalidJsonSyntax
  {
    var value := 0;
    for u := 0 to 4
      invariant HexNumber(hex[..u]) == Some(value)
    {
      assert hex[..u + 1][..u] == hex[..u];
      var digit := HexValue(hex[u]);
      if digit.None? {
        HexFails(hex, u + 1);
        return Err(InvalidJsonSyntax);
      }
      value := 16 * value + digit.value;
    }
    assert hex[..4] == hex;
    return Ok(value);
  }

  lemma {:induction false} HexFails(hex: bytes, k: nat)
    requires k <= |hex| && HexNumber(hex[..k]) == None
    ensures HexNumber(hex) == None
    decreases |hex| - k
  {
    if k < |hex| {
      assert hex[..k + 1][..k] == hex[..k];
      HexFails(hex, k + 1);
    } else {
      assert hex[..k] == hex;
    }
  }

  // How the parser puts two surrogates together: without the 0x10000 of RFC 8259.
  function JoinSurrogates(high: nat, low: nat): (c: nat)
    requires 0xD800 <= high < 0xDC00 && 0xDC00 <= low < 0xE000
    ensures c <= 0xFFFFF
  {
    0x400 * (high % 0x400) + low % 0x400
  }

  // The code point that the two surrogates stand for (section 7 of RFC 8259).
  function SurrogatePair(high: nat, low: nat): nat
    requires 0xD800 <= high < 0xDC00 && 0xDC00 <= low < 0xE000
  {
    0x10000 + 0x400 * (high - 0xD800) + (low - 0xDC00)
  }

  // So no escaped surrogate pair is read as the character it stands for.
  lemma {:induction false} SurrogatesMisread(high: nat, low: nat)
    requires 0xD800 <= high < 0xDC00 && 0xDC00 <= low < 0xE000
    ensures JoinSurrogates(high, low) + 0x10000 == SurrogatePair(high, low)
  {
  }

  // What a backslash at pos stands for, and the length of the escape.
  function EscapeAt(buf: bytes, pos: nat): (r: Option<(bytes, nat)>)
    requires pos < |buf|
    ensures r.Some? ==> 2 <= r.value.1 && pos + r.value.1 <= |buf|
  {
    var len := |buf| - pos;
    if len < 2 then None
    else
      var c := buf[pos + 1];
      if c == QUOTE || c == SLASH || c == BACKSLASH then Some(([c], 2))
      else if c == 0x62 then Some(([0x08], 2))
      else if c == 0x66 then Some(([0x0C], 2))
      else if c == 0x6E then Some(([0x0A], 2))
      else if c == 0x72 then Some(([0x0D], 2))
      else if c == 0x74 then Some(([0x09], 2))
      else if c == LOWER_U then UnicodeEscapeAt(buf, pos)
      else None
  }

  function UnicodeEscapeAt(buf: bytes, pos: nat): (r: Option<(bytes, nat)>)
    requires pos < |buf|
    ensures r.Some? ==> 2 <= r.value.1 && pos + r.value.1 <= |buf|
  {
    if |buf| - pos < 6 then None
    else
      var high := HexNumber(buf[pos + 2..pos + 6]);
      if high.None? then None
      else if 0xD800 <= high.value < 0xDC00 then
        if |buf| - pos < 12 || buf[pos + 6] != BACKSLASH || buf[pos + 7] != LOWER_U then None
        else
          var low := HexNumber(buf[pos + 8..pos + 12]);
          if low.None? || !(0xDC00 <= low.value < 0xE000) then None
          else Some((EncodeScalar(JoinSurrogates(high.value, low.value)), 12))
      else Some((EncodeScalar(high.value), 6))
  }

  // The text of a string literal whose contents start at pos, and the position after its
  // closing quote, reading one character at a time.
  function Unescape(buf: bytes, pos: nat): (r: Option<(bytes, nat)>)
    ensures r.Some? ==> pos < r.value.1 <= |buf|
    decreases |buf| - pos
  {
    if pos >= |buf| then None
    else if buf[pos] == QUOTE then Some(([], pos + 1))
    else if buf[pos] < 32 then None
    else if buf[pos] == BACKSLASH then
      var e := EscapeAt(buf, pos);
      if e.None? then None else Prepend(e.value.0, Unescape(buf, pos + e.value.1))
    else Prepend([buf[pos]], Unescape(buf, pos + 1))
  }

  function Prepend(text: bytes, r: Option<(bytes, nat)>): Option<(bytes, nat)> {
    if r.None? then None else Some((text + r.value.0, r.value.1))
  }

  lemma {:induction false} PrependTwice(a: bytes, b: bytes, r: Option<(bytes, nat)>)
    ensures Prepend(a, Prepend(b, r)) == Prepend(a + b, r)
    ensures Prepend([], r) == r
  {
    if r.Some? {
      assert a + (b + r.value.0) == a + b + r.value.0;
      assert [] + r.value.0 == r.value.0;
    }
  }

  // ---------- Round trip ----------

  lemma {:induction false} ByteAt(buf: bytes, pos: nat, e: bytes, i: nat)
    requires At(buf, pos, e) && i < |e|
    ensures pos + i < |buf| && buf[pos + i] == e[i]
  {
    assert buf[pos..pos + |e|][i] == buf[pos + i];
  }

  // Unescaping what the escaper wrote for one byte gives the byte back.
  lemma {:induction false} EscapedByteReads(c: byte, buf: bytes, pos: nat)
    requires At(buf, pos, EscapeByte(c))
    ensures Unescape(buf, pos) == Prepend([c], Unescape(buf, pos + |EscapeByte(c)|))
  {
    hide At, UnicodeEscapeAt;
    var e := EscapeByte(c);
    EscapeEnds(buf, pos, e);
    ByteAt(buf, pos, e, 0);
    if PlainEscape(c) != 0 {
      ByteAt(buf, pos, e, 1);
      assert EscapeAt(buf, pos) == Some(([c], 2));
    } else if c < 32 {
      ByteAt(buf, pos, e, 1);
      ControlReads(c, buf, pos);
      assert EscapeAt(buf, pos) == Some(([c], 6));
    }
  }

  lemma {:induction false} EscapeEnds(buf: bytes, pos: nat, e: bytes)
    requires At(buf, pos, e)
    ensures pos + |e| <= |buf|
  {
  }

  lemma {:induction false} ControlReads(c: byte, buf: bytes, pos: nat)
    requires c < 32 && PlainEscape(c) == 0 && At(buf, pos, EscapeByte(c))
    ensures UnicodeEscapeAt(buf, pos) == Some(([c], 6))
  {
    hide HexNumber;
    HexReads(c);
    var e := EscapeByte(c);
    assert e[2..6] == [0x30, 0x30, HexDigit(c / 16), HexDigit(c % 16)];
    assert buf[pos + 2..pos + 6] == buf[pos..pos + 6][2..6];
  }

  lemma {:induction false} HexReads(c: byte)
    requires c < 32
    ensures HexNumber([0x30, 0x30, HexDigit(c / 16), HexDigit(c % 16)]) == Some(c)
  {
    var s := [0x30, 0x30, HexDigit(c / 16), HexDigit(c % 16)];
    assert s[..3] == [0x30, 0x30, HexDigit(c / 16)] && s[..3][..2] == [0x30, 0x30];
    assert [0x30, 0x30][..1] == [0x30] && [0x30][..0] == [];
    assert HexNumber([]) == Some(0) && HexNumber([0x30]) == Some(0);
    assert HexNumber([0x30, 0x30]) == Some(0);
    assert HexNumber(s[..3]) == Some(c / 16);
  }

  lemma {:induction false} EscapeCons(s: bytes)
    requires s != []
    ensures EscapeAll(s) == EscapeByte(s[0]) + EscapeAll(s[1..])
  {
    hide EscapeByte;
    if |s| == 1 {
      assert s[..0] == [] && s[1..] == [];
    } else {
      EscapeCons(s[..|s| - 1]);
      assert s[..|s| - 1][1..] == s[1..][..|s| - 2];
    }
  }

  // Reading an escaped text gives the text back and stops right after its closing quote,
  // whatever the bytes of the text are.
  lemma {:induction false} EscapeRoundTrip(s: bytes, buf: bytes, pos: nat)
    requires At(buf, pos, EscapeAll(s) + [QUOTE])
    ensures Unescape(buf, pos) == Some((s, pos + |EscapeAll(s)| + 1))
    decreases |s|
  {
    hide EscapeByte, At, EscapeAt;
    if s == [] {
      AtFirst(buf, pos, QUOTE);
    } else {
      var e, rest := EscapeByte(s[0]), EscapeAll(s[1..]);
      EscapeCons(s);
      assert EscapeAll(s) + [QUOTE] == e + (rest + [QUOTE]);
      AtSplit(buf, pos, e, rest + [QUOTE]);
      EscapedByteReads(s[0], buf, pos);
      EscapeRoundTrip(s[1..], buf, pos + |e|);
      assert Prepend([s[0]], Unescape(buf, pos + |e|)) == Some(([s[0]] + s[1..], pos + |EscapeAll(s)| + 1));
      assert [s[0]] + s[1..] == s;
    }
  }

  lemma {:induction false} AtFirst(buf: bytes, pos: nat, c: byte)
    requires At(buf, pos, EscapeAll([]) + [c])
    ensures pos < |buf| && buf[pos] == c
  {
    assert buf[pos..pos + 1][0] == buf[pos];
  }
}
