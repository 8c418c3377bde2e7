// Parsing string literals into a writer (lib/writer/parse.c): in one go when there is no
// escape, in chunks otherwise.
module StringParser {
  import opened Wrappers
  import opened Bytes
  import opened KeyOrder
  import opened Utf8
  import opened Tree
  import opened Document
  import opened Writer
  import opened Escape
  import opened Grammar

  // ---------- Scanning ----------

  // memchr
  function Memchr(buf: bytes, c: byte, from: nat, end: nat): (r: Option<nat>)
    requires from <= end <= |buf|
    ensures r.Some? ==> from <= r.value < end && buf[r.value] == c
    ensures forall i :: from <= i < (if r.Some? then r.value else end) ==> buf[i] != c
    decreases end - from
  {
    if from == end then None
    else if buf[from] == c then Some(from)
    else Memchr(buf, c, from + 1, end)
  }

  predicate NoControls(buf: bytes, from: nat, end: nat)
    requires from <= end <= |buf|
  {
    forall i :: from <= i < end ==> buf[i] >= 32
  }

  // _bijson_check_control_chars
  method CheckControlChars(buf: bytes, from: nat, end: nat) returns (status: Status)
    requires from <= end <= |buf|
    ensures status == if NoControls(buf, from, end) then Success else Failure(InvalidJsonSyntax)
  {
    for pos := from to end
      invariant NoControls(buf, from, pos)
    {
      if buf[pos] / 32 == 0 {
        return Failure(InvalidJsonSyntax);
      }
    }
    return Success;
  }

  // Neither a quote nor a backslash.
  predicate Ordinary(buf: bytes, from: nat, end: nat)
    requires from <= end <= |buf|
  {
    forall i :: from <= i < end ==> buf[i] != QUOTE && buf[i] != BACKSLASH
  }

  // A run of ordinary characters is taken over as it is, unless there is a control character.
  lemma {:induction false} OrdinaryRun(buf: bytes, from: nat, end: nat)
    requires from <= end <= |buf| && Ordinary(buf, from, end)
    ensures Unescape(buf, from) ==
      if NoControls(buf, from, end) then Prepend(buf[from..end], Unescape(buf, end)) else None
    decreases end - from
  {
    hide EscapeAt;
    if from == end {
      PrependTwice([], [], Unescape(buf, end));
    } else {
      OrdinaryRun(buf, from + 1, end);
      PrependTwice([buf[from]], buf[from + 1..end], Unescape(buf, end));
      assert [buf[from]] + buf[from + 1..end] == buf[from..end];
    }
  }

  // Without a closing quote there is no string.
  lemma {:induction false} NoQuote(buf: bytes, from: nat)
    requires from <= |buf| && forall i :: from <= i < |buf| ==> buf[i] != QUOTE
    ensures Unescape(buf, from) == None
    decreases |buf| - from
  {
    hide EscapeAt;
    if from < |buf| {
      NoQuote(buf, from + 1);
      if buf[from] == BACKSLASH && EscapeAt(buf, from).Some? {
        NoQuote(buf, from + EscapeAt(buf, from).value.1);
      }
    }
  }

  // ---------- The writer's document while a text is being parsed ----------

  function Awaited(isKey: bool): Expect {
    if isKey then ExpectKey else ExpectValue
  }

  // The document with a text in the making.
  function Opened(base: Doc, isKey: bool, text: bytes): Doc {
    base.(open := if isKey then OpenKey(text) else OpenString(text))
  }

  // The document with the text in place.
  function WithText(base: Doc, isKey: bool, text: bytes): Doc
    requires DocOk(base) && Expected(base) == Awaited(isKey)
  {
    ExpectsValueMeans(base);
    if isKey then SetKey(base, text) else AddValue(base, Scalar([STRING] + text))
  }

  // The size of the spool once n bytes of text have been pushed.
  ghost function TextSize(h: Hash, base: Doc, isKey: bool, n: nat): nat
    requires DocOk(base)
  {
    |DocSpool(h, base)| + (if isKey then 8 else 10) + n
  }

  lemma {:induction false} OpenedSize(h: Hash, base: Doc, isKey: bool, text: bytes)
    requires DocOk(base) && Expected(base) == Awaited(isKey)
    ensures DocOk(Opened(base, isKey, text)) && |DocSpool(h, Opened(base, isKey, text))| == TextSize(h, base, isKey, |text|)
    ensures Expected(Opened(base, isKey, text)) == if isKey then ExpectMoreKey else ExpectMoreString
  {
    hide FramesSpool, Size;
    ExpectsValueMeans(base);
    PlainSpool(h, base);
  }

  lemma {:induction false} WithTextSize(h: Hash, base: Doc, isKey: bool, text: bytes)
    requires DocOk(base) && Expected(base) == Awaited(isKey) && ValidUtf8(text)
    ensures DocOk(WithText(base, isKey, text))
    ensures |DocSpool(h, WithText(base, isKey, text))| == TextSize(h, base, isKey, |text|)
  {
    hide DocSpool, DocOk, Size, ValidUtf8, Expected, WrittenScalar, ContainerPos, DocStack, ExpectedAfter;
    if isKey {
      KeySpool(h, base, text);
    } else {
      StringWritten(text);
      ScalarSpool(h, base, [STRING] + text);
    }
  }

  lemma {:induction false} StepBegins(decimals: Decimals, doc: Doc, isKey: bool)
    requires DocOk(doc)
    ensures var call := if isKey then Call.BeginKey else Call.BeginString;
      && !IsAppend(call) && !Poisons(doc, call)
      && if Expected(doc) == Awaited(isKey) then Step(decimals, doc, call) == Ok(Opened(doc, isKey, []))
         else Step(decimals, doc, call).Err?
  {
    hide DocOk;
  }

  lemma {:induction false} StepAppends(decimals: Decimals, base: Doc, isKey: bool, text: bytes, chunk: bytes)
    requires DocOk(Opened(base, isKey, text))
    ensures var doc, call := Opened(base, isKey, text), if isKey then Call.AppendKey(chunk) else Call.AppendString(chunk);
      IsAppend(call) && Step(decimals, doc, call) == Ok(Opened(base, isKey, text + chunk))
  {
    hide DocOk;
  }

  // The parser's state: the writer it feeds, the text, and the position in it.
  class Parser {
    const w: Writer
    const buf: bytes
    var pos: nat

    constructor (w: Writer, buf: bytes)
      ensures this.w == w && this.buf == buf && pos == 0
    {
      this.w, this.buf, pos := w, buf, 0;
    }

    // A text in the making is held by the writer.
    ghost predicate Making(base: Doc, isKey: bool, text: bytes)
      reads w
    {
      && w.Valid() && !w.failed
      && DocOk(base) && Expected(base) == Awaited(isKey)
      && w.doc == Opened(base, isKey, text)
    }

    // bijson_writer_append_key or bijson_writer_append_string
    method Append(isKey: bool, chunk: bytes, ghost base: Doc, ghost text: bytes) returns (status: Status)
      requires Making(base, isKey, text)
      modifies w
      ensures w.Valid()
      ensures status.Success? ==> Making(base, isKey, text + chunk)
      ensures status.Failure? ==>
        status.error == OutOfVirtualMemory && TextSize(w.h, base, isKey, |text + chunk|) > SIZE_MAX
    {
      hide DocOk, DocSpool, Expected, Step, DecimalsOk, ExpectedAfter, DocStack, ContainerPos;
      OpenedSize(w.h, base, isKey, text);
      StepAppends(w.decimals, base, isKey, text, chunk);
      OpenedSize(w.h, base, isKey, text + chunk);
      if isKey {
        status := w.AppendKey(chunk);
      } else {
        status := w.AppendString(chunk);
      }
    }

    // bijson_writer_begin_key or bijson_writer_begin_string
    method Begin(isKey: bool) returns (status: Status)
      requires w.Valid()
      modifies w
      ensures w.Valid()
      ensures status.Success? ==> !old(w.failed) && Making(old(w.doc), isKey, [])
      ensures status.Failure? ==> Refused(old(w.failed), old(w.doc), isKey, 0, status.error)
    {
      hide DocOk, DocSpool, Expected, Step, DecimalsOk, ExpectedAfter, DocStack, ContainerPos;
      if !w.failed {
        StepBegins(w.decimals, w.doc, isKey);
        if Expected(w.doc) == Awaited(isKey) {
          OpenedSize(w.h, w.doc, isKey, []);
        }
      }
      if isKey {
        status := w.BeginKey();
      } else {
        status := w.BeginString();
      }
    }

    // A writer that is ready for the text refuses n bytes of it only for lack of memory.
    ghost predicate Refused(wasFailed: bool, was: Doc, isKey: bool, n: nat, e: Error)
      reads w
      requires !wasFailed ==> DocOk(was)
    {
      !wasFailed && Expected(was) == Awaited(isKey) ==>
        e == OutOfVirtualMemory && TextSize(w.h, was, isKey, n) > SIZE_MAX
    }

    // ---------- Escapes ----------

    // What an append of the text behind an escape may report.
    ghost predicate EscapeRefused(base: Doc, isKey: bool, text: bytes, from: nat, e: Error)
      requires from < |buf| && DocOk(base)
      reads w
    {
      EscapeAt(buf, from).Some? ==>
        e == OutOfVirtualMemory && TextSize(w.h, base, isKey, |text + EscapeAt(buf, from).value.0|) > SIZE_MAX
    }

    // _bijson_parse_json_string_escape
    method ParseEscape(isKey: bool, ghost base: Doc, ghost text: bytes) returns (status: Status)
      requires w.Valid() && Making(base, isKey, text)
      requires pos < |buf| && buf[pos] == BACKSLASH
      modifies this`pos, w
      ensures w.Valid()
      ensures status.Success? ==>
        && EscapeAt(buf, old(pos)).Some?
        && pos == old(pos) + EscapeAt(buf, old(pos)).value.1
        && Making(base, isKey, text + EscapeAt(buf, old(pos)).value.0)
      ensures status.Failure? ==> EscapeRefused(base, isKey, text, old(pos), status.error)
    {
      hide Making, HexNumber, EncodeScalar, JoinSurrogates, TextSize, UnicodeEscapeAt;
      var len := |buf| - pos;
      if len < 2 {
        return Failure(InvalidJsonSyntax);
      }
      var c := buf[pos + 1];
      if c == LOWER_U {
        status := ParseUnicodeEscape(isKey, base, text);
        return;
      }
      var character: byte;
      if c == QUOTE || c == SLASH || c == BACKSLASH { character := c; }
      else if c == 0x62 { character := 0x08; }
      else if c == 0x66 { character := 0x0C; }
      else if c == 0x6E { character := 0x0A; }
      else if c == 0x72 { character := 0x0D; }
      else if c == 0x74 { character := 0x09; }
      else { return Failure(InvalidJsonSyntax); }
      status := Append(isKey, [character], base, text);
      if status.Success? {
        pos := pos + 2;
      }
    }

    method ParseUnicodeEscape(isKey: bool, ghost base: Doc, ghost text: bytes) returns (status: Status)
      requires w.Valid() && Making(base, isKey, text)
      requires pos + 1 < |buf| && buf[pos + 1] == LOWER_U
      modifies this`pos, w
      ensures w.Valid()
      ensures var r := UnicodeEscapeAt(buf, old(pos));
        if status.Success? then
          r.Some? && pos == old(pos) + r.value.1 && Making(base, isKey, text + r.value.0)
        else
          r.Some? ==> (status.error == OutOfVirtualMemory && TextSize(w.h, base, isKey, |text + r.value.0|) > SIZE_MAX)
    {
      hide Making, HexNumber, EncodeScalar, TextSize;
      var len := |buf| - pos;
      if len < 6 {
        return Failure(InvalidJsonSyntax);
      }
      var unichar := ParseUnichar(buf[pos + 2..pos + 6]);
      if unichar.Err? { return Failure(unichar.error); }
      if unichar.value / 0x400 == 0x36 {
        // The first half of a surrogate pair: the second must follow.
        if len < 12 { return Failure(InvalidJsonSyntax); }
        if buf[pos + 6] != BACKSLASH || buf[pos + 7] != LOWER_U { return Failure(InvalidJsonSyntax); }
        var unichar2 := ParseUnichar(buf[pos + 8..pos + 12]);
        if unichar2.Err? { return Failure(unichar2.error); }
        if unichar2.value / 0x400 != 0x37 { return Failure(InvalidJsonSyntax); }
        var joined := JoinSurrogates(unichar.value, unichar2.value);
        status := Append(isKey, EncodeScalar(joined), base, text);
        if status.Success? {
          pos := pos + 12;
        }
      } else {
        status := Append(isKey, EncodeScalar(unichar.value), base, text);
        if status.Success? {
          pos := pos + 6;
        }
      }
    }

    // ---------- Whole strings ----------

    // The text is in the document and the position is behind its closing quote.
    ghost predicate Placed(wasFailed: bool, was: Doc, isKey: bool, from: nat)
      reads this, w
      requires !wasFailed ==> DocOk(was)
    {
      var r := StringAt(buf, from);
      && !wasFailed && Expected(was) == Awaited(isKey)
      && r.Some? && pos == r.value.1
      && !w.failed && w.doc == WithText(was, isKey, r.value.0)
    }

    // A writer that is ready for the string refuses it only if it is not one, or if there
    // is no room for it.
    ghost predicate NotPlaced(wasFailed: bool, was: Doc, isKey: bool, from: nat, e: Error)
      reads w
      requires !wasFailed ==> DocOk(was)
    {
      var r := StringAt(buf, from);
      r.Some? ==> Refused(wasFailed, was, isKey, |r.value.0|, e)
    }

    // The writer takes a whole text if it is valid and there is room for it.
    ghost predicate Took(wasFailed: bool, was: Doc, isKey: bool, text: bytes, status: Status)
      reads w
      requires !wasFailed ==> DocOk(was)
    {
      match status
      case Success =>
        && !wasFailed && Expected(was) == Awaited(isKey) && ValidUtf8(text)
        && !w.failed && w.doc == WithText(was, isKey, text)
      case Failure(e) => ValidUtf8(text) ==> Refused(wasFailed, was, isKey, |text|, e)
    }

    lemma {:induction false} StepAdds(doc: Doc, isKey: bool, text: bytes)
      requires DocOk(doc)
      ensures var call := if isKey then Call.AddKey(text) else Call.AddString(text);
        && !IsAppend(call) && !Poisons(doc, call)
        && if Expected(doc) != Awaited(isKey) then Step(w.decimals, doc, call).Err?
           else if !ValidUtf8(text) then Step(w.decimals, doc, call) == Err(InvalidUtf8)
           else Step(w.decimals, doc, call) == Ok(WithText(doc, isKey, text))
    {
      hide DocOk, ValidUtf8, DecimalsOk, ExpectedAfter, DocStack, ContainerPos;
    }

    // bijson_writer_add_key or bijson_writer_add_string
    method Add(isKey: bool, text: bytes) returns (status: Status)
      requires w.Valid()
      modifies w
      ensures w.Valid()
      ensures Took(old(w.failed), old(w.doc), isKey, text, status)
    {
      hide DocOk, DocSpool, Expected, Step, ValidUtf8, WithText, DecimalsOk, ExpectedAfter, DocStack, ContainerPos;
      if !w.failed {
        StepAdds(w.doc, isKey, text);
        if Expected(w.doc) == Awaited(isKey) && ValidUtf8(text) {
          WithTextSize(w.h, w.doc, isKey, text);
        }
      }
      if isKey {
        status := w.AddKey(text);
      } else {
        status := w.AddString(text);
      }
    }

    lemma {:induction false} StepEnds(base: Doc, isKey: bool, text: bytes)
      requires DocOk(base) && Expected(base) == Awaited(isKey) && DocOk(Opened(base, isKey, text))
      ensures var doc, call := Opened(base, isKey, text), if isKey then Call.EndKey else Call.EndString;
        && !IsAppend(call)
        && Step(w.decimals, doc, call) ==
           if ValidUtf8(text) then Ok(WithText(base, isKey, text)) else Err(InvalidUtf8)
    {
      hide DocOk, ValidUtf8, DecimalsOk, ExpectedAfter, DocStack, ContainerPos;
    }

    // bijson_writer_end_key or bijson_writer_end_string
    method End(isKey: bool, ghost base: Doc, ghost text: bytes) returns (status: Status)
      requires Making(base, isKey, text)
      modifies w
      ensures w.Valid()
      ensures Took(false, base, isKey, text, status)
    {
      hide DocOk, DocSpool, Expected, Step, ValidUtf8, WithText, DecimalsOk, ExpectedAfter, DocStack, ContainerPos;
      OpenedSize(w.h, base, isKey, text);
      StepEnds(base, isKey, text);
      if ValidUtf8(text) {
        WithTextSize(w.h, base, isKey, text);
      }
      if isKey {
        status := w.EndKey();
      } else {
        status := w.EndString();
      }
    }

    // The text up to cur has been read; reading on from there gives the rest.
    ghost predicate Reading(start: nat, text: bytes, cur: nat)
      reads {}
    {
      Unescape(buf, start) == Prepend(text, Unescape(buf, cur))
    }

    // No room for the first part of the text, so none for the whole text.
    lemma {:induction false} NoRoom(base: Doc, isKey: bool, start: nat, text: bytes, cur: nat)
      requires start > 0 && DocOk(base) && Reading(start, text, cur)
      requires TextSize(w.h, base, isKey, |text|) > SIZE_MAX
      ensures NotPlaced(false, base, isKey, start - 1, OutOfVirtualMemory)
    {
      hide Unescape, DocSpool, DocOk, ValidUtf8, Expected, DecimalsOk, ExpectedAfter, DocStack, ContainerPos;
    }

    lemma {:induction false} NoString(wasFailed: bool, was: Doc, isKey: bool, start: nat, e: Error)
      requires start > 0 && (!wasFailed ==> DocOk(was)) && Unescape(buf, start) == None
      ensures NotPlaced(wasFailed, was, isKey, start - 1, e)
    {
      hide Unescape, DocSpool, DocOk, ValidUtf8, Expected, DecimalsOk, ExpectedAfter, DocStack, ContainerPos;
    }

    lemma {:induction false} RefusedMore(wasFailed: bool, was: Doc, isKey: bool, start: nat, e: Error)
      requires start > 0 && (!wasFailed ==> DocOk(was)) && Refused(wasFailed, was, isKey, 0, e)
      ensures NotPlaced(wasFailed, was, isKey, start - 1, e)
    {
      hide Unescape, DocSpool, DocOk, ValidUtf8, Expected, DecimalsOk, ExpectedAfter, DocStack, ContainerPos;
    }

    // One escape takes the reading a step further.
    lemma {:induction false} EscapeStep(start: nat, text: bytes, from: nat)
      requires from < |buf| && buf[from] == BACKSLASH && Reading(start, text, from)
      ensures match EscapeAt(buf, from)
        case None => Unescape(buf, start) == None
        case Some((e, n)) => Reading(start, text + e, from + n)
    {
      hide EscapeAt;
      var e := EscapeAt(buf, from);
      if e.Some? {
        PrependTwice(text, e.value.0, Unescape(buf, from + e.value.1));
      }
    }

    // So does a run of ordinary characters.
    lemma {:induction false} RunStep(start: nat, text: bytes, cur: nat, end: nat)
      requires cur <= end <= |buf| && Ordinary(buf, cur, end) && Reading(start, text, cur)
      ensures if NoControls(buf, cur, end) then Reading(start, text + buf[cur..end], end)
              else Unescape(buf, start) == None
    {
      hide Unescape, NoControls;
      OrdinaryRun(buf, cur, end);
      PrependTwice(text, buf[cur..end], Unescape(buf, end));
    }

    lemma {:induction false} QuoteEnds(start: nat, text: bytes, quote: nat)
      requires quote < |buf| && buf[quote] == QUOTE && Reading(start, text, quote)
      ensures Unescape(buf, start) == Some((text, quote + 1))
    {
      assert text + [] == text;
    }

    lemma {:induction false} NothingRead(start: nat)
      ensures Reading(start, [], start)
    {
      hide Unescape;
      PrependTwice([], [], Unescape(buf, start));
    }

    // The loop body of _bijson_parse_json_string: a run of characters and an escape.
    method ParseChunk(isKey: bool, cur: nat, escape: nat, ghost start: nat, ghost base: Doc, ghost text: bytes)
      returns (status: Status, ghost more: bytes)
      requires w.Valid() && Making(base, isKey, text) && DocOk(base)
      requires 0 < start && cur <= escape < |buf| && buf[escape] == BACKSLASH && Ordinary(buf, cur, escape)
      requires Reading(start, text, cur)
      modifies this`pos, w
      ensures w.Valid()
      ensures status.Success? ==> Making(base, isKey, more) && escape < pos <= |buf| && Reading(start, more, pos)
      ensures status.Failure? ==> NotPlaced(false, base, isKey, start - 1, status.error)
    {
      hide DocOk, DocSpool, Expected, Opened, TextSize, EscapeAt, Reading, NoControls, Making, NotPlaced, Unescape;
      hide Ordinary, DecimalsOk, ExpectedAfter, DocStack, ContainerPos;
      more := text;
      RunStep(start, text, cur, escape);
      status := CheckControlChars(buf, cur, escape);
      if status.Failure? {
        NoString(false, base, isKey, start, status.error);
        return;
      }
      status := Append(isKey, buf[cur..escape], base, text);
      more := text + buf[cur..escape];
      if status.Failure? {
        NoRoom(base, isKey, start, more, escape);
        return;
      }
      pos := escape;
      EscapeStep(start, more, escape);
      status := ParseEscape(isKey, base, more);
      var e := EscapeAt(buf, escape);
      if status.Failure? {
        if e.None? {
          NoString(false, base, isKey, start, status.error);
        } else {
          NoRoom(base, isKey, start, more + e.value.0, escape + e.value.1);
        }
        return;
      }
      more := more + e.value.0;
    }

    // The last run of characters, up to the closing quote.
    method ParseLastChunk(isKey: bool, cur: nat, quote: nat, ghost start: nat, ghost base: Doc, ghost text: bytes)
      returns (status: Status, ghost more: bytes)
      requires w.Valid() && Making(base, isKey, text) && DocOk(base)
      requires 0 < start && cur <= quote < |buf| && buf[quote] == QUOTE && Ordinary(buf, cur, quote)
      requires Reading(start, text, cur)
      modifies this`pos, w
      ensures w.Valid()
      ensures status.Success? ==> Making(base, isKey, more) && pos == quote + 1 && Unescape(buf, start) == Some((more, pos))
      ensures status.Failure? ==> NotPlaced(false, base, isKey, start - 1, status.error)
    {
      hide DocOk, DocSpool, Expected, Opened, TextSize, Reading, NoControls, Making, NotPlaced, Unescape, Ordinary;
      hide DecimalsOk, ExpectedAfter, DocStack, ContainerPos;
      more := text;
      pos := quote + 1;
      RunStep(start, text, cur, quote);
      status := CheckControlChars(buf, cur, quote);
      if status.Failure? {
        NoString(false, base, isKey, start, status.error);
        return;
      }
      status := Append(isKey, buf[cur..quote], base, text);
      more := text + buf[cur..quote];
      if status.Failure? {
        NoRoom(base, isKey, start, more, quote);
        return;
      }
      QuoteEnds(start, more, quote);
    }

    // The part of _bijson_parse_json_string that deals with escapes.
    method ParseChunks(isKey: bool, start: nat, firstQuote: nat, firstEscape: nat) returns (status: Status)
      requires w.Valid() && start == pos + 1 <= firstEscape < firstQuote < |buf|
      requires buf[firstQuote] == QUOTE && buf[firstEscape] == BACKSLASH
      requires Ordinary(buf, start, firstEscape) && forall i :: start <= i < firstQuote ==> buf[i] != QUOTE
      modifies this`pos, w
      ensures w.Valid()
      ensures status.Success? ==> Placed(old(w.failed), old(w.doc), isKey, start - 1)
      ensures status.Failure? ==> NotPlaced(old(w.failed), old(w.doc), isKey, start - 1, status.error)
    {
      hide DocSpool, DocOk, Expected, ValidUtf8, WithText, Opened, TextSize, Reading, Making, NotPlaced, Placed;
      hide Unescape, Refused, Took, DecimalsOk, ExpectedAfter, DocStack, ContainerPos;
      var cur, quote, escape := start, firstQuote, firstEscape;
      status := Begin(isKey);
      if status.Failure? {
        RefusedMore(old(w.failed), old(w.doc), isKey, start, status.error);
        return;
      }
      ghost var base, text := old(w.doc), [];
      MakingMeans(base, isKey, text);
      NothingRead(start);
      while true
        invariant w.Valid() && Making(base, isKey, text)
        invariant start <= cur <= escape < quote < |buf|
        invariant buf[quote] == QUOTE && buf[escape] == BACKSLASH
        invariant Ordinary(buf, cur, escape) && forall i :: cur <= i < quote ==> buf[i] != QUOTE
        invariant Reading(start, text, cur)
        decreases |buf| - cur
      {
        status, text := ParseChunk(isKey, cur, escape, start, base, text);
        if status.Failure? { return; }
        cur := pos;
        if quote < cur {
          var next := Memchr(buf, QUOTE, cur, |buf|);
          if next.None? {
            UnquotedFails(start, text, cur);
            NoString(false, base, isKey, start, InvalidJsonSyntax);
            return Failure(InvalidJsonSyntax);
          }
          quote := next.value;
        }
        var nextEscape := Memchr(buf, BACKSLASH, cur, quote);
        if nextEscape.None? {
          status, text := ParseLastChunk(isKey, cur, quote, start, base, text);
          if status.Failure? { return; }
          break;
        }
        escape := nextEscape.value;
      }
      status := End(isKey, base, text);
      WholePlaced(old(w.failed), base, isKey, start, text, status);
    }

    lemma {:induction false} MakingMeans(base: Doc, isKey: bool, text: bytes)
      requires Making(base, isKey, text)
      ensures DocOk(base) && Expected(base) == Awaited(isKey)
    {
    }

    lemma {:induction false} UnquotedFails(start: nat, text: bytes, cur: nat)
      requires cur <= |buf| && Reading(start, text, cur)
      requires forall i :: cur <= i < |buf| ==> buf[i] != QUOTE
      ensures Unescape(buf, start) == None
    {
      NoQuote(buf, cur);
    }

    // _bijson_parse_json_string
    method ParseString(isKey: bool) returns (status: Status)
      requires w.Valid() && pos < |buf| && buf[pos] == QUOTE
      modifies this`pos, w
      ensures w.Valid()
      ensures status.Success? ==> Placed(old(w.failed), old(w.doc), isKey, old(pos))
      ensures status.Failure? ==> NotPlaced(old(w.failed), old(w.doc), isKey, old(pos), status.error)
    {
      hide DocOk, DocSpool, Expected, ValidUtf8, WithText, Unescape, NoControls, Opened, TextSize, Reading, NotPlaced;
      hide Placed, Refused, DecimalsOk, ExpectedAfter, DocStack, ContainerPos;
      var start := pos + 1;
      var quote := Memchr(buf, QUOTE, start, |buf|);
      if quote.None? {
        NoQuote(buf, start);
        NoString(w.failed, w.doc, isKey, start, InvalidJsonSyntax);
        return Failure(InvalidJsonSyntax);
      }
      var escape := Memchr(buf, BACKSLASH, start, quote.value);
      if escape.None? {
        status := ParsePlain(isKey, start, quote.value);
      } else {
        status := ParseChunks(isKey, start, quote.value, escape.value);
      }
    }

    // The part of _bijson_parse_json_string for strings without escapes.
    method ParsePlain(isKey: bool, start: nat, quote: nat) returns (status: Status)
      requires w.Valid() && 0 < start <= quote < |buf| && buf[quote] == QUOTE && Ordinary(buf, start, quote)
      modifies this`pos, w
      ensures w.Valid()
      ensures status.Success? ==> Placed(old(w.failed), old(w.doc), isKey, start - 1)
      ensures status.Failure? ==> NotPlaced(old(w.failed), old(w.doc), isKey, start - 1, status.error)
    {
      hide DocOk, DocSpool, Expected, ValidUtf8, WithText, Unescape, NoControls, Opened, TextSize, Reading, NotPlaced;
      hide Placed, Refused, Ordinary, Took, DecimalsOk, ExpectedAfter, DocStack, ContainerPos;
      ghost var wasFailed, was := w.failed, w.doc;
      PlainReads(start, quote);
      status := CheckControlChars(buf, start, quote);
      if status.Failure? {
        NoString(wasFailed, was, isKey, start, status.error);
        return;
      }
      pos := quote + 1;
      var text := buf[start..quote];
      status := Add(isKey, text);
      WholePlaced(wasFailed, was, isKey, start, text, status);
    }

    lemma {:induction false} PlainReads(start: nat, quote: nat)
      requires start <= quote < |buf| && buf[quote] == QUOTE && Ordinary(buf, start, quote)
      ensures Unescape(buf, start) == if NoControls(buf, start, quote) then Some((buf[start..quote], quote + 1)) else None
    {
      hide Unescape, NoControls, Ordinary, Reading;
      NothingRead(start);
      RunStep(start, [], start, quote);
      if NoControls(buf, start, quote) {
        assert [] + buf[start..quote] == buf[start..quote];
        QuoteEnds(start, buf[start..quote], quote);
      }
    }

    // The verdict of the writer on the text that has been read is the verdict on the string.
    lemma {:induction false} WholePlaced(wasFailed: bool, was: Doc, isKey: bool, start: nat, text: bytes, status: Status)
      requires start > 0 && (!wasFailed ==> DocOk(was))
      requires Unescape(buf, start) == Some((text, pos))
      requires Took(wasFailed, was, isKey, text, status)
      ensures match status
        case Success => Placed(wasFailed, was, isKey, start - 1)
        case Failure(e) => NotPlaced(wasFailed, was, isKey, start - 1, e)
    {
      hide Unescape, DocSpool, DocOk, ValidUtf8, Expected, WithText, Refused, DecimalsOk, ExpectedAfter, DocStack;
      hide ContainerPos;
    }
  }
}
