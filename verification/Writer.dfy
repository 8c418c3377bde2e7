// The writer (lib/writer.h, lib/writer.c, lib/writer/*.c): a spool of bytes, a stack of
// positions in the spool, and what may come next.
module Writer {
  import opened Wrappers
  import opened Bytes
  import opened Layout
  import opened KeyOrder
  import opened Utf8
  import opened Tree
  import opened Document
  import opened SpoolReading

  lemma {:induction false} SamePrefix(a: seq<nat>, b: seq<nat>, x: nat, y: nat)
    requires a + [x] == b + [y]
    ensures a == b && x == y
  {
    assert (a + [x])[..|a|] == a && (b + [y])[..|b|] == b;
    assert (a + [x])[|a|] == x;
  }

  lemma {:induction false} AfterKind(spool: bytes, pos: nat, kind: byte, text: bytes)
    requires pos <= |spool| && spool[pos..] == [kind] + text
    ensures pos + 1 <= |spool| && spool[pos + 1..] == text
  {
    assert spool[pos..][1..] == spool[pos + 1..];
  }

  class Writer {
    const h: Hash
    const decimals: Decimals
    var spool: bytes
    var stack: seq<nat>
    var currentContainer: nat
    var expected: Expect
    var expectedAfterValue: Expect
    var failed: bool

    // Not a field of the C writer: whether a number with a wrong size has been put down.
    var broken: bool

    // What has been written so far.
    ghost var doc: Doc

    ghost predicate Valid()
      reads this
    {
      && DecimalsOk(decimals)
      && (!failed ==> Represents(doc))
    }

    // The writer's fields are determined by the document, as long as it has not failed.
    ghost predicate Represents(d: Doc)
      reads this
    {
      && DocOk(d)
      && spool == DocSpool(h, d) && |spool| <= SIZE_MAX
      && stack == DocStack(h, d)
      && currentContainer == ContainerPos(h, d.frames)
      && expectedAfterValue == ExpectedAfter(d) && broken == d.open.Broken?
      && expected == if broken then expectedAfterValue else Expected(d)
    }

    // What a call does: nothing on a failed writer; a refusal when Step refuses; otherwise
    // what Step says, unless the spool would outgrow the address space. Only some errors
    // make the writer fail.
    ghost predicate Outcome(wasFailed: bool, was: Doc, call: Call, status: Status)
      reads this
      requires !wasFailed ==> DocOk(was)
    {
      if wasFailed then failed && doc == was && status == Failure(WriterFailed)
      else match Step(decimals, was, call)
        case Err(e) => status == Failure(e) && failed == Poisons(was, call) && doc == was
        case Ok(after) =>
          if IsAppend(call) then Appended(was, after, status) else Stored(was, after, status)
    }

    // The new document is held, or it does not fit in memory and the writer fails.
    ghost predicate Stored(was: Doc, after: Doc, status: Status)
      reads this
    {
      && DocOk(after)
      && if |DocSpool(h, after)| <= SIZE_MAX then status == Success && !failed && doc == after
         else status == Failure(OutOfVirtualMemory) && failed && doc == was
    }

    // The same for an append, which leaves the writer usable.
    ghost predicate Appended(was: Doc, after: Doc, status: Status)
      reads this
    {
      && DocOk(after) && !failed
      && if |DocSpool(h, after)| <= SIZE_MAX then status == Success && doc == after
         else status == Failure(OutOfVirtualMemory) && doc == was
    }

    // bijson_writer_alloc
    constructor (h: Hash, decimals: Decimals)
      requires DecimalsOk(decimals)
      ensures Valid() && !failed && doc == EMPTY && this.h == h && this.decimals == decimals
    {
      this.h, this.decimals := h, decimals;
      spool, stack, currentContainer := [], [], 0;
      expected, expectedAfterValue := ExpectValue, ExpectNone;
      failed, broken := false, false;
      doc := EMPTY;
      new;
      NoFrames(h);
    }

    // ---------- The two buffers (lib/writer/buffer.h) ----------

    method PushSpool(data: bytes) returns (status: Status)
      modifies this`spool
      ensures if |old(spool)| + |data| <= SIZE_MAX then status == Success && spool == old(spool) + data
              else status == Failure(OutOfVirtualMemory) && spool == old(spool)
    {
      if SIZE_MAX - |data| < |spool| {
        return Failure(OutOfVirtualMemory);
      }
      spool := spool + data;
      return Success;
    }

    // _bijson_buffer_write: overwrite in place
    method WriteSpool(pos: nat, data: bytes)
      requires pos + |data| <= |spool|
      modifies this`spool
      ensures spool == old(spool)[..pos] + data + old(spool)[pos + |data|..]
    {
      spool := spool[..pos] + data + spool[pos + |data|..];
    }

    method PushStack(pos: nat)
      modifies this`stack
      ensures stack == old(stack) + [pos]
    {
      stack := stack + [pos];
    }

    method PopStack() returns (pos: nat)
      requires stack != []
      modifies this`stack
      ensures old(stack) == stack + [pos]
    {
      pos := stack[|stack| - 1];
      stack := stack[..|stack| - 1];
    }

    // ---------- Shared parts ----------

    // _bijson_writer_check_expect_value
    method CheckExpectValue() returns (status: Status)
      ensures status == if expected == ExpectValue then Success
                        else Failure(if expected == ExpectKey then KeyExpected else UnmatchedEnd)
    {
      return if expected == ExpectValue then Success
             else Failure(if expected == ExpectKey then KeyExpected else UnmatchedEnd);
    }

    // Pushes in a row; the first that does not fit makes the writer fail.
    method PushParts(a: bytes, b: bytes, c: bytes) returns (status: Status)
      modifies this`spool, this`failed
      ensures if |old(spool)| + |a| + |b| + |c| <= SIZE_MAX
              then status == Success && spool == old(spool) + a + b + c && failed == old(failed)
              else status == Failure(OutOfVirtualMemory) && failed
    {
      status := PushSpool(a);
      if status.Failure? { failed := true; return; }
      status := PushSpool(b);
      if status.Failure? { failed := true; return; }
      status := PushSpool(c);
      if status.Failure? { failed := true; return; }
    }

    // The pushes of begin_array and begin_object.
    method BeginContainer(tag: byte, next: Expect, ghost f: Frame) returns (status: Status)
      requires Valid() && !failed && !broken && expected == ExpectValue
      requires f == ArrayFrame([]) || f == ObjectFrame([], None)
      requires tag == FrameTag(f) && next == if f.ArrayFrame? then ExpectValue else ExpectKey
      modifies this
      ensures Valid()
      ensures var after := old(doc).(frames := old(doc).frames + [f]); Stored(old(doc), after, status)
    {
      hide DocOk, DocSpool, DocStack, ContainerPos, Expected, ExpectedAfter, Size, DecimalsOk;
      ghost var after := doc.(frames := doc.frames + [f]);
      ContainerSpool(h, doc, f);
      var container := |spool| + 1;
      expected, expectedAfterValue := next, next;
      status := PushParts([tag], Size(0), Size(0));
      if status.Failure? { return; }
      PushStack(currentContainer);
      currentContainer := container;
      doc := after;
    }

    // The pushes of every function that adds a scalar in one go.
    method PushScalar(data: bytes) returns (status: Status)
      requires Valid() && !failed && !broken && expected == ExpectValue && WrittenScalar(data)
      modifies this
      ensures Valid()
      ensures AcceptsValue(old(doc)) && Stored(old(doc), AddValue(old(doc), Scalar(data)), status)
    {
      hide DocOk, DocSpool, DocStack, ContainerPos, Expected, ExpectedAfter, AcceptsValue, AddValue;
      hide Size, DecimalsOk, WrittenScalar;
      ScalarSpool(h, doc, data);
      ghost var after := AddValue(doc, Scalar(data));
      status := PushParts([SCALAR_TAG], Size(|data|), data);
      if status.Failure? { return; }
      expected := expectedAfterValue;
      doc := after;
    }

    // ---------- Containers (lib/writer/array.c, object.c, container.c) ----------

    // _bijson_container_restore_expect
    method RestoreExpect()
      requires currentContainer <= |spool|
      modifies this`expected, this`expectedAfterValue
      ensures expected == expectedAfterValue || unchanged(this)
      ensures currentContainer == 0 ==> expected == expectedAfterValue == ExpectNone
      ensures currentContainer > 0 && spool[currentContainer - 1] == OBJECT_TAG ==>
        expected == expectedAfterValue == ExpectKey
      ensures currentContainer > 0 && spool[currentContainer - 1] == ARRAY_TAG ==>
        expected == expectedAfterValue == ExpectValue
    {
      if currentContainer != 0 {
        var tag := spool[currentContainer - 1];
        if tag == OBJECT_TAG {
          expected, expectedAfterValue := ExpectKey, ExpectKey;
        } else if tag == ARRAY_TAG {
          expected, expectedAfterValue := ExpectValue, ExpectValue;
        }
      } else {
        expected, expectedAfterValue := ExpectNone, ExpectNone;
      }
    }

    // The end of end_array and end_object, once the output size is known.
    method CloseContainer(outputSize: nat)
      requires Valid() && !failed && doc.frames != [] && doc.open == Closed
      requires Top(doc).ObjectFrame? ==> Top(doc).key == None
      requires WellFormed(FrameValue(Top(doc)))
      requires outputSize == |Encode(h, FrameValue(Top(doc)))|
      modifies this
      ensures Valid() && !failed
      ensures AcceptsValue(Doc(Outer(old(doc)), None, Closed)) && doc == CloseTop(old(doc))
      ensures DocOk(doc) && |DocSpool(h, doc)| <= SIZE_MAX
    {
      hide DocOk, DocSpool, DocStack, ContainerPos, Expected, ExpectedAfter, AcceptsValue, CloseTop;
      hide Size, DecimalsOk, FrameBody, Encode, At;
      CloseSpool(h, doc);
      CloseExpects(h, doc);
      var spoolSize := |spool| - currentContainer - 8;
      WriteSpool(currentContainer, Size(spoolSize) + Size(outputSize));
      ghost var after := CloseTop(doc);
      currentContainer := PopStack();
      SamePrefix(stack, DocStack(h, after), currentContainer, ContainerPos(h, after.frames));
      RestoreExpect();
      doc := CloseTop(doc);
    }

    // bijson_writer_begin_array
    method BeginArray() returns (status: Status)
      requires Valid()
      modifies this
      ensures Valid() && Outcome(old(failed), old(doc), Call.BeginArray, status)
    {
      hide DocOk, DocSpool, DocStack, ContainerPos, DecimalsOk;
      if failed {
        return Failure(WriterFailed);
      }
      if broken {
        return Failure(SpoolBroken);
      }
      status := CheckExpectValue();
      if status.Success? {
        status := BeginContainer(ARRAY_TAG, ExpectValue, ArrayFrame([]));
      }
    }

    // bijson_writer_begin_object
    method BeginObject() returns (status: Status)
      requires Valid()
      modifies this
      ensures Valid() && Outcome(old(failed), old(doc), Call.BeginObject, status)
    {
      hide DocOk, DocSpool, DocStack, ContainerPos, DecimalsOk;
      if failed {
        return Failure(WriterFailed);
      }
      if broken {
        return Failure(SpoolBroken);
      }
      status := CheckExpectValue();
      if status.Success? {
        status := BeginContainer(OBJECT_TAG, ExpectKey, ObjectFrame([], None));
      }
    }

    // bijson_writer_end_array: the first pass computes the size of the output.
    method EndArray() returns (status: Status)
      requires Valid()
      modifies this
      ensures Valid() && Outcome(old(failed), old(doc), Call.EndArray, status)
    {
      hide DocOk, DocSpool, DocStack, ContainerPos, DecimalsOk, At, Concat;
      if failed {
        return Failure(WriterFailed);
      }
      if broken {
        return Failure(SpoolBroken);
      }
      if expected != ExpectValue || expectedAfterValue != ExpectValue {
        return Failure(UnmatchedEnd);
      }
      ghost var items := Top(doc).items;
      CloseSpool(h, doc);
      var count, itemsSize, lastSize := ScanArray(h, spool, currentContainer + 16, items);
      ArrayBytesSize(EncodeItems(h, items));
      CloseContainer(ArraySize(count, itemsSize, lastSize));
      return Success;
    }

    // bijson_writer_end_object: the first pass again, without sorting.
    method EndObject() returns (status: Status)
      requires Valid()
      modifies this
      ensures Valid() && Outcome(old(failed), old(doc), Call.EndObject, status)
    {
      hide DocOk, DocSpool, DocStack, ContainerPos, DecimalsOk, At, Concat, SortedEntries;
      if failed {
        return Failure(WriterFailed);
      }
      if broken {
        return Failure(SpoolBroken);
      }
      if expected != ExpectKey {
        return Failure(UnmatchedEnd);
      }
      ghost var pairs := Top(doc).pairs;
      CloseSpool(h, doc);
      assert FrameBody(h, Top(doc)) == Concat(SpoolPairs(h, pairs));
      var count, keysSize, valuesSize, lastSize := ScanObject(h, spool, currentContainer + 16, pairs);
      SortedEntriesSizes(h, pairs);
      ObjectBytesSize(SortedEntries(h, pairs));
      EncodePairsKeys(h, pairs);
      CloseContainer(ObjectSize(count, keysSize, valuesSize, lastSize));
      return Success;
    }

    // ---------- Keys ----------

    method CheckExpectKey() returns (status: Status)
      ensures status == if expected == ExpectKey then Success
                        else Failure(if expectedAfterValue == ExpectKey then ValueExpected else UnmatchedEnd)
    {
      return if expected == ExpectKey then Success
             else Failure(if expectedAfterValue == ExpectKey then ValueExpected else UnmatchedEnd);
    }

    // bijson_writer_add_key
    method AddKey(key: bytes) returns (status: Status)
      requires Valid()
      modifies this
      ensures Valid() && Outcome(old(failed), old(doc), Call.AddKey(key), status)
    {
      hide DocOk, DocSpool, DocStack, ContainerPos, DecimalsOk, ValidUtf8, AcceptsKey, SetKey;
      if failed {
        return Failure(WriterFailed);
      }
      if broken {
        return Failure(SpoolBroken);
      }
      :- CheckExpectKey();
      :- CheckValidUtf8(key);
      KeySpool(h, doc, key);
      status := PushParts(Size(|key|), key, []);
      if status.Failure? { return; }
      doc := SetKey(doc, key);
      expected := ExpectValue;
    }

    // bijson_writer_begin_key
    method BeginKey() returns (status: Status)
      requires Valid()
      modifies this
      ensures Valid() && Outcome(old(failed), old(doc), Call.BeginKey, status)
    {
      hide DocOk, DocSpool, DocStack, ContainerPos, DecimalsOk, AcceptsKey, Size;
      if failed {
        return Failure(WriterFailed);
      }
      if broken {
        return Failure(SpoolBroken);
      }
      :- CheckExpectKey();
      BeginKeySpool(h, doc);
      PushStack(|spool|);
      status := PushParts(Size(0), [], []);
      if status.Failure? { return; }
      doc := doc.(open := OpenKey([]));
      expected := ExpectMoreKey;
    }

    // bijson_writer_append_key
    method AppendKey(chunk: bytes) returns (status: Status)
      requires Valid()
      modifies this
      ensures Valid() && Outcome(old(failed), old(doc), Call.AppendKey(chunk), status)
    {
      hide DocOk, DocSpool, DocStack, ContainerPos, DecimalsOk;
      if failed {
        return Failure(WriterFailed);
      }
      if broken {
        return Failure(SpoolBroken);
      }
      if expected != ExpectMoreKey {
        return Failure(UnmatchedEnd);
      }
      status := AppendChunk(chunk);
    }

    // The push of the three append functions.
    method AppendChunk(chunk: bytes) returns (status: Status)
      requires Valid() && !failed && InTheMaking(doc.open)
      modifies this`spool, this`doc
      ensures Valid()
      ensures Appended(old(doc), old(doc).(open := old(doc).open.(text := old(doc).open.text + chunk)), status)
    {
      hide DocOk, DocSpool, DocStack, ContainerPos, DecimalsOk, Expected, ExpectedAfter;
      AppendSpool(h, doc, chunk);
      status := PushSpool(chunk);
      if status.Success? {
        doc := doc.(open := doc.open.(text := doc.open.text + chunk));
      }
    }

    // The back-patching of the three end functions.
    method PatchLength() returns (pos: nat)
      requires Valid() && !failed && InTheMaking(doc.open)
      modifies this`spool, this`stack
      ensures pos + 8 <= |spool| && spool[pos + 8..] == OpenText(doc.open)
      ensures spool == OpenPrefix(h, doc) + (Size(|OpenText(doc.open)|) + OpenText(doc.open))
      ensures stack == FrameStack(h, doc.frames)
    {
      hide DocOk, DocSpool, DocStack, FrameStack, ContainerPos, DecimalsOk, Size, OpenText, OpenPrefix;
      ghost var pre, text := OpenPrefix(h, doc), OpenText(doc.open);
      OpenForm(h, doc);
      pos := PopStack();
      SamePrefix(stack, FrameStack(h, doc.frames), pos, |pre|);
      ReplaceSize(pre, Size(0), text, Size(|text|));
      var size := |spool| - pos - 8;
      WriteSpool(pos, Size(size));
      ReplaceSize(pre, Size(|text|), text, Size(|text|));
    }

    // bijson_writer_end_key
    method EndKey() returns (status: Status)
      requires Valid()
      modifies this
      ensures Valid() && Outcome(old(failed), old(doc), Call.EndKey, status)
    {
      hide DocOk, DocSpool, DocStack, FrameStack, ContainerPos, DecimalsOk, ValidUtf8, AcceptsKey, SetKey, Size;
      hide ExpectedAfter, OpenPrefix;
      if failed {
        return Failure(WriterFailed);
      }
      if broken {
        return Failure(SpoolBroken);
      }
      if expected != ExpectMoreKey {
        return Failure(UnmatchedEnd);
      }
      OpenSize(h, doc);
      var pos := PatchLength();
      status := CheckValidUtf8(spool[pos + 8..]);
      if status.Failure? { failed := true; return; }
      EndKeySpool(h, doc);
      doc := SetKey(doc, doc.open.text);
      expected := ExpectValue;
    }

    // ---------- Scalars (lib/writer/string.c, bytes.c, constants.c) ----------

    // bijson_writer_add_string
    method AddString(text: bytes) returns (status: Status)
      requires Valid()
      modifies this
      ensures Valid() && Outcome(old(failed), old(doc), Call.AddString(text), status)
    {
      hide DocOk, DocSpool, DocStack, ContainerPos, DecimalsOk, ValidUtf8, AddValue, WrittenScalar;
      if failed {
        return Failure(WriterFailed);
      }
      if broken {
        return Failure(SpoolBroken);
      }
      :- CheckExpectValue();
      :- CheckValidUtf8(text);
      StringWritten(text);
      status := PushScalar([STRING] + text);
    }

    // bijson_writer_add_bytes
    method AddBytes(text: bytes) returns (status: Status)
      requires Valid()
      modifies this
      ensures Valid() && Outcome(old(failed), old(doc), Call.AddBytes(text), status)
    {
      hide DocOk, DocSpool, DocStack, ContainerPos, DecimalsOk, ValidUtf8, AddValue, WrittenScalar;
      if failed {
        return Failure(WriterFailed);
      }
      if broken {
        return Failure(SpoolBroken);
      }
      :- CheckExpectValue();
      BytesWritten(text);
      status := PushScalar([BYTES] + text);
    }

    // _bijson_writer_add_constant
    method AddConstant(constant: byte) returns (status: Status)
      requires Valid() && IsConstant(constant)
      modifies this
      ensures Valid() && Outcome(old(failed), old(doc), Call.AddConstant(constant), status)
    {
      hide DocOk, DocSpool, DocStack, ContainerPos, DecimalsOk, ValidUtf8, AddValue, WrittenScalar, IsConstant;
      if failed {
        return Failure(WriterFailed);
      }
      if broken {
        return Failure(SpoolBroken);
      }
      :- CheckExpectValue();
      ConstantWritten(constant);
      status := PushScalar([constant]);
    }

    // bijson_writer_add_null
    method AddNull() returns (status: Status)
      requires Valid()
      modifies this
      ensures Valid() && Outcome(old(failed), old(doc), Call.AddConstant(0x01), status)
    {
      hide DocOk, Step, Poisons, Stored;
      status := AddConstant(0x01);
    }

    // bijson_writer_add_false
    method AddFalse() returns (status: Status)
      requires Valid()
      modifies this
      ensures Valid() && Outcome(old(failed), old(doc), Call.AddConstant(0x02), status)
    {
      hide DocOk, Step, Poisons, Stored;
      status := AddConstant(0x02);
    }

    // bijson_writer_add_true
    method AddTrue() returns (status: Status)
      requires Valid()
      modifies this
      ensures Valid() && Outcome(old(failed), old(doc), Call.AddConstant(0x03), status)
    {
      hide DocOk, Step, Poisons, Stored;
      status := AddConstant(0x03);
    }

    // bijson_writer_add_undefined
    method AddUndefined() returns (status: Status)
      requires Valid()
      modifies this
      ensures Valid() && Outcome(old(failed), old(doc), Call.AddConstant(0x04), status)
    {
      hide DocOk, Step, Poisons, Stored;
      status := AddConstant(0x04);
    }

    // bijson_writer_add_snan
    method AddSnan(negative: bool) returns (status: Status)
      requires Valid()
      modifies this
      ensures Valid() && Outcome(old(failed), old(doc), Call.AddConstant(if negative then 0x11 else 0x10), status)
    {
      hide DocOk, Step, Poisons, Stored;
      status := AddConstant(0x10 + if negative then 1 else 0);
    }

    // bijson_writer_add_qnan
    method AddQnan(negative: bool) returns (status: Status)
      requires Valid()
      modifies this
      ensures Valid() && Outcome(old(failed), old(doc), Call.AddConstant(if negative then 0x13 else 0x12), status)
    {
      hide DocOk, Step, Poisons, Stored;
      status := AddConstant(0x12 + if negative then 1 else 0);
    }

    // bijson_writer_add_inf
    method AddInf(negative: bool) returns (status: Status)
      requires Valid()
      modifies this
      ensures Valid() && Outcome(old(failed), old(doc), Call.AddConstant(if negative then 0x15 else 0x14), status)
    {
      hide DocOk, Step, Poisons, Stored;
      status := AddConstant(0x14 + if negative then 1 else 0);
    }

    // bijson_writer_add_decimal_from_string, given the size and the bytes that it computes
    method AddDecimal(text: bytes) returns (status: Status)
      requires Valid()
      modifies this
      ensures Valid() && Outcome(old(failed), old(doc), Call.AddDecimal(text), status)
    {
      hide DocOk, DocSpool, DocStack, ContainerPos, ValidUtf8, AddValue, WrittenScalar;
      if failed {
        return Failure(WriterFailed);
      }
      if broken {
        return Failure(SpoolBroken);
      }
      :- CheckExpectValue();
      if text == [] {
        return Failure(ParameterIsZero);
      }
      var number := decimals(text);
      if number.Err? {
        failed := true;
        return Failure(number.error);
      }
      status := PushNumber(number.value);
    }

    // The pushes of bijson_writer_add_decimal_from_string: the size comes first, as it has been
    // counted. The C code asserts at the end that it is the right one.
    method PushNumber(number: Number) returns (status: Status)
      requires Valid() && !failed && !broken && expected == ExpectValue && NumberOk(number)
      modifies this
      ensures Valid() && AcceptsValue(old(doc))
      ensures Stored(old(doc), if Miscounted(number) then old(doc).(open := Broken(number))
                               else AddValue(old(doc), Scalar(number.data)), status)
    {
      hide DocOk, DocSpool, DocStack, ContainerPos, Expected, ExpectedAfter, AcceptsValue, AddValue;
      hide Size, DecimalsOk, WrittenScalar;
      ScalarSpool(h, doc, number.data);
      if Miscounted(number) {
        BrokenSpool(h, doc, number);
      }
      ghost var after := if Miscounted(number) then doc.(open := Broken(number)) else AddValue(doc, Scalar(number.data));
      status := PushParts([SCALAR_TAG], Size(number.size), number.data);
      if status.Failure? { return; }
      expected := expectedAfterValue;
      broken := Miscounted(number);
      doc := after;
    }

    // bijson_writer_begin_string
    method BeginString() returns (status: Status)
      requires Valid()
      modifies this
      ensures Valid() && Outcome(old(failed), old(doc), Call.BeginString, status)
    {
      hide DocOk, DocSpool, DocStack, ContainerPos, DecimalsOk;
      if failed {
        return Failure(WriterFailed);
      }
      if broken {
        return Failure(SpoolBroken);
      }
      :- CheckExpectValue();
      status := BeginOpen(STRING, ExpectMoreString, OpenString([]));
    }

    // bijson_writer_begin_bytes
    method BeginBytes() returns (status: Status)
      requires Valid()
      modifies this
      ensures Valid() && Outcome(old(failed), old(doc), Call.BeginBytes, status)
    {
      hide DocOk, DocSpool, DocStack, ContainerPos, DecimalsOk;
      if failed {
        return Failure(WriterFailed);
      }
      if broken {
        return Failure(SpoolBroken);
      }
      :- CheckExpectValue();
      status := BeginOpen(BYTES, ExpectMoreBytes, OpenBytes([]));
    }

    // The pushes of begin_string and begin_bytes.
    method BeginOpen(kind: byte, next: Expect, ghost open: Open) returns (status: Status)
      requires Valid() && !failed && !broken && expected == ExpectValue
      requires if kind == STRING then open == OpenString([]) && next == ExpectMoreString
               else kind == BYTES && open == OpenBytes([]) && next == ExpectMoreBytes
      modifies this
      ensures Valid() && Stored(old(doc), old(doc).(open := open), status)
    {
      hide DocOk, DocSpool, DocStack, ContainerPos, DecimalsOk, Expected, ExpectedAfter, Size;
      BeginOpenSpool(h, doc, open);
      PushStack(|spool| + 1);
      status := PushParts([SCALAR_TAG], Size(0), [kind]);
      if status.Failure? { return; }
      doc := doc.(open := open);
      expected := next;
    }

    // bijson_writer_append_string
    method AppendString(chunk: bytes) returns (status: Status)
      requires Valid()
      modifies this
      ensures Valid() && Outcome(old(failed), old(doc), Call.AppendString(chunk), status)
    {
      hide DocOk, DocSpool, DocStack, ContainerPos, DecimalsOk;
      if failed {
        return Failure(WriterFailed);
      }
      if broken {
        return Failure(SpoolBroken);
      }
      if expected != ExpectMoreString {
        return Failure(UnmatchedEnd);
      }
      status := AppendChunk(chunk);
    }

    // bijson_writer_append_bytes
    method AppendBytes(chunk: bytes) returns (status: Status)
      requires Valid()
      modifies this
      ensures Valid() && Outcome(old(failed), old(doc), Call.AppendBytes(chunk), status)
    {
      hide DocOk, DocSpool, DocStack, ContainerPos, DecimalsOk;
      if failed {
        return Failure(WriterFailed);
      }
      if broken {
        return Failure(SpoolBroken);
      }
      if expected != ExpectMoreBytes {
        return Failure(UnmatchedEnd);
      }
      status := AppendChunk(chunk);
    }

    // bijson_writer_end_string: only the whole text is checked, so chunks may split a character.
    method EndString() returns (status: Status)
      requires Valid()
      modifies this
      ensures Valid() && Outcome(old(failed), old(doc), Call.EndString, status)
    {
      hide DocOk, DocSpool, DocStack, FrameStack, ContainerPos, DecimalsOk, ValidUtf8, AcceptsValue, AddValue, Size;
      hide ExpectedAfter, OpenPrefix, WrittenScalar, Expected, Step, OpenText, Poisons;
      if !failed {
        StepEndsString(decimals, doc);
      }
      if failed {
        return Failure(WriterFailed);
      }
      if broken {
        return Failure(SpoolBroken);
      }
      if expected != ExpectMoreString {
        return Failure(UnmatchedEnd);
      }
      OpenSize(h, doc);
      var pos := PatchLength();
      AfterKind(spool, pos + 8, STRING, doc.open.text);
      status := CheckValidUtf8(spool[pos + 9..]);
      if status.Failure? { failed := true; return; }
      StringWritten(doc.open.text);
      EndOpenSpool(h, doc);
      doc := AddValue(doc, Scalar(OpenData(doc.open)));
      expected := expectedAfterValue;
    }

    // bijson_writer_end_bytes
    method EndBytes() returns (status: Status)
      requires Valid()
      modifies this
      ensures Valid() && Outcome(old(failed), old(doc), Call.EndBytes, status)
    {
      hide DocOk, DocSpool, DocStack, FrameStack, ContainerPos, DecimalsOk, ValidUtf8, AcceptsValue, AddValue, Size;
      hide ExpectedAfter, OpenPrefix, WrittenScalar, Expected, Step, OpenText;
      if !failed {
        StepEndsBytes(decimals, doc);
      }
      if failed {
        return Failure(WriterFailed);
      }
      if broken {
        return Failure(SpoolBroken);
      }
      if expected != ExpectMoreBytes {
        return Failure(UnmatchedEnd);
      }
      OpenSize(h, doc);
      var pos := PatchLength();
      BytesWritten(doc.open.text);
      EndOpenSpool(h, doc);
      doc := AddValue(doc, Scalar(OpenData(doc.open)));
      expected := expectedAfterValue;
      return Success;
    }
  }
}
