// What bijson_get_value_type answers for the values that the functions of the writer add
// (lib/reader.c against lib/writer/constants.c, string.c, bytes.c and decimal.c).
module ValueTypes {
  import opened Wrappers
  import opened Bytes
  import opened Utf8
  import opened Tree
  import opened Document
  import opened Retrieve
  import opened Decimals
  import opened DecimalCounts

  // Wherever a value is expected the call adds these bytes, and the reader finds this type.
  ghost predicate Adds(decimals: Document.Decimals, doc: Doc, call: Call, data: bytes, valueType: ValueType)
    requires DocOk(doc)
  {
    && AcceptsValue(doc)
    && Step(decimals, doc, call) == Ok(AddValue(doc, Scalar(data)))
    && GetValueType(data) == Ok(valueType)
  }

  lemma {:induction false} AddedConstants(decimals: Document.Decimals, doc: Doc)
    requires DocOk(doc) && Expected(doc) == ExpectValue
    ensures Adds(decimals, doc, Call.AddConstant(0x01), [0x01], NullType)
    ensures Adds(decimals, doc, Call.AddConstant(0x02), [0x02], FalseType)
    ensures Adds(decimals, doc, Call.AddConstant(0x03), [0x03], TrueType)
    ensures Adds(decimals, doc, Call.AddConstant(0x10), [0x10], SnanType)
    ensures Adds(decimals, doc, Call.AddConstant(0x11), [0x11], SnanType)
    ensures Adds(decimals, doc, Call.AddConstant(0x12), [0x12], QnanType)
    ensures Adds(decimals, doc, Call.AddConstant(0x13), [0x13], QnanType)
    ensures Adds(decimals, doc, Call.AddConstant(0x14), [0x14], InfType)
    ensures Adds(decimals, doc, Call.AddConstant(0x15), [0x15], InfType)
    ensures Step(decimals, doc, Call.AddConstant(0x04)) == Ok(AddValue(doc, Scalar([0x04])))
    ensures GetValueType([0x04]) == Err(UnsupportedDataType)
  {
    hide DocOk, AddValue;
    ExpectsValueMeans(doc);
  }

  lemma {:induction false} AddedTexts(decimals: Document.Decimals, doc: Doc, text: bytes)
    requires DocOk(doc) && Expected(doc) == ExpectValue
    ensures ValidUtf8(text) ==> Adds(decimals, doc, Call.AddString(text), [0x08] + text, StringType)
    ensures Adds(decimals, doc, Call.AddBytes(text), [0x09] + text, BytesType)
  {
    hide DocOk, AddValue, ValidUtf8;
    ExpectsValueMeans(doc);
  }

  // Numbers, with and without an exponent.
  lemma {:induction false} AddedDecimals(doc: Doc, text: bytes)
    requires DocOk(doc) && Expected(doc) == ExpectValue && Counted(DecimalOf, text).Some?
    ensures var data := Counted(DecimalOf, text).value;
      && data != [] && (0x1A <= data[0] <= 0x1B || 0x20 <= data[0] <= 0x2F)
      && Adds(DecimalOf, doc, Call.AddDecimal(text), data, ValueType.DecimalType)
  {
    hide DocOk, AddValue, DecimalOf, GetValueType;
    ExpectsValueMeans(doc);
    NothingIsNoNumber();
    NumberIsOk(text);
    TypeOfNumber(DecimalOf(text).value.data);
  }

  lemma {:induction false} NothingIsNoNumber()
    ensures DecimalOf([]) == Err(ParameterIsZero)
  {
  }

  lemma {:induction false} TypeOfNumber(data: bytes)
    requires WrittenScalar(data) && 0x1A <= data[0] <= 0x2F
    ensures 0x1A <= data[0] <= 0x1B || 0x20 <= data[0] <= 0x2F
    ensures GetValueType(data) == Ok(ValueType.DecimalType)
  {
    hide ValidUtf8;
  }
}
