# A verified model of bijson

bijson turns a stream of writer calls, or a JSON text, into a read-only binary file and answers
lookups from the bytes of that file. This project models the library's five hard parts in Dafny
and proves for all inputs what they promise, or exactly when they keep the promise:

* **The file format and its two passes.** `end_array` and `end_object` compute the size of a
  container's output before anything is emitted; `write_array` and `write_object` later choose
  widths, sort keys and emit bytes. The passes agree byte for byte, at any depth, and the reader
  inverts them: reading a written file by index, to the bottom, gives the document back with each
  object's pairs in (hash, length, bytes, insertion) order. The reader also reads the described
  format in all widths that this writer would not choose.
* **Lookups.** Interpolation with a bisection fallback, and galloping search for runs of equal
  keys, agree with a linear search, for every hash function and with duplicate keys, within a
  logarithmic number of readings.
* **The writer as a state machine.** Over every sequence of calls the spool, the stack of saved
  positions and the three `expect` fields are exactly what a tree of open containers prescribes,
  until a number is stored with a wrong size. Every tree of what the calls can add can be written,
  and what is written is what was called: the tokens of the document are those of the calls.
  Chunked writing cannot be told from writing in one piece, and emitting leaves the writer as it
  was.
* **JSON in both directions.** The texts of RFC 8259 are defined as syntax trees with any
  whitespace, spelling and nesting, apart from the code. The parser reads every one of them as what
  it stands for, and nothing else but numbers that lack digits; the iterative parser with its
  nesting counter refines this. What is printed for any buffer is a text of the standard without
  whitespace that shows what is in the buffer, and its strings are the shortest possible. For every
  document without numbers, other than `true` alone, printing, parsing and writing again gives the
  same bytes. The UTF-8 validator accepts exactly the encodings of scalar values.
* **Decimals.** Big-number addition, subtraction and shifting of digit texts, the grammar of the
  texts and what they denote, and the choice of the split into mantissa and exponent: no split that
  moves up to ten zeroes is smaller than the one that is stored, and it always denotes the number of
  the text. What is stored for it is not always right, and neither is its size. The texts for which
  the size is right are characterised exactly; so are, up to exponents of 10^18, those that come
  back from writing and printing as the same number, and, for numbers without an exponent that are
  no multiples of ten, those that are stored right.

## How it is built

One module per component, in the order of their imports:

| files | what they hold |
|---|---|
| `Wrappers`, `Arithmetic`, `Bytes`, `Output` | results and errors, small arithmetic, bytes and little-endian integers, the sink (a class) |
| `Storage`, `Layout`, `Reader`, `Codec` | storage widths, the layout of containers, the reader on arbitrary bytes, reading what was laid out |
| `Utf8`, `KeyOrder`, `Tree`, `Document` | the validator, the order of keys, documents with their encoded and spooled forms, the writer's abstract state and its transitions |
| `SpoolReading`, `Writer`, `Emitter` | the first pass, the writer (a class with `spool`, `stack` and the `expect` fields), the second pass |
| `FormatReading` | the described file format in any width, and that it is read |
| `Retrieve`, `ValueTypes`, `Logarithm`, `Lookup`, `WrittenObjects` | reading back, value types, the logarithm, key lookup and key ranges, lookups in written objects |
| `Escape`, `Digits`, `Words`, `DecimalText`, `Json` | escapes, digits, stored numbers and their printing, printing a document |
| `Grammar`, `StringParser`, `JsonParser` | the grammar of the JSON texts that are accepted, and the parser (a class) that refines it |
| `Fixpoint`, `Rewrite`, `Runs`, `WriterRuns`, `Histories` | the canonical fixpoint, on values and on two writers; properties of whole runs, of the abstract state and of the class; what the calls say against what the document says |
| `Shifting`, `Sums`, `Differences`, `DecimalSyntax`, `Decimals`, `DecimalStorage` | decimal arithmetic, the decimal writer |
| `JsonNumbers`, `JsonStrings`, `JsonSyntax` | the numbers, string literals and texts of RFC 8259 |
| `JsonTexts`, `JsonOnly`, `JsonPrinting`, `JsonAgain` | all texts are read, nothing else is, what is printed is a text, and printing and parsing |
| `DecimalForms`, `DecimalChoice` | the grammar and meaning of decimal texts, and the smallest split |
| `Counting`, `DecimalCounts` | the size that is counted for a number against the bytes that are written |
| `DecimalPrinting`, `PrintedDecimals`, `DecimalTexts`, `Cancellation` | what is printed for a decimal, and which texts are stored right |
| `DecimalRoundTrip`, `ScientificRoundTrip`, `IntegerRoundTrip` | which texts come back as the same number: without an exponent, in general, and short integers |
| `Departures`, `DecimalDepartures` | inputs for which the code does not do what its documentation says |

Code that works step by step is a method with loops over the same variables, proved against a
function of its inputs; the writer, the parser and the sink are classes that are updated in place.
A writer carries a ghost document, and `Valid()` says that every field is a function of it.

Three things are parameters: the hash (any function into 64 bits), the choice between the two
versions of `_bijson_2log64`, and, in the writer and the parser, the function that turns a number's
text into a size and bytes (any whose bytes are scalars of the file format and whose sizes are below
2^64; `DecimalCounts.DecimalOfIsOk` shows that `Decimals.DecimalOf` is one, and
`Decimals.EncodeDecimal` computes it). Sizes are unbounded naturals, and the places where 64 bits
matter are written out: pushing fails when the spool would outgrow the address space, and no other
size overflows unless it does (`Tree.EncodeFitsSpool`).

A number whose size is not the number of its bytes is appended to the spool all the same, and the
call succeeds, as in the code. What is in the spool then is no nest of values. The model keeps the
spool as it is (`Document.Broken`), shows what `write` answers for such a root (`Emitter.Write`), and
lets the parser and every other call fail with `SpoolBroken`, an error that the library does not
have: of those nothing is said about the code.

## Where the code departs from its documentation

The model follows the code. `Departures` and `DecimalDepartures` have inputs that show these, and
the members named here say when the code does what it should.

* `_bijson_shift_digits` (lib/writer/decimal.c:34-75) counts a size that is put in front of the
  number before the number is written. It is never too small, and too large for many texts of 19
  digits and more, so that the assertion at lib/writer/decimal.c:469 fails: `Counting.CountedAgainstWritten`
  has the exact condition for a significand, `DecimalCounts.SizeAgainstWritten` that for a text. For
  `1000000000000000001` it stores 17 and writes 8 bytes; added as a document it is accepted, and
  writing answers "bad root": `DecimalDepartures.NineteenMiscounted`, `DecimalDepartures.WriteNineteen`.
* `_bijson_shift_digits` packs one digit too many into every word after the first:
  `Shifting.ShiftExact`.
* `_bijson_fit_uint64` (lib/writer.h:65-81) switches at 36, 52 and 60 bits instead of 32, 48 and 56,
  so some words are cut: `Words.FitHolds`.
* `_bijson_add_digits` (lib/writer/decimal.c:77-119) does not reduce the top word of a sum, so that
  `10e8` is stored as 1e10: `Sums.SumNeverExact`, `Sums.AddExact`. A fraction with a negative exponent
  is never stored right: `DecimalTexts.NegativeFractionsFail`.
* `_bijson_subtract_digits` (lib/writer/decimal.c:121-191) loses a zero word behind a pending word
  that is not zero: `Differences.DifferenceExact`.
* `_bijson_decimal_part_to_json` (lib/reader/decimal.c:232-265) prints the lower words with 20 digits;
  README.md:177-187 of the repository means 19: `DecimalText.PartTextDenotes`.
* These errors can make up for each other. As the writer packs 20 digits and the reader prints 20,
  a long integer is printed right exactly if every twentieth digit, from the right, is zero
  (`DecimalPrinting.PrintedExactly`), although what is stored is another number. For
  `429496729600e9999999999999999998` both parts are stored wrong and the whole is right
  (`Cancellation.ErrorsCancel`). Where no zeroes are moved into the mantissa, what is stored is right
  exactly if both parts are (`DecimalTexts.StoredExactly`).
* Surrogate pairs are put together without adding 0x10000 (lib/writer/parse.c:129-130):
  `Escape.SurrogatesMisread`.
* `true` is refused at the very end of a text (lib/writer/parse.c:353): `Fixpoint.CanonicalFixpoint`
  has it as the one exception.
* Numbers need no digits (lib/writer/parse.c:212-261), unlike section 6 of RFC 8259, so that `[-]` is an
  array with a negative zero: `JsonNumbers.LexedNumber` says when a lexed text is a number of the
  standard, `JsonTexts.TextReads` that all texts of the standard are read, and `JsonOnly.OnlyTextsRead`
  that such numbers are all that is read besides them.
* "undefined" is written as 0x04, as documented, and read as 0x05: `Retrieve.BinaryRoundTrip`.
* A key with hash 2^64-1 makes the first guess the number of entries, and a lookup answers with an
  index error (lib/reader/object/key.c:22-33): `Lookup.GetKey`, `Lookup.GetKeyRange`.
* The two versions of `_bijson_2log64` (lib/common.h:119-151) differ by one: `Logarithm.Log2Portable`.
* An `end_string` or `end_key` on a text that is not UTF-8 makes the writer fail, while an
  `add_string` or `add_key` only refuses it: `Runs.ChunkingInvisible`.

## Model

| member | source | states |
|---|---|---|
| Bytes.LittleEndianHolds | lib/writer.h:92-99 | n bytes hold a number exactly when it is below 256^n |
| Bytes.WriteMinimalInt | lib/writer.h:92-99 | the loop writes the n low-order bytes, least significant first |
| Bytes.ReadMinimalInt | lib/reader.h:15-20 | the loop gives the number whose little-endian bytes it reads |
| Storage.StorageSizeIsLeast | lib/writer.h:47-52 | the chosen width holds the value and no smaller one does |
| Storage.StorageSizesAgree | lib/writer.h:54-59 | the width for a count, chosen in the first pass, is the width for the count less one, chosen in the second |
| Storage.WidthHolds | lib/writer.h:47-103 | every value up to the one that a width was chosen for is read back as it was written |
| Reader.CountFits | lib/reader/array.c:85-93 | the format check accepts a count exactly when both offset tables and one byte per item fit; this is also the check for objects |
| Reader.ArrayAnalyze | lib/reader/array.c:70-100 | on any bytes, an accepted array has its table and its data inside the buffer |
| Reader.ArrayGetIndex | lib/reader/array.c:102-136 | on any bytes, an item that is returned is not empty and lies inside the data |
| Reader.ArrayPartition | lib/reader/array.c:102-136 | on any accepted bytes, if all items can be read they abut and cover the data exactly |
| Reader.ObjectAnalyze | lib/reader/object.c:61-106 | on any bytes, an accepted object has its tables, keys and values inside the buffer |
| Reader.ObjectGetIndex | lib/reader/object/index.c:12-100 | on any bytes, a key that is returned is valid UTF-8 inside the key region, its value is not empty and inside the value region |
| Reader.ObjectPartition | lib/reader/object/index.c:19-97 | on any accepted bytes, if all entries can be read the keys cover the key region and the values the value region exactly |
| Reader.TilesCover | lib/reader/array.c:102-136 | slices that abut concatenate to the bytes between their ends |
| Codec.ArrayAnalyzes | lib/reader/array.c:70-100 | the reader finds count, widths and positions of a written array |
| Codec.ArrayRoundTrip | lib/reader/array.c:102-136 | index k of a written array is its item k, and every other index is an error |
| Codec.ObjectAnalyzes | lib/reader/object.c:61-106 | the reader finds count, widths and positions of a written object |
| Codec.ObjectRoundTrip | lib/reader/object/index.c:12-100 | index k of a written object is its key and value k, and every other index is an error |
| FormatReading.ArrayIsRead | lib/reader/array.c:70-136 | an array whose count and offsets are stored in any widths that hold them is read item by item, and no other index reads anything |
| FormatReading.ObjectIsRead | lib/reader/object.c:61-106 | the same for an object with its count, key offsets and value offsets in any widths |
| FormatReading.DecimalIsRead | lib/reader/decimal.c:12-43 | a decimal with the length of its exponent in any width is taken apart by the bits of its type |
| Utf8.CheckValidUtf8 | lib/common.c:6-72 | the loop accepts a text of any length exactly when it is valid |
| Utf8.CheckOne | lib/common.c:6-72 | one round accepts exactly the sequences that decode to a scalar value, of one to four bytes |
| Utf8.CheckThree | lib/common.c:6-72 | the masks and ranges for three bytes rule out exactly overlong forms and surrogates |
| Utf8.CheckFour | lib/common.c:6-72 | the masks and ranges for four bytes rule out exactly overlong forms and values above 0x10FFFF |
| Utf8.ValidIsEncoding | lib/common.c:6-72 | a text is valid exactly if it is the encoding of some scalar values (section 4 of RFC 3629) |
| Utf8.DecodingIsUnique | lib/common.c:6-72 | two sequences of scalar values with the same encoding are equal |
| Utf8.ValidConcat | lib/common.c:6-72 | a valid text in front does not change the verdict on the rest |
| Utf8.EncodeDecode | lib/common.c:6-72 | encoding the decoded scalar values of a valid text gives the text back |
| Utf8.DecodeEncode | lib/writer/parse.c:38-71 | the encoding of scalar values is valid and decodes to them |
| KeyOrder.KeysAreOrdered | lib/reader/object/key.c:14-20 | comparing hash, length and bytes is a total order on keys for every hash function, with equality only of equal keys |
| KeyOrder.MemcmpMeans | lib/reader/object/key.c:14-20 | of two blocks of the same size the one with the smaller byte at the first difference comes first |
| KeyOrder.KeysCompare | lib/reader/object/key.c:14-20 | a key comes before another one by hash, then by length, then by the first different byte |
| KeyOrder.SortIsUnique | lib/writer/object.c:158-178 | there is only one sorted rearrangement, whatever algorithm qsort uses |
| KeyOrder.SortedPositions | lib/writer/object.c:158-178 | sorting pointers into the spool, ties by address, is stable sorting of the pairs by key |
| KeyOrder.LastInOrder | lib/writer/object.c:116-130 | a member that all others come before is the one that sorting puts last |
| KeyOrder.OrderIsStable | lib/writer/object.c:175-177 | pairs with equal keys stay in order of insertion |
| KeyOrder.OrderPermutes | lib/writer/object.c:217-217 | sorting rearranges and loses nothing |
| KeyOrder.OrderSortsKeys | lib/writer/object.c:158-178 | the keys picked in this order ascend |
| KeyOrder.OrderOfSorted | lib/writer/object.c:158-178 | sorting what is sorted changes nothing |
| Tree.ArrayBytesSize | lib/writer/array.c:45-53 | the size formula of the first pass is the length of the array's bytes |
| Tree.ObjectBytesSize | lib/writer/object.c:139-148 | the size formula of the first pass is the length of the object's bytes, given the size of the last value in sorted order |
| Tree.SortedEntriesSizes | lib/writer/object.c:92-114 | the sums over keys and values do not depend on the order |
| Tree.EncodeFitsSpool | lib/writer/buffer.h:80-89 | the output of a value is shorter than its spooled form, so no size or offset overflows while the spool fits in memory |
| Document.StepOk | lib/writer.h:84-90 | every call on a well-formed writer state gives a well-formed state |
| Document.AddValueExpects | lib/writer/container.c:12-24 | after a value `expect` is `expect_after_value`, which stays what it was |
| Document.AddValueSpool | lib/writer/string.c:6-19 | adding a value appends its spooled form and leaves stack and container alone |
| Document.BrokenSpool | lib/writer/decimal.c:415-469 | a number with a wrong size appends that size and its bytes, and leaves stack and container alone |
| Document.CloseSpool | lib/writer/array.c:16-61 | filling in the two sizes of an open container gives the spooled form of the closed one, and its stack entry is the parent's position |
| Document.CloseExpects | lib/writer/container.c:12-24 | the tag before the parent's sizes determines what is expected after an end |
| Document.AppendSpool | lib/writer/string.c:35-42 | appending to an open text appends to the spool and changes nothing else |
| Document.EndOpenSpool | lib/writer/string.c:44-63 | filling in the length of an open text gives what one add would have pushed |
| SpoolReading.ValueReads | lib/writer/container.c:26-35 | the size read for a spooled value is the exact length of its output, and its end is found |
| SpoolReading.ScanArray | lib/writer/array.c:30-43 | the first pass over an array gives its count, the sum of its items' output and the output of its last item |
| SpoolReading.HighestStep | lib/writer/object.c:116-130 | one comparison keeps the running maximum the highest key so far, the later one of equals |
| SpoolReading.HighestIsLast | lib/writer/object.c:95-130 | the running maximum is the pair that a stable sort puts last |
| SpoolReading.ScanObject | lib/writer/object.c:91-137 | the first pass over an object gives its count, the sums over keys and values and, without sorting, the output of the last value in sorted order |
| Writer.Writer.constructor | lib/writer.c:23-35 | a new writer is valid and holds nothing |
| Writer.Writer.PushSpool | lib/writer/buffer.h:80-89 | a push appends or, when memory runs out, changes nothing |
| Writer.Writer.RestoreExpect | lib/writer/container.c:12-24 | both expectations follow from the tag of the container, outside of all containers nothing is expected |
| Writer.Writer.CloseContainer | lib/writer/array.c:55-60 | with the right output size, patching and popping closes the innermost container |
| Writer.Writer.BeginArray | lib/writer/array.c:4-14 | keeps the invariant; opens an array, is refused, or fails the writer, exactly as the abstract step says |
| Writer.Writer.EndArray | lib/writer/array.c:16-61 | keeps the invariant; the stored output size is the exact length of what will be emitted |
| Writer.Writer.BeginObject | lib/writer/object.c:5-15 | keeps the invariant; opens an object or is refused |
| Writer.Writer.EndObject | lib/writer/object.c:78-156 | keeps the invariant; the stored output size is the exact length of what will be emitted after sorting |
| Writer.Writer.AddKey | lib/writer/object.c:17-31 | keeps the invariant; sets the key where one is expected and the text is UTF-8 |
| Writer.Writer.BeginKey | lib/writer/object.c:33-47 | keeps the invariant; opens a key with a length still to be filled in |
| Writer.Writer.AppendKey | lib/writer/object.c:49-56 | keeps the invariant; the open key grows by the chunk |
| Writer.Writer.EndKey | lib/writer/object.c:58-76 | keeps the invariant; sets the key, or fails the writer if it is not UTF-8 |
| Writer.Writer.AddString | lib/writer/string.c:6-19 | keeps the invariant; adds the string where a value is expected and the text is UTF-8 |
| Writer.Writer.BeginString | lib/writer/string.c:21-33 | keeps the invariant; opens a string with a length still to be filled in |
| Writer.Writer.AppendString | lib/writer/string.c:35-42 | keeps the invariant; the open string grows by the chunk, also by a part of a character |
| Writer.Writer.EndString | lib/writer/string.c:44-63 | keeps the invariant; adds the string, or fails the writer if the whole text is not UTF-8 |
| Writer.Writer.AddBytes | lib/writer/bytes.c:8-20 | keeps the invariant; adds any bytes where a value is expected |
| Writer.Writer.BeginBytes | lib/writer/bytes.c:22-34 | keeps the invariant; opens a byte string |
| Writer.Writer.AppendBytes | lib/writer/bytes.c:36-43 | keeps the invariant; the open byte string grows by the chunk |
| Writer.Writer.EndBytes | lib/writer/bytes.c:45-57 | keeps the invariant; adds the byte string |
| Writer.Writer.AddConstant | lib/writer/constants.c:8-17 | keeps the invariant; adds the constant where a value is expected |
| Writer.Writer.AddNull | lib/writer/constants.c:19-21 | keeps the invariant; adds 0x01 |
| Writer.Writer.AddFalse | lib/writer/constants.c:23-25 | keeps the invariant; adds 0x02 |
| Writer.Writer.AddTrue | lib/writer/constants.c:27-29 | keeps the invariant; adds 0x03 |
| Writer.Writer.AddUndefined | lib/writer/constants.c:31-33 | keeps the invariant; adds 0x04 |
| Writer.Writer.AddSnan | lib/writer/constants.c:35-37 | keeps the invariant; adds 0x10, or 0x11 with the sign |
| Writer.Writer.AddQnan | lib/writer/constants.c:39-41 | keeps the invariant; adds 0x12, or 0x13 with the sign |
| Writer.Writer.AddInf | lib/writer/constants.c:43-45 | keeps the invariant; adds 0x14, or 0x15 with the sign |
| Writer.Writer.AddDecimal | lib/writer/decimal.c:284-309 | keeps the invariant; fails the writer if the text is no number, else appends a size and bytes: a value if the size is right, and otherwise a spool that is broken |
| Writer.Writer.PushNumber | lib/writer/decimal.c:415-469 | keeps the invariant; the counted size and the bytes go into the spool whether they agree or not |
| Emitter.WriteArray | lib/writer/array.c:63-126 | emits exactly the bytes of the array and restores the stack |
| Emitter.Qsort | lib/writer/object.c:214-217 | what the C standard promises of qsort with this comparison |
| Emitter.PositionsSorted | lib/writer/object.c:196-217 | the sorted positions are those of the pairs in stable key order |
| Emitter.WriteSortedObject | lib/writer/object.c:219-276 | from the sorted positions, widths, offsets, keys and values come out as the bytes of the object, though emitting a value uses the stack |
| Emitter.WriteObject | lib/writer/object.c:180-280 | emits exactly the bytes of the object and leaves every stack entry as it was |
| Emitter.WriteValue | lib/writer.c:55-75 | emits exactly the encoded value, at any depth, and restores the stack |
| Emitter.Write | lib/writer.c:77-101 | succeeds exactly on a complete document, appends its encoding, and leaves the writer as it was; a root number with a wrong size is a bad root |
| Emitter.BrokenRoot | lib/writer.c:77-101 | the root of a spool that holds a number with a wrong size is never as long as the spool |
| Emitter.WriteToMalloc | lib/io.c:225-276 | the second pass fills a buffer of the size that the first counted with exactly the encoded document |
| Retrieve.TypeOfEncoded | lib/reader.c:16-72 | every value that is written has the type of the format description, apart from "undefined", which has none |
| ValueTypes.AddedConstants | lib/reader.c:16-72 | null, false, true, NaNs and infinities, wherever they are added, are one byte each and found as what they are; "undefined" is added and has no type |
| ValueTypes.AddedTexts | lib/reader.c:16-72 | strings and byte strings are added behind 0x08 and 0x09 and found as what they are |
| ValueTypes.AddedDecimals | lib/reader.c:16-72 | numbers are added with a type from 0x1A..0x1B or 0x20..0x2F and found as decimals |
| Retrieve.BinaryRoundTrip | lib/reader/array.c:70-136 | reading a written document recursively gives it back with objects in emitted order, and fails exactly if it holds "undefined" |
| Logarithm.Log2Portable | lib/common.h:122-149 | the portable logarithm is one more than the other, for every argument above one |
| Logarithm.RoundedUp | lib/common.h:119-151 | one more than the built-in version, which is the portable one, is the logarithm rounded up |
| Logarithm.HalveBits | lib/common.h:122-149 | one step of it drops half of the remaining bits and accounts for them |
| Lookup.GuessInside | lib/reader/object/key.c:22-33 | the guess lies in the interval, and hits its upper end exactly when the target hash is the upper one and interpolation takes place |
| Lookup.Narrow | lib/reader/object/key.c:64-91 | one reading keeps "all below are smaller, all from the upper end on are larger" |
| Lookup.LimitsAreLogarithms | lib/common.h:119-151 | the limit on interpolation rounds is the logarithm of the count rounded up, or one less with the built-in version, and that on bisections one more than the logarithm rounded down |
| Lookup.Find | lib/reader/object/key.c:53-94 | the search finds an entry with the key or there is none; readings, also those that fail, are at most ceil(log2 n) by interpolation, one less with the built-in logarithm, and floor(log2 n) + 1 by bisection |
| Lookup.GetKey | lib/reader/object/key.c:35-94 | on a sorted object it finds a value stored under the key exactly when a linear search would; on any bytes what it finds is stored under the key |
| Lookup.RangeLower | lib/reader/object/key_range.c:70-123 | galloping down finds the first entry of the run, with at most 2 (floor(log2 n) + 1) + 1 readings |
| Lookup.RangeUpper | lib/reader/object/key_range.c:12-68 | galloping up finds the end of the run, without overflow of the step, with at most 2 (floor(log2 n) + 1) + 1 readings |
| Lookup.RunIsExact | lib/reader/object/key_range.c:125-183 | the two ends enclose all entries with the key and no other |
| Lookup.GetKeyRange | lib/reader/object/key_range.c:125-183 | an entry is in the range exactly if it has the key, and the lookup fails only if none has; it reads a logarithmic number of entries |
| WrittenObjects.WrittenIsSorted | lib/writer/object.c:158-178 | a written object is sorted as lookups expect it |
| WrittenObjects.WrittenKeys | lib/writer/object.c:180-280 | a key occurs in the file exactly if it was written |
| WrittenObjects.RangeInInsertionOrder | lib/writer/object.c:175-177 | an exact range lists the pairs with its key in order of insertion |
| WrittenObjects.FindWrittenRange | lib/reader/object/key_range.c:125-183 | a range lookup in a written object gives all pairs with the key in order of insertion, or says that there are none |
| WrittenObjects.FindWritten | lib/reader/object/key.c:35-94 | a lookup in a written object gives the bytes of a value written under the key, or says that there is none |
| Escape.RawStringToJson | lib/reader/string.c:6-59 | flushing runs of ordinary bytes gives the text escaped byte by byte, in quotes |
| Escape.ParseUnichar | lib/writer/parse.c:18-36 | reads the number of four hexadecimal digits or refuses |
| Escape.EscapeRoundTrip | lib/reader/string.c:6-59 | reading an escaped text gives it back and stops right behind its quote |
| Escape.SurrogatesMisread | lib/writer/parse.c:124-131 | every escaped surrogate pair is read as 0x10000 less than it stands for |
| JsonStrings.SpellsMeans | lib/writer/parse.c:18-36 | four characters are read as a number exactly if they spell it digit by digit, in upper or lower case |
| JsonStrings.ShortReads | lib/writer/parse.c:81-108 | each of the eight two-character escapes of section 7 of RFC 8259, "\/" included, is read as its character |
| JsonStrings.UnicodeReads | lib/writer/parse.c:109-141 | backslash, "u" and any spelling of a code point that begins no pair of surrogates is read as its encoding, six bytes long |
| JsonStrings.SurrogatesRead | lib/writer/parse.c:109-141 | any spelling of a pair of surrogates is read, twelve bytes long, as 0x10000 less than it stands for |
| JsonStrings.PiecesRead | lib/writer/parse.c:154-210 | every literal of section 7 of RFC 8259 is read as the text that its pieces make up, up to its quotation mark |
| JsonStrings.OnlyPiecesRead | lib/writer/parse.c:154-210 | whatever is read as a literal consists of such pieces |
| Json.ArrayToJson | lib/reader/array.c:153-169 | the loop prints what the recursive definition says, or fails as it does |
| Json.ObjectToJson | lib/reader/object.c:113-131 | the loop prints what the recursive definition says, or fails as it does |
| Json.StringToJson | lib/reader/string.c:61-65 | prints a string in quotes, or refuses one that is not UTF-8 |
| Json.ToJson | lib/reader.c:74-117 | dispatches by type and prints what the recursive definition says, on any bytes |
| Json.EncodedPrints | lib/reader.c:74-117 | printing the file of a document is printing the document with objects in emitted order |
| JsonPrinting.PrintedIsText | lib/reader.c:74-117 | what is printed for any buffer is a text of RFC 8259 without whitespace, and it shows the values that reading the buffer by index finds |
| JsonPrinting.EscapedIsShortest | lib/reader/string.c:6-59 | no other literal for the same string is shorter |
| JsonPrinting.PrintedNumbers | lib/reader/decimal.c:232-298 | what is printed for a decimal is a number of section 6 of RFC 8259 |
| JsonPrinting.NotPrinted | lib/reader.c:74-117 | which types are refused, and with which error |
| JsonAgain.PrintedParses | lib/writer/parse.c:286-427 | parsing what is printed for any buffer gives its values again, each number as it is stored for its printed text, unless one cannot be taken or the text is "true" |
| Grammar.PassDigits | lib/writer/parse.c:227-231 | the loop stops at the first byte that is no digit |
| Grammar.ParsedWellFormed | lib/writer/parse.c:286-427 | every value that the grammar derives can be held by a writer |
| Grammar.OnlySizesMatter | lib/writer/parse.c:263-267 | a text in which no number has a wrong size is parsed as if all sizes were right; otherwise there is such a number |
| JsonTexts.TextReads | lib/writer/parse.c:286-427 | every text of RFC 8259, with any whitespace, spelling and nesting, is parsed as what it stands for up to its end, unless a string is no UTF-8, a number is stored with a wrong size, or it is "true" and nothing follows |
| JsonTexts.NumberReads | lib/writer/parse.c:212-267 | every number of RFC 8259 that nothing continues is handed to the writer as a whole, and parsing goes on behind it |
| JsonOnly.OnlyTextsRead | lib/writer/parse.c:286-427 | whatever is parsed is such a text, but for numbers that lack digits, and is parsed as what it stands for |
| StringParser.OrdinaryRun | lib/writer/parse.c:147-152 | a run of ordinary characters stands for itself unless it holds a control character |
| StringParser.Parser.ParseEscape | lib/writer/parse.c:73-145 | one escape appends what it stands for and is passed, or the string is refused |
| StringParser.Parser.ParseUnicodeEscape | lib/writer/parse.c:109-141 | a Unicode escape, or a pair of them, appends its encoding |
| StringParser.Parser.ParsePlain | lib/writer/parse.c:165-173 | without escapes, one add takes the whole text |
| StringParser.Parser.ParseChunks | lib/writer/parse.c:175-209 | with escapes, the chunks give the text that reading one character at a time gives |
| StringParser.Parser.ParseString | lib/writer/parse.c:154-210 | succeeds exactly on a string literal that the writer can take, as a key or as a value, and stops behind it |
| JsonParser.FindNumberEnd | lib/writer/parse.c:212-261 | finds where the number ends as the grammar has it; JsonNumbers relates this to RFC 8259 |
| JsonNumbers.LexedNumber | lib/writer/parse.c:212-261 | what the lexer takes for a number is one of section 6 of RFC 8259 exactly if digits follow the sign, the point, the "e" and its sign |
| JsonNumbers.LexedLoosely | lib/writer/parse.c:212-261 | whatever is lexed has the form of a number with some of its digits left out |
| JsonNumbers.NumbersAreLexed | lib/writer/parse.c:212-261 | every number of section 6 of RFC 8259 that the next character cannot continue is lexed to its end |
| JsonNumbers.LexedIsDecimal | lib/writer/parse.c:263-267 | what the lexer takes for a number the writer never refuses as a decimal text |
| JsonParser.PassWs | lib/writer/parse.c:273-284 | passes whitespace; the end of the text is an error |
| JsonParser.ParseNumber | lib/writer/parse.c:263-267 | adds exactly the number that the grammar finds, if its size is right; otherwise stores it and stops |
| JsonParser.ParseArrayStart | lib/writer/parse.c:297-311 | adds an empty array or opens one and goes on inside |
| JsonParser.ParseObjectStart | lib/writer/parse.c:312-333 | adds an empty object or opens one, with its first key |
| JsonParser.ParseOne | lib/writer/parse.c:294-378 | one round completes a value or opens a container, as the grammar says of the text |
| JsonParser.ParseArrayNext | lib/writer/parse.c:389-400 | behind an item, closes the array or goes on |
| JsonParser.ParseObjectNext | lib/writer/parse.c:401-419 | behind a value, closes the object or goes on with the next key |
| JsonParser.ResumeHolds | lib/writer/parse.c:381-425 | what is left to parse in all open containers adds up to the value that the grammar derives |
| JsonParser.ParseUpToValue | lib/writer/parse.c:291-379 | the counter is the number of containers that this parse has opened |
| JsonParser.CloseContainers | lib/writer/parse.c:381-425 | closes what ends here; the branch that calls abort is never reached |
| JsonParser.ParseJson | lib/writer/parse.c:286-427 | on success the writer holds one more value, that which the grammar derives from the consumed text; a writer that is ready fails only if there is none, or a number with a wrong size is stored, or memory runs out |
| Fixpoint.PrintsText | lib/reader.c:74-117 | what is printed of a document without numbers is its text |
| Fixpoint.TextParses | lib/writer/parse.c:286-427 | that text parses to the document and is consumed to its end, whatever surrounds it |
| Fixpoint.CanonicalEncodes | lib/writer/object.c:180-280 | the canonical form is written as the same bytes |
| Fixpoint.CanonicalOnce | lib/writer/object.c:158-178 | it is its own canonical form |
| Fixpoint.CanonicalFixpoint | lib/writer/parse.c:286-427 | printing a written document without numbers and parsing the text gives the canonical document, which is written as the same bytes, duplicate keys included; the one exception is "true" alone |
| Rewrite.CanonicalSpoolSize | lib/writer/buffer.h:80-89 | the canonical form takes as much room as the document, so it can be held too |
| Rewrite.RewriteThroughJson | lib/writer/parse.c:429-442 | two writers: writing, printing, parsing and writing again works for every document without numbers other than "true" alone, and gives identical files |
| Runs.Run | lib/writer.h:84-90 | every sequence of calls keeps the invariant |
| Runs.FailedForGood | lib/writer/string.c:6-9 | once a writer has failed, no sequence of calls changes anything |
| Runs.NothingAfterTheRoot | lib/writer.h:84-90 | once a document is complete, no sequence of calls changes anything |
| Runs.ChunkingInvisible | lib/writer/string.c:21-63 | begin, any number of appends and end are one add, for strings, bytes and keys that are valid as a whole; for others the end fails the writer and the add is refused |
| Runs.TreeWritten | lib/writer/object.c:5-156 | wherever a value is expected, the calls for a tree add exactly that tree |
| Runs.EveryDocumentReachable | lib/writer.c:23-35 | a new writer can be brought to hold any tree of strings, byte strings, constants and numbers that are stored for some text with the right size |
| Histories.CallSays | lib/writer.h:84-90 | a call that succeeds adds to the document what the call says and nothing else |
| Histories.HoldsWhatWasSaid | lib/writer.h:84-90 | after any calls that all succeed, the tokens of the document are those of the calls |
| Histories.FinishedAsSaid | lib/writer.c:77-101 | a finished document was written by its own calls, up to how its texts were cut |
| Histories.Refusals | lib/writer.h:84-90 | which kinds of calls are refused at which places, and with which error |
| Histories.Acceptance | lib/writer.h:84-90 | at its place a call is refused only for a text that is no UTF-8 or no number |
| Histories.Failures | lib/writer/object.c:58-76 | a writer fails for good exactly at the end of a key or string that is no UTF-8 and at a number that is none; every other refusal changes nothing |
| WriterRuns.Execute | lib/writer.h:84-90 | every public call on a writer keeps the invariant and is the abstract step |
| WriterRuns.ExecuteAll | lib/writer.h:84-90 | a writer goes through the states of the abstract run, for every sequence of calls and as long as its spool fits in memory |
| WriterRuns.WriteBothWays | lib/writer/string.c:21-63 | of two writers that hold the same, one takes a text that is accepted in chunks and the other one as a whole: spool, stack and expectations are equal in the end |
| Digits.PrintUint64 | lib/common.c:116-148 | the loop prints the digits of a 64-bit number, with or without padding to 20 digits |
| Words.FitHolds | lib/writer.h:65-81 | the chosen bytes hold the value exactly if it is not in one of three ranges |
| Words.StoredWords | lib/writer/decimal.c:62-75 | what is stored is never too large, and right exactly if the top word, less one, fits |
| DecimalText.PrintPart | lib/reader/decimal.c:232-265 | the loop prints the words as defined, or fails on one out of range |
| DecimalText.PartTextDenotes | lib/reader/decimal.c:232-265 | the printed number is the stored one exactly if it has one word, else it is larger |
| DecimalText.DecimalToJson | lib/reader/decimal.c:268-279 | prints sign, mantissa, "e", sign and exponent as taken apart by the analysis |
| DecimalText.IntegerToJson | lib/reader/decimal.c:282-298 | prints sign and mantissa; nothing behind the type is zero |
| PrintedDecimals.PrintedScientific | lib/reader/decimal.c:268-279 | for any buffer with a decimal: the text begins with a minus exactly by bit 2 of the type, and denotes the printed mantissa with the printed exponent, negative by bit 3 |
| PrintedDecimals.PrintedAsRead | lib/reader/decimal.c:268-279 | with up to eight bytes for each part the text denotes the number that is stored |
| PrintedDecimals.PrintedInteger | lib/reader/decimal.c:282-298 | the same for integers, with the sign in bit 0, and zero for no bytes |
| Shifting.PackedValue | lib/writer/decimal.c:52-69 | packing gives the number of the digits, shifted, exactly up to 20 digits, and is never too large |
| Shifting.ShiftExact | lib/writer/decimal.c:34-75 | what is stored is the shifted number exactly for 20 digits, or for fewer whose word fits |
| Shifting.ShiftDigits | lib/writer/decimal.c:34-75 | the loop writes the packed words behind the zero words of the shift; when counting it gives the counted size |
| Shifting.ShiftStoredAndCounted | lib/writer/decimal.c:34-75 | the number is right and its size is the counted one exactly in the cases that are listed |
| Shifting.MultiplesOfNineteenMiscounted | lib/writer/decimal.c:46-51 | for every length that is a multiple of 19, without a shift, more bytes are counted than written |
| Counting.CountedAgainstWritten | lib/writer/decimal.c:34-75 | for every significand, point and shift the count is not below what is written, and equal to it exactly with fewer than 19 characters or if the leftover digits reach far enough and both top words take the same bytes |
| Sums.AddNumerals | lib/writer/decimal.c:83-118 | column addition with carries, streamed as words, gives the words of the sum, the top one not reduced |
| Sums.AddDigits | lib/writer/decimal.c:77-119 | the same with either number empty |
| Sums.SumNeverExact | lib/writer/decimal.c:118-118 | no positive sum is stored as itself |
| Sums.AddExact | lib/writer/decimal.c:77-119 | the result is right exactly if one number is empty and the other one can be stored |
| Differences.CompareOrders | lib/writer/decimal.c:26-32 | comparing lengths and bytes of digits is comparing the numbers |
| Differences.KeptValue | lib/writer/decimal.c:146-181 | no value is lost exactly if no zero word follows one that is not zero |
| Differences.SubtractNumerals | lib/writer/decimal.c:121-191 | column subtraction with borrows, a pending word and a count of zero words gives the kept words of the difference |
| Differences.SubtractDigits | lib/writer/decimal.c:121-191 | the same with either number empty |
| Differences.DifferenceExact | lib/writer/decimal.c:121-191 | the stored difference is right exactly if no word is lost and the top word fits |
| DecimalSyntax.AnalyzeString | lib/writer/decimal.c:205-278 | accepts exactly the texts of the syntax, with the significand trimmed of zeroes and the positions of point and exponent |
| DecimalSyntax.AnalysisIsUnique | lib/writer/decimal.c:205-278 | a text has only one analysis |
| DecimalSyntax.MantissaKept | lib/writer/decimal.c:205-278 | significand and shift denote the mantissa of the text, for every placement of point and zeroes |
| DecimalSyntax.ExponentKept | lib/writer/decimal.c:205-278 | exponent digits and sign denote the exponent of the text |
| DecimalForms.DecimalsAreCut | lib/writer/decimal.c:205-278 | the accepted texts are exactly those of a grammar: sign, digits, point with digits, "e" with sign and digits, any of them missing |
| DecimalForms.DecimalsDenote | lib/writer/decimal.c:205-278 | however such a text is cut, its number is that of its digits, moved by the exponent less the number of digits behind the point |
| DecimalForms.RfcIsDecimal | lib/writer/parse.c:263-267 | numbers of RFC 8259 are such texts, cut in the same way |
| Decimals.SignDecides | lib/writer/decimal.c:359-389 | a candidate's exponent is the true one exactly if it does not take a wrong sign from the shift |
| Decimals.MantissaGrows | lib/writer/decimal.c:391-397 | a larger adjustment never counts fewer bytes for the mantissa |
| Decimals.WrongSignBeaten | lib/writer/decimal.c:380-380 | a candidate with a wrong sign is strictly larger than an earlier one without an exponent |
| Decimals.BestHasRightSign | lib/writer/decimal.c:336-413 | so the best candidate has the true exponent with its sign |
| Decimals.CountCandidate | lib/writer/decimal.c:339-403 | one round counts the sizes of its candidate |
| Decimals.ChooseAdjustment | lib/writer/decimal.c:336-413 | the loop gives the first smallest of the candidates that it tries, preferring one without an exponent; DecimalChoice compares it with all of them |
| Decimals.BestIsUnique | lib/writer/decimal.c:405-412 | the order of candidates leaves only one best |
| Decimals.TotalSmall | lib/writer/decimal.c:328-331 | every candidate is below SIZE_MAX, from which the loop starts |
| Decimals.WriteExponent | lib/writer/decimal.c:436-459 | writes sum or difference of exponent and adjusted shift as the candidate counted it |
| Decimals.ExponentStored | lib/writer/decimal.c:436-459 | the stored exponent is the candidate's exactly under the conditions of sums and differences |
| Decimals.ChosenIsDecimalOf | lib/writer/decimal.c:336-467 | a size and bytes that meet the conditions on a best split are those of DecimalOf: what is stored is a function of the text |
| Decimals.DecimalOfIsChosen | lib/writer/decimal.c:336-467 | the size and bytes of DecimalOf meet the conditions on a best split |
| DecimalChoice.NoneSmaller | lib/writer/decimal.c:336-413 | no split that moves up to ten zeroes is smaller than the chosen one, or as small and without an exponent where that has one; those that move fewer zeroes are worse |
| DecimalChoice.SmallestIsStored | lib/writer/decimal.c:284-473 | the size stored for a text is at most that of every split that moves up to ten zeroes, also where the code tries only one; if one of the same size has no exponent, the type is that of an integer |
| Decimals.EncodeDecimal | lib/writer/decimal.c:284-473 | refuses exactly the texts outside the syntax; else gives the size that is counted and type, length, exponent and mantissa of the best split |
| DecimalStorage.ChoiceKeepsNumber | lib/writer/decimal.c:311-413 | the best split denotes the number of the text, for every point, zeroes, sign and exponent |
| DecimalStorage.MantissaStoredAndCounted | lib/writer/decimal.c:462-467 | the stored mantissa is right and has the counted size exactly under a condition on the split |
| DecimalStorage.ExponentStoredAndCounted | lib/writer/decimal.c:429-460 | the stored exponent is right and has the counted size exactly under a condition on the split |
| DecimalStorage.ExponentReadsBack | lib/reader/decimal.c:12-43 | the reader takes type byte, length, exponent and mantissa apart as they were put together |
| DecimalStorage.DecimalFaithful | lib/writer/decimal.c:284-473 | if both parts are, the counted size is the real one and the reader finds the sign and the number of the text |
| DecimalStorage.DecimalIsScalar | lib/writer/decimal.c:415-467 | whatever is written is a scalar of the file format |
| DecimalCounts.ExponentAgainstWritten | lib/writer/decimal.c:359-397 | the size that is counted for an exponent is not below what is written for it, and equal to it under an exact condition |
| DecimalCounts.SplitAgainstWritten | lib/writer/decimal.c:415-469 | the size that is put in front of a number is right exactly if mantissa and exponent are both counted right: no two wrong counts cancel out |
| DecimalCounts.SizeAgainstWritten | lib/writer/decimal.c:284-473 | for every text the size is not below the bytes that follow, and right exactly for the texts that are counted right |
| DecimalCounts.DecimalOfIsOk | lib/writer/decimal.c:284-473 | the real encoder meets what the writer and the parser ask of their parameter |
| DecimalTexts.StoredExactly | lib/writer/decimal.c:284-473 | wherever no zeroes are moved into the mantissa, a text is stored right, with its size, exactly if both of its parts are |
| DecimalTexts.PlainStoredExactly | lib/writer/decimal.c:284-473 | a text without an exponent of a number that is no multiple of ten is stored right exactly with 20 digits, or with fewer than 19 characters and a number that, less one, is not in the ranges of Words.FitHolds, and if the number of digits behind the point, less one, is not in them either |
| DecimalTexts.NegativeFractionsFail | lib/writer/decimal.c:118-118 | a text with digits behind the point and a negative exponent, like 0.5e-3, is never stored right |
| DecimalPrinting.PrintedExactly | lib/reader/decimal.c:232-265 | packing digits, shifted or not, and printing them gives the same number exactly if every twentieth digit from the right is zero and the top word, less one, is not in the ranges of Words.FitHolds |
| DecimalRoundTrip.PlainRoundTrips | lib/reader/decimal.c:268-298 | from text to text: a text without an exponent of a number that is no multiple of ten is printed as a text of the same number exactly if its size is right, every twentieth digit from the right is zero, and neither the top word nor the number of digits behind the point, less one, is in the ranges of Words.FitHolds |
| DecimalRoundTrip.ShortRoundTrips | lib/reader/decimal.c:268-298 | with up to 18 characters it comes back exactly if neither its digits nor the number of digits behind the point, less one, are in those ranges |
| DecimalRoundTrip.ZeroRoundTrips | lib/writer/decimal.c:302-309 | every way of writing zero comes back as zero with its sign |
| DecimalRoundTrip.IntegersStored | lib/writer/decimal.c:284-473 | an integer that does not end in 0 is stored right exactly with 20 digits, or with fewer than 19 if the number less one is not in those ranges |
| DecimalRoundTrip.IntegersRoundTrip | lib/reader/decimal.c:282-298 | an integer that does not end in 0 comes back exactly if its size is right, every twentieth digit is zero and the top word, less one, is not in those ranges |
| ScientificRoundTrip.ComesBack | lib/reader/decimal.c:268-298 | every decimal text comes back exactly if its size is right and the printed mantissa and exponent make up its number |
| ScientificRoundTrip.TextRoundTrips | lib/reader/decimal.c:268-298 | with a power of ten below 10^18: if it is no sum, exactly if the size is right, every twentieth digit is zero and neither the top word nor the power of ten, less one, is in the ranges of Words.FitHolds; if it is a sum, only by a mantissa that is cut to its tenth |
| IntegerRoundTrip.SplitChosen | lib/writer/decimal.c:336-413 | for an integer of up to 18 digits all zeroes at its end are moved into the mantissa if there are at most ten and it takes no more than two bytes, and none otherwise |
| IntegerRoundTrip.IntegerStored | lib/writer/decimal.c:284-473 | what is stored for such an integer, byte for byte |
| IntegerRoundTrip.ShortIntegersRoundTrip | lib/reader/decimal.c:282-298 | such an integer comes back exactly if its stored mantissa, less one, is not in the ranges of Words.FitHolds; with all zeroes moved the printed text is the text itself |
| Cancellation.ErrorsCancel | lib/writer/decimal.c:284-473 | 429496729600e9999999999999999998 is stored right though neither its mantissa nor its exponent is |
| Departures.WordTruncated | lib/writer.h:65-81 | 2^32 is written in four bytes, as zero |
| Departures.PaddedTooFar | lib/reader/decimal.c:255-262 | the example of the format description is printed with two zeroes too many |
| Departures.SumNotReduced | lib/writer/decimal.c:284-473 | from text to text: `10e8` is written in four bytes that print as `1e10` |
| Departures.ZeroWordLost | lib/writer/decimal.c:169-183 | the difference 10^38 + 1 is stored as 10^19 + 1 |
| Departures.TooManyDigits | lib/writer/decimal.c:52-69 | 21 digits are stored as a smaller number |
| Departures.TrueRefused | lib/writer/parse.c:351-358 | "true" is refused as a whole text and accepted before a space |
| Departures.SmileyMisread | lib/writer/parse.c:124-131 | the escaped pair of U+1F600 is read as U+F600 |
| Departures.UndefinedDisagrees | lib/reader.c:16-72 | the byte that is written for "undefined" has no type for the reader |
| DecimalDepartures.NineteenMiscounted | lib/writer/decimal.c:46-51 | every integer of 19, 38, 57, ... digits that is no multiple of ten gets a size that is too large |
| DecimalDepartures.NineteenDigits | lib/writer/decimal.c:415-469 | 1000000000000000001 gets the size 17 and 8 bytes |
| DecimalDepartures.WriteMiscounted | lib/writer.c:77-101 | a number with a wrong size is accepted as the root, and then there is no document to write |
| DecimalDepartures.WriteNineteen | lib/writer.c:77-101 | so it goes with 1000000000000000001 and a new writer |
| DecimalDepartures.LoneMinus | lib/writer/parse.c:212-261 | "[-]" is parsed as an array with a negative zero, and "-" is no number of RFC 8259 |
| DecimalDepartures.LonePoint | lib/writer/parse.c:212-261 | "1." is lexed as a number and is none of RFC 8259 |
| DecimalDepartures.MisfitLost | lib/writer/decimal.c:284-473 | from text to text: 4294967297 does not come back |
| DecimalDepartures.PrintedThroughErrors | lib/reader/decimal.c:232-265 | integers of 21 digits that begin with 10 and do not end in 0 are stored as other numbers and printed as themselves |

## Left out

- DecimalStorage.DecimalFaithful: one direction only, because the other one is false: two errors can cancel out (Cancellation.ErrorsCancel). DecimalTexts.StoredExactly has both directions where no zeroes are moved into the mantissa.
- ScientificRoundTrip.TextRoundTrips: for powers of ten from 10^18 on the condition is that of ComesBack, in terms of the printed parts.
- DecimalTexts.PlainStoredExactly: with an exponent, or for multiples of ten, what is stored is compared with the text only where no zeroes are moved (StoredExactly).
- Emitter.Qsort: the sorting algorithm of the C library; its contract is that of the C standard, and any result that meets it is the same one.
- Writer.Writer.AddDecimal: after a number with a wrong size further calls fail in the model, while the code goes on and finds no nest of values in the spool; what it does then is not modelled.
- JsonParser.ParseNumber: likewise stops at a number with a wrong size, where the code goes on.
- Lookup.Find: the interpolated guess is an exact floor division instead of a `long double` computation with its rounding.
- Document.StepOk: positions on the stack are unbounded, so that pushing one always works.
- Fixpoint.CanonicalFixpoint: leaves numbers out, because stored decimals are not always printed as they were read; JsonAgain.PrintedParses has them.
- `begin_decimal_from_string`, its append and its end, which cannot succeed as written (lib/writer/decimal.c:508).
- Allocation, growth and alignment of buffers (lib/writer/buffer.c), other causes of failure than a full address space, and 32-bit builds.
- Input and output: files, descriptors, temporary files, memory maps and the command line tools; output callbacks append and succeed.
- rapidhash: any function into 64 bits takes its place.
- Writing of binary integers and floating point numbers; `bijson_to_json` refuses to print them.
- The integer getters that are compiled out (lib/reader/decimal.c:45-229).
- Assertions of debug builds; where a release build wraps around instead, as in counting, the model does so too.
- The branch of `_bijson_json_append_unichar` for values above 0x10FFFF, which four hexadecimal digits cannot reach.
