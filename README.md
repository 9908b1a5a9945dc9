# tinyply.net core in Dafny

This project models the core of tinyply.net, a small C# reader and writer for PLY polygon files. The core is the schema, binding and traversal engine of `PlyFile`, together with what it is built from:

- **Type registry** (`Helper`): the eight scalar kinds, each with a byte stride and a short token. `PropertyTypeFromString` maps tokens to kinds. `MakeKey` builds the key of the binding table.
- **Header parser** (`ParseHeader`). It reads line by line and dispatches on the first word of each line. An `element` line is parsed by `PlyElement.ParseInternal`, a `property` line by `PlyProperty.parseInternal`.
- **Binding table**:
  - the list of requested elements;
  - a dictionary from `element-property` keys to data cursors;
  - the four methods that fill it: `RequestPropertyFromElement`, `RequestListPropertyFromElement`, `AddPropertiesToElement` and `AddListPropertyToElement`.
- **Body reader** `Read(readData, skipData)`. It is driven by the text tokenizer (`StreamHelper.ReadWord` with text `ReadData`/`SkipData`) or by the fixed-width binary reader.
- **Text writer**: `WriteHeader` and `WriteTextInternal`.

## How the model is built

Modules follow the source files.

| Module | Models | Form |
|---|---|---|
| `PlyTypes` | `Helper.cs` | Pure functions. |
| `Decimal` | `int.Parse` and `Int32.ToString` for element counts and list lengths | Pure functions. |
| `StreamHelper` | `Helpers/StreamHelper.cs` | Reader and writer classes with a read position or the written text, plus the pure functions that specify them. |
| `PlyProperty`, `PlyElement` | The property and element records | Datatypes with their constructors as functions, and parse methods that pull words from a reader. |
| `PlyHeader` | The header | The lines `WriteHeader` emits, and `ParseHeader` as a fold over lines. |
| `Binding` | The binding table | Spec functions of the request and add methods. |
| `Traversal` | The body reader | `Read` as a fold over elements × rows × properties. |
| `TextBody` | The text body writer | The body as a fold. |
| `BodyRoundTrip` | Body written, then read back | Lemmas relating writer and reader. |
| `PlyFiles` | `PlyFile.cs` | The class `PlyFile`. |

**The `PlyFile` class.**
- Its fields are `Elements`, `Comments`, `ObjInfo`, `IsBinary`, the requested list, the table and the cursors.
- Its methods are proved against the spec functions and keep the source's loops.
- A `DataCursor` is an index into the sequence of cursors created so far, so several keys can share one cursor.
- A cursor holds:
  - `Unset` (a null `vector`);
  - `Flat` (a `List<T>`);
  - or `Nested` (a `List<List<T>>` marked multivector).

**Failures.**
- Each exception is a `PlyError` value.
- The spec functions carry the first exception and stop there. They keep the partial effects the source leaves behind: bindings made before a throw, values read before a failed `Add`, text written before a throw.

**Parameters.**
- **Values.** Scalar values are an abstract type `V`.
- **Conversions.** `Convert.ChangeType`, `ByteHelper.FromByteArray`, `Convert.ToUInt32` and `ToString` of a value are function parameters.
- **Input and output.**
  - The header input is its sequence of lines.
  - The body input is the unread text or the unread bytes.
  - The writer is the text written so far.

**The second `MakeKey` overload.** `MakeKey(element, property)` is used as `MakeKey(e.name, p.name)` wherever the source calls it.

**Quirks modelled as written:**
- Elements nobody requested consume no input.
- An unbound list property is skipped with one `skipData` of its item type.
- A request that stops at a missing key leaves the earlier keys bound to a cursor whose vector is never set.
- The checked `Sum` can overflow.
- `int` division truncates.
- A negative element count is accepted and gives zero rows.
- `ListCount` is assigned to itself, so it stays 0.
- A second `AddPropertiesToElement` for the same element throws. One unit test expects such calls to merge; the model follows the code.
- `ObjInfo` is never written.
- A binary header throws right after `ply`. One unit test expects a binary header to be written; the model follows the code.

## Model

| member | source | states |
|---|---|---|
| PlyTypes.PropertyTypeFromStringSpells | tinyply.net/TinyPlyNet/Helper.cs:49-60 | the result is kind k exactly when the token is k's short or long spelling; any other token fails with the not-supported error |
| PlyTypes.AcceptsExactlySixteenTokens | tinyply.net/TinyPlyNet/Helper.cs:49-60 | a token is accepted if and only if it is one of the sixteen case-sensitive spellings |
| PlyTypes.TokenRoundTrip | tinyply.net/TinyPlyNet/Helper.cs:30-40 | the token the writer emits for a kind (and its long name) is read back as that kind |
| PlyTypes.StrInjective | tinyply.net/TinyPlyNet/Helper.cs:32-39 | the eight written tokens are pairwise distinct |
| PlyTypes.StrideValues | tinyply.net/TinyPlyNet/Helper.cs:32-39 | strides are 1 for sbyte/byte, 2 for short/ushort, 4 for int/uint/float, 8 for double |
| PlyTypes.MakeKey | tinyply.net/TinyPlyNet/Helper.cs:68-71 | the key is the element name, one dash, the property name, with lengths adding up |
| PlyTypes.MakeKeyInjective | tinyply.net/TinyPlyNet/Helper.cs:63-71 | when element names contain no dash, equal keys come from equal name pairs |
| PlyTypes.MakeKeyCollides | tinyply.net/TinyPlyNet/Helper.cs:63-71 | without that condition the "unique" key collides: ("a-b","c") and ("a","b-c") |
| Decimal.ParseInt32 | tinyply.net/TinyPlyNet/PlyElement.cs:51 | int.Parse succeeds only on a non-empty word and only with a value in the 32-bit range |
| Decimal.NatToString | tinyply.net/TinyPlyNet/PlyFile.cs:500 | the decimal text of a count is a non-empty run of digits whose value is the count |
| Decimal.ParseIntToString | tinyply.net/TinyPlyNet/PlyElement.cs:51 | int.Parse reads back every 32-bit value the writer prints |
| StreamHelper.NextWordShape | tinyply.net/TinyPlyNet/Helpers/StreamHelper.cs:31-56 | ReadWord skips the leading whitespace, returns the maximal run of non-whitespace after it, and consumes at most the one whitespace character ending it |
| StreamHelper.NextWordEmpty | tinyply.net/TinyPlyNet/Helpers/StreamHelper.cs:36-55 | the word is empty exactly when only whitespace or nothing remains |
| StreamHelper.NextWordWords | tinyply.net/TinyPlyNet/Helpers/StreamHelper.cs:31-56 | repeated ReadWord calls yield the whitespace-separated tokens of the text, in order |
| StreamHelper.NextWordStep | tinyply.net/TinyPlyNet/Helpers/StreamHelper.cs:31-56 | one ReadWord returns the first token (or "") and leaves exactly the other tokens unread |
| StreamHelper.NextWordOfSpaced | tinyply.net/TinyPlyNet/Helpers/StreamHelper.cs:31-56 | on "w rest" with w a token, ReadWord returns w and leaves rest unread |
| StreamHelper.WordsOfSpaced | tinyply.net/TinyPlyNet/Helpers/StreamHelper.cs:31-56 | the tokens of "w rest" are w followed by the tokens of rest |
| StreamHelper.TextReader.ReadWord | tinyply.net/TinyPlyNet/Helpers/StreamHelper.cs:31-56 | the two while loops return the word and leave the reader where the tokenizer function says |
| StreamHelper.TextReader.SkipWhiteSpace | tinyply.net/TinyPlyNet/Helpers/StreamHelper.cs:35-39 | the first loop leaves the reader just past the leading whitespace |
| StreamHelper.TextReader.TakeRun | tinyply.net/TinyPlyNet/Helpers/StreamHelper.cs:41-54 | the second loop returns the run of non-whitespace characters and leaves the reader past the whitespace character that ends it, if any |
| StreamHelper.RestOfLine | tinyply.net/TinyPlyNet/PlyFile.cs:322 | ReadLine returns the longest prefix without a line break, stopping at the first break |
| StreamHelper.TextReader.ReadLine | tinyply.net/TinyPlyNet/PlyFile.cs:322 | the line returned is the rest of the current line |
| StreamHelper.NormalizeNanSpec | tinyply.net/TinyPlyNet/Helpers/StreamHelper.cs:163-166 | only the eight case variants of nan are changed, all to "NaN"; the step is idempotent |
| StreamHelper.TextReader.ReadData | tinyply.net/TinyPlyNet/Helpers/StreamHelper.cs:160-168 | one word is read, nan-normalised and converted |
| StreamHelper.TextReader.SkipData | tinyply.net/TinyPlyNet/Helpers/StreamHelper.cs:175-178 | one word is read and dropped |
| StreamHelper.TextCodecConsumesOneWord | tinyply.net/TinyPlyNet/Helpers/StreamHelper.cs:160-178 | text ReadData and SkipData each consume exactly one token; ReadData converts that token after nan normalisation |
| StreamHelper.BinaryCodecWidth | tinyply.net/TinyPlyNet/Helpers/StreamHelper.cs:78-84 | binary ReadData and SkipData advance by the same Stride(k) bytes; the buffer is always Stride(k) wide and is the next Stride(k) bytes when that many remain |
| StreamHelper.BinaryReader.ReadBuffer | tinyply.net/TinyPlyNet/Helpers/StreamHelper.cs:81-82 | a fresh zeroed buffer of the requested width receives as many bytes as remain |
| StreamHelper.BinaryReader.ReadData | tinyply.net/TinyPlyNet/Helpers/StreamHelper.cs:78-84 | reads Marshal.SizeOf(t) bytes and decodes them |
| StreamHelper.BinaryReader.SkipData | tinyply.net/TinyPlyNet/Helpers/StreamHelper.cs:145-150 | consumes Marshal.SizeOf(t) bytes |
| StreamHelper.BinaryReader.ReadDataBigEndian | tinyply.net/TinyPlyNet/Helpers/StreamHelper.cs:92-138 | the buffer is byte-swapped before decoding and the reader advances as SkipData does |
| StreamHelper.SwapBytes | tinyply.net/TinyPlyNet/Helpers/StreamHelper.cs:97-135 | the in-place swaps reverse buffers of 2, 4 and 8 bytes and leave other widths unchanged |
| StreamHelper.ByteSwappedInvolution | tinyply.net/TinyPlyNet/Helpers/StreamHelper.cs:97-135 | swapping twice is the identity; a 1-byte buffer is unchanged |
| StreamHelper.TextWriter.WriteData | tinyply.net/TinyPlyNet/Helpers/StreamHelper.cs:193-197 | the value's text followed by exactly one space is appended |
| PlyProperty.ScalarProperty | tinyply.net/TinyPlyNet/PlyProperty.cs:18-25 | not a list, no list type, the given kind and name, ListCount 0 |
| PlyProperty.ListProperty | tinyply.net/TinyPlyNet/PlyProperty.cs:27-35 | a list with the given count and item kinds and name; ListCount stays 0 |
| PlyProperty.PropertyFromTextWords | tinyply.net/TinyPlyNet/PlyProperty.cs:43-55 | `list c t n` gives a list property of count kind c and item kind t; `t n` gives a scalar property; fails, with the not-supported error, exactly on an unknown type token; on success exactly 4 or 2 tokens are consumed and the rest stay unread |
| PlyProperty.RejectsUnknownType | tinyply.net/TinyPlyNet/PlyProperty.cs:53 | a scalar line `t name` whose type token t is none of the sixteen accepted tokens fails with the not-supported error |
| PlyProperty.ParseProperty | tinyply.net/TinyPlyNet/PlyProperty.cs:43-55 | pulling words from the line reader gives the property, or the error, and leaves the reader as the token-level parse says |
| PlyElement.NamedElement | tinyply.net/TinyPlyNet/PlyElement.cs:26-31 | the given name, Size 0, no properties |
| PlyElement.Rows | tinyply.net/TinyPlyNet/PlyFile.cs:364 | the loops visit Size rows, and none when Size is negative |
| PlyElement.ElementFromTextWords | tinyply.net/TinyPlyNet/PlyElement.cs:48-52 | the first token is the name and the second the count; the element starts without properties; it fails exactly when the count is not a 32-bit integer; two tokens are consumed either way |
| PlyElement.NegativeCountAccepted | tinyply.net/TinyPlyNet/PlyElement.cs:51 | "-5" parses as -5, and such an element has no rows |
| PlyElement.ParseElement | tinyply.net/TinyPlyNet/PlyElement.cs:48-52 | two words from the line reader give the element or the count error |
| PlyHeader.AddToLast | tinyply.net/TinyPlyNet/PlyFile.cs:335-338 | the property is added to the last element only; the other elements are unchanged |
| PlyHeader.HeaderLineByToken | tinyply.net/TinyPlyNet/PlyFile.cs:428-473 | by first token: ply/PLY/empty lines are skipped; end_header stops; unknown tokens throw; format looks only at the second token (little endian sets the flag, big endian throws, anything else changes nothing); element appends one element; property fails before any element, and otherwise succeeds exactly when the rest of the line parses as a property, which is appended to the last element's properties, the other elements unchanged |
| PlyHeader.TextLineRead | tinyply.net/TinyPlyNet/PlyFile.cs:320-324 | comment and obj_info lines append everything after the first word's ending space, leading spaces included, to Comments or ObjInfo |
| PlyHeader.RunStopped | tinyply.net/TinyPlyNet/PlyFile.cs:462-468 | once end_header or an exception has stopped the parse, later lines are not looked at |
| PlyHeader.PropertyTextRead | tinyply.net/TinyPlyNet/PlyFile.cs:501-513 | a written property line, read back by parseInternal, gives the same property |
| PlyHeader.PropertyLinesRead | tinyply.net/TinyPlyNet/PlyFile.cs:501-514 | the written property lines of an element, read back, add its properties in order |
| PlyHeader.ElementLinesRead | tinyply.net/TinyPlyNet/PlyFile.cs:500-514 | an element's written lines, read back, append the same element |
| PlyHeader.ElementsLinesRead | tinyply.net/TinyPlyNet/PlyFile.cs:498-515 | all written element lines, read back, append the same elements in the same order |
| PlyHeader.CommentLinesRead | tinyply.net/TinyPlyNet/PlyFile.cs:492-495 | the written comment lines, read back, append the same comments in order |
| PlyHeader.FormatLineRead | tinyply.net/TinyPlyNet/PlyFile.cs:488 | the written format line leaves the file ascii |
| PlyHeader.HeaderRoundTrip | tinyply.net/TinyPlyNet/PlyFile.cs:479-517 | the header WriteHeader emits, parsed back, gives the same elements (order and properties) and comments; ObjInfo comes back empty; what follows end_header is not read |
| Binding.FindProperty | tinyply.net/TinyPlyNet/PlyFile.cs:152-163 | the index of the first property of that name, or none when no property has it |
| Binding.InstanceCountMeans | tinyply.net/TinyPlyNet/PlyFile.cs:143-166 | 0 when no element of that name has the property; a nonzero result is the Size of a matching element whose property has kind T; the wrong-type error only when a matching property has another kind; never an error when all matching properties have kind T |
| Binding.BindKeysTable | tinyply.net/TinyPlyNet/PlyFile.cs:168-186 | the key loop (BindKeys) never rebinds an existing key; new keys go to the one new cursor; a completed loop has bound every key and collected one count per key |
| Binding.CheckedSum | tinyply.net/TinyPlyNet/PlyFile.cs:187 | the checked Sum stays within the 32-bit range or throws |
| Binding.CheckedSumIsSum | tinyply.net/TinyPlyNet/PlyFile.cs:187 | when it does not throw, the checked Sum is the sum; equal counts whose total fits never throw |
| Binding.CsDiv | tinyply.net/TinyPlyNet/PlyFile.cs:189 | C# division truncates toward zero: the remainder a - q·b has the sign of a and is smaller than b in size |
| Binding.CsDivExact | tinyply.net/TinyPlyNet/PlyFile.cs:189 | k·n divided by k is n for negative n as well |
| Binding.Request | tinyply.net/TinyPlyNet/PlyFile.cs:118-190 | the table only grows; validity is kept; an absent element returns 0 and changes nothing; otherwise the element is recorded in the requested list at most once, and new keys go to the one new cursor |
| Binding.RequestReturnsSize | tinyply.net/TinyPlyNet/PlyFile.cs:118-190 | when the keys are fresh, distinct and all name properties of kind T with the same nonzero Size, that Size is returned and every key is bound to one new flat cursor over the data |
| Binding.RequestLeavesPartialBindings | tinyply.net/TinyPlyNet/PlyFile.cs:180-185 | at the first missing key 0 is returned, the earlier keys stay bound, and their cursor's vector stays null |
| Binding.RequestThrowsAt | tinyply.net/TinyPlyNet/PlyFile.cs:155-176 | at the first key whose property has the wrong kind, or whose key is already bound, by an earlier call or earlier in the same call, the call throws WrongType or AlreadyRequested; the earlier keys stay bound to the new cursor, its vector stays null, and no later key is bound |
| Binding.BindKeysStopsAt | tinyply.net/TinyPlyNet/PlyFile.cs:182-185 | the return at a missing key ends the loop; later keys are not bound |
| Binding.RequestList | tinyply.net/TinyPlyNet/PlyFile.cs:199-228 | neither the property's existence nor its kind is checked; the call succeeds exactly when the key is unbound, and then binds it to a new multivector cursor over the data; an absent element changes nothing |
| Binding.AddKeys | tinyply.net/TinyPlyNet/PlyFile.cs:252-263 | existing bindings are kept; new keys go to the new cursor; on success every key is bound; the only failure is an already-bound key |
| Binding.AddKeysSucceeds | tinyply.net/TinyPlyNet/PlyFile.cs:252-263 | the key loop succeeds if and only if no key is bound yet and none repeats |
| Binding.ScalarProperties | tinyply.net/TinyPlyNet/PlyFile.cs:252-255 | one scalar property of kind T per key, in key order |
| Binding.AddProperties | tinyply.net/TinyPlyNet/PlyFile.cs:237-266 | fails with ElementExists when the element exists (nothing changes), with DivideByZero when there is no key, and with AlreadyRequested when a key is bound or repeated; succeeds exactly when the element is new, there is a key, and the keys are fresh and distinct; then one element with Size = \|data\| / \|keys\| and one property per key is appended, and every key is bound to one flat cursor; requested elements are untouched |
| Binding.AddPropertiesTwiceThrows | tinyply.net/TinyPlyNet/PlyFile.cs:242-245 | a second call for the same element throws and changes nothing |
| Binding.AddList | tinyply.net/TinyPlyNet/PlyFile.cs:291-316 | fails with ElementExists when the element exists (nothing changes) and with AlreadyRequested when the key is bound; succeeds exactly when the element is new and the key unbound; then appends one element with Size = \|data\| and one list property of the given count type, bound to a multivector cursor |
| Binding.AddPropertiesLayout | tinyply.net/TinyPlyNet/PlyFile.cs:249-265 | the appended element has one scalar property per key, all bound to the new flat cursor, and \|data\| / \|keys\| rows |
| Binding.AddListLayout | tinyply.net/TinyPlyNet/PlyFile.cs:302-315 | the appended element has one list property bound to the new multivector cursor, and \|data\| rows |
| Traversal.AppendValue | tinyply.net/TinyPlyNet/PlyFile.cs:394 | Add succeeds exactly on a flat list of the value's kind and appends the value; a null vector throws NullReference; any other list throws ArgumentException |
| Traversal.ReadValues | tinyply.net/TinyPlyNet/PlyFile.cs:387-390 | at most n values are read, and exactly n when none fails |
| Traversal.AddItemsToFlat | tinyply.net/TinyPlyNet/PlyFile.cs:387-390 | items added one by one to a flat list of their kind are the values read in a row |
| Traversal.AddItemsOtherThrows | tinyply.net/TinyPlyNet/PlyFile.cs:387-390 | any other cursor throws at the first item and is left unchanged; an empty list adds nothing and does not throw |
| Traversal.ReadProperty | tinyply.net/TinyPlyNet/PlyFile.cs:366-400 | the per-property step of Read; its contract keeps the number of cursors, and its behaviour is stated by the lemmas below |
| Traversal.ReadRow | tinyply.net/TinyPlyNet/PlyFile.cs:366-401 | the properties of one row in order; its contract keeps the number of cursors |
| Traversal.ReadRows | tinyply.net/TinyPlyNet/PlyFile.cs:364-402 | the remaining rows; its contract keeps the number of cursors |
| Traversal.ReadElement | tinyply.net/TinyPlyNet/PlyFile.cs:361-407 | a requested element is read for max(Size, 0) rows, others are passed over; its contract keeps the number of cursors |
| Traversal.ReadElements | tinyply.net/TinyPlyNet/PlyFile.cs:359-408 | the elements in order; its contract keeps the number of cursors |
| Traversal.ReadRowSticky | tinyply.net/TinyPlyNet/PlyFile.cs:357-409 | after an exception nothing more of a row is read |
| Traversal.ReadRowsSticky | tinyply.net/TinyPlyNet/PlyFile.cs:357-409 | after an exception no further row is read |
| Traversal.ReadElementsSticky | tinyply.net/TinyPlyNet/PlyFile.cs:357-409 | after an exception no further element is read |
| Traversal.UnrequestedReadsNothing | tinyply.net/TinyPlyNet/PlyFile.cs:361-407 | elements nobody requested consume no input and change no cursor |
| Traversal.ReadValuesTotal | tinyply.net/TinyPlyNet/PlyFile.cs:387-390 | when every read succeeds, n reads give n values |
| Traversal.ListRowLength | tinyply.net/TinyPlyNet/PlyFile.cs:371-391 | a multivector cursor gets one new row whose length is the count read before it, and its earlier rows are kept |
| Traversal.BoundCountRange | tinyply.net/TinyPlyNet/PlyFile.cs:369 | the number of properties bound to a cursor is at most the number of properties; it is all of them when every key maps to that cursor, and 0 when none does |
| Traversal.FlatLayoutFits | tinyply.net/TinyPlyNet/PlyFile.cs:394 | the layout a flat request or add sets up fits its cursor and binds every property to it |
| Traversal.ListLayoutFits | tinyply.net/TinyPlyNet/PlyFile.cs:371-391 | a one-list element's layout fits its multivector cursor and binds its one property to it |
| Traversal.PropertyFills | tinyply.net/TinyPlyNet/PlyFile.cs:366-400 | one property read changes only the cursor its key is bound to; without an exception a fitting cursor gains one value (an item, or a new inner list) when the property is bound to it and none otherwise |
| Traversal.RowFills | tinyply.net/TinyPlyNet/PlyFile.cs:366-400 | a row changes only the cursors some of its properties are bound to; without an exception a fitting cursor gains one value per property bound to it, with bound and unbound properties mixed in any order |
| Traversal.RowsFill | tinyply.net/TinyPlyNet/PlyFile.cs:364-400 | n rows give n × (properties bound to the cursor) new values, the earlier values kept as a prefix |
| Traversal.ElementFills | tinyply.net/TinyPlyNet/PlyFile.cs:357-409 | how many values each bound cursor receives: after an element is read without an exception, a fitting cursor keeps what it held and gains Rows × (properties bound to it) values if the element was requested and none otherwise; properties that are unbound or bound elsewhere, such as nx, ny, nz beside x, y, z, do not count; cursors no property of the element is bound to are unchanged |
| Traversal.PropertySucceeds | tinyply.net/TinyPlyNet/PlyFile.cs:366-400 | when every read and count converts, a property bound to a cursor that fits it does not throw, and every cursor still fits |
| Traversal.RowSucceeds | tinyply.net/TinyPlyNet/PlyFile.cs:366-400 | such a row does not throw |
| Traversal.RowsSucceed | tinyply.net/TinyPlyNet/PlyFile.cs:364-400 | such rows do not throw |
| Traversal.ElementReadSucceeds | tinyply.net/TinyPlyNet/PlyFile.cs:357-409 | when every read and count converts and every cursor fits the properties bound to it, reading the element does not throw, so the counts of ElementFills hold unconditionally |
| Traversal.ScalarRowTokens | tinyply.net/TinyPlyNet/PlyFile.cs:366-400 | with the text reader, every property not bound as a list consumes exactly one token, read or skipped |
| Traversal.ScalarRowsTokens | tinyply.net/TinyPlyNet/PlyFile.cs:364-400 | n such rows consume n × properties tokens |
| Traversal.ElementTokens | tinyply.net/TinyPlyNet/PlyFile.cs:357-409 | with the text reader, a requested element with no bound list, read without an exception, consumes Rows × properties tokens, bound and unbound properties alike |
| Traversal.UnboundRowSkips | tinyply.net/TinyPlyNet/PlyFile.cs:397-400 | with the text reader, each unbound property of a row, lists included, consumes exactly one token |
| Traversal.UnboundRowsSkip | tinyply.net/TinyPlyNet/PlyFile.cs:397-400 | n unbound rows consume n × properties tokens |
| Traversal.UnboundElementSkips | tinyply.net/TinyPlyNet/PlyFile.cs:397-400 | a requested element with no bound property consumes Rows × properties tokens whatever the kinds, so unbound lists are misread |
| Traversal.NullCursorBreaksRead | tinyply.net/TinyPlyNet/PlyFile.cs:394 | a property left bound to a null cursor by a failed request makes the read throw |
| TextBody.EmitRowsSticky | tinyply.net/TinyPlyNet/PlyFile.cs:544-569 | after an exception no further row is written |
| TextBody.EmitElementsSticky | tinyply.net/TinyPlyNet/PlyFile.cs:541-570 | after an exception no further element is written |
| TextBody.EmitCellsExtends | tinyply.net/TinyPlyNet/PlyFile.cs:546-567 | the writer only appends: text written earlier is kept |
| TextBody.FlatCellsText | tinyply.net/TinyPlyNet/PlyFile.cs:546-567 | the cells of row i of a flat element are its data from i·k+j to (i+1)·k, each followed by a space |
| TextBody.FlatRowsTextMatches | tinyply.net/TinyPlyNet/PlyFile.cs:539-571 | the body of a flat element is its data cut into rows of \|properties\| values, one line per row, for Size rows |
| TextBody.ListRowsTextMatches | tinyply.net/TinyPlyNet/PlyFile.cs:549-561 | the body of a list element is one line per list: the list's count, then its items |
| TextBody.UnboundPropertyThrows | tinyply.net/TinyPlyNet/PlyFile.cs:548 | a property with no binding throws KeyNotFound before any cell of its element is written |
| TextBody.ListNeedsMultivectorThrows | tinyply.net/TinyPlyNet/PlyFile.cs:551-554 | a list property bound to a non-multivector cursor throws NotSupported |
| BodyRoundTrip.SpacedWords | tinyply.net/TinyPlyNet/Helpers/StreamHelper.cs:193-197 | values written by WriteData are, as tokens, the values' texts in order |
| BodyRoundTrip.FlatRowsTextWords | tinyply.net/TinyPlyNet/PlyFile.cs:539-571 | a written flat body is, as tokens, the texts of its data slice |
| BodyRoundTrip.ScalarReadsToken | tinyply.net/TinyPlyNet/PlyFile.cs:394 | a bound scalar read from its value's token appends that value and consumes that token |
| BodyRoundTrip.FlatRowReadsTokens | tinyply.net/TinyPlyNet/PlyFile.cs:366-395 | a flat row read from its values' tokens appends those values and consumes exactly those tokens |
| BodyRoundTrip.FlatRowsReadTokens | tinyply.net/TinyPlyNet/PlyFile.cs:364-402 | rows i..n read back the data slice i·k..n·k |
| BodyRoundTrip.FlatBodyRoundTrip | tinyply.net/TinyPlyNet/PlyFile.cs:539-571 | an added flat element's written body, read into a requested flat cursor, appends data[..Rows·k], leaves the other cursors unchanged, and leaves exactly the following text unread |
| BodyRoundTrip.ListRowsTextWords | tinyply.net/TinyPlyNet/PlyFile.cs:549-561 | a written list body is, as tokens, each list's count followed by its items |
| BodyRoundTrip.ValuesReadTokens | tinyply.net/TinyPlyNet/PlyFile.cs:387-390 | list items read from their tokens give back the items |
| BodyRoundTrip.ListRowReadsTokens | tinyply.net/TinyPlyNet/PlyFile.cs:371-391 | one list row read from its tokens adds that list to the multivector cursor |
| BodyRoundTrip.ListRowsReadTokens | tinyply.net/TinyPlyNet/PlyFile.cs:364-402 | rows i..n read back lists i..n |
| BodyRoundTrip.ListBodyRoundTrip | tinyply.net/TinyPlyNet/PlyFile.cs:549-561 | an added list element's written body, read into a requested multivector cursor, adds its first Rows lists, leaves the other cursors unchanged, and leaves exactly the following text unread |
| PlyFiles.AddedPropertiesText | tinyply.net/TinyPlyNet/PlyFile.cs:539-571 | the body written for an element added by AddPropertiesToElement is its data in rows of one value per key, for \|data\| / \|keys\| rows; any remainder is not written |
| PlyFiles.AddedListText | tinyply.net/TinyPlyNet/PlyFile.cs:539-571 | the body written for an element added by AddListPropertyToElement is one line per list: count, then items |
| PlyFiles.PlyFile.constructor | tinyply.net/TinyPlyNet/PlyFile.cs:47-53 | empty lists, ascii format, empty binding table |
| PlyFiles.PlyFile.Open | tinyply.net/TinyPlyNet/PlyFile.cs:59-67 | a new file whose header fields are the header parse of the lines, with its error if any |
| PlyFiles.PlyFile.ReadHeaderText | tinyply.net/TinyPlyNet/PlyFile.cs:320-324 | the rest of the line is appended to the list |
| PlyFiles.PlyFile.ReadHeaderFormat | tinyply.net/TinyPlyNet/PlyFile.cs:326-333 | the fields after the call are what the format directive specifies |
| PlyFiles.PlyFile.ReadHeaderProperty | tinyply.net/TinyPlyNet/PlyFile.cs:335-338 | the fields after the call are what the property directive specifies |
| PlyFiles.PlyFile.ReadHeaderElement | tinyply.net/TinyPlyNet/PlyFile.cs:340-343 | the fields after the call are what the element directive specifies |
| PlyFiles.PlyFile.HeaderLine | tinyply.net/TinyPlyNet/PlyFile.cs:433-471 | one loop pass changes the fields as the line function says, and leaves the bindings alone |
| PlyFiles.PlyFile.Dispatch | tinyply.net/TinyPlyNet/PlyFile.cs:437-469 | the if-chain on the first word matches the directive function |
| PlyFiles.PlyFile.ParseHeader | tinyply.net/TinyPlyNet/PlyFile.cs:428-473 | the fields and the error are those of the header fold over the lines |
| PlyFiles.PlyFile.InstanceCounter | tinyply.net/TinyPlyNet/PlyFile.cs:143-166 | the nested foreach loops compute InstanceCount |
| PlyFiles.PlyFile.BindPropertyKey | tinyply.net/TinyPlyNet/PlyFile.cs:170-185 | one pass of the key loop, as BindKey |
| PlyFiles.PlyFile.BindPropertyKeys | tinyply.net/TinyPlyNet/PlyFile.cs:168-186 | the key loop, as BindKeys |
| PlyFiles.PlyFile.RequestPropertyFromElement | tinyply.net/TinyPlyNet/PlyFile.cs:118-190 | the result and the new table and cursors are those of Request; the header is untouched |
| PlyFiles.PlyFile.RequestListPropertyFromElement | tinyply.net/TinyPlyNet/PlyFile.cs:199-228 | the result and the new table are those of RequestList |
| PlyFiles.PlyFile.AddPropertyKeys | tinyply.net/TinyPlyNet/PlyFile.cs:252-263 | the key loop, as AddKeys, building one property per key |
| PlyFiles.PlyFile.AddPropertiesToElement | tinyply.net/TinyPlyNet/PlyFile.cs:237-266 | the error, elements and bindings are those of AddProperties |
| PlyFiles.PlyFile.AddListPropertyToElement | tinyply.net/TinyPlyNet/PlyFile.cs:291-316 | the error, elements and bindings are those of AddList |
| PlyFiles.PlyFile.AddListProperty | tinyply.net/TinyPlyNet/PlyFile.cs:275-281 | the three-argument overload uses ushort counts |
| PlyFiles.PlyFile.AddRead | tinyply.net/TinyPlyNet/PlyFile.cs:394 | `cursor.vector.Add(readData(k))` as ReadScalarInto |
| PlyFiles.PlyFile.AddReadItems | tinyply.net/TinyPlyNet/PlyFile.cs:387-390 | the item loop into a cursor that does not hold lists, as AddItems |
| PlyFiles.PlyFile.AddReadRow | tinyply.net/TinyPlyNet/PlyFile.cs:378-390 | a new inner list is appended and receives the values ReadValues reads |
| PlyFiles.PlyFile.ReadList | tinyply.net/TinyPlyNet/PlyFile.cs:371-391 | the list branch, as ReadListInto |
| PlyFiles.PlyFile.ReadOne | tinyply.net/TinyPlyNet/PlyFile.cs:368-400 | one property, as ReadProperty |
| PlyFiles.PlyFile.ReadRowOf | tinyply.net/TinyPlyNet/PlyFile.cs:366-401 | one row, as ReadRow |
| PlyFiles.PlyFile.ReadElementOf | tinyply.net/TinyPlyNet/PlyFile.cs:361-407 | one element, as ReadElement |
| PlyFiles.PlyFile.Read | tinyply.net/TinyPlyNet/PlyFile.cs:357-409 | the loop nest, as ReadElements; header, requested list and table unchanged |
| PlyFiles.PlyFile.ReadTextInternal | tinyply.net/TinyPlyNet/PlyFile.cs:419-426 | Read with the text reader's delegates |
| PlyFiles.PlyFile.ReadBinaryInternal | tinyply.net/TinyPlyNet/PlyFile.cs:411-417 | Read with the binary reader's delegates |
| PlyFiles.PlyFile.WriteHeaderLine | tinyply.net/TinyPlyNet/PlyFile.cs:481 | one WriteLine appends the line and a newline |
| PlyFiles.PlyFile.WriteComments | tinyply.net/TinyPlyNet/PlyFile.cs:492-495 | one `comment` line per entry, in order |
| PlyFiles.PlyFile.WritePropertyLines | tinyply.net/TinyPlyNet/PlyFile.cs:501-514 | one property line per property, in order, list or scalar form |
| PlyFiles.PlyFile.WriteElementHeader | tinyply.net/TinyPlyNet/PlyFile.cs:500-514 | the element line, then its property lines |
| PlyFiles.PlyFile.WriteElementsHeader | tinyply.net/TinyPlyNet/PlyFile.cs:498-515 | every element's lines, in order |
| PlyFiles.PlyFile.WriteHeader | tinyply.net/TinyPlyNet/PlyFile.cs:479-517 | the text written is HeaderText: ply, format ascii 1.0, comments, elements, end_header; a binary file throws after ply |
| PlyFiles.PlyFile.WriteCell | tinyply.net/TinyPlyNet/PlyFile.cs:548-565 | one cell, as CellText: text appended, or the error with nothing appended |
| PlyFiles.PlyFile.WriteRow | tinyply.net/TinyPlyNet/PlyFile.cs:546-568 | `current` advances by one per cell, and the row is the cells then a newline |
| PlyFiles.PlyFile.WriteElement | tinyply.net/TinyPlyNet/PlyFile.cs:541-569 | `current` restarts at 0 per element; the rows are as EmitRows |
| PlyFiles.PlyFile.WriteTextInternal | tinyply.net/TinyPlyNet/PlyFile.cs:539-571 | every element in order, as EmitElements |
| PlyFiles.PlyFile.Write | tinyply.net/TinyPlyNet/PlyFile.cs:104-108 | IsBinary is set first, then header and body are written as FileText; the bindings are untouched |

## Left out

- Streams are not modelled: `Stream`, `StreamReader`, `BinaryReader`, `StreamWriter`, `Flush`, `DiscardBufferedData` and `UnbufferedStreamReader`. The header input is its list of lines, the body input is the unread text or bytes, and the writer is the text written so far.
- A missing `end_header` is reported as `HeaderNotTerminated`. The source's stream reader returns "" at end of input, so `ParseHeader` would loop forever.
- Character decoding is not modelled: the UTF-8 decoding in `ReadWord` and `ByteHelper`'s marshalling. Characters are taken as already decoded, and the decoding of a fixed-width buffer is a parameter.
- `ReadWord`'s second loop (`StreamHelper.cs:41-54`) decodes each character again: it takes the bytes of the character's code and decodes them with the stream's encoding, keeping the first char. For ASCII this returns the same character. Characters from U+0080 up come back garbled, so non-ASCII whitespace does not end a word. The model uses the character unchanged, so `NextWordShape`, `NextWordWords` and the body round trips match the source only for ASCII text.
- `PlyFiles.PlyFile.Open`: on a header error it returns the failure together with the partly parsed file object. The source's constructor throws, so its caller never holds that object.
- Numeric conversions are parameters: `Convert.ChangeType`, `Convert.ToUInt32` and a value's `ToString`. Floating point, culture-specific formatting and `int.Parse`'s tolerance of surrounding whitespace are not modelled. Element counts are parsed as an optional sign followed by ASCII digits.
- A list count above `int.MaxValue` is outside the model. The source converts it with `Convert.ToUInt32` and then compares it with an `int` counter.
- `Environment.NewLine` is taken to be "\n". `TextReader.ReadLine` treats "\r", "\n" and "\r\n" as line ends.
- A `comment` or `obj_info` line with nothing after its first word stores `null` in the source. The model stores "", which is written back the same way.
- Reflection is replaced by the eight-kind datatype and a Flat or Nested buffer. This covers `typeof(T)` checks, `Activator.CreateInstance` of `List<T>`, and .NET types outside the eight.
- Aliasing between the caller's `List` objects and the cursors is not modelled. Data handed to a request or add method is a value stored in the cursor, and the caller sees the read values in the cursor, not in its own list.
- The list constructor is declared with four parameters but called with three. It is modelled with the three the call passes.
- `Read(Stream)` and `ReadInternal` dispatch on `IsBinary`. The model has no single method for this: the caller picks `ReadTextInternal` or `ReadBinaryInternal`.
- `WriteBinaryInternal` only throws. It is reached only after `WriteHeader` has already thrown on a binary file, so binary writing appears only as that error.
- Text written before an exception is kept in the model. The source's `StreamWriter` is not flushed when an exception escapes, so that text may never reach the stream.
