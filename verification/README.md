# What the model proves

This project models the core of sofarpc-cli, a command-line and MCP client for SOFARPC
services, and proves properties of it: the Hessian codec that puts requests on the wire
and reads answers back, the two protocols by which concurrent callers share invocation
slots and file parses, the language of Java types that contracts are written in with
everything that is computed from it, two bounded caches, the preparation of Java
sources for parsing, and the formatting of decoded graphs.

`dafny verify dfyconfig.toml` checks all of it.

## How it is laid out

- **Codec.** `Bytes` and `GoValues` hold integers, strings and Go's memory: maps and
  slices are objects in a heap that values address, because references let the decoder
  build values that contain themselves. `HessianEncoding` and `HessianDecoding` say what is
  written for a value and what is read from bytes; `HessianWriter` and `HessianReader` are the
  program's two objects, whose methods change buffers, offsets and tables and are proved to do
  just that. `HessianRoundTrip` and `HessianReadBack` prove that the one reads what the other
  wrote, through a coupling of the writer's definition keys with the reader's definitions.
  `DefinitionCollisions` shows where distinct definitions share a key and what that costs.
  `GenericRequest` is the whole request, `RequestExchange` the same on the two objects, and
  `SofaResponse` the answer. What the decoder's answers mean for the bytes is said by `ScalarForms`
  form by form, by `ContainerAnswers` for what lists and maps hold, and by `DecoderAnswers` for texts
  and the tables; the other way round, `Completeness` says what is read wherever it stands. `Utf8`
  ties runes to characters, `ResponseMeaning` says what an answer means for its object, and
  `DecoderEnds` when decoding ends. `GraphPaths` and `GraphFormat` treat cyclic values.
- **Protocols.** `InvokeLimiter` and `SourceStore` each hold the program's object, one method for
  each region under its lock, and a step system of all callers in which any step may come next;
  both use the same functions for what a region does.
- **Types.** `TypeLanguage` (parser and printer), `TypeSubstitution`, `InheritedFields`,
  `InheritedMethods`, `Assignability`, `BinaryNames`, `Normalization` with `NormalForms`, `Skeletons`, `TypeParameters`.
- **Caches and sources.** `SessionStore`, `ProjectCache`, `JavaSanitizer`.
- `Options` and `Sets` are shared helpers.

## What is worth knowing first

- The writer ends every string before a byte below 128 or the end of the content, so strings
  that are not valid UTF-8 are read back as well: no condition on strings is needed beside
  the limits.
- Definition keys join names with NUL bytes. The round trip holds for every run whose definitions
  have different keys, and an object that is written under the number of another definition is
  never read back as itself (`DefinitionCollisions.OtherDefinitionMisread`). Among NUL-free names
  two definitions share a key only when one has no fields and the other a single field with
  an empty name.
- The decoder renders map keys as text, and on a key that contains itself it never returns. That is
  the only way for a read not to end (`DecoderEnds.EndsUnlessKeyCyclic`), it takes a reference tag
  in the data (`DecoderEnds.ValueFresh`), and eight bytes are enough (`DecoderEnds.SelfKeyedNeverEnds`).
- The header of a request keeps the blanks around the name of the target application, which the
  content does not (`GenericRequest.HeaderFits`).
- The class store answers by its cache before it looks at its index. Its answers are the
  intended ones in all runs exactly when every class an indexed file declares is the one its
  name leads to (`SourceStore.AnswersRightExactly`).
- Composing type arguments on the way up a hierarchy equals substituting level by level exactly
  when no name is captured (`TypeSubstitution.InheritedOneLevel`).
- Normalizing twice gives what normalizing once gives exactly on steady values
  (`Normalization.ForTypeTwice`), and all values are steady where classes are classified alike
  under their source and their binary names and no value gives its own type arguments
  (`Normalization.AllSteady`). The store does not ensure the first for nested enums
  (`Normalization.EnumByOneNameOnly`), and a map that calls itself a parameterized map loses its
  type (`Normalization.MapTypeLost`). A loosely typed map that calls itself a `java.lang.Object`,
  or a `java.util.Map` without arguments, is handed to and fro for ever (`Normalization.EndlessExactly`).
- A class `A<T>` that extends `A<List<T>>` has no topmost ancestor, and collecting its fields does
  not end (`InheritedFields.WrappingNeverEnds`).
- The decoder's limits are made positive when the decoder is made; doing it again at each call,
  as the program does, changes nothing.

## Model

| member | source | states |
|---|---|---|
| `HessianReadBack.ValueReadsBack` | internal/sofarpcwire/decoder.go:69-415 | Codec round trip. A reader whose class definitions match the writer's table, placed at the bytes the writer made of any value, reads exactly those bytes, returns the value's image, adds exactly the references and type names the value needs, restores its depth, and leaves the two tables matching again; nested objects may define classes mid-stream. It needs room within the limits, and no definition used may share its key with another used or known: DefinitionCollisions.OtherDefinitionMisread shows that this is needed |
| `GenericRequest.WrittenIsRead` | internal/sofarpcwire/encoder.go:77-145 | The same for a value on its own: a new reader over what a new writer wrote returns the value's image, stops exactly at the end, and has depth 0 |
| `HessianReadBack.ItemsReadBack` | internal/sofarpcwire/decoder.go:215-278 | The items of a list read back one after the other, each handing the coupling of the two tables on to the next |
| `HessianReadBack.ListReadsBack` | internal/sofarpcwire/encoder.go:173-186 | A typed list reads back as its type and its items, for one reference and one type name beyond those of the items |
| `DecoderAnswers.ListNumberedLast` | internal/sofarpcwire/decoder.go:264-278 | A list, of announced length or not, takes its reference number after all that is in it: the last number given is its own |
| `HessianReadBack.EntriesReadBack` | internal/sofarpcwire/decoder.go:314-358 | All entries of a map are stored under their own keys, and the end mark stops the loop |
| `HessianReadBack.MapReadsBack` | internal/sofarpcwire/encoder.go:156-171 | A map, typed or not, reads back with the same keys and the images of its values |
| `HessianReadBack.KnownObjectReadsBack` | internal/sofarpcwire/encoder.go:47-75 | An object whose definition both sides know reads back through the definition's number |
| `HessianReadBack.NewObjectReadsBack` | internal/sofarpcwire/decoder.go:181-185 | An object that brings its definition reads back, at the cost of one more level of depth, and both tables gain that definition |
| `HessianReadBack.ScalarReadsBack` | internal/sofarpcwire/encoder.go:77-145 | Nil, booleans, strings, integers and doubles read back as their images |
| `HessianRoundTrip.IntegersKept` | internal/sofarpcwire/encoder.go:229-232 | A Go int survives exactly when it fits 32 bits, a long always, a uint when it is below 2^63 |
| `HessianRoundTrip.DefKeyCollisions` | internal/sofarpcwire/encoder.go:270-272 | Definition keys of NUL-free names are equal exactly for equal names, except that no field names and one empty field name share a key |
| `HessianRoundTrip.CleanToldApart` | internal/sofarpcwire/encoder.go:270-272 | Definitions whose names have no NUL bytes, and no one of which has a single empty field name, are all told apart by their keys |
| `HessianRoundTrip.CoupledLookup` | internal/sofarpcwire/encoder.go:47-75 | Under coupled tables, where keys are told apart, the number the writer looks up is, on the reader's side, the definition with exactly that type and those field names |
| `DefinitionCollisions.NamelessMisread` | internal/sofarpcwire/encoder.go:270-272 | One such case in full: an object with one nameless field is read back as the object without fields, one byte short |
| `DefinitionCollisions.OtherDefinitionMisread` | internal/sofarpcwire/encoder.go:47-75 | An object written under the number of a definition other than its own is never read as what it is, whatever else it holds: the round trip holds only where keys are told apart |
| `DefinitionCollisions.NulCollides` | internal/sofarpcwire/encoder.go:270-272 | NUL bytes in field or class names do make different definitions share a key |
| `GenericRequest.RequestReadsBack` | internal/sofarpcwire/wire.go:76-149 | Whole request: 1+n reads over the built content give the request object with its five fields, baggage included, then the image of each prepared argument, and stop exactly at the end with depth 0 |
| `GenericRequest.StreamReadsBack` | internal/sofarpcwire/wire.go:76-117 | Any values written one after the other by one writer are read one after the other by one reader |
| `RequestExchange.Exchange` | internal/sofarpcwire/wire.go:76-117 | The same on the two objects: a new writer builds any request, a new decoder of any limits reads 1+n values, and if the limits have room its fields show it at the end, at depth 0, with the request object and the arguments in its memory |
| `RequestExchange.ReadValues` | internal/sofarpcwire/decoder.go:69-72 | Values read one after the other leave the decoder object where the stream of them says |
| `GenericRequest.BuildGenericRequest` | internal/sofarpcwire/wire.go:76-125 | The content built field by field is the encoding of the request object followed by the prepared arguments, and nothing is built when a part is refused; the unique name returned with it is service, effective version and, where there is one, id, written out case by case, and the header agrees with it and with the fields of that object |
| `GenericRequest.HeaderFits` | internal/sofarpcwire/wire.go:507-520 | The header names the same service, method and properties as the request object, and the same target application up to the blanks around it, which only the header keeps |
| `GenericRequest.NamesApart` | internal/sofarpcwire/wire.go:164-174 | Requests whose parts have no colon share a unique name only if service, effective version and id agree |
| `GenericRequest.UniqueNameSays` | internal/sofarpcwire/wire.go:164-174 | The unique name is the trimmed service, a colon, the trimmed version or 1.0 where there is none, and then a colon and the trimmed id exactly where there is one |
| `GenericRequest.ClassSays` | internal/sofarpcwire/wire.go:12-15 | The request object is of the class SofaRequest in its package |
| `GenericRequest.FieldImagesSay` | internal/sofarpcwire/encoder.go:27-45 | The request object shows, under the five field names, the trimmed target application or nil, the method, the unique name, the properties and the parameter types |
| `GenericRequest.PropsSay` | internal/sofarpcwire/wire.go:119-151 | The properties are the three fixed ones and, exactly where there is baggage, the baggage with each value under its trimmed key |
| `GenericRequest.AddRequestBaggage` | internal/sofarpcwire/wire.go:127-151 | Baggage is added exactly when every trimmed key may be used and no two keys collide after trimming, and then each value stands under its trimmed key |
| `GenericRequest.PrepareYields` | internal/sofarpcwire/wire.go:381-438 | A prepared argument has nothing untyped left in it, and stands for the argument: lists item by item, maps key by key, an object exactly where a class is named and then with all other entries for its fields, numbers by what their text says |
| `SofaResponse.SuccessReadsBack` | internal/sofarpcwire/response.go:15-52 | A success built by the one end and decoded by the other is a success, with no message and no properties, and carries the image of the value that was answered |
| `SofaResponse.Exchange` | internal/sofarpcwire/response.go:10-25 | The same of the two methods, on their writer and decoder and with the program's limits |
| `SofaResponse.BuildSuccessResponse` | internal/sofarpcwire/response.go:15-25 | Builds the encoding of the response object, or nothing if the value cannot be encoded |
| `SofaResponse.DecodeResponse` | internal/sofarpcwire/response.go:27-52 | Over any bytes: an error unless the first value is an object; for the response class what its fields say, fields of other types ignored; for any other class an error that speaks of it |
| `SofaResponse.ExceptionKept` | internal/sofarpcwire/response.go:67-71 | Whatever class was thrown, the caller gets an error and, with it, an object of that class with those fields |
| `SofaResponse.ExceptionSays` | internal/sofarpcwire/response.go:72-84 | The message is the first of five fields that says something, else the class and its cause, else the class; it is empty only if the class has no name |
| `SofaResponse.UnwrappingEnds` | internal/sofarpcwire/response.go:172-201 | Response properties are taken from entries of entries, and that ends exactly when there is an innermost map; as many steps as there are objects decide it |
| `ResponseMeaning.AnswersSay` | internal/sofarpcwire/response.go:27-102 | The outcome for the value read, in terms of the object that was read: for the response class the error flag, the message and the answer under their names, and the properties; for any other class an error with the exception itself, its message and its properties; otherwise a refusal |
| `ResponseMeaning.TextsRead` | internal/sofarpcwire/response.go:172-201 | The properties are the entries of the innermost map, each rendered under its own key, or one property called value for what is no map; and exactly where unwrapping or rendering does not end there are none |
| `ResponseMeaning.MessageIs` | internal/sofarpcwire/response.go:72-84 | The message is what the first of message, errorMsg, msg, detailMessage and localizedMessage says that says anything, numbers in decimal; else the class with the class of its cause; else the class |
| `ResponseMeaning.SummaryIs` | internal/sofarpcwire/response.go:151-170 | A stack trace is shown as its text, or as what it is and how long |
| `ResponseMeaning.SuccessWritten` | internal/sofarpcwire/response.go:15-25 | The object a success is written as: the response class and its four fields, the answer under appResponse |
| `HessianDecoding.ReadValue` | internal/sofarpcwire/decoder.go:69-213 | Safety on every byte array and every valid state. The read stays in bounds, keeps every table, depth and collection limit, restores depth on success and on error, only extends the tables and the heap, and consumes input on success. Where it does not come back, it has come to an entry whose key is never rendered as text; DecoderEnds says when that is |
| `DecoderEnds.EndsUnlessKeyCyclic` | internal/sofarpcwire/decoder.go:340-352 | A read that does not come back has come, behind where it started and within the data, to a map entry whose key reaches a cycle |
| `DecoderEnds.ValueFresh` | internal/sofarpcwire/decoder.go:69-213 | Where no byte from the offset on is a reference tag, every read ends, and a value read is finite and made of new objects only |
| `DecoderEnds.SelfKeyedNeverEnds` | internal/sofarpcwire/decoder.go:340-352 | Eight bytes from which a new decoder does not come back: a map whose first value and second key are the map itself |
| `DecoderAnswers.Int32Exactly` | internal/sofarpcwire/decoder_primitive.go:223-233 | Four bytes are read as v exactly where v is what their writer would write, and the read fails exactly where fewer are left |
| `DecoderAnswers.Int64Exactly` | internal/sofarpcwire/decoder_primitive.go:235-249 | The same for eight bytes |
| `DecoderAnswers.Uint16Exactly` | internal/sofarpcwire/decoder_primitive.go:92-110 | The same for two bytes |
| `ScalarForms.LeafExactly` | internal/sofarpcwire/decoder.go:80-170 | A value that brings no class definition is nil, a truth value, an integer or a double exactly where one of that value's forms stands, byte by byte: one byte for -16 to 47 or -8 to 15, two for -2048 to 2047, three for -262144 to 262143, then four and eight bytes, and the five short and long forms of doubles |
| `ScalarForms.LeafRead` | internal/sofarpcwire/decoder.go:80-170 | Each of these forms is read as its value, from its first byte to its last and not beyond, and nothing else in the state changes |
| `ScalarForms.LeafCameFrom` | internal/sofarpcwire/decoder.go:80-170 | Where such a value was read, one of its forms stood at the offset |
| `ScalarForms.ReferenceRead` | internal/sofarpcwire/decoder.go:188-209 | A reference written in four bytes, one or two is read as the very value that has the number, and fails where none has it |
| `ScalarForms.UnknownRefused` | internal/sofarpcwire/decoder.go:210-212 | Tags that introduce nothing are refused |
| `ScalarForms.TextOfInteger` | internal/sofarpcwire/decoder_primitive.go:29-86 | Where a text is due, each form of an integer is read as its decimal text |
| `ScalarForms.TextOfOthers` | internal/sofarpcwire/decoder_primitive.go:29-90 | Where a text is due, nil is the empty text, truth values are their names, text is text and any other tag is refused |
| `ScalarForms.DigitsSay` | internal/sofarpcwire/decoder_primitive.go:37-86 | The text of a natural number is a row of digits that stands for it, without zeros in front |
| `ContainerAnswers.TypeAnswer` | internal/sofarpcwire/decoder.go:417-454 | A type is written out, and is then new in the table, or is the one in the table under the number read, or is left out |
| `ContainerAnswers.LengthAnswer` | internal/sofarpcwire/decoder.go:456-475 | A length is one byte, four bytes or left out |
| `ContainerAnswers.ListAnswer` | internal/sofarpcwire/decoder.go:215-278 | A list holds what reading one value after the other gives: as many as it announced, or all up to the end mark; a typed one is wrapped with its type |
| `ContainerAnswers.FixedListAnswer` | internal/sofarpcwire/decoder.go:280-312 | The same where the type is named by number and the length comes as a value |
| `ContainerAnswers.MapAnswer` | internal/sofarpcwire/decoder.go:314-358 | A map holds what reading a key and a value in turn gives up to the end mark, later entries in place of earlier ones of the same key; a typed one is wrapped with its type |
| `ContainerAnswers.EntriesAnswer` | internal/sofarpcwire/decoder.go:335-355 | The same from any entry on, whatever the map held before |
| `ContainerAnswers.KeyRendered` | internal/sofarpcwire/decoder.go:351-351 | A key is the text it is, or what its finite tree is rendered as; where there is no such tree it is not rendered |
| `Completeness.TextBehind` | internal/sofarpcwire/decoder.go:171-174 | The tags that bring texts and byte strings, and what is read behind them |
| `Completeness.ContainerBehind` | internal/sofarpcwire/decoder.go:175-187 | The tags that bring lists, maps, objects and definitions, and what is read behind them |
| `Completeness.ChunksRead` | internal/sofarpcwire/decoder_primitive.go:92-133 | Any number of text chunks that lie one behind the other, with no rest of a rune behind the last, are read as the text they hold |
| `Completeness.BytesRead` | internal/sofarpcwire/decoder_primitive.go:135-176 | The same for byte strings |
| `Completeness.TypeByNumber` | internal/sofarpcwire/decoder.go:417-454 | A type named by a number that is in the table is that type |
| `Completeness.ListRead` | internal/sofarpcwire/decoder.go:215-278 | As many values as were announced, with or without an end mark, or any number up to an end mark, are read as a list of them, where there is room for it |
| `Completeness.FixedListRead` | internal/sofarpcwire/decoder.go:280-312 | The same where type and length come as numbers |
| `Completeness.MapRead` | internal/sofarpcwire/decoder.go:314-358 | Keys that are rendered, each with a value, up to an end mark are read as a map of them, where there is room for it |
| `Utf8.RuneIsCharacter` | internal/sofarpcwire/decoder_primitive.go:199-221 | The first rune of any text is the character that is encoded there, in the sense of section 3 of RFC 3629; where none is, it is one byte |
| `Utf8.RunesCounted` | internal/sofarpcwire/encoder.go:188-218 | The length of a text of characters is their number |
| `DecoderAnswers.RunesAnswer` | internal/sofarpcwire/decoder_primitive.go:199-221 | A text of n runes is the next n runes of the data, counted as the writer counts them; it is refused exactly when n is negative, when fewer are left, or when they take more bytes than the limit |
| `DecoderAnswers.ChunksJoined` | internal/sofarpcwire/decoder_primitive.go:92-133 | A text that was read is the joined content of chunks that lie one behind the other from the offset on, all but the last marked as followed by more, each as long as it says |
| `DecoderAnswers.BlobJoined` | internal/sofarpcwire/decoder_primitive.go:135-176 | The same for byte strings |
| `DecoderAnswers.NumbersKept` | internal/sofarpcwire/decoder.go:477-570 | A number that a container, a definition or a type name was given stands for it in every later state, and a reference that resolves once resolves alike ever after |
| `DecoderAnswers.TypeKnown` | internal/sofarpcwire/decoder.go:417-454 | A type that was read, by name or by number, is in the table |
| `DecoderAnswers.MapNumberedFirst` | internal/sofarpcwire/decoder.go:314-338 | A map takes its number before anything in it, so that its entries can refer to it |
| `DecoderAnswers.ObjectNumberedFirst` | internal/sofarpcwire/decoder.go:387-415 | An object takes its number before its fields, and then has exactly the fields its definition names |
| `DecoderAnswers.DefinitionLast` | internal/sofarpcwire/decoder.go:360-385 | A definition that was read is the last in the table, under the name read and with as many fields as announced |
| `HessianDecoding.ReadIntValue` | internal/sofarpcwire/decoder_primitive.go:178-189 | Takes one level of depth for the time of the read and gives it back |
| `HessianDecoding.ReadRef` | internal/sofarpcwire/decoder.go:477-482 | Resolves only to an entry that has been registered, and fails on any other number |
| `GraphPaths.StoreEntryEnds` | internal/sofarpcwire/decoder.go:314-358 | Storing a decoded entry succeeds exactly when no cycle can be reached from its key: a key that contains itself is rendered as text for ever |
| `HessianReader.Decoder.ReadRunes` | internal/sofarpcwire/decoder_primitive.go:199-221 | The loop that counts runes takes as many bytes as counting recursively does, and fails where that fails |
| `HessianReader.Decoder.ReadChunks` | internal/sofarpcwire/decoder_primitive.go:92-133 | The loop over chunks returns the joined text of the chunk specification and stops behind its last chunk |
| `HessianReader.Decoder.ReadBlob` | internal/sofarpcwire/decoder_primitive.go:135-176 | The loop over byte chunks returns the joined bytes of its specification and stops behind the last chunk |
| `HessianReader.Decoder.ReadStringWithTag` | internal/sofarpcwire/decoder_primitive.go:29-90 | Each tag leads to the text, truth value or number that stands for a string under it, or to an error; ScalarForms says which bytes give which text |
| `HessianReader.Decoder.ReadIntValue` | internal/sofarpcwire/decoder_primitive.go:178-189 | One value is read and has to be an integer; what was read before it stays read |
| `HessianReader.Decoder.ReadType` | internal/sofarpcwire/decoder.go:417-454 | A name is read and registered, or a number resolved, or nothing is there; the offset shows which |
| `HessianReader.Decoder.ReadLength` | internal/sofarpcwire/decoder.go:456-475 | Both forms of a length are read, and -1 stands for none |
| `HessianReader.Decoder.ReadValue` | internal/sofarpcwire/decoder.go:69-213 | Exactly the outcome and state of the specification; and, of the fields themselves, whenever it comes back, success or error: depth is what it was, the offset is no further back and in bounds, and heap and tables have what they had before as a prefix and keep to their limits |
| `HessianReader.Decoder.ReadTagged` | internal/sofarpcwire/decoder.go:69-213 | Every tag is dispatched to the reader the specification names for it |
| `HessianReader.Decoder.ReadList` | internal/sofarpcwire/decoder.go:215-278 | Type, length, items, wrapper and number come about in this order, and an error in between leaves what was done so far |
| `HessianReader.Decoder.ReadItems` | internal/sofarpcwire/decoder.go:225-240 | The counted loop collects the values that reading them recursively gives |
| `HessianReader.Decoder.ReadItemsToEnd` | internal/sofarpcwire/decoder.go:241-263 | The open loop collects values up to the closing mark, which it takes, or fails at the end of the data or beyond the limit |
| `HessianReader.Decoder.ReadFixedTypedList` | internal/sofarpcwire/decoder.go:280-312 | The type is resolved by number, the length is read as a value, then items and number follow |
| `HessianReader.Decoder.ReadMap` | internal/sofarpcwire/decoder.go:314-358 | The map is allocated, numbered and then filled in place, while entries may already refer to it |
| `HessianReader.Decoder.ReadEntries` | internal/sofarpcwire/decoder.go:314-358 | The loop fills the map in place up to the closing mark; it has the entries that reading them recursively gives |
| `HessianReader.Decoder.ReadObjectDefinition` | internal/sofarpcwire/decoder.go:360-385 | Name, count and field names are read and become one definition at the end of the table |
| `HessianReader.Decoder.ReadObjectInstance` | internal/sofarpcwire/decoder.go:387-415 | The object and its field map are allocated and numbered, then the fields are filled in place |
| `HessianReader.Decoder.ReadFields` | internal/sofarpcwire/decoder.go:387-415 | The loop over the names of a definition fills the field map as reading them recursively does |
| `HessianWriter.Writer.WriteInt` | internal/sofarpcwire/encoder.go:229-232 | Appends to the buffer the tag and the four bytes of the integer cut to 32 bits; definitions and what was written before stay |
| `HessianWriter.Writer.WriteLong` | internal/sofarpcwire/encoder.go:234-237 | Appends to the buffer the tag and the eight bytes of the integer; definitions and what was written before stay |
| `HessianWriter.Writer.WriteDouble` | internal/sofarpcwire/encoder.go:239-242 | Appends to the buffer the tag and the eight bytes of the double; definitions and what was written before stay |
| `HessianWriter.Writer.WriteLength` | internal/sofarpcwire/encoder.go:220-227 | Appends to the buffer the short or the long form of the length; definitions and what was written before stay |
| `HessianWriter.Writer.WriteType` | internal/sofarpcwire/encoder.go:188-192 | Appends to the buffer the tag, the number of runes and the name; definitions and what was written before stay |
| `HessianWriter.Writer.WriteLenString` | internal/sofarpcwire/encoder.go:194-197 | Appends to the buffer the number of runes as an integer value, then the text; definitions and what was written before stay |
| `HessianWriter.Writer.WriteString` | internal/sofarpcwire/encoder.go:199-218 | Appends the short or the long form of the text; a text too long for both is refused and the buffer keeps what it had |
| `HessianWriter.Writer.WriteUint16` | internal/sofarpcwire/encoder.go:244-246 | Appends to the buffer two bytes, the high one first; definitions and what was written before stay |
| `HessianWriter.Writer.WriteUint32` | internal/sofarpcwire/encoder.go:248-255 | Appends to the buffer four bytes, the high one first; definitions and what was written before stay |
| `HessianWriter.Writer.WriteUint64` | internal/sofarpcwire/encoder.go:257-268 | Appends to the buffer eight bytes, the high one first; definitions and what was written before stay |
| `HessianWriter.Writer.WriteValue` | internal/sofarpcwire/encoder.go:77-145 | Appends exactly the encoding of any value, at any depth, and adds exactly its definitions to the table, or refuses it; nothing written before changes |
| `HessianWriter.Writer.WriteTypedObject` | internal/sofarpcwire/encoder.go:147-154 | An object is written with its field names in ascending order, whatever order its map has them in |
| `HessianWriter.Writer.WriteObject` | internal/sofarpcwire/encoder.go:47-75 | The definition is written the first time its key comes up and its number after that, then the values in order |
| `HessianWriter.Writer.WriteTypedList` | internal/sofarpcwire/encoder.go:173-186 | Type, length, items in order, closing mark; refused when an item is |
| `HessianWriter.Writer.WriteMap` | internal/sofarpcwire/encoder.go:156-171 | Type, entries in the order of their keys, closing mark; refused when a key or a value is |
| `HessianWriter.Writer.WriteEntries` | internal/sofarpcwire/encoder.go:156-171 | The loop appends the pairs as encoding them recursively does |
| `HessianWriter.Writer.SortKeys` | internal/sofarpcwire/encoder.go:294-304 | Returns the keys of the set in ascending order, each once |
| `HessianWriter.Writer.OrderKeys` | internal/sofarpcwire/encoder.go:274-292 | Returns the type key first and the others in ascending order |
| `HessianEncoding.AscendingUnique` | internal/sofarpcwire/encoder.go:294-304 | There is one ascending order of a set of keys, so it does not matter in which order a map gives them |
| `HessianEncoding.SortedKeysSorts` | internal/sofarpcwire/encoder.go:294-304 | The sorted keys are ascending and are exactly the keys of the set, each once |
| `HessianEncoding.LessMeans` | internal/sofarpcwire/encoder.go:294-304 | Keys are ordered by the first byte in which they differ, and a key comes before its continuations |
| `GraphFormat.FormatState.FormatValue` | internal/sofarpcwire/wire.go:244-346 | On any graph, cyclic or not, formatting ends and leaves the stack as it found it; it gives the formatted tree of the value if the value has a finite tree that is not too deep, and otherwise an error |
| `GraphFormat.FormatState.FormatSlice` | internal/sofarpcwire/wire.go:244-346 | The same for lists: formatted item by item |
| `GraphFormat.FormatState.FormatMap` | internal/sofarpcwire/wire.go:450-494 | The same for maps, with the class name and the sorted field names where a map says its class |
| `GraphFormat.FormatAnswers` | internal/sofarpcwire/wire.go:244-379 | The answer is determined; it is an error on every value from which a cycle can be reached, and on other values exactly when they are too deep |
| `GraphFormat.FormattedSays` | internal/sofarpcwire/wire.go:244-346 | What comes back shows a finite tree of the value that lies within 128 steps, and an error comes back exactly where it has no such tree |
| `GraphFormat.FormatShows` | internal/sofarpcwire/wire.go:450-494 | Lists are shown item by item, byte strings byte by byte, maps key by key; a map with a class name as type, its other entries as fields, and their names in ascending order as fieldNames |
| `GraphFormat.ShallowIs` | internal/sofarpcwire/wire.go:244-346 | The depth limit counts 128 steps from the outside, a byte of a byte string being one |
| `GraphFormat.OnTrail` | internal/sofarpcwire/wire.go:352-364 | Meeting on the stack what one is inside of means that the value has no finite form |
| `GraphPaths.FiniteUnlessCyclic` | internal/sofarpcwire/wire.go:366-379 | The values without a finite tree are exactly those from which a cycle can be reached |
| `GraphPaths.CycleHasNoTree` | internal/sofarpcwire/wire.go:352-364 | A path that comes back to where it was excludes a finite tree |
| `GoValues.UnfoldFindsTree` | internal/sofarpcwire/wire.go:244-379 | Unfolding as many levels as there are objects finds the finite tree whenever there is one |
| `GoValues.RepUnique` | internal/sofarpcwire/wire.go:244-379 | A value has at most one finite tree |
| `InvokeLimiter.ReachableInv` | internal/mcp/invoke_limiter.go:84-125 | Every interleaving of calls, turns, wake-ups, timeouts and releases keeps the whole invariant |
| `InvokeLimiter.StepKeeps` | internal/mcp/invoke_limiter.go:84-201 | Each single step keeps it |
| `InvokeLimiter.OutstandingWithinLimits` | internal/mcp/invoke_limiter.go:154-162 | The counters equal the outstanding unreleased admissions, in all and per target, and no positive limit is exceeded |
| `InvokeLimiter.AdmittedExactly` | internal/mcp/invoke_limiter.go:154-162 | A caller is admitted exactly when the admissions still outstanding leave room |
| `InvokeLimiter.ReleaseIsExact` | internal/mcp/invoke_limiter.go:180-201 | A release never finds a counter at zero, never closes a closed channel, and lets every waiter wake |
| `InvokeLimiter.ReleaseOnce` | internal/mcp/invoke_limiter.go:180-201 | After a release, whatever happens since, releasing again changes nothing |
| `InvokeLimiter.ExpiredHoldsNothing` | internal/mcp/invoke_limiter.go:119-123 | A caller that timed out holds nothing, then and ever after |
| `InvokeLimiter.WakeupsKept` | internal/mcp/invoke_limiter.go:84-125 | No wake-up is lost: a caller waiting on the current channel would still find no room, and all other waiters can wake |
| `InvokeLimiter.WaiterHasHolder` | internal/mcp/invoke_limiter.go:84-125 | A waiter can wake, or somebody holds an admission whose release would wake it |
| `InvokeLimiter.AdmissionReachable` | internal/mcp/invoke_limiter.go:84-125 | From every reachable state every waiting or trying caller can still come to be admitted |
| `InvokeLimiter.Limiter.constructor` | internal/mcp/invoke_limiter.go:67-82 | Negative limits are taken as none; nothing is in use |
| `InvokeLimiter.Limiter.TryAcquire` | internal/mcp/invoke_limiter.go:103-117 | One turn under the lock: counts the admission, or hands out the current channel and changes nothing |
| `InvokeLimiter.Limiter.Release` | internal/mcp/invoke_limiter.go:180-201 | The first release gives back, closes the old channel and puts a new open one in its place; others do nothing |
| `SourceStore.AnswersRightExactly` | internal/sourcecontract/store.go:105-178 | Over all interleavings, every answer is the class in the parse of the file behind the name's longest indexed prefix, exactly when every class an indexed file declares is the class that its name leads to |
| `SourceStore.LaidOutIsConsistent` | internal/sourcecontract/store.go:244-262 | That condition holds when no name is declared in two files, files declare what they are indexed for, and other classes are nested in declared ones |
| `SourceStore.StrayClassAnswered` | internal/sourcecontract/store.go:109-113 | Where it fails, two callers suffice for a wrong answer |
| `SourceStore.ConsistentIsEnough` | internal/sourcecontract/store.go:105-178 | Under it no name with a class is ever recorded as a failure either |
| `SourceStore.ReachableInv` | internal/sourcecontract/store.go:105-187 | The protocol's invariant holds in every reachable state |
| `SourceStore.OneParsePerFile` | internal/sourcecontract/store.go:128-145 | No two callers parse the same file at the same time |
| `SourceStore.ClosedOnce` | internal/sourcecontract/store.go:180-187 | The owner of a parse finds its channel open, so that each channel is closed once |
| `SourceStore.NobodyStuck` | internal/sourcecontract/store.go:128-143 | A caller without an answer can move, or waits for an owner that can |
| `SourceStore.TurnsRunOut` | internal/sourcecontract/store.go:105-178 | Each turn of a caller brings it nearer to its answer, of which it needs at most four, and other callers' turns do not set it back |
| `SourceStore.FailuresCounted` | internal/sourcecontract/store.go:279-288 | The failure count is the number of names with a recorded failure |
| `SourceStore.StoredLookup` | internal/sourcecontract/store.go:162-164 | After caching a file's classes a name leads to the last class the file declares under it, or to what was cached before |
| `SourceStore.PathForLongest` | internal/sourcecontract/store.go:244-262 | The file found is that of the longest indexed prefix |
| `SourceStore.Store.FindIndexedPathFor` | internal/sourcecontract/store.go:244-262 | The loop over the dots finds that file |
| `SourceStore.Store.LookUp` | internal/sourcecontract/store.go:109-118 | Region under the read lock: the cached class, the file to parse, or nothing |
| `SourceStore.Store.EnterParse` | internal/sourcecontract/store.go:120-146 | Region under the lock: joins the parse in flight or becomes the owner of a new one |
| `SourceStore.Store.FinishParse` | internal/sourcecontract/store.go:150-187 | Region under the lock: caches the classes, records a failure, ends the parse and closes its channel; resolution issues are left out |
| `SourceStore.Store.NoteFailure` | internal/sourcecontract/store.go:264-288 | A name's first failure is recorded and counted, later ones change nothing |
| `TypeLanguage.ParseFormat` | internal/core/contract/typespec.go:23-64 | The parser undoes the printer on every well-formed type: nested arguments, arrays and wildcards |
| `TypeLanguage.FormatNeutral` | internal/core/contract/typeparams.go:96-119 | Printed types are trimmed and balanced and show no comma outside brackets, so that they can stand as arguments |
| `TypeLanguage.PiecesJoin` | internal/core/contract/typespec.go:119-146 | Splitting takes a joined list of printed types apart again |
| `TypeLanguage.GenericParts` | internal/core/contract/typespec.go:89-117 | A printed generic type falls apart into its name and its arguments |
| `TypeLanguage.StripBrackets` | internal/core/contract/typespec.go:48-52 | Exactly the printed array brackets are taken off |
| `TypeLanguage.ParseTypeSpec` | internal/core/contract/typespec.go:23-64 | The loops compute the recursive parser |
| `TypeLanguage.SplitGenericArgs` | internal/core/contract/typespec.go:89-117 | The loop finds the matching bracket, and the base and arguments around it |
| `TypeLanguage.SplitTopLevelCommas` | internal/core/contract/typespec.go:119-146 | The loop cuts at the commas outside brackets, trims, and drops an empty last piece |
| `TypeSubstitution.SubstituteTwice` | internal/core/contract/typeparams.go:79-94 | Two substitutions are one by the composed bindings, exactly when no name that the first leaves alone is replaced by the second |
| `TypeSubstitution.SubstituteTextParses` | internal/core/contract/typeparams.go:72-77 | Substituting in a type's text is substituting in the type it spells |
| `TypeSubstitution.SubstituteWellFormed` | internal/core/contract/typeparams.go:79-94 | Substitution keeps types well formed |
| `TypeSubstitution.SubstituteWrites` | internal/core/contract/typeparams.go:72-119 | In the text of a type substitution puts the bound text in the place of each parameter, brackets and wildcards of the parameter around it, and changes nothing else |
| `TypeSubstitution.RefBinds` | internal/core/contract/typeparams.go:10-33 | A reference binds each parameter it has an argument for to that argument's type |
| `TypeSubstitution.RefBindsSubstituted` | internal/core/contract/typeparams.go:10-33 | Binding by a substituted reference is substituting in what the reference binds |
| `TypeSubstitution.SubstitutedName` | internal/core/contract/typeparams.go:72-94 | The name a reference is looked up by stays what it is under substitution, unless it is a parameter |
| `TypeSubstitution.InheritedOneLevel` | internal/core/contract/fields.go:19-24 | A type written in a superclass, seen through the composed bindings, is that type taken down one level, exactly when nothing is captured |
| `TypeSubstitution.InheritedThrough` | internal/core/contract/fields.go:12-34 | The same over any number of levels of a well-formed hierarchy, where nothing can be captured |
| `TypeSubstitution.BindTypeArgs` | internal/core/contract/typeparams.go:10-33 | The loop binds the parameters that have a non-blank argument |
| `InheritedFields.ResolvedFields` | internal/core/contract/fields.go:5-42 | Where no class comes up again above itself: along the chain of superclasses as they are written, one entry for each name declared, in the order of first declarations from the top, each as its most derived declaration types it |
| `InheritedFields.DeclarationsChain` | internal/core/contract/fields.go:12-34 | The declarations are those of the classes in the chain that follows the written superclass texts as long as the store has the class, topmost first, with type parameters replaced |
| `InheritedFields.FieldWalk.Walk` | internal/core/contract/fields.go:12-34 | The recursive walk adds exactly a class's own and inherited declarations to what was there |
| `InheritedFields.PutResolves` | internal/core/contract/fields.go:26-32 | One more declaration replaces the entry of that name in its place or comes last |
| `InheritedFields.InheritedFieldType` | internal/core/contract/fields.go:26-27 | A field inherited from any number of levels up has the type written there, substituted level by level |
| `InheritedFields.AcyclicByNames` | internal/core/contract/fields.go:12-24 | It is enough that the names written in extends clauses, none of them a type parameter, lead to no cycle: type arguments cannot make one |
| `InheritedFields.PlainChainAcyclic` | internal/core/contract/fields.go:12-24 | So an ordinary class that extends an ordinary class is covered |
| `InheritedFields.WrappingNeverEnds` | internal/core/contract/fields.go:12-24 | It is needed: a class A of T that extends A of L of T has an ancestor at every distance |
| `InheritedFields.WrappingsDiffer` | internal/core/contract/fields.go:12-24 | and no two of them are the same, so that remembering them would not end the walk |
| `InheritedMethods.CollectMethods` | internal/core/contract/resolve.go:100-139 | Where no class comes up again above itself, diamonds included: every wanted method written in any type that steps over written interfaces and superclasses lead to has its signature in the result, once, from the first place that offers it in the order of the walk, and nothing else is in it |
| `InheritedMethods.AddNewCollects` | internal/core/contract/resolve.go:105-135 | The same as a statement on what the walk adds, for any type as root |
| `InheritedMethods.CollectedHas` | internal/core/contract/resolve.go:100-139 | Whatever any place above offers has its signature in the result |
| `InheritedMethods.InheritedMethodTypes` | internal/core/contract/typeparams.go:35-57 | An inherited method has the parameter and return types written where it is declared, substituted level by level on the way down |
| `InheritedMethods.SignatureTells` | internal/core/contract/resolve.go:141-143 | Signatures of printed types agree only if name and parameter types do |
| `InheritedMethods.DiamondTopCollected` | internal/core/contract/resolve.go:105-135 | On the diamond the wanted methods of the topmost type are in the result |
| `InheritedMethods.MethodWalk.Walk` | internal/core/contract/resolve.go:105-135 | The walk with its visited set adds what the walk without one would add |
| `InheritedMethods.AddNewMeans` | internal/core/contract/resolve.go:112-122 | Adding by signature keeps what was there, covers all that is added and repeats nothing |
| `InheritedMethods.AcyclicByNames` | internal/core/contract/resolve.go:105-135 | It is enough that the written names of superclasses and interfaces, none of them a type parameter, lead to no cycle |
| `InheritedMethods.DiamondAcyclic` | internal/core/contract/resolve.go:105-135 | An ordinary diamond of interfaces meets it |
| `Assignability.TypeAssignable` | internal/core/contract/normalize.go:287-317 | With one shared visited set, true exactly when the declared type can be reached over superclass and interface edges, cyclic hierarchies included |
| `Assignability.AssignableWalk.Walk` | internal/core/contract/normalize.go:292-316 | A search that fails has seen everything below the name, and the seen names lead nowhere else |
| `Assignability.NoWayOut` | internal/core/contract/normalize.go:287-317 | No path leaves a closed set of names |
| `Assignability.ParamTypeAssignable` | internal/core/contract/resolve.go:207-223 | Accepts exactly when both types say something, array depths agree, and the bases agree, are Object, or are assignable |
| `Assignability.ParamTypesAssignable` | internal/core/contract/resolve.go:195-205 | As many types, each accepted |
| `Assignability.PickOverload` | internal/core/contract/resolve.go:145-175 | Among several overloads an index is returned only for the sole exact match, or, when there is none, the sole assignable one; otherwise it says whether none or several fit |
| `BinaryNames.ResolveMeans` | internal/core/contract/binaryname.go:106-138 | A name that changes becomes one the store knows, with as few dollars read as separators as possible; a name that stays is known, out of bounds, or known under no reading. ResolveReads says what a reading is |
| `BinaryNames.ResolveReads` | internal/core/contract/binaryname.go:106-138 | The same on the characters: a name that changes agrees with the result but for dollars made dots, which are all those from some place on, and no reading with fewer is known; names over 4096 characters or with more than 64 dollars stay |
| `BinaryNames.BudgetHarmless` | internal/core/contract/binaryname.go:106-138 | While budget is left the answer is that of an unlimited search; a spent budget can only leave the name as it was |
| `BinaryNames.Resolver.TrySeparators` | internal/core/contract/binaryname.go:123-137 | The loop tries one candidate after the other and pays for each |
| `BinaryNames.Resolver.ResolveName` | internal/core/contract/binaryname.go:40-56 | With the memo: the unlimited answer, or the name itself and the budget is spent; no more candidates than the budget |
| `BinaryNames.Resolver.Wire` | internal/core/contract/binaryname.go:58-63 | The binary name of the class, or the name as it was |
| `BinaryNames.Resolver.WireTypeExpr` | internal/core/contract/binaryname.go:198-223 | While budget is left every maximal name in the expression is rewritten on its own and all other text stays |
| `BinaryNames.Resolver.RewriteValue` | internal/core/contract/binaryname.go:230-252 | Nothing but type names is touched, and while budget is left each of them is rewritten |
| `BinaryNames.WireParamTypes` | internal/core/contract/binaryname.go:180-190 | One request builds at most 256 candidates; if fewer, every expression is fully rewritten |
| `BinaryNames.RewriteWireTypeNames` | internal/core/contract/binaryname.go:161-171 | The same for argument trees |
| `BinaryNames.WireExprName` | internal/core/contract/binaryname.go:198-223 | A name in an expression is rewritten as a whole, up to the first character that no name has |
| `BinaryNames.WireExprOther` | internal/core/contract/binaryname.go:198-223 | All other characters stay |
| `BinaryNames.ValueWired` | internal/core/contract/binaryname.go:230-252 | In an argument tree the text under @type becomes its wire name, and all else is gone through entry by entry and item by item |
| `BinaryNames.SpellingsAgree` | internal/core/contract/binaryname.go:144-153 | However many separators of a known binary name are written as dots, the class has that one name on the wire |
| `BinaryNames.WireExprStays` | internal/core/contract/binaryname.go:198-223 | Rewriting a rewritten expression changes nothing, when binary names lead back to their classes |
| `BinaryNames.WireValueStays` | internal/core/contract/binaryname.go:230-252 | The same for argument trees |
| `NormalForms.ArgsBecome` | internal/core/contract/normalize.go:18-36 | The arguments of a call are accepted exactly when there is one for each declared type and each becomes something under its type, and then the result is just that |
| `NormalForms.BecomesIs` | internal/core/contract/normalize.go:38-91 | What a type makes of a value, both ways: nil stays; arrays and collections item by item under the element type, maps key by key under the value type; an enum text as its constant's name beside the wire name of the class, other entries of an enum map as they are; decimals by their text, other scalars as they are read; text for a class that is not known as its constant |
| `NormalForms.ObjectIs` | internal/core/contract/normalize.go:166-203 | An object of an admissible class keeps its keys, gets the wire name of its class, and has each field made what the declared field type makes of it, or loosely where none is declared |
| `NormalForms.LooselyIs` | internal/core/contract/normalize.go:346-376 | Without a declared type a map that tells its class becomes what that class makes of it; all else is gone through entry by entry and item by item |
| `NormalForms.EnumIs` | internal/core/contract/normalize.go:205-230 | An enum constant is an object with exactly its wire class name and its name |
| `NormalForms.ScalarIs` | internal/core/contract/normalize.go:232-271 | Decimals by the text they have, in a map under value, and refused if the map says another class; other scalars as they are read |
| `Normalization.NormalizeArgsTwice` | internal/core/contract/normalize.go:18-36 | Accepted arguments, which NormalForms.ArgsBecome describes, are accepted again and come out unchanged exactly when every argument is steady under its declared type: a condition on the value that is first given, stated by what it says of itself, field by field |
| `Normalization.ForTypeTwice` | internal/core/contract/normalize.go:38-91 | The same for one value of any type, parameterized ones included |
| `Normalization.LooseTwice` | internal/core/contract/normalize.go:346-376 | The same for a value without a declared type |
| `Normalization.ObjectTwice` | internal/core/contract/normalize.go:166-203 | An object gets the wire name of its class, and comes out unchanged under its class, and under that name, exactly when its entries are steady |
| `Normalization.EnumTwice` | internal/core/contract/normalize.go:205-226 | What was normalized as a value of an enum, which NormalForms.EnumIs describes, is left alone as a value of that enum |
| `Normalization.ScalarTwice` | internal/core/contract/normalize.go:232-271 | A scalar or decimal that has been read is read as itself |
| `Normalization.NameSettles` | internal/core/contract/binaryname.go:144-153 | A trimmed name leads to the same class as its wire name, which is its own; unless it is its own wire name itself, both are plain class names |
| `Normalization.EnumByOneNameOnly` | internal/core/contract/normalize.go:68-70 | One unsteady kind of value: an enum that is one under its source name only is normalized differently the second time |
| `Normalization.EnumConstantSteady` | internal/core/contract/normalize.go:205-226 | An enum constant as one writes it is steady all the same, on any store, unless its class has a field called name or the wire name is a container |
| `Normalization.MapTypeLost` | internal/core/contract/normalize.go:145-163 | The other: a map that calls itself a parameterized map has its type made one of its values, and says nothing of its type afterwards |
| `Normalization.AllSteady` | internal/core/contract/normalize.go:38-91 | On stores that classify their classes alike under both names, every value whose own types have no arguments is steady, so that normalizing twice is normalizing once |
| `Normalization.Ends` | internal/core/contract/normalize.go:346-376 | Normalization ends, unless inside the value a map gives itself a type that leaves it to the map to say its type |
| `Normalization.EndlessExactly` | internal/core/contract/normalize.go:346-376 | Exactly such a map is handed from one function to the other and back with the same arguments |
| `Skeletons.BuildExpands` | internal/core/contract/skeleton.go:30-116 | Expansion ends on every store; no class is written out inside itself, and every class of the store is written out where it is not inside itself |
| `Skeletons.BuildSkeleton` | internal/core/contract/skeleton.go:21-28 | One skeleton for each parameter type, each showing its type from outside all classes |
| `Skeletons.BuildShows` | internal/core/contract/skeleton.go:30-116 | A skeleton shows its type: containers by a sample, a class by its name and then one entry for each field name in the order of first declarations, each showing the last declaration's type; a class inside itself or unknown only by name |
| `Skeletons.PutShows` | internal/core/contract/skeleton.go:150-155 | One more field takes the place of the entry of its name or comes last, and all other entries stay |
| `Skeletons.Builder.BuildValue` | internal/core/contract/skeleton.go:30-70 | Builds the skeleton that shows the type, and leaves the classes seen as they were |
| `Skeletons.Builder.BuildUserType` | internal/core/contract/skeleton.go:101-116 | A class's fields in order, a repeated name replacing the earlier entry |
| `Skeletons.Builder.BuildContainer` | internal/core/contract/skeleton.go:78-91 | One sample element or value, or the empty container |
| `SessionStore.LiveSession` | internal/mcp/session.go:172-263 | In any run, a live session's history is its last ten captured plans, newest first; the k-th newest is found by its id while k is below ten; its latest plan is the newest or none; its last use is not in the future; there are never more sessions than the capacity |
| `SessionStore.RunFaithful` | internal/mcp/session.go:172-245 | At every point of a run every live session is what its own events alone made of it |
| `SessionStore.DiscardsLeastUsed` | internal/mcp/session.go:302-335 | Whatever a creation discards, by age or for room, was used no later than anything it leaves |
| `SessionStore.RecentSurvives` | internal/mcp/session.go:302-335 | A session in time that is among the cap - 1 last used ones survives |
| `SessionStore.ReplayHistory` | internal/mcp/session.go:204-245 | A session's history and latest plan in terms of all captures since its creation |
| `SessionStore.SessionRegistry.Create` | internal/mcp/session.go:172-183 | Drops expired sessions, makes room, and adds the new session |
| `SessionStore.SessionRegistry.SweepExpired` | internal/mcp/session.go:302-312 | Exactly the expired sessions are gone |
| `SessionStore.SessionRegistry.EnforceCap` | internal/mcp/session.go:317-335 | Least recently used sessions go until there is room for one, and not more |
| `SessionStore.SessionRegistry.LeastUsed` | internal/mcp/session.go:322-332 | The loop finds a session used no later than any other |
| `SessionStore.SessionRegistry.Get` | internal/mcp/session.go:188-198 | Returns a copy of the session, marked used, whose plans share their array with the one kept; an unknown id changes nothing |
| `SessionStore.SessionRegistry.CapturePlan` | internal/mcp/session.go:204-245 | All five outcomes, with what each does to the session; other sessions stay, and no array of plans that copies of a session share is written to |
| `SessionStore.Prepended` | internal/mcp/session.go:238-239 | A captured plan and those before it go into an array of their own; the array they come from, which copies handed out may share, is not written to |
| `SessionStore.SessionRegistry.PlanById` | internal/mcp/session.go:250-263 | The first entry of the session's history with that id |
| `ProjectCache.KeepsMostRecent` | internal/mcp/contract_holder.go:75-96 | Through any run of requests the cache holds exactly the most recently requested projects, in that order |
| `ProjectCache.RecencyMeans` | internal/mcp/contract_holder.go:171-181 | That order lists what was requested by the time of the last request |
| `ProjectCache.DroppedIsOldest` | internal/mcp/contract_holder.go:155-169 | A dropped project was last requested before every project that is kept |
| `ProjectCache.ContractHolder.ForProject` | internal/mcp/contract_holder.go:75-96 | The order stays a permutation of the keys within the maximum, the requested project is kept and last |
| `ProjectCache.ContractHolder.Touch` | internal/mcp/contract_holder.go:171-181 | Moves the project to the end, keeping the order of the others |
| `ProjectCache.ContractHolder.Evict` | internal/mcp/contract_holder.go:155-169 | The loop ends despite the rotation; the kept project survives, and what goes are the oldest of the others |
| `JavaSanitizer.SanitizeJava` | internal/sourcecontract/parse.go:400-482 | The loop that overwrites the buffer gives the text with every comment and literal blanked, in its length |
| `JavaSanitizer.ScanIsSanitized` | internal/sourcecontract/parse.go:411-480 | The state machine agrees with a lexer that takes whole comments and literals at once |
| `JavaSanitizer.SanitizedByTokens` | internal/sourcecontract/parse.go:400-482 | Token by token: plain characters stay, everything else is blanked |
| `JavaSanitizer.TokensJoin` | internal/sourcecontract/parse.go:400-482 | The lexer's tokens are the text, nothing left out |
| `JavaSanitizer.LinesKept` | internal/sourcecontract/parse.go:398-482 | A line feed stays exactly where it was one that no backslash escapes in a literal; no other character becomes one |
| `JavaSanitizer.SanitizedStays` | internal/sourcecontract/parse.go:400-482 | A sanitized text is left as it is |
| `TypeParameters.NoParameterLeft` | internal/sourcecontract/resolver.go:58-125 | Resolution ends for all bounds, cyclic and F-bounded ones too, and no type parameter is left as a name when what names resolve to is none |
| `TypeParameters.ParameterIsBound` | internal/sourcecontract/resolver.go:93-113 | Where bounds have no cycle, a parameter is exactly its bound, resolved |
| `TypeParameters.SeenIrrelevant` | internal/sourcecontract/resolver.go:100-113 | Where bounds have no cycle, the parameters seen further out make no difference |
| `TypeParameters.OnDemand` | internal/sourcecontract/resolver.go:162-184 | A class is found by on-demand imports exactly when they offer one and only one; several are ambiguous |
| `TypeParameters.PrintedResolves` | internal/sourcecontract/resolver.go:58-91 | A type written without braces in its names is resolved to one of the same shape, wildcards, arguments and array brackets included, with each name replaced by what it stands for |
| `TypeParameters.BaseBecomes` | internal/sourcecontract/resolver.go:93-125 | A name stands for itself if it is primitive, for its resolved bound if it is a parameter, for Object where there is no bound or it is inside its own, and otherwise for what is known of it |
| `TypeParameters.KnownBaseIs` | internal/sourcecontract/resolver.go:127-141 | A name is known itself or, failing that, through what stands before its first dot |
| `TypeParameters.KnownSimpleIs` | internal/sourcecontract/resolver.go:143-160 | A simple name is what the first of local classes, imports, the own package and java.lang says that has it; if none has, what the on-demand imports offer |

## Left out

- Text the program gets from Go's library is a parameter: `fmt.Sprint` on finite values, `strings.TrimSpace` in the request builder, number parsing. Error texts, hints and codes are left out; success and failure are not.
- Floating point values are carried as bit patterns or as the compact form they were read from.
- Signed and unsigned Go integers are 64 bits wide in values; offsets, lengths and counters in the model are unbounded, where the program's are bounded by memory.
- Strings in the type language are sequences of characters, where the program looks at bytes; all characters that matter there are ASCII. The length limit on class names counts characters.
- SofaResponse.DecodeResponse: no properties and empty ones are alike, where the program has a nil map and never an empty one. Whether fmt.Sprint ends on a property is decided by its having a finite tree.
- Conformance with Java peers: the numbers of list references are the program's own, taken after the elements.
- TypeLanguage.WellFormed: names may not contain brackets, commas, question marks or white space; a bare question mark has no array brackets. Other trees have no text of their own.
- InheritedMethods.MethodWalk.Walk: a visited class is remembered with its bindings, where the program joins both in one string.
- InheritedFields.ResolvedFields and Skeletons.Builder.BuildValue: the store is a finite map from names to classes, already read; the class hierarchy behind the roles and enums in skeletons and normalization is a parameter.
- Normalization.NormalizeArgs: names are resolved with budget to spare, scalars are read by an arbitrary idempotent function, and whether one class accepts another is a parameter, computed by Assignability.TypeAssignable. When several elements are refused, which one is reported is open.
- Assignability.TypeAssignable: each name has its own budget, as outside a request.
- BinaryNames.WireExprStays and BinaryNames.WireValueStays: for stores whose binary names consist of name characters and lead back to their classes.
- InvokeLimiter: the derivation of a target's key from its configuration, diagnostics, and the clock; a timeout may come at any time.
- SourceStore.Store.FinishParse: does not record the resolution issues that parsing notes beside its classes; nothing in the protocol looks at them.
- SourceStore: the scan that makes the index, and parsing itself, which is an arbitrary function from files to results.
- SessionStore: ids of new sessions are not empty, and new sessions come without plans. The copy of the latest plan behind its pointer is a value.
- ProjectCache: loading a project's contracts once, behind each entry, and making roots canonical. The order is a sequence, where the program shifts within a slice.
- JavaSanitizer: characters stand for bytes.
- Skeletons: the JSON text of a skeleton, and the placeholders of scalars.
- TypeParameters.PrintedResolves: names with braces or parentheses are not covered, where a comma inside would not separate arguments; Java has no such names.
- TypeParameters: the issues that are noted on the way, and the text of the resolved type; the model keeps its structure.
- GraphFormat: the kinds of Go values the decoder never makes, such as maps with other keys, and the sharing of the backing memory of empty slices. Elements are visited in sorted order, which the result does not show.
- HessianWriter.Writer.WriteValue: values the codec refuses are one case.
- BOLT framing, the simple map of headers, TCP, the MCP tools, setup, policy and doctor checks: plumbing or easy beside the rest.
