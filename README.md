# wizmsg in Dafny

A model of the binary codec core of wizmsg. wizmsg is a Python library for
the KingsIsle (Wizard101) client/server wire protocol. The model covers these
parts:

- **Bytes** (`byte_interface.dfy`, `wizmsg/byte_interface.py`). The cursor
  over a byte buffer is the class `Bytes.ByteInterface`, with fields `buffer`
  and `pos`. It has the `struct`-format readers, fixed little-endian, for
  bool, float, double and the eight integer widths. `Bytes.Pack`/`Bytes.Unpack` say
  what the `struct` formats mean on bytes. The writer is commented out in the
  source; the model's writers follow the test file's write, seek and read
  pattern.
- **Constants** (`constants.dfy`, `wizmsg/constants.py`): the two magic
  numbers and the type-tag table. The table maps each tag to the name of its
  cursor accessor.
- **Schema** (`protocol_definition.dfy`, `protocol_definition_properties.dfy`,
  `wizmsg/protocol_definition.py`). This is the schema loader. It reads
  messages and their parameters from the parsed XML tree, drops duplicate
  messages, and then resolves message orders. Resolution sorts by declared
  order, or by name when no message declares one, and renumbers 1..N. The
  result is the dict keyed by both order and name.
- **LegacySchema** (`legacy_protocol.dfy`, `wizmsg/protocol.py`): the older
  loader, where a later message with the same name replaces an earlier one.
- **Network** (`network_protocol.dfy`, `network_properties.dfy`,
  `wizmsg/network/protocol.py`). This decodes a data message. The parameters
  are read in definition order through the type table. The protocol reads the
  order byte and the length, then looks the message up.
- **Processing** (`processor.dfy`, `wizmsg/network/processor.py`). This is
  the registry of protocols by service id. It reads the header of a
  message (control flag, opcode, reserved) and dispatches on the service
  id.
- **Controls**, **ControlsProperties** (`controls.dfy`,
  `controls_properties.dfy`, `wizmsg/network/controls.py`): the control
  decoders for SessionOffer, KeepAlive, KeepAliveResponse and SessionAccept.
- **ControlMessages** (`control_message.dfy`,
  `wizmsg/network/control_message.py`): the newer control classes.
- **Sessions** (`session.dfy`, `wizmsg/session.py`). This is the frame rule
  of `process_loop`: magic, size, an optional large size, then a body of
  size + 1 bytes.
- **Wrappers**, **Xml**, **Dicts**, **Sorting**: the exceptions as `Error`
  values, the parsed XML element, `dict` as an insertion-ordered sequence of
  pairs, and `sorted` with its key functions.

Conventions:

- A raised exception is an `Err` of a `Result`. Each error constructor names
  the Python exception it models, for example `ShortRead` for `struct.error`
  on a short buffer.
- A decoder returns its result and the new cursor position as one
  `Decoded(result, pos)`. After a short read the position is the end of the
  buffer, because `BytesIO.read` consumed what was left.
- The XML document is the parsed `Xml.Element` tree, not text.
- The `string` and `wide_string` accessors the type table names are not
  defined in the source. They are a `TextReaders` parameter, and the model
  assumes only that each reads forward.
- Each stateful operation is a method on a class or on the cursor. Its
  contract ties the result and the new state to a specification function.
  The lemmas about that function carry the properties.
- The encoders in `ControlsProperties` and `Sessions` are not in the source.
  Its `to_data` methods raise or are stubs. The encoders exist so that the
  decoders can be stated against an inverse.

Four behaviours of the code that the model keeps as they are:

- A frame switches to the 4-byte large size for any small size of `0x8000`
  or more (wizmsg/session.py:56-59).
- A frame body is `size + 1` bytes long (wizmsg/session.py:61).
- The control decoders read the field layouts of wizmsg/network/controls.py
  and check no length field against the bytes that follow.
- The data decoder reads the u16 message length and does not use it
  (wizmsg/network/protocol.py:64-80).

## Model

| member | source | states |
|---|---|---|
| Bytes.LittleEndianOfBytes | wizmsg/byte_interface.py:33-52 | decoding the N-byte little-endian encoding of any v < 256^N gives v back |
| Bytes.BytesOfLittleEndian | wizmsg/byte_interface.py:33-52 | every N-byte string is the little-endian encoding of its value, so the unsigned readers are injective |
| Bytes.UnpackPack | wizmsg/byte_interface.py:10-18 | for every format, unpacking the packed bytes of a representable value gives it back |
| Bytes.PackUnpack | wizmsg/byte_interface.py:10-18 | for the integer formats, every byte string of the format's size is the packing of its unpacked value |
| Bytes.UnpackRepresentable | wizmsg/byte_interface.py:33-55 | an unpacked integer lies in its format's range: [0, 256^N) unsigned, [-256^N/2, 256^N/2) signed |
| Bytes.ReadAt | wizmsg/byte_interface.py:12 | `read(n)` returns the next min(n, remaining) bytes, and the cursor moves exactly past them |
| Bytes.UnpackAt | wizmsg/byte_interface.py:10-18 | succeeds iff the format's size in bytes remain; it then unpacks exactly those and advances by the size; otherwise ShortRead with the cursor at the end |
| Bytes.UnsignedAt | wizmsg/byte_interface.py:33-52 | an unsigned N-byte read gives the little-endian value of the next N bytes, in [0, 256^N), consuming N; it fails iff fewer remain |
| Bytes.SignedAt | wizmsg/byte_interface.py:36-55 | a signed N-byte read gives the two's-complement value of the next N bytes, in the signed range, consuming N; it fails iff fewer remain |
| Bytes.ByteInterface.constructor | wizmsg/byte_interface.py:9 | a new cursor holds the given bytes at position 0 |
| Bytes.ByteInterface.Read | wizmsg/byte_interface.py:12 | `read(n)` on the cursor: result and new position are those of ReadAt; the buffer is unchanged |
| Bytes.ByteInterface.ReadFormatString | wizmsg/byte_interface.py:10-18 | result and new position are UnpackAt of the old state; the buffer is unchanged |
| Bytes.ByteInterface.Bool | wizmsg/byte_interface.py:24-25 | one byte, true iff it is nonzero; ShortRead at the end of the buffer |
| Bytes.ByteInterface.Float | wizmsg/byte_interface.py:27-28 | four bytes, kept as their little-endian bit pattern |
| Bytes.ByteInterface.Double | wizmsg/byte_interface.py:30-31 | eight bytes, kept as their little-endian bit pattern; ShortRead at the end of the buffer when fewer remain |
| Bytes.ByteInterface.Unsigned1 | wizmsg/byte_interface.py:33-34 | the `<B` read |
| Bytes.ByteInterface.Signed1 | wizmsg/byte_interface.py:36-37 | the `<b` read |
| Bytes.ByteInterface.Unsigned2 | wizmsg/byte_interface.py:39-40 | the `<H` read |
| Bytes.ByteInterface.Signed2 | wizmsg/byte_interface.py:42-43 | the `<h` read |
| Bytes.ByteInterface.Unsigned4 | wizmsg/byte_interface.py:45-46 | the `<I` read |
| Bytes.ByteInterface.Signed4 | wizmsg/byte_interface.py:48-49 | the `<i` read |
| Bytes.ByteInterface.Unsigned8 | wizmsg/byte_interface.py:51-52 | the `<Q` read |
| Bytes.ByteInterface.Signed8 | wizmsg/byte_interface.py:54-55 | the `<q` read |
| Bytes.ByteInterface.Write | wizmsg/byte_interface.py:20-22 | `BytesIO.write` at the cursor overwrites, or extends past the end, and moves the cursor past the written bytes |
| Bytes.ByteInterface.WriteFormatString | wizmsg/byte_interface.py:20-22 | succeeds iff the value is representable in the format, and then writes exactly its packed bytes at the cursor |
| Bytes.ByteInterface.Seek | tests/test_byte_interface.py:12 | moves the cursor without changing the buffer |
| Bytes.WriteSeekRead | tests/test_byte_interface.py:7-115 | for every format, writing a representable value, seeking to 0 and reading it back returns the value |
| Constants.TableKeys | wizmsg/constants.py:4-16 | the conversion table holds exactly the ten type tags |
| Constants.SignedTags | wizmsg/constants.py:5-11 | BYT, SHRT and INT name signed reads of 1, 2 and 4 bytes |
| Constants.UnsignedTags | wizmsg/constants.py:6-12 | UBYT, USHRT and UINT name unsigned reads of 1, 2 and 4 bytes, and GID an unsigned 8-byte read |
| Constants.ReaderTags | wizmsg/constants.py:13-15 | STR, WSTR and FLT name the string, wide-string and 4-byte float readers |
| Constants.LookupDefined | wizmsg/constants.py:4-16 | a tag has an accessor iff it is one of the ten table keys |
| Constants.FormatOf | wizmsg/constants.py:5-15 | every accessor but the string and wide-string readers reads a struct format |
| Xml.Find | wizmsg/protocol_definition.py:37 | `find` gives the first child with the tag, or None iff there is none |
| Xml.IntOf | wizmsg/protocol_definition.py:47 | a failing `int(text)` (missing or malformed text) is NotAnInteger naming that text |
| Xml.IntOfDecimalString | wizmsg/protocol_definition.py:167 | `int()` inverts the decimal rendering of any integer |
| Dicts.GetPut | wizmsg/protocol.py:49 | after `d[k] = v`, looking up k gives v and every other key's value is unchanged |
| Dicts.PutNew | wizmsg/protocol_definition.py:122 | assigning a new key appends it at the end of the insertion order |
| Sorting.SortSorted | wizmsg/protocol_definition.py:104-109 | `sorted` under a total key order gives an ordered result |
| Sorting.SortPermutes | wizmsg/protocol_definition.py:104-109 | `sorted` permutes its input, and so does any projection of it |
| Schema.ParametersFromRecord | wizmsg/protocol_definition.py:63-86 | the parameter loop computes ParametersOf of the record |
| Schema.ReadMessages | wizmsg/protocol_definition.py:28-90 | the message loop computes CollectMessages of the root's children |
| Schema.InMessageOrder | wizmsg/protocol_definition.py:97-102 | the any-order loop is true iff some message declares an order |
| Schema.IndexMessages | wizmsg/protocol_definition.py:111-122 | the renumbering loop computes Resolve of the sorted definitions |
| Schema.GetMessagesFromXml | wizmsg/protocol_definition.py:24-125 | `_get_messages_from_xml` computes MessagesFromXml |
| Schema.FromXmlFile | wizmsg/protocol_definition.py:144-176 | `from_xml_file` computes ProtocolFromXml |
| SchemaProperties.ParametersFailure | wizmsg/protocol_definition.py:69-82 | reading the parameters fails iff some parameter has no TYPE and is not GlobalID, and the error names the first of them |
| SchemaProperties.ParametersShape | wizmsg/protocol_definition.py:63-86 | the parameter dict holds the distinct non-meta tags in order of first appearance, each named by its key, with the TYPE of its last appearance |
| SchemaProperties.CollectKeys | wizmsg/protocol_definition.py:28-90 | the message dict holds one entry per distinct non-info tag, in order of first appearance, each named by its key |
| SchemaProperties.CollectRecords | wizmsg/protocol_definition.py:32 | a successful load implies that every message element has a record |
| SchemaProperties.CollectFirst | wizmsg/protocol_definition.py:55-58 | in a successful load, the first element with a tag is the one kept under that tag; later duplicates are dropped (DuplicateSkipped covers loads in which a duplicate is malformed) |
| SchemaProperties.MissingRecordFails | wizmsg/protocol_definition.py:32-53 | a message element without a record fails the load |
| SchemaProperties.DuplicateSkipped | wizmsg/protocol_definition.py:32-58 | a message element whose tag was already collected leaves the load unchanged, whatever its `_MsgDescription`, `_MsgOrder` or parameters; only its record is needed |
| SchemaProperties.MessageOfRequired | wizmsg/protocol_definition.py:60-90 | a message is read iff its `_MsgDescription`, its `_MsgOrder` and its parameters are; without `_MsgDescription` the read fails with that field named |
| SchemaProperties.CollectSucceeds | wizmsg/protocol_definition.py:28-90 | the message loop succeeds iff every message element has a record and the first element of each tag reads as a message |
| SchemaProperties.RenumberShape | wizmsg/protocol_definition.py:111-120 | renumbering succeeds iff every declared order equals its 1-based sorted position, and then sets each order to that position |
| SchemaProperties.OrderIndexShape | wizmsg/protocol_definition.py:120 | the order keys are exactly 1..N, and key k maps to the k-th resolved message |
| SchemaProperties.NameIndexShape | wizmsg/protocol_definition.py:122 | the name keys are exactly the resolved names, each mapping to its message |
| SchemaProperties.SortDefinitionsPermutes | wizmsg/protocol_definition.py:104-109 | both sorts permute the definitions and their names |
| SchemaProperties.ResolvedOrderKeys | wizmsg/protocol_definition.py:111-122 | the resolved dict has order keys exactly 1..N; entry k has order k and is also filed under its name |
| SchemaProperties.ResolvedNameKeys | wizmsg/protocol_definition.py:111-122 | the resolved dict has a name key exactly for each loaded message; the entry is that message with its resolved order, a declared order is kept, and the order key leads back to it |
| SchemaProperties.OrderResolution | wizmsg/protocol_definition.py:97-120 | mixed declared and missing orders fail as unorderable; all declared: success iff the orders are a permutation of 1..N; none declared: success, numbered by name |
| SchemaProperties.DeclaredOrders | wizmsg/protocol_definition.py:104-120 | with every order declared, renumbering the sorted list succeeds iff the orders are a permutation of 1..N |
| SchemaProperties.NamedOrders | wizmsg/protocol_definition.py:107-120 | with no order declared, order k + 1 names a message that sorts after order k's |
| SchemaProperties.ProtocolInfoRequired | wizmsg/protocol_definition.py:152-170 | a document without `_ProtocolInfo` fails; a loaded protocol's service id, type, version and description are the info record's fields, and its messages are MessagesFromXml |
| SchemaProperties.SampleInfo | tests/test_protocol.py:4-12 | the test schema's info record gives service 20, type FAKE, version 1, "Fake Messages" |
| SchemaProperties.SampleLoads | tests/test_protocol.py:4-24 | the test schema loads as one message MSG_TEST at order 1, whose only parameter is Number of type INT |
| LegacySchema.ParametersFromRecord | wizmsg/protocol.py:39-47 | the parameter loop computes ParametersOf of the record |
| LegacySchema.GetMessagesFromXml | wizmsg/protocol.py:20-51 | `_get_messages` computes CollectMessages |
| LegacySchema.FromXmlFile | wizmsg/protocol.py:63-93 | `from_xml_file` computes ProtocolFromXml, whose promises ProtocolInfoRequired and InfoFieldRequired state |
| LegacySchema.ProtocolInfoRequired | wizmsg/protocol.py:71-93 | a document without `_ProtocolInfo` or without its record fails; a loaded protocol's service id, type, version and description are the info record's fields, and its messages are CollectMessages of the root's children |
| LegacySchema.InfoFieldRequired | wizmsg/protocol.py:78-89 | a missing ServiceID, ProtocolType, ProtocolVersion or ProtocolDescription fails the load |
| LegacySchema.ParametersFailure | wizmsg/protocol.py:45 | reading the parameters fails iff some parameter has no TYPE (no GlobalID exception), and the error names the first one |
| LegacySchema.ParametersKeys | wizmsg/protocol.py:39-47 | the parameters are the distinct non-meta tags in order of first appearance, each named by its key |
| LegacySchema.ParametersShape | wizmsg/protocol.py:39-47 | every non-meta tag maps to a parameter carrying the TYPE of its last appearance |
| LegacySchema.CollectKeys | wizmsg/protocol.py:22-49 | one entry per distinct `_MsgName`, in order of first appearance |
| LegacySchema.CollectNamed | wizmsg/protocol.py:49 | each message is filed under its own name |
| LegacySchema.LastMessageWins | wizmsg/protocol.py:49 | the message under a name is the one read from the last element carrying it |
| LegacySchema.MessageFieldsRequired | wizmsg/protocol.py:26-37 | an element without a record, `_MsgName` or `_MsgDescription` fails the load |
| LegacySchema.SampleLoads | tests/test_protocol.py:27-46 | the test schema loads as service 20, type FAKE, version 1, with MSG_TEST holding Number of type INT |
| Network.MessageDataAsWritten | wizmsg/network/protocol.py:27-29 | the loop over the dict's keys reads nothing; it succeeds iff the message has no parameters |
| Network.ReadValue | wizmsg/network/protocol.py:31-44 | one accessor call through the table gives ValueAt's result and position |
| Network.Message.ProcessMessageData | wizmsg/network/protocol.py:24-50 | decoding a message gives MessageDataAt of the old cursor, with the cursor left after the last field |
| Network.Protocol.ProcessProtocolData | wizmsg/network/protocol.py:64-80 | decoding a protocol message gives ProtocolDataAt of the old cursor |
| Network.NewProtocol | wizmsg/network/protocol.py:54-62 | the protocol keeps the definition, and one Message per entry of its message dict |
| NetworkProperties.ValueAtFixed | wizmsg/network/protocol.py:31-44 | a fixed-width field uses exactly its width when that many bytes remain, and otherwise fails short at the end |
| NetworkProperties.ValueAtLocal | wizmsg/network/protocol.py:31-44 | a field's value depends only on the bytes from the cursor on |
| NetworkProperties.DecodeKeys | wizmsg/network/protocol.py:27-50 | with distinct parameter names, a decoded message has one entry per parameter, in definition order |
| NetworkProperties.FixedFieldsAt | wizmsg/network/protocol.py:27-48 | field i is named by parameter i and decoded from the bytes at the sum of the earlier widths |
| NetworkProperties.DecodeFixed | wizmsg/network/protocol.py:27-50 | a fixed-width message decodes iff its total width remains, consumes exactly that, and gives the fields at their offsets; otherwise ShortRead at the end |
| NetworkProperties.UnknownTypeFails | wizmsg/network/protocol.py:31-34 | a parameter whose tag is not in the table fails the decode |
| NetworkProperties.UndecodableNarrow | wizmsg/network/protocol.py:36-44 | when the narrow reader cannot decode a STR field, the field becomes None and decoding continues after the bytes it used, whatever the wide reader would do |
| NetworkProperties.UndecodableWide | wizmsg/network/protocol.py:36-44 | when the wide reader cannot decode a WSTR field, the decode fails with the decode error, whatever the narrow reader would do |
| NetworkProperties.DecodeLocal | wizmsg/network/protocol.py:27-48 | a message decode depends only on the bytes from the cursor on |
| NetworkProperties.ProtocolDataLayout | wizmsg/network/protocol.py:64-80 | the order id is the byte at the cursor, two length bytes follow, the message decodes after them, and an unknown order fails naming it |
| NetworkProperties.LengthIgnored | wizmsg/network/protocol.py:68-77 | any two length bytes give the same outcome |
| NetworkProperties.IterationFinding | wizmsg/network/protocol.py:27-29 | on the test schema's MSG_TEST, the decoder as written fails while the corrected one reads Number as a signed 32-bit value |
| Processing.Processor.constructor | wizmsg/network/processor.py:16-18 | a new processor has no protocols |
| Processing.Processor.LoadProtocol | wizmsg/network/processor.py:20-29 | a schema that loads is registered under its service id, replacing any earlier one; a failed load leaves the registry unchanged |
| Processing.Processor.ProcessMessageData | wizmsg/network/processor.py:56-80 | the result and new cursor are MessageAt of the registry and the old cursor |
| Processing.Processor.ProcessMessageBytes | wizmsg/network/processor.py:60-61 | raw bytes are decoded as a cursor at position 0 |
| Processing.HeaderLayout | wizmsg/network/processor.py:63-80 | a 4-byte header (flag, opcode, reserved u16) precedes the service byte; a control flag fails, an unregistered service fails naming it, otherwise its protocol decodes the rest |
| Processing.HeaderFieldsIgnored | wizmsg/network/processor.py:63-66 | the opcode and reserved bytes of a data message do not change the outcome |
| Processing.LoadedOrders | wizmsg/network/processor.py:20-29 | a loaded protocol dispatches exactly the order ids 1..N, N the number of distinct messages |
| Processing.SampleDispatch | wizmsg/network/processor.py:56-80 | a service-20, order-1 message against the test schema gives MSG_TEST with Number read from four bytes |
| Controls.ReadOfferHeader | wizmsg/network/controls.py:39-53 | reads session id, skips the high timestamp, reads timestamp, milliseconds, skips the length, reads flags, slot, mask and challenge length (22 bytes), or fails short at the end |
| Controls.SessionOfferFromData | wizmsg/network/controls.py:38-74 | the decode on the cursor is SessionOfferLayout of the old buffer and position |
| Controls.KeepAliveFromData | wizmsg/network/controls.py:89-110 | the KeepAlive and KeepAliveResponse decodes are KeepAliveLayout, with opcode 3 and 4 respectively |
| Controls.ReadAcceptHeader | wizmsg/network/controls.py:127-131 | reads the u8, the three u32 and the i32 (17 bytes) as their little-endian values, or fails short at the end |
| Controls.SessionAcceptFromData | wizmsg/network/controls.py:126-143 | the decode on the cursor is SessionAcceptLayout, with opcode 5 |
| ControlsProperties.SessionOfferConsumption | wizmsg/network/controls.py:38-74 | succeeds iff the 22-byte header and 261 + challenge-length further bytes remain; consumes exactly 283 + challenge length; the challenge is those bytes and the signature is 256 bytes; otherwise ShortRead at the end |
| ControlsProperties.SessionOfferRoundTrip | wizmsg/network/controls.py:38-74 | an encoded offer decodes back wherever it sits, for any skipped high timestamp, length and trailing byte |
| ControlsProperties.KeepAliveConsumption | wizmsg/network/controls.py:89-99 | succeeds iff 6 bytes remain, consumes exactly 6, carries the class opcode and three u16 fields; otherwise ShortRead at the end |
| ControlsProperties.KeepAliveRoundTrip | wizmsg/network/controls.py:89-110 | an encoded KeepAlive or KeepAliveResponse decodes back to itself wherever it sits |
| ControlsProperties.KeepAliveResponseOpcodeFinding | wizmsg/network/controls.py:98-107 | as written, a KeepAliveResponse decodes with opcode 3; corrected, with 4 and the same fields |
| ControlsProperties.SessionAcceptConsumption | wizmsg/network/controls.py:127-133 | succeeds iff 17 bytes remain; consumes 17 to 49; all 49 iff they remain; key and nonce are the bytes read after the 17 |
| ControlsProperties.SessionAcceptRoundTrip | wizmsg/network/controls.py:127-143 | an encoded accept decodes back wherever it sits, consuming 49 bytes |
| ControlsProperties.SessionAcceptOpcodeFinding | wizmsg/network/controls.py:135-143 | as written the decode always fails, with the missing-argument error iff the fields were read; corrected it succeeds with opcode 5 |
| ControlMessages.ToData | wizmsg/network/control_message.py:17-36 | `to_data` returns None for SessionOffer and raises NotImplementedError for the others |
| ControlMessages.FromData | wizmsg/network/control_message.py:13-33 | `from_data` on the cursor is FromDataAt of the class, the old buffer and the position |
| ControlMessages.BaseFails | wizmsg/network/control_message.py:13-15 | the base decoder and the inherited ServerKeepAlive one fail without reading |
| ControlMessages.SessionOfferConsumption | wizmsg/network/control_message.py:27-33 | consumes exactly 2 bytes, the little-endian session id, with opcode 0; fails short at the end iff fewer remain |
| ControlMessages.SessionOfferRoundTrip | wizmsg/network/control_message.py:27-33 | a u16 session id reads back wherever it sits |
| ControlMessages.SessionIdAgrees | wizmsg/network/control_message.py:29 | where the full SessionOffer decoder succeeds, the newer one succeeds with the same session id |
| Sessions.SizeAt | wizmsg/session.py:56-59 | a small size is used as it is; from 0x8000 the next four bytes give the size |
| Sessions.FrameAdvances | wizmsg/session.py:50-61 | a frame that reads moves past at least its 4-byte header |
| Sessions.ReadFrame | wizmsg/session.py:50-61 | one turn of the loop on the stream computes FrameAt of the old position |
| Sessions.ProcessLoop | wizmsg/session.py:48-61 | the loop reads Frames of the stream: the bodies in order, then the error that ends it |
| Sessions.FrameLayout | wizmsg/session.py:50-61 | the header is 4 bytes, or 8 with the large-size escape, and the body is the next size + 1 bytes, or what is left of them |
| Sessions.FrameRoundTrip | wizmsg/session.py:50-61 | an encoded frame reads back as its body wherever it sits, and the reader stops right after it |
| Sessions.FramesRoundTrip | wizmsg/session.py:48-61 | a stream of encoded frames reads back as its bodies in order, ending on the short header read |
| Sessions.MagicChecked | wizmsg/session.py:54 | a magic other than 0xF00D ends the loop with the header consumed |
| Sessions.LargeSizeFinding | wizmsg/session.py:56-61 | below 0x8000 the rule as written and the corrected one agree; from 0x8000 the written one fails on the tuple, the corrected one reads the u32 size |
| Sessions.LargeSizeCounterexample | wizmsg/session.py:59-61 | on a concrete large-size frame with a one-byte body, the rule as written fails where the corrected one returns the byte |

## Left out

- Floating point: `float` and `double` are kept as their raw little-endian
  bits. No IEEE 754 value or arithmetic is modelled.
- XML parsing (`ElementTree.parse`, `Path`, `StringIO`): the loaders take
  the parsed tree.
- `load_protocol_from_string` and `load_protocols_from_directory`
  (wizmsg/network/processor.py:32-54): these parse text or walk a directory,
  which is I/O over the parsing above.
- Xml.IntOf: does not model the surrounding whitespace, underscores and
  non-ASCII digits that Python's `int()` also accepts.
- The `string` and `wide_string` accessors are named by the type table but
  defined nowhere in the source. They are the `TextReaders` parameter, so
  text encodings are not modelled.
- The `to_data` methods of wizmsg/network/controls.py only raise
  `NotImplementedError`, and the writer of wizmsg/byte_interface.py is
  commented out. The encoders in the model exist only to state the decoders'
  inverses.
- The asynchronous parts of wizmsg/session.py (lines 22-46 and 63-67):
  tasks, accepting the session, heartbeat, cancellation and the `alive` flag
  another task clears. `Sessions.ProcessLoop` ends only by an exception, so
  it returns the bodies and that exception. The source discards the bodies.
- Sessions.ProcessLoop: the stream is a fully received sequence. An
  `asyncio` read that returns fewer bytes before the end of the stream is
  not modelled.
- Bytes.ByteInterface.Seek: requires a position inside the buffer. `BytesIO`
  also allows seeking past the end, which the cursor invariant rules out.
- wizmsg/session.py:54: the `assert` is modelled as always active. Under
  `python -O` it would disappear.
- wizmsg/server.py calls a `process_frame` that no class defines.
  wizmsg/network/data_message.py holds only stubs. Neither is part of this
  model.
- wizmsg/__init__.py exports only the magic constants, `ByteInterface`,
  the legacy `Protocol`, `Message`, `MessageParameter` and `Server`. The
  network modules import `WIZ_TYPE_CONVERSION_TABLE` and
  `ProtocolDefinition` from the package root, which does not export them, so
  those imports fail as shipped. Module loading is not modelled; the model
  links the modules directly.
- ControlMessages.SessionOffer: the dataclass in
  wizmsg/network/control_message.py redeclares `opcode: int = 0` after a
  field without a default. `dataclass` raises `TypeError` for that when the
  class is created. The model follows the evident intent: opcode 0 and a
  session id.
- Logging calls and the unused `session` keyword of `process_message_data`.
- Python's `sorted` (Timsort) is modelled by a stable insertion sort. Both
  are stable, so they give the same list.
- A mix of integer and missing orders, which makes `sorted` raise
  `TypeError`, is the `UnorderableOrders` error.

## Findings

| source | as written | input that shows it | evidently intended | confidence | as-written member | corrected member |
|---|---|---|---|---|---|---|
| wizmsg/session.py:59 | `struct.unpack("<I", ...)` returns a 1-tuple, so `size + 1` on line 61 raises `TypeError` for every large frame | the stream `0D F0 00 80 00 00 00 00 42` (magic, size 0x8000, u32 size 0, one body byte) | the size is the unpacked u32, and the body is the next size + 1 bytes | not executed | Sessions.LargeSizeCounterexample | Sessions.FrameRoundTrip |
| wizmsg/network/protocol.py:27 | the loop iterates the parameter dict's keys, which are strings, so `parameter.name` raises `AttributeError` for any message with a parameter | MSG_TEST of tests/test_protocol.py, one INT parameter, with any four bytes | iterate the parameter definitions in insertion order | not executed | NetworkProperties.IterationFinding | NetworkProperties.DecodeFixed |
| wizmsg/network/controls.py:135-143 | `SessionAccept(...)` is called without `opcode`, which has no default, so every decode that reads all fields raises `TypeError` | any 17 or more bytes | a SessionAccept with opcode 5 | not executed | ControlsProperties.SessionAcceptOpcodeFinding | ControlsProperties.SessionAcceptRoundTrip |
| wizmsg/network/controls.py:98 | `from_data` passes `opcode=3`, and `KeepAliveResponse` inherits it, so a decoded response carries opcode 3 | the bytes `01 00 02 00 03 00` decoded as a KeepAliveResponse | a KeepAliveResponse carries opcode 4 | not executed | ControlsProperties.KeepAliveResponseOpcodeFinding | ControlsProperties.KeepAliveRoundTrip |
