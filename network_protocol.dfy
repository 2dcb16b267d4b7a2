/** wizmsg/network/protocol.py: decoding the body of a data message against a
    loaded schema. A protocol wraps every definition of its schema, reads the
    order id and declared length, finds the message and decodes its parameters
    one accessor per declared type. */
module Network {
  import opened Wrappers
  import opened Dicts
  import opened Bytes
  import opened Constants
  import opened Schema

  /** A decoded parameter value. `Absent` is the `None` a failed narrow-string
      decode leaves behind. */
  datatype Value = IntField(i: int) | FloatField(bits: nat) | TextField(text: string) | Absent

  /** `MessageData`: the message's name and its parameter values by name. */
  datatype MessageData = MessageData(name: string, parameters: Dict<string, Value>)

  /** What a string accessor makes of the bytes after the cursor: a text and
      the number of bytes it used, a decoding failure after using some bytes,
      or too few bytes for the length it expects. */
  datatype TextRead = Read(text: string, width: nat) | Undecodable(width: nat) | Truncated

  /** The `string` and `wide_string` accessors the table names. */
  datatype TextReaders = TextReaders(narrow: seq<byte> -> TextRead, wide: seq<byte> -> TextRead)

  /** A string accessor's outcome at `pos`; a decoding failure is absorbed into
      `Absent` only when `absorb` holds (the narrow `string` reader). */
  function TextAt(outcome: TextRead, absorb: bool, buffer: seq<byte>, pos: nat): (d: Decoded<Value>)
    requires pos <= |buffer|
    ensures pos <= d.pos <= |buffer|
  {
    match outcome
    case Read(text, width) => Decoded(Ok(TextField(text)), ReadEnd(buffer, pos, width))
    case Undecodable(width) =>
      Decoded(if absorb then Ok(Absent) else Err(UnicodeDecode), ReadEnd(buffer, pos, width))
    case Truncated => Decoded(Err(ShortRead), |buffer|)
  }

  /** A fixed-width accessor: `read_format_string` with the accessor's format,
      the float kept as its bits. */
  function FixedAt(f: Format, buffer: seq<byte>, pos: nat): (d: Decoded<Value>)
    requires (f.IsInteger() || f.Float32?) && pos <= |buffer|
    ensures pos <= d.pos <= |buffer|
  {
    var u := UnpackAt(f, buffer, pos);
    if u.result.Err? then Decoded(Err(u.result.error), u.pos)
    else Decoded(Ok(if f.Float32? then FloatField(u.result.value.bits) else IntField(u.result.value.i)), u.pos)
  }

  /** One parameter: look the type tag up in the conversion table and call the
      accessor it names. */
  function ValueAt(typeTag: string, readers: TextReaders, buffer: seq<byte>, pos: nat): (d: Decoded<Value>)
    requires pos <= |buffer|
    ensures pos <= d.pos <= |buffer|
  {
    var accessor := Lookup(typeTag);
    if accessor.None? then Decoded(Err(MissingReadMethod(typeTag)), pos)
    else
      match accessor.value
      case ReadString => TextAt(readers.narrow(buffer[pos..]), true, buffer, pos)
      case ReadWideString => TextAt(readers.wide(buffer[pos..]), false, buffer, pos)
      case _ => FixedAt(FormatOf(accessor.value).value, buffer, pos)
  }

  /** The loop of `process_message_data`, over the parameter definitions in
      insertion order, each value stored under the parameter's name. */
  function DecodeParameters(ps: seq<MessageDefinitionParameter>, readers: TextReaders, buffer: seq<byte>, pos: nat)
    : (d: Decoded<Dict<string, Value>>)
    requires pos <= |buffer|
    ensures pos <= d.pos <= |buffer|
    decreases |ps|
  {
    if ps == [] then Decoded(Ok([]), pos)
    else
      var before := DecodeParameters(ps[..|ps| - 1], readers, buffer, pos);
      if before.result.Err? then before
      else
        var p := ps[|ps| - 1];
        var v := ValueAt(p.paramType, readers, buffer, before.pos);
        if v.result.Err? then Decoded(Err(v.result.error), v.pos)
        else Decoded(Ok(Put(before.result.value, p.name, v.result.value)), v.pos)
  }

  /** `Message.process_message_data`, iterating the parameter entries. */
  function MessageDataAt(definition: MessageDefinition, readers: TextReaders, buffer: seq<byte>, pos: nat)
    : (d: Decoded<MessageData>)
    requires pos <= |buffer|
    ensures pos <= d.pos <= |buffer|
  {
    var ps := DecodeParameters(Values(definition.parameters), readers, buffer, pos);
    Decoded(if ps.result.Ok? then Ok(MessageData(definition.name, ps.result.value)) else Err(ps.result.error), ps.pos)
  }

  /** `process_message_data` as written: iterating the dict yields its keys,
      which are strings, and `.name` on the first of them raises before any
      byte is read. */
  function MessageDataAsWritten(definition: MessageDefinition, buffer: seq<byte>, pos: nat): (d: Decoded<MessageData>)
    requires pos <= |buffer|
    ensures d.pos == pos
    ensures d.result.Ok? <==> definition.parameters == []
  {
    if definition.parameters == [] then Decoded(Ok(MessageData(definition.name, [])), pos)
    else Decoded(Err(StrHasNoName), pos)
  }

  /** `Protocol.process_protocol_data`: a u8 order id, a u16 length that is
      read and never used, then the message with that order. */
  function ProtocolDataAt(messages: map<Key, Message>, readers: TextReaders, buffer: seq<byte>, pos: nat)
    : (d: Decoded<MessageData>)
    requires pos <= |buffer|
    ensures pos <= d.pos <= |buffer|
  {
    var order := IntAt(UInt8, buffer, pos);
    if order.result.Err? then Decoded(Err(order.result.error), order.pos)
    else
      var length := IntAt(UInt16, buffer, order.pos);
      if length.result.Err? then Decoded(Err(length.result.error), length.pos)
      else if OrderKey(order.result.value) !in messages then
        Decoded(Err(InvalidMessageOrder(order.result.value)), length.pos)
      else MessageDataAt(messages[OrderKey(order.result.value)].definition, readers, buffer, length.pos)
  }

  /** One accessor call through the table, on the shared cursor. */
  method ReadValue(data: ByteInterface, typeTag: string, readers: TextReaders) returns (r: Result<Value>)
    requires data.Valid()
    modifies data
    ensures data.Valid() && data.buffer == old(data.buffer)
    ensures Decoded(r, data.pos) == ValueAt(typeTag, readers, old(data.buffer), old(data.pos))
  {
    var accessor := Lookup(typeTag);
    if accessor.None? {
      return Err(MissingReadMethod(typeTag));
    }
    match accessor.value {
      case ReadString =>
        var d := TextAt(readers.narrow(data.buffer[data.pos..]), true, data.buffer, data.pos);
        data.Seek(d.pos);
        r := d.result;
      case ReadWideString =>
        var d := TextAt(readers.wide(data.buffer[data.pos..]), false, data.buffer, data.pos);
        data.Seek(d.pos);
        r := d.result;
      case ReadFloat =>
        var bits := data.Float();
        r := if bits.Ok? then Ok(FloatField(bits.value)) else Err(bits.error);
      case _ =>
        var i := data.ReadInt(FormatOf(accessor.value).value);
        r := if i.Ok? then Ok(IntField(i.value)) else Err(i.error);
    }
  }

  lemma {:induction false} DecodeErrStays(ps: seq<MessageDefinitionParameter>, readers: TextReaders, buffer: seq<byte>, pos: nat, i: nat)
    requires pos <= |buffer| && i <= |ps| && DecodeParameters(ps[..i], readers, buffer, pos).result.Err?
    ensures DecodeParameters(ps, readers, buffer, pos) == DecodeParameters(ps[..i], readers, buffer, pos)
    decreases |ps| - i
  {
    if i < |ps| {
      assert ps[..i + 1][..i] == ps[..i];
      DecodeErrStays(ps, readers, buffer, pos, i + 1);
    } else {
      assert ps[..i] == ps;
    }
  }

  /** One more parameter: the decode of the first i + 1 definitions extends
      the decode of the first i by one accessor call. */
  lemma DecodeStep(ps: seq<MessageDefinitionParameter>, readers: TextReaders, buffer: seq<byte>, pos: nat, i: nat)
    requires pos <= |buffer| && i < |ps|
    ensures var before := DecodeParameters(ps[..i], readers, buffer, pos);
      DecodeParameters(ps[..i + 1], readers, buffer, pos) ==
        if before.result.Err? then before
        else
          var v := ValueAt(ps[i].paramType, readers, buffer, before.pos);
          if v.result.Err? then Decoded(Err(v.result.error), v.pos)
          else Decoded(Ok(Put(before.result.value, ps[i].name, v.result.value)), v.pos)
  {
    assert ps[..i + 1][..i] == ps[..i];
  }

  /** `Message`: a definition, and the decoder of the parameters it declares. */
  datatype Message = Message(definition: MessageDefinition) {

    method ProcessMessageData(data: ByteInterface, readers: TextReaders) returns (r: Result<MessageData>)
      requires data.Valid()
      modifies data
      ensures data.Valid() && data.buffer == old(data.buffer)
      ensures Decoded(r, data.pos) == MessageDataAt(definition, readers, old(data.buffer), old(data.pos))
    {
      ghost var start := data.pos;
      var ps := Values(definition.parameters);
      var parameters: Dict<string, Value> := [];
      var i := 0;
      while i < |ps|
        invariant 0 <= i <= |ps|
        invariant data.Valid() && data.buffer == old(data.buffer)
        invariant DecodeParameters(ps[..i], readers, data.buffer, start) == Decoded(Ok(parameters), data.pos)
      {
        var parameterDefinition := ps[i];
        DecodeStep(ps, readers, data.buffer, start, i);
        var value := ReadValue(data, parameterDefinition.paramType, readers);
        if value.Err? {
          DecodeErrStays(ps, readers, data.buffer, start, i + 1);
          return Err(value.error);
        }
        parameters := Put(parameters, parameterDefinition.name, value.value);
        i := i + 1;
      }
      assert ps[..i] == ps;
      r := Ok(MessageData(definition.name, parameters));
    }
  }

  /** `Protocol`: the schema and one `Message` per entry of its message map. */
  datatype Protocol = Protocol(definition: ProtocolDefinition, messages: map<Key, Message>) {

    method ProcessProtocolData(data: ByteInterface, readers: TextReaders) returns (r: Result<MessageData>)
      requires data.Valid()
      modifies data
      ensures data.Valid() && data.buffer == old(data.buffer)
      ensures Decoded(r, data.pos) == ProtocolDataAt(messages, readers, old(data.buffer), old(data.pos))
    {
      var orderId := data.Unsigned1();
      if orderId.Err? {
        return Err(orderId.error);
      }
      var length := data.Unsigned2();
      if length.Err? {
        return Err(length.error);
      }
      if OrderKey(orderId.value) !in messages {
        return Err(InvalidMessageOrder(orderId.value));
      }
      var message := messages[OrderKey(orderId.value)];
      r := message.ProcessMessageData(data, readers);
    }
  }

  /** Every key of the definition's map, order and name keys alike, holds a
      `Message` around the definition stored there, and no other key exists. */
  ghost predicate Wraps(p: Protocol) {
    && p.messages.Keys == p.definition.messages.Keys
    && forall k :: k in p.messages ==> p.messages[k].definition == p.definition.messages[k]
  }

  /** `Protocol.__init__`. */
  method NewProtocol(definition: ProtocolDefinition) returns (p: Protocol)
    ensures p.definition == definition && Wraps(p)
  {
    var messages: map<Key, Message> := map[];
    var remaining := definition.messages.Keys;
    while remaining != {}
      invariant remaining <= definition.messages.Keys
      invariant messages.Keys == definition.messages.Keys - remaining
      invariant forall k :: k in messages ==> messages[k].definition == definition.messages[k]
      decreases remaining
    {
      var order :| order in remaining;
      messages := messages[order := Message(definition.messages[order])];
      remaining := remaining - {order};
    }
    p := Protocol(definition, messages);
  }
}
