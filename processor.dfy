/** wizmsg/network/processor.py: the registry of loaded protocols by service
    id, and the dispatch of a data message to the protocol its header names. */
module Processing {
  import opened Wrappers
  import opened Dicts
  import opened Bytes
  import opened Xml
  import opened Schema
  import opened Network
  import SchemaProperties
  import NetworkProperties

  /** `process_message_data` on a cursor at `pos`: a bool control flag, a u8
      opcode and a u16 reserved field, then for a data message a u8 service
      id and the protocol registered under it. */
  function MessageAt(protocols: map<int, Protocol>, readers: TextReaders, buffer: seq<byte>, pos: nat)
    : (d: Decoded<MessageData>)
    requires pos <= |buffer|
    ensures pos <= d.pos <= |buffer|
  {
    var control := UnpackAt(Boolean, buffer, pos);
    if control.result.Err? then Decoded(Err(control.result.error), control.pos)
    else
      var opcode := IntAt(UInt8, buffer, control.pos);
      if opcode.result.Err? then Decoded(Err(opcode.result.error), opcode.pos)
      else
        var reserved := IntAt(UInt16, buffer, opcode.pos);
        if reserved.result.Err? then Decoded(Err(reserved.result.error), reserved.pos)
        else if control.result.value.b then Decoded(Err(ControlsNotImplemented), reserved.pos)
        else
          var service := IntAt(UInt8, buffer, reserved.pos);
          if service.result.Err? then Decoded(Err(service.result.error), service.pos)
          else if service.result.value !in protocols then
            Decoded(Err(UnexpectedServiceId(service.result.value)), service.pos)
          else ProtocolDataAt(protocols[service.result.value].messages, readers, buffer, service.pos)
  }

  class Processor {
    /** service id: protocol */
    var protocols: map<int, Protocol>

    constructor ()
      ensures protocols == map[]
    {
      protocols := map[];
    }

    /** `load_protocol`, from the parsed schema document: the protocol is
        registered under its service id, replacing any earlier one there. */
    method LoadProtocol(root: Element) returns (r: Result<Protocol>)
      modifies this
      ensures r.Ok? <==> ProtocolFromXml(root).Ok?
      ensures r.Err? ==> r.error == ProtocolFromXml(root).error && protocols == old(protocols)
      ensures r.Ok? ==>
        var definition := ProtocolFromXml(root).value;
        && r.value.definition == definition && Wraps(r.value)
        && protocols == old(protocols)[definition.serviceId := r.value]
    {
      var protocolDefinition :- FromXmlFile(root);
      var protocol := NewProtocol(protocolDefinition);
      protocols := protocols[protocolDefinition.serviceId := protocol];
      r := Ok(protocol);
    }

    method ProcessMessageData(data: ByteInterface, readers: TextReaders) returns (r: Result<MessageData>)
      requires data.Valid()
      modifies data
      ensures data.Valid() && data.buffer == old(data.buffer)
      ensures Decoded(r, data.pos) == MessageAt(protocols, readers, old(data.buffer), old(data.pos))
    {
      var isControl := data.Bool();
      if isControl.Err? {
        return Err(isControl.error);
      }
      var controlOpcode := data.Unsigned1();
      if controlOpcode.Err? {
        return Err(controlOpcode.error);
      }
      var reserved := data.Unsigned2();
      if reserved.Err? {
        return Err(reserved.error);
      }
      if isControl.value {
        return Err(ControlsNotImplemented);
      }
      var serviceId := data.Unsigned1();
      if serviceId.Err? {
        return Err(serviceId.error);
      }
      if serviceId.value !in protocols {
        return Err(UnexpectedServiceId(serviceId.value));
      }
      var protocol := protocols[serviceId.value];
      r := protocol.ProcessProtocolData(data, readers);
    }

    /** `process_message_data` given raw bytes: they are wrapped in a cursor at 0. */
    method ProcessMessageBytes(bytes: seq<byte>, readers: TextReaders) returns (r: Result<MessageData>)
      ensures r == MessageAt(protocols, readers, bytes, 0).result
    {
      var data := new ByteInterface(bytes);
      r := ProcessMessageData(data, readers);
    }
  }

  // ---------------------------------------------------------------------------
  // Properties

  /** The header is four bytes: a control flag at the cursor, then opcode and
      reserved bytes that are never used. A control message is rejected; a data
      message names its service in the fifth byte, and an unregistered service
      is an error; otherwise the protocol decodes from just after it. */
  lemma {:induction false} HeaderLayout(protocols: map<int, Protocol>, readers: TextReaders, buffer: seq<byte>, pos: nat)
    requires pos <= |buffer|
    ensures var d := MessageAt(protocols, readers, buffer, pos);
      && (pos + 4 > |buffer| ==> d == Decoded(Err(ShortRead), |buffer|))
      && (pos + 4 <= |buffer| && buffer[pos] != 0 ==> d == Decoded(Err(ControlsNotImplemented), pos + 4))
      && (pos + 4 == |buffer| && buffer[pos] == 0 ==> d == Decoded(Err(ShortRead), |buffer|))
      && (pos + 5 <= |buffer| && buffer[pos] == 0 && buffer[pos + 4] !in protocols ==>
            d == Decoded(Err(UnexpectedServiceId(buffer[pos + 4])), pos + 5))
      && (pos + 5 <= |buffer| && buffer[pos] == 0 && buffer[pos + 4] in protocols ==>
            d == ProtocolDataAt(protocols[buffer[pos + 4]].messages, readers, buffer, pos + 5))
  {
    Pow256Values();
    if pos + 5 <= |buffer| {
      ByteValue(buffer, pos + 4);
    }
  }

  /** The outcome depends on the control flag, the service byte and what
      follows it, and on nothing else of the header. */
  lemma {:induction false} HeaderDetermined(protocols: map<int, Protocol>, readers: TextReaders, buffer: seq<byte>, buffer': seq<byte>, pos: nat)
    requires pos + 4 <= |buffer| == |buffer'| && buffer[pos] == buffer'[pos]
    requires pos + 5 <= |buffer| ==> buffer[pos + 4] == buffer'[pos + 4] && buffer[pos + 5..] == buffer'[pos + 5..]
    ensures MessageAt(protocols, readers, buffer, pos) == MessageAt(protocols, readers, buffer', pos)
  {
    HeaderLayout(protocols, readers, buffer, pos);
    HeaderLayout(protocols, readers, buffer', pos);
    if pos + 5 <= |buffer| && buffer[pos] == 0 && buffer[pos + 4] in protocols {
      NetworkProperties.ProtocolDataLocal(protocols[buffer[pos + 4]].messages, readers, buffer, buffer', pos + 5);
    }
  }

  /** The opcode and reserved bytes of a data message change nothing. */
  lemma {:induction false} HeaderFieldsIgnored(protocols: map<int, Protocol>, readers: TextReaders, buffer: seq<byte>, pos: nat, opcode: byte, low: byte, high: byte)
    requires pos + 4 <= |buffer|
    ensures MessageAt(protocols, readers, buffer, pos)
         == MessageAt(protocols, readers, buffer[pos + 1 := opcode][pos + 2 := low][pos + 3 := high], pos)
  {
    var buffer' := buffer[pos + 1 := opcode][pos + 2 := low][pos + 3 := high];
    if pos + 5 <= |buffer| {
      assert buffer[pos + 5..] == buffer'[pos + 5..];
    }
    HeaderDetermined(protocols, readers, buffer, buffer', pos);
  }

  /** A loaded protocol dispatches exactly the order ids 1..N, N the number of
      distinct messages in the schema. */
  lemma {:induction false} LoadedOrders(root: Element, p: Protocol)
    requires ProtocolFromXml(root).Ok? && p.definition == ProtocolFromXml(root).value && Wraps(p)
    ensures CollectMessages(root.children).Ok?
    ensures forall o :: OrderKey(o) in p.messages <==> 1 <= o <= |CollectMessages(root.children).value|
  {
    SchemaProperties.ResolvedOrderKeys(root);
  }

  /** A data message for service 20, order 1, whose protocol maps order 1 to
      the test schema's MSG_TEST. */
  lemma {:induction false} SampleFrame(p: Protocol, readers: TextReaders, buffer: seq<byte>)
    requires OrderKey(1) in p.messages && p.messages[OrderKey(1)].definition == SchemaProperties.SampleMessage(Some(1))
    requires |buffer| >= 12 && buffer[0] == 0 && buffer[4] == 20 && buffer[5] == 1
    ensures MessageAt(map[20 := p], readers, buffer, 0)
         == Decoded(Ok(MessageData("MSG_TEST", [("Number", IntField(TwosComplement(LittleEndian(buffer[8..12]), 4)))])), 12)
  {
    var m := SchemaProperties.SampleMessage(Some(1));
    HeaderLayout(map[20 := p], readers, buffer, 0);
    assert MessageAt(map[20 := p], readers, buffer, 0) == ProtocolDataAt(p.messages, readers, buffer, 5);
    NetworkProperties.ProtocolDataLayout(p.messages, readers, buffer, 5);
    assert ProtocolDataAt(p.messages, readers, buffer, 5) == MessageDataAt(m, readers, buffer, 8);
    NetworkProperties.IterationFinding(readers, buffer, 8);
  }

  /** With the schema of tests/test_protocol.py registered as service 20 (it
      loads as SampleProtocol, by SchemaProperties.SampleLoads), a data
      message for order 1 decodes its four Number bytes as a signed 32-bit
      value, whatever the declared length, and leaves the trailing null byte
      unread. */
  lemma {:induction false} SampleDispatch(p: Protocol, readers: TextReaders, low: byte, high: byte, number: seq<byte>)
    requires p.definition == SchemaProperties.SampleProtocol() && Wraps(p)
    requires |number| == 4
    ensures MessageAt(map[20 := p], readers, [0, 0, 0, 0, 20, 1, low, high] + number + [0], 0)
         == Decoded(Ok(MessageData("MSG_TEST", [("Number", IntField(TwosComplement(LittleEndian(number), 4)))])), 12)
  {
    var m := SchemaProperties.SampleMessage(Some(1));
    assert p.definition.messages == map[OrderKey(1) := m, NameKey("MSG_TEST") := m];
    assert p.messages[OrderKey(1)].definition == m;
    var buffer: seq<byte> := [0, 0, 0, 0, 20, 1, low, high] + number + [0];
    assert |buffer| == 13 && buffer[0] == 0 && buffer[4] == 20 && buffer[5] == 1;
    SampleFrame(p, readers, buffer);
    assert buffer[8..12] == number;
  }
}
