/** wizmsg/network/control_message.py: the newer control-message classes. The
    base class decodes and encodes nothing; SessionOffer reads only its
    session id so far; ServerKeepAlive inherits the base decoder. */
module ControlMessages {
  import opened Wrappers
  import opened Bytes
  import Controls

  const SessionOfferOpcode: int := 0

  datatype ControlMessage =
    | Base(opcode: int)
    | SessionOffer(opcode: int, sessionId: int)
    | ServerKeepAlive(opcode: int, sessionId: int)

  /** The class a decoder is called on. */
  datatype MessageClass = BaseClass | SessionOfferClass | ServerKeepAliveClass

  /** `from_data` of each class: only SessionOffer overrides the base, with
      one u16 read and the default opcode 0. */
  function FromDataAt(cls: MessageClass, buffer: seq<byte>, pos: nat): (d: Decoded<ControlMessage>)
    requires pos <= |buffer|
  {
    match cls
    case SessionOfferClass =>
      if pos + 2 > |buffer| then Decoded(Err(ShortRead), |buffer|)
      else Decoded(Ok(SessionOffer(SessionOfferOpcode, LittleEndian(buffer[pos..pos + 2]))), pos + 2)
    case _ => Decoded(Err(NotImplemented), pos)
  }

  /** `to_data`: the base raises; SessionOffer's body is `pass`, so it
      returns `None`; ServerKeepAlive inherits the base. */
  function ToData(m: ControlMessage): (r: Result<Option<seq<byte>>>)
    ensures r.Ok? <==> m.SessionOffer?
    ensures r.Ok? ==> r.value == None
    ensures r.Err? ==> r.error == NotImplemented
  {
    if m.SessionOffer? then Ok(None) else Err(NotImplemented)
  }

  /** `from_data` on the cursor. */
  method FromData(cls: MessageClass, data: ByteInterface) returns (r: Result<ControlMessage>)
    requires data.Valid()
    modifies data
    ensures data.Valid() && data.buffer == old(data.buffer)
    ensures Decoded(r, data.pos) == FromDataAt(cls, old(data.buffer), old(data.pos))
  {
    if cls != SessionOfferClass {
      return Err(NotImplemented);
    }
    var sessionId :- data.Unsigned2();
    r := Ok(SessionOffer(SessionOfferOpcode, sessionId));
  }

  /** The base decoder, and the one ServerKeepAlive inherits, fail without
      reading anything. */
  lemma BaseFails(cls: MessageClass, buffer: seq<byte>, pos: nat)
    requires pos <= |buffer| && cls != SessionOfferClass
    ensures FromDataAt(cls, buffer, pos) == Decoded(Err(NotImplemented), pos)
  {
  }

  /** SessionOffer consumes exactly 2 bytes, a little-endian u16, fails
      exactly when fewer remain, and carries opcode 0. */
  lemma SessionOfferConsumption(buffer: seq<byte>, pos: nat)
    requires pos <= |buffer|
    ensures var d := FromDataAt(SessionOfferClass, buffer, pos);
      && (d.result.Ok? <==> pos + 2 <= |buffer|)
      && (d.result.Ok? ==>
            && d.pos == pos + 2
            && d.result.value.SessionOffer?
            && d.result.value.opcode == SessionOfferOpcode
            && 0 <= d.result.value.sessionId < 0x1_0000
            && d.result.value.sessionId == buffer[pos] as int + 256 * buffer[pos + 1] as int)
      && (d.result.Err? ==> d == Decoded(Err(ShortRead), |buffer|))
  {
    if pos + 2 <= |buffer| {
      Pow256Values();
      var s := buffer[pos..pos + 2];
      assert s[1..] == buffer[pos + 1..pos + 2];
      ByteValue(buffer, pos + 1);
    }
  }

  /** A session id written as a u16 reads back, wherever it sits. */
  lemma {:induction false} SessionOfferRoundTrip(sessionId: nat, prefix: seq<byte>, rest: seq<byte>)
    requires sessionId < 0x1_0000
    ensures var e := ToLittleEndian(sessionId, 2);
      FromDataAt(SessionOfferClass, prefix + e + rest, |prefix|) == Decoded(Ok(SessionOffer(SessionOfferOpcode, sessionId)), |prefix| + 2)
  {
    Pow256Values();
    Framed(prefix, ToLittleEndian(sessionId, 2), rest);
    LittleEndianOfBytes(sessionId, 2);
  }

  /** The newer SessionOffer reads the same first field as the one in
      wizmsg/network/controls.py: on any buffer both decode, the session
      ids agree. */
  lemma SessionIdAgrees(buffer: seq<byte>, pos: nat)
    requires pos <= |buffer|
    ensures var d := FromDataAt(SessionOfferClass, buffer, pos);
      var full := Controls.SessionOfferLayout(buffer, pos);
      && (full.result.Ok? ==> d.result.Ok?)
      && (full.result.Ok? ==> d.result.value.sessionId == full.result.value.sessionId)
  {
  }
}
