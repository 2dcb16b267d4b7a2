/** wizmsg/network/controls.py: the session control messages and their
    decoders, each a fixed sequence of cursor reads. */
module Controls {
  import opened Wrappers
  import opened Bytes

  const SessionOfferOpcode: int := 0
  const KeepAliveOpcode: int := 3
  const KeepAliveResponseOpcode: int := 4
  const SessionAcceptOpcode: int := 5

  datatype Control =
    | SessionOffer(
        opcode: int, sessionId: int, timestamp: int, milliseconds: int,
        cryptoFlags: int, cryptoKeySlot: int, cryptoKeyMask: int,
        cryptoChallenge: seq<byte>, cryptoNonce: int, cryptoSignature: seq<byte>)
    | KeepAlive(opcode: int, sessionId: int, milliseconds: int, sessionMinutes: int)
    | KeepAliveResponse(opcode: int, sessionId: int, milliseconds: int, sessionMinutes: int)
    | SessionAccept(
        opcode: int, unknown: int, fnv: int, challengeAnswer: int, echo: int,
        timestamp: int, key: seq<byte>, nonce: seq<byte>)

  /** The opcode each class declares. */
  function ClassOpcode(c: Control): int {
    match c
    case SessionOffer(_, _, _, _, _, _, _, _, _, _) => SessionOfferOpcode
    case KeepAlive(_, _, _, _) => KeepAliveOpcode
    case KeepAliveResponse(_, _, _, _) => KeepAliveResponseOpcode
    case SessionAccept(_, _, _, _, _, _, _, _) => SessionAcceptOpcode
  }

  /** The unsigned little-endian value of the `n` bytes at `at`. */
  function Le(buffer: seq<byte>, at: nat, n: nat): nat
    requires at + n <= |buffer|
  {
    LittleEndian(buffer[at..at + n])
  }

  // ---------------------------------------------------------------------------
  // The wire layouts

  /** SessionOffer: u16 session id, u32 discarded high timestamp, u32
      timestamp, u32 milliseconds, u32 discarded crypto length, u8 flags, u8
      key slot, u8 key mask, u8 challenge length, the challenge, u32 nonce,
      256 signature bytes and a discarded reserved byte: 283 bytes plus the
      challenge. A short buffer fails with the cursor at its end. */
  function SessionOfferLayout(buffer: seq<byte>, pos: nat): (d: Decoded<Control>)
    requires pos <= |buffer|
  {
    if pos + 22 > |buffer| then Decoded(Err(ShortRead), |buffer|)
    else
      var n := buffer[pos + 21];
      if pos + 283 + n > |buffer| then Decoded(Err(ShortRead), |buffer|)
      else
        Decoded(Ok(SessionOffer(SessionOfferOpcode, Le(buffer, pos, 2), Le(buffer, pos + 6, 4), Le(buffer, pos + 10, 4),
                                buffer[pos + 18], buffer[pos + 19], buffer[pos + 20],
                                buffer[pos + 22..pos + 22 + n], Le(buffer, pos + 22 + n, 4),
                                buffer[pos + 26 + n..pos + 282 + n])),
                pos + 283 + n)
  }

  /** KeepAlive and KeepAliveResponse: three u16 values, 6 bytes. The opcode
      is the class's own. */
  function KeepAliveLayout(buffer: seq<byte>, pos: nat, response: bool): (d: Decoded<Control>)
    requires pos <= |buffer|
  {
    if pos + 6 > |buffer| then Decoded(Err(ShortRead), |buffer|)
    else if response then
      Decoded(Ok(KeepAliveResponse(KeepAliveResponseOpcode, Le(buffer, pos, 2), Le(buffer, pos + 2, 2), Le(buffer, pos + 4, 2))), pos + 6)
    else
      Decoded(Ok(KeepAlive(KeepAliveOpcode, Le(buffer, pos, 2), Le(buffer, pos + 2, 2), Le(buffer, pos + 4, 2))), pos + 6)
  }

  /** SessionAccept: u8, three u32, an i32, then a 16-byte key and a 16-byte
      nonce, 49 bytes. The two trailing fields are plain reads, so they may
      come back short without an error. The opcode is the class's 5. */
  function SessionAcceptLayout(buffer: seq<byte>, pos: nat): (d: Decoded<Control>)
    requires pos <= |buffer|
  {
    if pos + 17 > |buffer| then Decoded(Err(ShortRead), |buffer|)
    else
      var keyEnd := ReadEnd(buffer, pos + 17, 16);
      var nonceEnd := ReadEnd(buffer, keyEnd, 16);
      Decoded(Ok(SessionAccept(SessionAcceptOpcode, buffer[pos], Le(buffer, pos + 1, 4), Le(buffer, pos + 5, 4), Le(buffer, pos + 9, 4),
                               TwosComplement(Le(buffer, pos + 13, 4), 4),
                               buffer[pos + 17..keyEnd], buffer[keyEnd..nonceEnd])),
              nonceEnd)
  }

  // ---------------------------------------------------------------------------
  // The decoders as written, where they differ

  /** `KeepAliveResponse.from_data` as written: the inherited decoder passes
      `opcode=3`, the KeepAlive opcode. */
  function KeepAliveResponseAsWritten(buffer: seq<byte>, pos: nat): (d: Decoded<Control>)
    requires pos <= |buffer|
  {
    if pos + 6 > |buffer| then Decoded(Err(ShortRead), |buffer|)
    else Decoded(Ok(KeepAliveResponse(KeepAliveOpcode, Le(buffer, pos, 2), Le(buffer, pos + 2, 2), Le(buffer, pos + 4, 2))), pos + 6)
  }

  /** `SessionAccept.from_data` as written: every read happens, then the
      constructor call lacks the `opcode` argument, which has no default. */
  function SessionAcceptAsWritten(buffer: seq<byte>, pos: nat): (d: Decoded<Control>)
    requires pos <= |buffer|
  {
    var d := SessionAcceptLayout(buffer, pos);
    if d.result.Err? then d else Decoded(Err(MissingOpcodeArgument), d.pos)
  }

  // ---------------------------------------------------------------------------
  // The decoders on the cursor

  /** The fixed part of a SessionOffer before the challenge. */
  datatype OfferHeader = OfferHeader(sessionId: int, timestamp: int, milliseconds: int,
                                     cryptoFlags: int, cryptoKeySlot: int, cryptoKeyMask: int, challengeLength: nat)

  /** The first 22 bytes of a SessionOffer: u16, four u32, four u8. */
  method ReadOfferHeader(data: ByteInterface) returns (r: Result<OfferHeader>)
    requires data.Valid()
    modifies data
    ensures data.Valid() && data.buffer == old(data.buffer)
    ensures var b, p := data.buffer, old(data.pos);
      if p + 22 <= |b| then
        r == Ok(OfferHeader(Le(b, p, 2), Le(b, p + 6, 4), Le(b, p + 10, 4), b[p + 18], b[p + 19], b[p + 20], b[p + 21]))
        && data.pos == p + 22
      else r == Err(ShortRead) && data.pos == |b|
  {
    ghost var p := data.pos;
    var b := data.buffer;
    var sessionId :- data.Unsigned2();
    var high :- data.Unsigned4();
    var timestamp :- data.Unsigned4();
    var milliseconds :- data.Unsigned4();
    var cryptoLength :- data.Unsigned4();
    assert data.pos == p + 18;
    var flags := ReadBytes4(data);
    if flags.Err? {
      return Err(flags.error);
    }
    var (cryptoFlags, cryptoKeySlot, cryptoKeyMask, cryptoChallengeLength) := flags.value;
    r := Ok(OfferHeader(sessionId, timestamp, milliseconds, cryptoFlags, cryptoKeySlot, cryptoKeyMask, cryptoChallengeLength));
  }

  /** Four successive `unsigned1` reads. */
  method ReadBytes4(data: ByteInterface) returns (r: Result<(byte, byte, byte, byte)>)
    requires data.Valid()
    modifies data
    ensures data.Valid() && data.buffer == old(data.buffer)
    ensures var b, p := data.buffer, old(data.pos);
      if p + 4 <= |b| then r == Ok((b[p], b[p + 1], b[p + 2], b[p + 3])) && data.pos == p + 4
      else r == Err(ShortRead) && data.pos == |b|
  {
    ghost var p := data.pos;
    var b := data.buffer;
    var b0 :- data.Unsigned1();
    ByteValue(b, p);
    var b1 :- data.Unsigned1();
    ByteValue(b, p + 1);
    var b2 :- data.Unsigned1();
    ByteValue(b, p + 2);
    var b3 :- data.Unsigned1();
    ByteValue(b, p + 3);
    r := Ok((b0, b1, b2, b3));
  }

  method SessionOfferFromData(data: ByteInterface) returns (r: Result<Control>)
    requires data.Valid()
    modifies data
    ensures data.Valid() && data.buffer == old(data.buffer)
    ensures Decoded(r, data.pos) == SessionOfferLayout(old(data.buffer), old(data.pos))
  {
    ghost var p := data.pos;
    var b := data.buffer;
    var header :- ReadOfferHeader(data);
    ghost var n := b[p + 21];
    var cryptoChallenge := data.Read(header.challengeLength);
    var cryptoNonce :- data.Unsigned4();
    var cryptoSignature := data.Read(256);
    var reserved :- data.Unsigned1();
    assert data.pos == p + 283 + n;
    r := Ok(SessionOffer(SessionOfferOpcode, header.sessionId, header.timestamp, header.milliseconds,
                         header.cryptoFlags, header.cryptoKeySlot, header.cryptoKeyMask,
                         cryptoChallenge, cryptoNonce, cryptoSignature));
  }

  /** `KeepAlive.from_data`, for KeepAlive and (with `response`) for
      KeepAliveResponse, each getting its own class opcode. */
  method KeepAliveFromData(data: ByteInterface, response: bool) returns (r: Result<Control>)
    requires data.Valid()
    modifies data
    ensures data.Valid() && data.buffer == old(data.buffer)
    ensures Decoded(r, data.pos) == KeepAliveLayout(old(data.buffer), old(data.pos), response)
  {
    var b := data.buffer;
    var sessionId :- data.Unsigned2();
    var milliseconds :- data.Unsigned2();
    var sessionMinutes :- data.Unsigned2();
    if response {
      r := Ok(KeepAliveResponse(KeepAliveResponseOpcode, sessionId, milliseconds, sessionMinutes));
    } else {
      r := Ok(KeepAlive(KeepAliveOpcode, sessionId, milliseconds, sessionMinutes));
    }
  }

  /** The fixed part of a SessionAccept before the key. */
  datatype AcceptHeader = AcceptHeader(unknown: int, fnv: int, challengeAnswer: int, echo: int, timestamp: int)

  /** The first 17 bytes of a SessionAccept: u8, three u32 and an i32. */
  method ReadAcceptHeader(data: ByteInterface) returns (r: Result<AcceptHeader>)
    requires data.Valid()
    modifies data
    ensures data.Valid() && data.buffer == old(data.buffer)
    ensures var b, p := data.buffer, old(data.pos);
      if p + 17 <= |b| then
        r == Ok(AcceptHeader(b[p], Le(b, p + 1, 4), Le(b, p + 5, 4), Le(b, p + 9, 4), TwosComplement(Le(b, p + 13, 4), 4)))
        && data.pos == p + 17
      else r == Err(ShortRead) && data.pos == |b|
  {
    ghost var p := data.pos;
    var b := data.buffer;
    var unknown :- data.Unsigned1();
    ByteValue(b, p);
    var fnv :- data.Unsigned4();
    var challengeAnswer :- data.Unsigned4();
    var echo :- data.Unsigned4();
    var timestamp :- data.Signed4();
    r := Ok(AcceptHeader(unknown, fnv, challengeAnswer, echo, timestamp));
  }

  method SessionAcceptFromData(data: ByteInterface) returns (r: Result<Control>)
    requires data.Valid()
    modifies data
    ensures data.Valid() && data.buffer == old(data.buffer)
    ensures Decoded(r, data.pos) == SessionAcceptLayout(old(data.buffer), old(data.pos))
  {
    var header :- ReadAcceptHeader(data);
    var key := data.Read(16);
    var nonce := data.Read(16);
    r := Ok(SessionAccept(SessionAcceptOpcode, header.unknown, header.fnv, header.challengeAnswer, header.echo, header.timestamp, key, nonce));
  }
}
