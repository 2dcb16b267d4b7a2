/** Properties of the control decoders of wizmsg/network/controls.py: what
    each consumes, the writers the model adds to state round trips, and the
    two places where the decoders as written differ from their classes. */
module ControlsProperties {
  import opened Wrappers
  import opened Bytes
  import opened Controls

  /** A SessionOffer whose fields fit their wire widths. */
  predicate OfferEncodable(c: Control) {
    && c.SessionOffer?
    && c.opcode == SessionOfferOpcode
    && 0 <= c.sessionId < 0x1_0000
    && 0 <= c.timestamp < 0x1_0000_0000
    && 0 <= c.milliseconds < 0x1_0000_0000
    && 0 <= c.cryptoFlags < 256 && 0 <= c.cryptoKeySlot < 256 && 0 <= c.cryptoKeyMask < 256
    && |c.cryptoChallenge| < 256
    && 0 <= c.cryptoNonce < 0x1_0000_0000
    && |c.cryptoSignature| == 256
  }

  /** What follows the 22-byte fixed part: challenge, nonce, signature and
      the reserved byte. */
  function OfferTail(c: Control, reserved: byte): (t: seq<byte>)
    requires OfferEncodable(c)
    ensures |t| == 261 + |c.cryptoChallenge|
  {
    Pow256Values();
    c.cryptoChallenge + (ToLittleEndian(c.cryptoNonce, 4) + (c.cryptoSignature + [reserved]))
  }

  /** The bytes the SessionOffer decoder reads back as `c`; the discarded
      high timestamp, crypto length and reserved byte are free. */
  function EncodeSessionOffer(c: Control, high: nat, cryptoLength: nat, reserved: byte): (e: seq<byte>)
    requires OfferEncodable(c) && high < 0x1_0000_0000 && cryptoLength < 0x1_0000_0000
    ensures |e| == 283 + |c.cryptoChallenge|
  {
    Pow256Values();
    ToLittleEndian(c.sessionId, 2) + (ToLittleEndian(high, 4) + (ToLittleEndian(c.timestamp, 4)
      + (ToLittleEndian(c.milliseconds, 4) + (ToLittleEndian(cryptoLength, 4)
      + ([c.cryptoFlags, c.cryptoKeySlot, c.cryptoKeyMask, |c.cryptoChallenge|] + OfferTail(c, reserved))))))
  }

  /** A buffer holding the fields of `c` where the layout reads them decodes
      to `c`. */
  lemma {:induction false} OfferAt(s: seq<byte>, p: nat, c: Control)
    requires OfferEncodable(c)
    requires p + 283 + |c.cryptoChallenge| <= |s|
    requires Le(s, p, 2) == c.sessionId && Le(s, p + 6, 4) == c.timestamp && Le(s, p + 10, 4) == c.milliseconds
    requires s[p + 18] == c.cryptoFlags && s[p + 19] == c.cryptoKeySlot && s[p + 20] == c.cryptoKeyMask
    requires s[p + 21] == |c.cryptoChallenge|
    requires var n := |c.cryptoChallenge|;
      && s[p + 22..p + 22 + n] == c.cryptoChallenge
      && Le(s, p + 22 + n, 4) == c.cryptoNonce
      && s[p + 26 + n..p + 282 + n] == c.cryptoSignature
    ensures SessionOfferLayout(s, p) == Decoded(Ok(c), p + 283 + |c.cryptoChallenge|)
  {
  }

  /** The first 22 bytes of the encoding hold the session id, timestamp,
      milliseconds, the three crypto bytes and the challenge length. */
  lemma {:induction false} OfferHeaderBytes(c: Control, high: nat, cryptoLength: nat, reserved: byte, prefix: seq<byte>, rest: seq<byte>)
    requires OfferEncodable(c) && high < 0x1_0000_0000 && cryptoLength < 0x1_0000_0000
    ensures var s := prefix + EncodeSessionOffer(c, high, cryptoLength, reserved) + rest;
      var p := |prefix|;
      && p + 283 + |c.cryptoChallenge| <= |s|
      && Le(s, p, 2) == c.sessionId && Le(s, p + 6, 4) == c.timestamp && Le(s, p + 10, 4) == c.milliseconds
      && s[p + 18] == c.cryptoFlags && s[p + 19] == c.cryptoKeySlot && s[p + 20] == c.cryptoKeyMask
      && s[p + 21] == |c.cryptoChallenge|
      && s[p + 22..p + 283 + |c.cryptoChallenge|] == OfferTail(c, reserved)
  {
    Pow256Values();
    var e := EncodeSessionOffer(c, high, cryptoLength, reserved);
    var s := prefix + e + rest;
    var p := |prefix|;
    Framed(prefix, e, rest);
    var t := OfferTail(c, reserved);
    var flags := [c.cryptoFlags, c.cryptoKeySlot, c.cryptoKeyMask, |c.cryptoChallenge|];
    var a5 := flags + t;
    var a4 := ToLittleEndian(cryptoLength, 4) + a5;
    var a3 := ToLittleEndian(c.milliseconds, 4) + a4;
    var a2 := ToLittleEndian(c.timestamp, 4) + a3;
    var a1 := ToLittleEndian(high, 4) + a2;
    Field(s, p, ToLittleEndian(c.sessionId, 2), a1);
    Field(s, p + 2, ToLittleEndian(high, 4), a2);
    Field(s, p + 6, ToLittleEndian(c.timestamp, 4), a3);
    Field(s, p + 10, ToLittleEndian(c.milliseconds, 4), a4);
    Field(s, p + 14, ToLittleEndian(cryptoLength, 4), a5);
    Field(s, p + 18, flags, t);
    LittleEndianOfBytes(c.sessionId, 2);
    LittleEndianOfBytes(c.timestamp, 4);
    LittleEndianOfBytes(c.milliseconds, 4);
    assert s[p + 18..p + 22][0] == s[p + 18];
    assert s[p + 18..p + 22][1] == s[p + 19];
    assert s[p + 18..p + 22][2] == s[p + 20];
    assert s[p + 18..p + 22][3] == s[p + 21];
  }

  /** After the fixed part come the challenge, the nonce and the signature. */
  lemma {:induction false} OfferTailBytes(c: Control, reserved: byte, s: seq<byte>, p: nat)
    requires OfferEncodable(c)
    requires p + 283 + |c.cryptoChallenge| <= |s| && s[p + 22..p + 283 + |c.cryptoChallenge|] == OfferTail(c, reserved)
    ensures var n := |c.cryptoChallenge|;
      && s[p + 22..p + 22 + n] == c.cryptoChallenge
      && Le(s, p + 22 + n, 4) == c.cryptoNonce
      && s[p + 26 + n..p + 282 + n] == c.cryptoSignature
  {
    Pow256Values();
    var n := |c.cryptoChallenge|;
    var t2 := ToLittleEndian(c.cryptoNonce, 4) + (c.cryptoSignature + [reserved]);
    Field(s, p + 22, c.cryptoChallenge, t2);
    Field(s, p + 22 + n, ToLittleEndian(c.cryptoNonce, 4), c.cryptoSignature + [reserved]);
    Field(s, p + 26 + n, c.cryptoSignature, [reserved]);
    LittleEndianOfBytes(c.cryptoNonce, 4);
  }

  /** Wherever the encoding sits and whatever follows it, the decoder returns
      `c` and stops right after it, for every value of the discarded fields. */
  lemma {:induction false} SessionOfferRoundTrip(c: Control, high: nat, cryptoLength: nat, reserved: byte, prefix: seq<byte>, rest: seq<byte>)
    requires OfferEncodable(c) && high < 0x1_0000_0000 && cryptoLength < 0x1_0000_0000
    ensures var e := EncodeSessionOffer(c, high, cryptoLength, reserved);
      SessionOfferLayout(prefix + e + rest, |prefix|) == Decoded(Ok(c), |prefix| + |e|)
  {
    var s := prefix + EncodeSessionOffer(c, high, cryptoLength, reserved) + rest;
    OfferHeaderBytes(c, high, cryptoLength, reserved, prefix, rest);
    OfferTailBytes(c, reserved, s, |prefix|);
    OfferAt(s, |prefix|, c);
  }

  // ---------------------------------------------------------------------------
  // KeepAlive and KeepAliveResponse

  /** A KeepAlive or KeepAliveResponse with its class opcode and u16 fields. */
  predicate KeepAliveEncodable(c: Control) {
    && (c.KeepAlive? || c.KeepAliveResponse?)
    && c.opcode == ClassOpcode(c)
    && 0 <= c.sessionId < 0x1_0000 && 0 <= c.milliseconds < 0x1_0000 && 0 <= c.sessionMinutes < 0x1_0000
  }

  /** The 6 bytes a KeepAlive decoder reads back as `c`. */
  function EncodeKeepAlive(c: Control): (e: seq<byte>)
    requires KeepAliveEncodable(c)
    ensures |e| == 6
  {
    Pow256Values();
    ToLittleEndian(c.sessionId, 2) + (ToLittleEndian(c.milliseconds, 2) + ToLittleEndian(c.sessionMinutes, 2))
  }

  /** The KeepAlive decoder reads its encoding back, at any position. */
  lemma {:induction false} KeepAliveRoundTrip(c: Control, prefix: seq<byte>, rest: seq<byte>)
    requires KeepAliveEncodable(c)
    ensures var e := EncodeKeepAlive(c);
      KeepAliveLayout(prefix + e + rest, |prefix|, c.KeepAliveResponse?) == Decoded(Ok(c), |prefix| + 6)
  {
    Pow256Values();
    var e := EncodeKeepAlive(c);
    var s := prefix + e + rest;
    var p := |prefix|;
    Framed(prefix, e, rest);
    Field(s, p, ToLittleEndian(c.sessionId, 2), ToLittleEndian(c.milliseconds, 2) + ToLittleEndian(c.sessionMinutes, 2));
    Field(s, p + 2, ToLittleEndian(c.milliseconds, 2), ToLittleEndian(c.sessionMinutes, 2));
    LittleEndianOfBytes(c.sessionId, 2);
    LittleEndianOfBytes(c.milliseconds, 2);
    LittleEndianOfBytes(c.sessionMinutes, 2);
  }

  /** Both KeepAlive decoders read exactly 6 bytes, three u16 values, and
      fail exactly when fewer remain. */
  lemma KeepAliveConsumption(buffer: seq<byte>, pos: nat, response: bool)
    requires pos <= |buffer|
    ensures var d := KeepAliveLayout(buffer, pos, response);
      && (d.result.Ok? <==> pos + 6 <= |buffer|)
      && (d.result.Ok? ==>
            && d.pos == pos + 6
            && (if response then d.result.value.KeepAliveResponse? else d.result.value.KeepAlive?)
            && d.result.value.opcode == ClassOpcode(d.result.value)
            && 0 <= d.result.value.sessionId < 0x1_0000
            && 0 <= d.result.value.milliseconds < 0x1_0000
            && 0 <= d.result.value.sessionMinutes < 0x1_0000)
      && (d.result.Err? ==> d == Decoded(Err(ShortRead), |buffer|))
  {
    Pow256Values();
  }

  /** The inherited decoder gives a KeepAliveResponse the KeepAlive opcode 3
      instead of its class's 4; every other field agrees with the corrected
      decoder. */
  lemma KeepAliveResponseOpcodeFinding(buffer: seq<byte>, pos: nat)
    requires pos + 6 <= |buffer|
    ensures var w := KeepAliveResponseAsWritten(buffer, pos);
      var d := KeepAliveLayout(buffer, pos, true);
      && w.result.Ok? && d.result.Ok? && w.pos == d.pos
      && w.result.value.opcode == KeepAliveOpcode != ClassOpcode(w.result.value) == KeepAliveResponseOpcode
      && d.result.value.opcode == ClassOpcode(d.result.value)
      && var v := w.result.value;
         v.KeepAliveResponse?
         && d.result.value == KeepAliveResponse(KeepAliveResponseOpcode, v.sessionId, v.milliseconds, v.sessionMinutes)
  {
  }

  // ---------------------------------------------------------------------------
  // SessionAccept

  /** A SessionAccept with its class opcode whose fields fit their wire widths. */
  predicate AcceptEncodable(c: Control) {
    && c.SessionAccept?
    && c.opcode == SessionAcceptOpcode
    && 0 <= c.unknown < 256
    && 0 <= c.fnv < 0x1_0000_0000 && 0 <= c.challengeAnswer < 0x1_0000_0000 && 0 <= c.echo < 0x1_0000_0000
    && -0x8000_0000 <= c.timestamp < 0x8000_0000
    && |c.key| == 16 && |c.nonce| == 16
  }

  /** The 49 bytes the SessionAccept decoder reads back as `c`. */
  function EncodeSessionAccept(c: Control): (e: seq<byte>)
    requires AcceptEncodable(c)
    ensures |e| == 49
  {
    Pow256Values();
    [c.unknown] + (ToLittleEndian(c.fnv, 4) + (ToLittleEndian(c.challengeAnswer, 4) + (ToLittleEndian(c.echo, 4)
      + (Pack(Int32, IntValue(c.timestamp)).value + (c.key + c.nonce)))))
  }

  /** The SessionAccept decoder reads its encoding back, at any position. */
  lemma {:induction false} SessionAcceptRoundTrip(c: Control, prefix: seq<byte>, rest: seq<byte>)
    requires AcceptEncodable(c)
    ensures var e := EncodeSessionAccept(c);
      SessionAcceptLayout(prefix + e + rest, |prefix|) == Decoded(Ok(c), |prefix| + 49)
  {
    Pow256Values();
    var e := EncodeSessionAccept(c);
    var s := prefix + e + rest;
    var p := |prefix|;
    Framed(prefix, e, rest);
    var ts := Pack(Int32, IntValue(c.timestamp)).value;
    var a4 := ts + (c.key + c.nonce);
    var a3 := ToLittleEndian(c.echo, 4) + a4;
    var a2 := ToLittleEndian(c.challengeAnswer, 4) + a3;
    var a1 := ToLittleEndian(c.fnv, 4) + a2;
    Field(s, p, [c.unknown], a1);
    Field(s, p + 1, ToLittleEndian(c.fnv, 4), a2);
    Field(s, p + 5, ToLittleEndian(c.challengeAnswer, 4), a3);
    Field(s, p + 9, ToLittleEndian(c.echo, 4), a4);
    Field(s, p + 13, ts, c.key + c.nonce);
    Field(s, p + 17, c.key, c.nonce);
    assert s[p..p + 1][0] == s[p];
    LittleEndianOfBytes(c.fnv, 4);
    LittleEndianOfBytes(c.challengeAnswer, 4);
    LittleEndianOfBytes(c.echo, 4);
    UnpackPack(Int32, IntValue(c.timestamp));
  }

  /** SessionAccept fails only when the first 17 bytes are short; the key and
      nonce are plain reads of up to 16 bytes each, so it consumes between 17
      and 49 bytes, all 49 exactly when they remain, and the nonce is empty
      when the key came back short. */
  lemma SessionAcceptConsumption(buffer: seq<byte>, pos: nat)
    requires pos <= |buffer|
    ensures var d := SessionAcceptLayout(buffer, pos);
      && (d.result.Ok? <==> pos + 17 <= |buffer|)
      && (d.result.Ok? ==>
            var c := d.result.value;
            && c.SessionAccept? && c.opcode == ClassOpcode(c)
            && pos + 17 <= d.pos <= pos + 49
            && (d.pos == pos + 49 <==> pos + 49 <= |buffer|)
            && d.pos == pos + 17 + |c.key| + |c.nonce|
            && c.key + c.nonce == buffer[pos + 17..d.pos]
            && |c.key| <= 16 && |c.nonce| <= 16
            && (|c.key| < 16 ==> c.nonce == [])
            && -0x8000_0000 <= c.timestamp < 0x8000_0000)
      && (d.result.Err? ==> d == Decoded(Err(ShortRead), |buffer|))
  {
    Pow256Values();
  }

  /** The decoder as written never returns a SessionAccept: once its reads
      succeed the constructor call fails for want of `opcode`, while the
      corrected decoder returns the instance with the class opcode 5. */
  lemma SessionAcceptOpcodeFinding(buffer: seq<byte>, pos: nat)
    requires pos <= |buffer|
    ensures var w := SessionAcceptAsWritten(buffer, pos);
      var d := SessionAcceptLayout(buffer, pos);
      && w.result.Err? && w.pos == d.pos
      && (w.result.error == MissingOpcodeArgument <==> pos + 17 <= |buffer|)
      && (d.result.Ok? <==> pos + 17 <= |buffer|)
      && (d.result.Ok? ==> d.result.value.opcode == ClassOpcode(d.result.value) == SessionAcceptOpcode)
  {
  }

  // ---------------------------------------------------------------------------
  // SessionOffer

  /** SessionOffer consumes 283 bytes plus the challenge length held in its
      22nd byte, and fails exactly when fewer remain; the challenge is the
      bytes right after that length byte, then a u32 nonce and a 256-byte
      signature. */
  lemma SessionOfferConsumption(buffer: seq<byte>, pos: nat)
    requires pos <= |buffer|
    ensures var d := SessionOfferLayout(buffer, pos);
      && (d.result.Ok? <==> pos + 22 <= |buffer| && pos + 283 + buffer[pos + 21] <= |buffer|)
      && (d.result.Ok? ==>
            var c := d.result.value;
            && c.SessionOffer? && c.opcode == ClassOpcode(c)
            && |c.cryptoChallenge| == buffer[pos + 21]
            && d.pos == pos + 283 + |c.cryptoChallenge|
            && c.cryptoChallenge == buffer[pos + 22..pos + 22 + |c.cryptoChallenge|]
            && |c.cryptoSignature| == 256
            && OfferEncodable(c))
      && (d.result.Err? ==> d == Decoded(Err(ShortRead), |buffer|))
  {
    Pow256Values();
  }
}
