/** The frame-header rule inside `Session.process_loop` of wizmsg/session.py,
    lifted out of the asynchronous loop: the stream is a byte sequence read
    through a cursor, and each turn of the loop reads one frame. */
module Sessions {
  import opened Wrappers
  import opened Bytes
  import opened Constants

  /** The size field of a frame once the 4-byte header is in: a value below
      0x8000 is the size itself, any other value announces a u32 size in the
      next 4 bytes. Short reads fail with the stream at its end. */
  function SizeAt(stream: seq<byte>, pos: nat, small: nat): (d: Decoded<nat>)
    requires pos <= |stream|
    ensures d.pos <= |stream|
    ensures d.result.Ok? ==> d.pos == if small < LargeDataMagic then pos else pos + 4
    ensures d.result.Err? ==> d == Decoded(Err(ShortRead), |stream|)
  {
    if small < LargeDataMagic then Decoded(Ok(small), pos)
    else
      var (large, next) := ReadAt(stream, pos, 4);
      if |large| < 4 then Decoded(Err(ShortRead), next) else Decoded(Ok(LittleEndian(large)), next)
  }

  /** One frame from `pos`: a u16 magic and a u16 size read together as 4
      bytes (both fail together when the read is short), the magic checked
      against 0xF00D, the size escaped to a u32 when it is at least 0x8000,
      then a body read of size + 1 bytes, which the stream may cut short. */
  function FrameAt(stream: seq<byte>, pos: nat): (d: Decoded<seq<byte>>)
    requires pos <= |stream|
    ensures d.pos <= |stream|
  {
    var (header, next) := ReadAt(stream, pos, 4);
    if |header| < 4 then Decoded(Err(ShortRead), next)
    else
      var magic := LittleEndian(header[0..2]);
      if magic != DataStartMagic then Decoded(Err(MagicMismatch(magic)), next)
      else
        var size := SizeAt(stream, next, LittleEndian(header[2..4]));
        if size.result.Err? then Decoded(Err(size.result.error), size.pos)
        else
          var (body, end) := ReadAt(stream, size.pos, size.result.value + 1);
          Decoded(Ok(body), end)
  }

  /** `FrameAt` as written: `struct.unpack("<I", ...)` returns a 1-tuple, so
      `size + 1` raises for every large frame. */
  function FrameAtAsWritten(stream: seq<byte>, pos: nat): (d: Decoded<seq<byte>>)
    requires pos <= |stream|
  {
    var (header, next) := ReadAt(stream, pos, 4);
    if |header| < 4 then Decoded(Err(ShortRead), next)
    else
      var magic := LittleEndian(header[0..2]);
      if magic != DataStartMagic then Decoded(Err(MagicMismatch(magic)), next)
      else
        var small := LittleEndian(header[2..4]);
        var size := SizeAt(stream, next, small);
        if size.result.Err? then Decoded(Err(size.result.error), size.pos)
        else if small >= LargeDataMagic then Decoded(Err(TupleArithmetic), size.pos)
        else
          var (body, end) := ReadAt(stream, size.pos, size.result.value + 1);
          Decoded(Ok(body), end)
  }

  /** A frame that reads successfully moves past at least its 4-byte header. */
  lemma FrameAdvances(stream: seq<byte>, pos: nat)
    requires pos <= |stream|
    ensures FrameAt(stream, pos).result.Ok? ==> pos + 4 <= FrameAt(stream, pos).pos
  {
  }

  /** What the loop reads from `pos` on: the frame bodies in order, and the
      exception that ends it; the stream always ends in one, at the latest
      when a header read comes back short. */
  function Frames(stream: seq<byte>, pos: nat): (r: (seq<seq<byte>>, Error))
    requires pos <= |stream|
    decreases |stream| - pos
  {
    FrameAdvances(stream, pos);
    var d := FrameAt(stream, pos);
    if d.result.Err? then ([], d.result.error)
    else
      var (rest, e) := Frames(stream, d.pos);
      ([d.result.value] + rest, e)
  }

  /** One turn of `process_loop`: the header, the optional large size and the
      body, each a read on the stream. */
  method ReadFrame(reader: ByteInterface) returns (r: Result<seq<byte>>)
    requires reader.Valid()
    modifies reader
    ensures reader.Valid() && reader.buffer == old(reader.buffer)
    ensures Decoded(r, reader.pos) == FrameAt(old(reader.buffer), old(reader.pos))
  {
    var magicAndSize := reader.Read(4);
    if |magicAndSize| < 4 {
      return Err(ShortRead);
    }
    var magic := LittleEndian(magicAndSize[0..2]);
    var size := LittleEndian(magicAndSize[2..4]);
    if magic != DataStartMagic {
      return Err(MagicMismatch(magic));
    }
    if size >= LargeDataMagic {
      var largeSizeData := reader.Read(4);
      if |largeSizeData| < 4 {
        return Err(ShortRead);
      }
      size := LittleEndian(largeSizeData);
    }
    var data := reader.Read(size + 1);
    r := Ok(data);
  }

  /** `process_loop`: read frames until an exception ends the loop, and
      return the bodies read together with that exception. */
  method ProcessLoop(reader: ByteInterface) returns (frames: seq<seq<byte>>, error: Error)
    requires reader.Valid()
    modifies reader
    ensures reader.Valid() && reader.buffer == old(reader.buffer)
    ensures (frames, error) == Frames(old(reader.buffer), old(reader.pos))
  {
    frames := [];
    var stream := reader.buffer;
    ghost var start := reader.pos;
    assert frames + Frames(stream, start).0 == Frames(stream, start).0;
    while true
      invariant reader.Valid() && reader.buffer == stream
      invariant var r := Frames(stream, reader.pos); Frames(stream, start) == (frames + r.0, r.1)
      decreases |stream| - reader.pos
    {
      ghost var before := reader.pos;
      FrameAdvances(stream, before);
      var data := ReadFrame(reader);
      assert FrameAt(stream, before) == Decoded(data, reader.pos);
      if data.Err? {
        assert Frames(stream, before) == ([], data.error);
        assert frames + [] == frames;
        return frames, data.error;
      }
      ghost var r := Frames(stream, reader.pos);
      assert Frames(stream, before) == ([data.value] + r.0, r.1);
      assert frames + ([data.value] + r.0) == (frames + [data.value]) + r.0;
      frames := frames + [data.value];
    }
  }

  // ---------------------------------------------------------------------------
  // A writer for the header rule

  /** The frame the header rule reads back as `body`: the small header when
      `|body| - 1` fits below 0x8000, otherwise the escape value 0x8000 and
      the u32 size. */
  function EncodeFrame(body: seq<byte>): (e: seq<byte>)
    requires 1 <= |body| <= 0x1_0000_0000
    ensures |e| == (if |body| - 1 < LargeDataMagic then 4 else 8) + |body|
  {
    Pow256Values();
    var size := |body| - 1;
    if size < LargeDataMagic then ToLittleEndian(DataStartMagic, 2) + (ToLittleEndian(size, 2) + body)
    else ToLittleEndian(DataStartMagic, 2) + (ToLittleEndian(LargeDataMagic, 2) + (ToLittleEndian(size, 4) + body))
  }

  /** The header is 4 bytes, or 8 when the size escapes to a u32, and the
      body is the next size + 1 bytes or what is left of them. */
  lemma {:induction false} FrameLayout(stream: seq<byte>, pos: nat)
    requires pos <= |stream|
    ensures pos + 4 > |stream| ==> FrameAt(stream, pos) == Decoded(Err(ShortRead), |stream|)
    ensures pos + 4 <= |stream| ==>
      var magic := LittleEndian(stream[pos..pos + 2]);
      var small := LittleEndian(stream[pos + 2..pos + 4]);
      FrameAt(stream, pos) ==
        if magic != DataStartMagic then Decoded(Err(MagicMismatch(magic)), pos + 4)
        else if small < LargeDataMagic then
          var (body, end) := ReadAt(stream, pos + 4, small + 1);
          Decoded(Ok(body), end)
        else if pos + 8 > |stream| then Decoded(Err(ShortRead), |stream|)
        else
          var (body, end) := ReadAt(stream, pos + 8, LittleEndian(stream[pos + 4..pos + 8]) + 1);
          Decoded(Ok(body), end)
  {
    if pos + 4 <= |stream| {
      var header := stream[pos..pos + 4];
      assert header[0..2] == stream[pos..pos + 2] && header[2..4] == stream[pos + 2..pos + 4];
    }
  }

  /** A 4-byte header with the magic and a small size, then the body. */
  lemma {:induction false} SmallFrameAt(s: seq<byte>, p: nat, body: seq<byte>)
    requires 1 <= |body| && |body| - 1 < LargeDataMagic && p + 4 + |body| <= |s|
    requires LittleEndian(s[p..p + 2]) == DataStartMagic && LittleEndian(s[p + 2..p + 4]) == |body| - 1
    requires s[p + 4..p + 4 + |body|] == body
    ensures FrameAt(s, p) == Decoded(Ok(body), p + 4 + |body|)
  {
    FrameLayout(s, p);
    assert ReadAt(s, p + 4, |body|) == (body, p + 4 + |body|);
  }

  /** An 8-byte header with the magic, the escape value and the u32 size,
      then the body. */
  lemma {:induction false} LargeFrameAt(s: seq<byte>, p: nat, body: seq<byte>)
    requires LargeDataMagic <= |body| - 1 && p + 8 + |body| <= |s|
    requires LittleEndian(s[p..p + 2]) == DataStartMagic && LittleEndian(s[p + 2..p + 4]) == LargeDataMagic
    requires LittleEndian(s[p + 4..p + 8]) == |body| - 1 && s[p + 8..p + 8 + |body|] == body
    ensures FrameAt(s, p) == Decoded(Ok(body), p + 8 + |body|)
  {
    FrameLayout(s, p);
    assert ReadAt(s, p + 8, |body|) == (body, p + 8 + |body|);
  }

  /** A small frame: the 4-byte header, then the body. */
  lemma {:induction false} SmallFrameRoundTrip(body: seq<byte>, prefix: seq<byte>, rest: seq<byte>)
    requires 1 <= |body| && |body| - 1 < LargeDataMagic
    ensures var e := EncodeFrame(body);
      FrameAt(prefix + e + rest, |prefix|) == Decoded(Ok(body), |prefix| + |e|)
  {
    Pow256Values();
    var e := EncodeFrame(body);
    var s := prefix + e + rest;
    var p := |prefix|;
    var size := |body| - 1;
    Framed(prefix, e, rest);
    Field(s, p, ToLittleEndian(DataStartMagic, 2), ToLittleEndian(size, 2) + body);
    Field(s, p + 2, ToLittleEndian(size, 2), body);
    LittleEndianOfBytes(DataStartMagic, 2);
    LittleEndianOfBytes(size, 2);
    SmallFrameAt(s, p, body);
  }

  /** A large frame: the escape value 0x8000 and the u32 size, then the body. */
  lemma {:induction false} LargeFrameRoundTrip(body: seq<byte>, prefix: seq<byte>, rest: seq<byte>)
    requires LargeDataMagic <= |body| - 1 && |body| <= 0x1_0000_0000
    ensures var e := EncodeFrame(body);
      FrameAt(prefix + e + rest, |prefix|) == Decoded(Ok(body), |prefix| + |e|)
  {
    Pow256Values();
    var e := EncodeFrame(body);
    var s := prefix + e + rest;
    var p := |prefix|;
    var size := |body| - 1;
    Framed(prefix, e, rest);
    Field(s, p, ToLittleEndian(DataStartMagic, 2), ToLittleEndian(LargeDataMagic, 2) + (ToLittleEndian(size, 4) + body));
    Field(s, p + 2, ToLittleEndian(LargeDataMagic, 2), ToLittleEndian(size, 4) + body);
    Field(s, p + 4, ToLittleEndian(size, 4), body);
    LittleEndianOfBytes(DataStartMagic, 2);
    LittleEndianOfBytes(LargeDataMagic, 2);
    LittleEndianOfBytes(size, 4);
    LargeFrameAt(s, p, body);
  }

  /** An encoded frame reads back as its body wherever it sits in the stream,
      and the reader stops right after it. */
  lemma {:induction false} FrameRoundTrip(body: seq<byte>, prefix: seq<byte>, rest: seq<byte>)
    requires 1 <= |body| <= 0x1_0000_0000
    ensures var e := EncodeFrame(body);
      FrameAt(prefix + e + rest, |prefix|) == Decoded(Ok(body), |prefix| + |e|)
  {
    if |body| - 1 < LargeDataMagic {
      SmallFrameRoundTrip(body, prefix, rest);
    } else {
      LargeFrameRoundTrip(body, prefix, rest);
    }
  }

  /** The concatenated encodings of a list of bodies. */
  function EncodeFrames(bodies: seq<seq<byte>>): (e: seq<byte>)
    requires forall i | 0 <= i < |bodies| :: 1 <= |bodies[i]| <= 0x1_0000_0000
  {
    if bodies == [] then [] else EncodeFrame(bodies[0]) + EncodeFrames(bodies[1..])
  }

  /** A successful frame puts its body in front of what the loop reads next. */
  lemma {:induction false} FramesStep(stream: seq<byte>, pos: nat, body: seq<byte>, next: nat)
    requires pos <= |stream| && FrameAt(stream, pos) == Decoded(Ok(body), next)
    ensures next <= |stream|
    ensures Frames(stream, pos) == ([body] + Frames(stream, next).0, Frames(stream, next).1)
  {
  }

  /** Fewer than four bytes left: the loop stops on the short header read. */
  lemma {:induction false} FramesAtEnd(stream: seq<byte>, pos: nat)
    requires pos <= |stream| < pos + 4
    ensures Frames(stream, pos) == ([], ShortRead)
  {
    assert FrameAt(stream, pos) == Decoded(Err(ShortRead), |stream|);
  }

  /** An encoded frame found at `pos` of any stream reads back as its body. */
  lemma {:induction false} FrameAtEncoded(stream: seq<byte>, pos: nat, body: seq<byte>)
    requires 1 <= |body| <= 0x1_0000_0000
    requires pos + |EncodeFrame(body)| <= |stream| && stream[pos..pos + |EncodeFrame(body)|] == EncodeFrame(body)
    ensures FrameAt(stream, pos) == Decoded(Ok(body), pos + |EncodeFrame(body)|)
  {
    var e := EncodeFrame(body);
    var prefix, rest := stream[..pos], stream[pos + |e|..];
    assert stream == prefix + e + rest;
    FrameRoundTrip(body, prefix, rest);
  }

  /** A non-empty list encodes as its first frame followed by the others. */
  lemma {:induction false} EncodeFramesCons(bodies: seq<seq<byte>>)
    requires bodies != [] && forall i | 0 <= i < |bodies| :: 1 <= |bodies[i]| <= 0x1_0000_0000
    ensures forall i | 0 <= i < |bodies[1..]| :: 1 <= |bodies[1..][i]| <= 0x1_0000_0000
    ensures EncodeFrames(bodies) == EncodeFrame(bodies[0]) + EncodeFrames(bodies[1..])
  {
    assert forall i | 0 <= i < |bodies[1..]| :: bodies[1..][i] == bodies[i + 1];
  }

  /** Bytes from `pos` on that are `e` then `tail` hold `e` at `pos` and
      `tail` right after it. */
  lemma {:induction false} SplitAt(stream: seq<byte>, pos: nat, e: seq<byte>, tail: seq<byte>)
    requires pos <= |stream| && stream[pos..] == e + tail
    ensures pos + |e| <= |stream|
    ensures stream[pos..pos + |e|] == e
    ensures stream[pos + |e|..] == tail
  {
    assert stream[pos..pos + |e|] == (e + tail)[..|e|];
    assert stream[pos + |e|..] == (e + tail)[|e|..];
  }

  /** A frame reading back the first body, before a run of frames reading
      back the others, makes the whole list. */
  lemma {:induction false} FramesCons(stream: seq<byte>, pos: nat, next: nat, bodies: seq<seq<byte>>)
    requires bodies != [] && pos <= |stream|
    requires FrameAt(stream, pos) == Decoded(Ok(bodies[0]), next)
    requires next <= |stream| && Frames(stream, next) == (bodies[1..], ShortRead)
    ensures Frames(stream, pos) == (bodies, ShortRead)
  {
    FramesStep(stream, pos, bodies[0], next);
    assert [bodies[0]] + bodies[1..] == bodies;
  }

  /** From a position where encoded frames begin, the loop reads back their
      bodies and stops on the short header read at the end. */
  lemma {:induction false} FramesFrom(stream: seq<byte>, pos: nat, bodies: seq<seq<byte>>)
    requires forall i | 0 <= i < |bodies| :: 1 <= |bodies[i]| <= 0x1_0000_0000
    requires pos <= |stream| && stream[pos..] == EncodeFrames(bodies)
    ensures Frames(stream, pos) == (bodies, ShortRead)
    decreases |bodies|
  {
    if bodies == [] {
      FramesAtEnd(stream, pos);
    } else {
      var next := pos + |EncodeFrame(bodies[0])|;
      EncodeFramesCons(bodies);
      SplitAt(stream, pos, EncodeFrame(bodies[0]), EncodeFrames(bodies[1..]));
      FrameAtEncoded(stream, pos, bodies[0]);
      FramesFrom(stream, next, bodies[1..]);
      FramesCons(stream, pos, next, bodies);
    }
  }

  /** The loop reads back every body of a stream of encoded frames, in order,
      and then stops on the short header read at the end of the stream. */
  lemma {:induction false} FramesRoundTrip(prefix: seq<byte>, bodies: seq<seq<byte>>)
    requires forall i | 0 <= i < |bodies| :: 1 <= |bodies[i]| <= 0x1_0000_0000
    ensures Frames(prefix + EncodeFrames(bodies), |prefix|) == (bodies, ShortRead)
  {
    var s := prefix + EncodeFrames(bodies);
    assert s[|prefix|..] == EncodeFrames(bodies);
    FramesFrom(s, |prefix|, bodies);
  }

  /** A magic other than 0xF00D ends the loop with the header consumed. */
  lemma MagicChecked(stream: seq<byte>, pos: nat)
    requires pos + 4 <= |stream|
    ensures var magic := LittleEndian(stream[pos..pos + 2]);
      magic != DataStartMagic ==> FrameAt(stream, pos) == Decoded(Err(MagicMismatch(magic)), pos + 4)
  {
    assert stream[pos..pos + 4][0..2] == stream[pos..pos + 2];
  }

  // ---------------------------------------------------------------------------
  // The large-size finding

  /** Below 0x8000 the loop as written and the corrected rule agree; from
      0x8000 on, whenever the u32 size is present, the loop as written fails
      with the tuple error after the 8-byte header. */
  lemma {:induction false} LargeSizeFinding(stream: seq<byte>, pos: nat)
    requires pos + 8 <= |stream|
    requires LittleEndian(stream[pos..pos + 2]) == DataStartMagic
    ensures var small := LittleEndian(stream[pos + 2..pos + 4]);
      && (small < LargeDataMagic ==> FrameAtAsWritten(stream, pos) == FrameAt(stream, pos))
      && (small >= LargeDataMagic ==>
            && FrameAtAsWritten(stream, pos) == Decoded(Err(TupleArithmetic), pos + 8)
            && FrameAt(stream, pos).result.Ok?
            && FrameAt(stream, pos).result.value == ReadAt(stream, pos + 8, LittleEndian(stream[pos + 4..pos + 8]) + 1).0)
  {
    var header := stream[pos..pos + 4];
    assert header[0..2] == stream[pos..pos + 2] && header[2..4] == stream[pos + 2..pos + 4];
  }

  /** The fields of the counterexample stream: the magic, the large-size
      escape, a zero u32 size and one body byte. */
  lemma LargeSampleFields(s: seq<byte>)
    requires s == [0x0D, 0xF0, 0x00, 0x80, 0, 0, 0, 0, 0x42]
    ensures LittleEndian(s[0..2]) == 0xF00D && LittleEndian(s[2..4]) == 0x8000
    ensures LittleEndian(s[4..8]) == 0 && s[8..9] == [0x42]
  {
    assert LittleEndian(s[0..2]) == 0xF00D by {
      assert s[0..2] == [0x0D, 0xF0];
      assert [0x0D, 0xF0][1..] == [0xF0];
    }
    assert LittleEndian(s[2..4]) == 0x8000 by {
      assert s[2..4] == [0x00, 0x80];
      assert [0x00, 0x80][1..] == [0x80];
    }
    assert LittleEndian(s[4..8]) == 0 by {
      assert s[4..8] == [0, 0, 0, 0];
      assert [0, 0, 0, 0][1..] == [0, 0, 0];
      assert [0, 0, 0][1..] == [0, 0];
      assert [0, 0][1..] == [0];
    }
  }

  /** A one-byte body behind the large-size escape: the loop as written fails
      where the corrected rule returns the byte. */
  lemma LargeSizeCounterexample()
    ensures FrameAtAsWritten([0x0D, 0xF0, 0x00, 0x80, 0, 0, 0, 0, 0x42], 0) == Decoded(Err(TupleArithmetic), 8)
    ensures FrameAt([0x0D, 0xF0, 0x00, 0x80, 0, 0, 0, 0, 0x42], 0) == Decoded(Ok([0x42]), 9)
  {
    var s: seq<byte> := [0x0D, 0xF0, 0x00, 0x80, 0, 0, 0, 0, 0x42];
    LargeSampleFields(s);
    LargeSizeFinding(s, 0);
  }
}
