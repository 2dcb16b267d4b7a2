/** The byte cursor of wizmsg/byte_interface.py: a buffer with a read position,
    and one accessor per little-endian fixed-width format. */
module Bytes {
  import opened Wrappers

  type byte = x: int | 0 <= x < 256

  function Pow256(n: nat): (r: nat)
    ensures r >= 1
  {
    if n == 0 then 1 else 256 * Pow256(n - 1)
  }

  /** The unsigned value of `s` read least significant byte first. */
  function LittleEndian(s: seq<byte>): (v: nat)
    ensures v < Pow256(|s|)
  {
    if s == [] then 0 else s[0] + 256 * LittleEndian(s[1..])
  }

  /** The `n` bytes that hold `v` least significant byte first. */
  function ToLittleEndian(v: nat, n: nat): (s: seq<byte>)
    requires v < Pow256(n)
    ensures |s| == n
  {
    if n == 0 then []
    else
      assert v / 256 < Pow256(n - 1) by { DivBound(v, Pow256(n - 1)); }
      [v % 256] + ToLittleEndian(v / 256, n - 1)
  }

  lemma DivBound(v: nat, p: nat)
    requires v < 256 * p
    ensures v / 256 < p
  {
  }

  lemma {:induction false} LittleEndianOfBytes(v: nat, n: nat)
    requires v < Pow256(n)
    ensures LittleEndian(ToLittleEndian(v, n)) == v
  {
    if n > 0 {
      DivBound(v, Pow256(n - 1));
      LittleEndianOfBytes(v / 256, n - 1);
      var s := ToLittleEndian(v, n);
      assert s[1..] == ToLittleEndian(v / 256, n - 1);
    }
  }

  lemma {:induction false} BytesOfLittleEndian(s: seq<byte>)
    ensures ToLittleEndian(LittleEndian(s), |s|) == s
  {
    if s != [] {
      var rest := LittleEndian(s[1..]);
      var v := s[0] + 256 * rest;
      assert v % 256 == s[0] && v / 256 == rest;
      BytesOfLittleEndian(s[1..]);
      assert s == [s[0]] + s[1..];
    }
  }

  /** The two's-complement reading of `u` as an `n`-byte quantity. */
  function TwosComplement(u: nat, n: nat): int {
    if 2 * u >= Pow256(n) then u - Pow256(n) else u
  }

  /** The struct format strings the accessors use: "?", "<B", "<b", "<H",
      "<h", "<I", "<i", "<Q", "<q" and "<f". */
  datatype Format = Boolean | UInt8 | Int8 | UInt16 | Int16 | UInt32 | Int32 | UInt64 | Int64 | Float32 {
    /** `struct.calcsize`. */
    function Size(): nat {
      match this
      case Boolean => 1
      case UInt8 => 1
      case Int8 => 1
      case UInt16 => 2
      case Int16 => 2
      case UInt32 => 4
      case Int32 => 4
      case UInt64 => 8
      case Int64 => 8
      case Float32 => 4
    }

    predicate IsInteger() { !Boolean? && !Float32? }

    predicate IsSigned() { Int8? || Int16? || Int32? || Int64? }
  }

  /** A value `struct.unpack` yields. A float is kept as its 32 raw bits. */
  datatype Unpacked = BoolValue(b: bool) | IntValue(i: int) | FloatBits(bits: nat)

  /** The values `struct.pack` accepts for a format: an unsigned N-byte value
      in [0, 256^N), a signed one in [-256^N/2, 256^N/2). */
  predicate Representable(f: Format, v: Unpacked) {
    var p := Pow256(f.Size());
    match f
    case Boolean => v.BoolValue?
    case Float32 => v.FloatBits? && v.bits < p
    case _ =>
      v.IntValue? && if f.IsSigned() then -(p / 2) <= v.i < p / 2 else 0 <= v.i < p
  }

  /** `struct.unpack(f, s)[0]`. */
  function Unpack(f: Format, s: seq<byte>): (v: Unpacked)
    requires |s| == f.Size()
  {
    match f
    case Boolean => BoolValue(s[0] != 0)
    case Float32 => FloatBits(LittleEndian(s))
    case _ => IntValue(if f.IsSigned() then TwosComplement(LittleEndian(s), |s|) else LittleEndian(s))
  }

  /** Whatever the bytes, the unpacked value lies in the format's range. */
  lemma UnpackRepresentable(f: Format, s: seq<byte>)
    requires |s| == f.Size()
    ensures Representable(f, Unpack(f, s))
  {
    var p := Pow256(f.Size());
    assert p % 2 == 0 || f.Size() == 0 by {
      if f.Size() > 0 { assert p == 256 * Pow256(f.Size() - 1); }
    }
  }

  /** `struct.pack(f, v)`, the model's writer. */
  function Pack(f: Format, v: Unpacked): (r: Result<seq<byte>>)
    ensures r.Ok? <==> Representable(f, v)
    ensures r.Ok? ==> |r.value| == f.Size()
  {
    if !Representable(f, v) then Err(PackOutOfRange)
    else
      match f
      case Boolean => Ok([if v.b then 1 else 0])
      case Float32 => Ok(ToLittleEndian(v.bits, 4))
      case _ =>
        var p := Pow256(f.Size());
        Ok(ToLittleEndian(if v.i < 0 then v.i + p else v.i, f.Size()))
  }

  /** Packing a representable value and unpacking the bytes gives it back. */
  lemma UnpackPack(f: Format, v: Unpacked)
    requires Representable(f, v)
    ensures Unpack(f, Pack(f, v).value) == v
  {
    var n := f.Size();
    var p := Pow256(n);
    match f
    case Boolean =>
    case Float32 => LittleEndianOfBytes(v.bits, 4);
    case UInt8 => LittleEndianOfBytes(v.i, n);
    case UInt16 => LittleEndianOfBytes(v.i, n);
    case UInt32 => LittleEndianOfBytes(v.i, n);
    case UInt64 => LittleEndianOfBytes(v.i, n);
    case _ => LittleEndianOfBytes(if v.i < 0 then v.i + p else v.i, n);
  }

  /** For the integer formats every byte string is the packing of exactly one value. */
  lemma PackUnpack(f: Format, s: seq<byte>)
    requires f.IsInteger() && |s| == f.Size()
    ensures Pack(f, Unpack(f, s)) == Ok(s)
  {
    UnpackRepresentable(f, s);
    BytesOfLittleEndian(s);
  }

  /** The end of a `read(n)` from `pos`: short reads stop at the end. */
  function ReadEnd(buffer: seq<byte>, pos: nat, n: nat): (end: nat)
    requires pos <= |buffer|
    ensures pos <= end <= |buffer|
    ensures end == pos + n || end == |buffer|
  {
    if pos + n <= |buffer| then pos + n else |buffer|
  }

  /** `BytesIO.read(n)`: at most `n` bytes, fewer at the end of the buffer,
      and the position moves past what was returned. */
  function ReadAt(buffer: seq<byte>, pos: nat, n: nat): (r: (seq<byte>, nat))
    requires pos <= |buffer|
    ensures r.1 <= |buffer| && r.1 == pos + |r.0| && |r.0| <= n
    ensures |r.0| == n || r.1 == |buffer|
    ensures r.0 == buffer[pos..r.1]
  {
    var end := ReadEnd(buffer, pos, n);
    (buffer[pos..end], end)
  }

  /** `read_format_string(f)`: read `calcsize(f)` bytes and unpack them. The
      read has already moved the position when `struct.unpack` rejects a short
      result, so a failed read leaves the position at the end of the buffer. */
  function UnpackAt(f: Format, buffer: seq<byte>, pos: nat): (d: Decoded<Unpacked>)
    requires pos <= |buffer|
    ensures d.pos <= |buffer|
    ensures d.result.Ok? <==> pos + f.Size() <= |buffer|
    ensures d.result.Ok? ==> d.pos == pos + f.Size() && d.result.value == Unpack(f, buffer[pos..pos + f.Size()])
    ensures d.result.Err? ==> d == Decoded(Err(ShortRead), |buffer|)
  {
    var (data, next) := ReadAt(buffer, pos, f.Size());
    if |data| == f.Size() then Decoded(Ok(Unpack(f, data)), next) else Decoded(Err(ShortRead), next)
  }

  /** An integer accessor: the value of `UnpackAt` for an integer format. */
  function IntAt(f: Format, buffer: seq<byte>, pos: nat): (d: Decoded<int>)
    requires f.IsInteger() && pos <= |buffer|
  {
    var u := UnpackAt(f, buffer, pos);
    Decoded(if u.result.Ok? then Ok(u.result.value.i) else Err(u.result.error), u.pos)
  }

  /** An unsigned accessor returns the little-endian value of the next bytes,
      so its result lies in [0, 256^N); it consumes exactly N bytes or fails
      exactly when fewer remain. */
  lemma UnsignedAt(f: Format, buffer: seq<byte>, pos: nat)
    requires f.IsInteger() && !f.IsSigned() && pos <= |buffer|
    ensures var d := IntAt(f, buffer, pos);
      && (d.result.Ok? <==> pos + f.Size() <= |buffer|)
      && (d.result.Ok? ==>
            && d.pos == pos + f.Size()
            && d.result.value == LittleEndian(buffer[pos..pos + f.Size()])
            && 0 <= d.result.value < Pow256(f.Size()))
      && (d.result.Err? ==> d.pos == |buffer|)
  {
  }

  /** A signed accessor returns the two's-complement reading of the next N
      bytes, in [-256^N/2, 256^N/2). */
  lemma SignedAt(f: Format, buffer: seq<byte>, pos: nat)
    requires f.IsSigned() && pos <= |buffer|
    ensures var d := IntAt(f, buffer, pos);
      && (d.result.Ok? <==> pos + f.Size() <= |buffer|)
      && (d.result.Ok? ==>
            && d.pos == pos + f.Size()
            && d.result.value == TwosComplement(LittleEndian(buffer[pos..pos + f.Size()]), f.Size())
            && -(Pow256(f.Size()) / 2) <= d.result.value < Pow256(f.Size()) / 2)
      && (d.result.Err? ==> d.pos == |buffer|)
  {
    if pos + f.Size() <= |buffer| {
      UnpackRepresentable(f, buffer[pos..pos + f.Size()]);
    }
  }

  /** A one-byte little-endian value is the byte itself. */
  lemma {:induction false} ByteValue(buffer: seq<byte>, pos: nat)
    requires pos < |buffer|
    ensures LittleEndian(buffer[pos..pos + 1]) == buffer[pos]
  {
    assert buffer[pos..pos + 1][1..] == [];
  }

  /** `a` sits at `at` in `s` followed by `r`. */
  lemma {:induction false} Field(s: seq<byte>, at: nat, a: seq<byte>, r: seq<byte>)
    requires at + |a| + |r| <= |s| && s[at..at + |a| + |r|] == a + r
    ensures s[at..at + |a|] == a && s[at + |a|..at + |a| + |r|] == r
  {
    assert forall i | 0 <= i < |a| :: a[i] == (a + r)[i] == s[at + i];
    assert forall i | 0 <= i < |r| :: r[i] == (a + r)[|a| + i] == s[at + |a| + i];
  }

  /** `e` sits at `|prefix|` in `prefix + e + rest`. */
  lemma {:induction false} Framed(prefix: seq<byte>, e: seq<byte>, rest: seq<byte>)
    ensures (prefix + e + rest)[|prefix|..|prefix| + |e|] == e
  {
    var s := prefix + e + rest;
    assert forall i | 0 <= i < |e| :: s[|prefix|..|prefix| + |e|][i] == e[i];
  }

  /** The 2^(8N) bounds of the four widths. */
  lemma Pow256Values()
    ensures Pow256(1) == 0x100 && Pow256(2) == 0x1_0000
    ensures Pow256(4) == 0x1_0000_0000 && Pow256(8) == 0x1_0000_0000_0000_0000
  {
    assert Pow256(3) == 0x100_0000;
    assert Pow256(5) == 0x100_0000_0000;
    assert Pow256(6) == 0x1_0000_0000_0000;
    assert Pow256(7) == 0x100_0000_0000_0000;
  }

  /** `BytesIO.write` at `pos`: overwrite what is there and extend the buffer. */
  function Overwrite(buffer: seq<byte>, pos: nat, data: seq<byte>): (r: seq<byte>)
    requires pos <= |buffer|
    ensures |r| == if pos + |data| <= |buffer| then |buffer| else pos + |data|
    ensures r[..pos] == buffer[..pos] && r[pos..pos + |data|] == data
    ensures pos + |data| <= |buffer| ==> r[pos + |data|..] == buffer[pos + |data|..]
  {
    buffer[..pos] + data + if pos + |data| <= |buffer| then buffer[pos + |data|..] else []
  }

  class ByteInterface {
    var buffer: seq<byte>
    var pos: nat

    ghost predicate Valid()
      reads this
    {
      pos <= |buffer|
    }

    /** `ByteInterface(initial)`: the position starts at 0. */
    constructor (initial: seq<byte>)
      ensures Valid() && buffer == initial && pos == 0
    {
      buffer := initial;
      pos := 0;
    }

    method Read(n: nat) returns (data: seq<byte>)
      requires Valid()
      modifies this
      ensures Valid() && buffer == old(buffer)
      ensures (data, pos) == ReadAt(buffer, old(pos), n)
    {
      var end := if pos + n <= |buffer| then pos + n else |buffer|;
      data := buffer[pos..end];
      pos := end;
    }

    method ReadFormatString(f: Format) returns (r: Result<Unpacked>)
      requires Valid()
      modifies this
      ensures Valid() && buffer == old(buffer)
      ensures Decoded(r, pos) == UnpackAt(f, buffer, old(pos))
    {
      var size := f.Size();
      var data := Read(size);
      if |data| == size {
        r := Ok(Unpack(f, data));
      } else {
        r := Err(ShortRead);
      }
    }

    /** `bool()`: one byte, true exactly when it is nonzero. */
    method Bool() returns (r: Result<bool>)
      requires Valid()
      modifies this
      ensures Valid() && buffer == old(buffer)
      ensures r.Ok? <==> old(pos) + 1 <= |buffer|
      ensures r.Ok? ==> pos == old(pos) + 1 && r.value == (buffer[old(pos)] != 0)
      ensures r.Err? ==> r.error == ShortRead && pos == |buffer|
    {
      var u := ReadFormatString(Boolean);
      r := if u.Ok? then Ok(u.value.b) else Err(u.error);
    }

    /** `float()`: four bytes, kept as raw bits. */
    method Float() returns (r: Result<nat>)
      requires Valid()
      modifies this
      ensures Valid() && buffer == old(buffer)
      ensures r.Ok? <==> old(pos) + 4 <= |buffer|
      ensures r.Ok? ==> pos == old(pos) + 4 && r.value == LittleEndian(buffer[old(pos)..pos])
      ensures r.Err? ==> r.error == ShortRead && pos == |buffer|
    {
      var u := ReadFormatString(Float32);
      r := if u.Ok? then Ok(u.value.bits) else Err(u.error);
    }

    /** `double()`: the `"<d"` read of eight bytes, kept as raw bits (the
        struct formats above leave doubles out since no type tag uses them). */
    method Double() returns (r: Result<nat>)
      requires Valid()
      modifies this
      ensures Valid() && buffer == old(buffer)
      ensures r.Ok? <==> old(pos) + 8 <= |buffer|
      ensures r.Ok? ==> pos == old(pos) + 8 && r.value == LittleEndian(buffer[old(pos)..pos])
      ensures r.Err? ==> r.error == ShortRead && pos == |buffer|
    {
      var bytes := Read(8);
      r := if |bytes| == 8 then Ok(LittleEndian(bytes)) else Err(ShortRead);
    }

    method ReadInt(f: Format) returns (r: Result<int>)
      requires Valid() && f.IsInteger()
      modifies this
      ensures Valid() && buffer == old(buffer)
      ensures Decoded(r, pos) == IntAt(f, buffer, old(pos))
    {
      var u := ReadFormatString(f);
      r := if u.Ok? then Ok(u.value.i) else Err(u.error);
    }

    method Unsigned1() returns (r: Result<int>)
      requires Valid()
      modifies this
      ensures Valid() && buffer == old(buffer)
      ensures Decoded(r, pos) == IntAt(UInt8, buffer, old(pos))
      ensures r.Ok? <==> old(pos) + 1 <= |buffer|
      ensures r.Ok? ==> pos == old(pos) + 1 && r.value == LittleEndian(buffer[old(pos)..pos])
      ensures r.Err? ==> r.error == ShortRead && pos == |buffer|
    {
      UnsignedAt(UInt8, buffer, pos);
      r := ReadInt(UInt8);
    }

    method Signed1() returns (r: Result<int>)
      requires Valid()
      modifies this
      ensures Valid() && buffer == old(buffer)
      ensures Decoded(r, pos) == IntAt(Int8, buffer, old(pos))
      ensures r.Ok? <==> old(pos) + 1 <= |buffer|
      ensures r.Ok? ==> pos == old(pos) + 1 && r.value == TwosComplement(LittleEndian(buffer[old(pos)..pos]), 1)
      ensures r.Err? ==> r.error == ShortRead && pos == |buffer|
    {
      SignedAt(Int8, buffer, pos);
      r := ReadInt(Int8);
    }

    method Unsigned2() returns (r: Result<int>)
      requires Valid()
      modifies this
      ensures Valid() && buffer == old(buffer)
      ensures Decoded(r, pos) == IntAt(UInt16, buffer, old(pos))
      ensures r.Ok? <==> old(pos) + 2 <= |buffer|
      ensures r.Ok? ==> pos == old(pos) + 2 && r.value == LittleEndian(buffer[old(pos)..pos])
      ensures r.Err? ==> r.error == ShortRead && pos == |buffer|
    {
      UnsignedAt(UInt16, buffer, pos);
      r := ReadInt(UInt16);
    }

    method Signed2() returns (r: Result<int>)
      requires Valid()
      modifies this
      ensures Valid() && buffer == old(buffer)
      ensures Decoded(r, pos) == IntAt(Int16, buffer, old(pos))
      ensures r.Ok? <==> old(pos) + 2 <= |buffer|
      ensures r.Ok? ==> pos == old(pos) + 2 && r.value == TwosComplement(LittleEndian(buffer[old(pos)..pos]), 2)
      ensures r.Err? ==> r.error == ShortRead && pos == |buffer|
    {
      SignedAt(Int16, buffer, pos);
      r := ReadInt(Int16);
    }

    method Unsigned4() returns (r: Result<int>)
      requires Valid()
      modifies this
      ensures Valid() && buffer == old(buffer)
      ensures Decoded(r, pos) == IntAt(UInt32, buffer, old(pos))
      ensures r.Ok? <==> old(pos) + 4 <= |buffer|
      ensures r.Ok? ==> pos == old(pos) + 4 && r.value == LittleEndian(buffer[old(pos)..pos])
      ensures r.Err? ==> r.error == ShortRead && pos == |buffer|
    {
      UnsignedAt(UInt32, buffer, pos);
      r := ReadInt(UInt32);
    }

    method Signed4() returns (r: Result<int>)
      requires Valid()
      modifies this
      ensures Valid() && buffer == old(buffer)
      ensures Decoded(r, pos) == IntAt(Int32, buffer, old(pos))
      ensures r.Ok? <==> old(pos) + 4 <= |buffer|
      ensures r.Ok? ==> pos == old(pos) + 4 && r.value == TwosComplement(LittleEndian(buffer[old(pos)..pos]), 4)
      ensures r.Err? ==> r.error == ShortRead && pos == |buffer|
    {
      SignedAt(Int32, buffer, pos);
      r := ReadInt(Int32);
    }

    method Unsigned8() returns (r: Result<int>)
      requires Valid()
      modifies this
      ensures Valid() && buffer == old(buffer)
      ensures Decoded(r, pos) == IntAt(UInt64, buffer, old(pos))
      ensures r.Ok? <==> old(pos) + 8 <= |buffer|
      ensures r.Ok? ==> pos == old(pos) + 8 && r.value == LittleEndian(buffer[old(pos)..pos])
      ensures r.Err? ==> r.error == ShortRead && pos == |buffer|
    {
      UnsignedAt(UInt64, buffer, pos);
      r := ReadInt(UInt64);
    }

    method Signed8() returns (r: Result<int>)
      requires Valid()
      modifies this
      ensures Valid() && buffer == old(buffer)
      ensures Decoded(r, pos) == IntAt(Int64, buffer, old(pos))
      ensures r.Ok? <==> old(pos) + 8 <= |buffer|
      ensures r.Ok? ==> pos == old(pos) + 8 && r.value == TwosComplement(LittleEndian(buffer[old(pos)..pos]), 8)
      ensures r.Err? ==> r.error == ShortRead && pos == |buffer|
    {
      SignedAt(Int64, buffer, pos);
      r := ReadInt(Int64);
    }

    /** `BytesIO.write`: returns the number of bytes written. */
    method Write(data: seq<byte>) returns (n: nat)
      requires Valid()
      modifies this
      ensures Valid() && n == |data| && pos == old(pos) + |data|
      ensures buffer == Overwrite(old(buffer), old(pos), data)
    {
      buffer := Overwrite(buffer, pos, data);
      pos := pos + |data|;
      n := |data|;
    }

    /** The writer the tests call `write_<format>`: pack, then write. */
    method WriteFormatString(f: Format, v: Unpacked) returns (r: Result<nat>)
      requires Valid()
      modifies this
      ensures Valid()
      ensures r.Ok? <==> Representable(f, v)
      ensures r.Ok? ==> r.value == f.Size() && pos == old(pos) + f.Size()
                        && buffer == Overwrite(old(buffer), old(pos), Pack(f, v).value)
      ensures r.Err? ==> buffer == old(buffer) && pos == old(pos)
    {
      var packed := Pack(f, v);
      if packed.Err? {
        return Err(packed.error);
      }
      var n := Write(packed.value);
      r := Ok(n);
    }

    method Seek(p: nat)
      requires Valid() && p <= |buffer|
      modifies this
      ensures Valid() && buffer == old(buffer) && pos == p
    {
      pos := p;
    }
  }

  /** The round trip of tests/test_byte_interface.py: write a value into an
      empty interface, seek to 0 and read it back. */
  method WriteSeekRead(f: Format, v: Unpacked) returns (r: Result<Unpacked>)
    requires Representable(f, v)
    ensures r == Ok(v)
  {
    var interface := new ByteInterface([]);
    var written := interface.WriteFormatString(f, v);
    interface.Seek(0);
    r := interface.ReadFormatString(f);
    assert interface.buffer == Pack(f, v).value;
    UnpackPack(f, v);
  }
}
