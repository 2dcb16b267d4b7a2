/** wizmsg/constants.py: the frame magic numbers and the table from a
    schema's symbolic type tag to the cursor accessor that reads it. */
module Constants {
  import opened Wrappers
  import opened Bytes

  const DataStartMagic: int := 0xF00D
  const LargeDataMagic: int := 0x8000

  /** The accessor names the table maps to. */
  datatype ReadMethod =
    | ReadSigned1 | ReadUnsigned1 | ReadSigned2 | ReadUnsigned2
    | ReadSigned4 | ReadUnsigned4 | ReadUnsigned8
    | ReadString | ReadWideString | ReadFloat

  const WizTypeConversionTable: map<string, ReadMethod> := map[
    "BYT" := ReadSigned1,
    "UBYT" := ReadUnsigned1,
    "SHRT" := ReadSigned2,
    "USHRT" := ReadUnsigned2,
    "INT" := ReadSigned4,
    "UINT" := ReadUnsigned4,
    "GID" := ReadUnsigned8,
    "STR" := ReadString,
    "WSTR" := ReadWideString,
    "FLT" := ReadFloat
  ]

  /** The struct format an accessor reads, for the fixed-width ones. */
  function FormatOf(m: ReadMethod): (f: Option<Format>)
    ensures f.Some? <==> !m.ReadString? && !m.ReadWideString?
    ensures f.Some? ==> f.value.IsInteger() || f.value.Float32?
  {
    match m
    case ReadSigned1 => Some(Int8)
    case ReadUnsigned1 => Some(UInt8)
    case ReadSigned2 => Some(Int16)
    case ReadUnsigned2 => Some(UInt16)
    case ReadSigned4 => Some(Int32)
    case ReadUnsigned4 => Some(UInt32)
    case ReadUnsigned8 => Some(UInt64)
    case ReadFloat => Some(Float32)
    case ReadString => None
    case ReadWideString => None
  }

  /** `WIZ_TYPE_CONVERSION_TABLE.get(tag)`. */
  function Lookup(tag: string): Option<ReadMethod> {
    if tag in WizTypeConversionTable then Some(WizTypeConversionTable[tag]) else None
  }

  /** A tag has an accessor exactly when it is one of the ten table keys. */
  lemma LookupDefined(tag: string)
    ensures Lookup(tag).Some? <==> tag in {"BYT", "UBYT", "SHRT", "USHRT", "INT", "UINT", "GID", "STR", "WSTR", "FLT"}
  {
  }

  /** `tag` is in the table and names an integer read of `width` bytes with
      the given signedness. */
  predicate IntegerTag(tag: string, width: nat, signed: bool) {
    && tag in WizTypeConversionTable
    && var f := FormatOf(WizTypeConversionTable[tag]);
    && f.Some? && f.value.IsInteger() && f.value.Size() == width && f.value.IsSigned() == signed
  }

  /** The table holds exactly ten tags. */
  lemma TableKeys()
    ensures WizTypeConversionTable.Keys == {"BYT", "UBYT", "SHRT", "USHRT", "INT", "UINT", "GID", "STR", "WSTR", "FLT"}
  {
  }

  /** BYT, SHRT and INT are signed reads of 1, 2 and 4 bytes. */
  lemma SignedTags()
    ensures IntegerTag("BYT", 1, true) && IntegerTag("SHRT", 2, true) && IntegerTag("INT", 4, true)
  {
  }

  /** The U prefix means unsigned, and GID is an unsigned 8-byte read. */
  lemma UnsignedTags()
    ensures IntegerTag("UBYT", 1, false) && IntegerTag("USHRT", 2, false) && IntegerTag("UINT", 4, false)
    ensures IntegerTag("GID", 8, false)
  {
  }

  /** STR, WSTR and FLT go to the string, wide-string and float readers. */
  lemma ReaderTags()
    ensures Lookup("STR") == Some(ReadString) && Lookup("WSTR") == Some(ReadWideString)
    ensures Lookup("FLT") == Some(ReadFloat) && FormatOf(ReadFloat) == Some(Float32)
  {
  }
}
