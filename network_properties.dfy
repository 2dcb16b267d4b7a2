/** What decoding a data message promises: the parameters are read back to
    back in definition order, one entry per parameter, an unknown type tag is
    an error, and the declared length changes nothing. */
module NetworkProperties {
  import opened Wrappers
  import opened Dicts
  import opened Bytes
  import opened Constants
  import opened Schema
  import opened Network
  import SchemaProperties

  // ---------------------------------------------------------------------------
  // Reference definitions

  /** The byte width of a fixed-width type tag: every tag but STR and WSTR. */
  function Width(typeTag: string): Option<nat> {
    var m := Lookup(typeTag);
    if m.None? || FormatOf(m.value).None? then None else Some(FormatOf(m.value).value.Size())
  }

  /** The value a fixed-width field holds, from exactly its bytes. */
  function FieldValue(typeTag: string, bytes: seq<byte>): Value
    requires Width(typeTag).Some? && |bytes| == Width(typeTag).value
  {
    var f := FormatOf(Lookup(typeTag).value).value;
    var u := Unpack(f, bytes);
    if f.Float32? then FloatField(u.bits) else IntField(u.i)
  }

  predicate FixedWidth(ps: seq<MessageDefinitionParameter>) {
    forall i :: 0 <= i < |ps| ==> Width(ps[i].paramType).Some?
  }

  /** The bytes the parameters of a fixed-width message take, back to back. */
  function TotalWidth(ps: seq<MessageDefinitionParameter>): nat
    requires FixedWidth(ps)
    decreases |ps|
  {
    if ps == [] then 0 else TotalWidth(ps[..|ps| - 1]) + Width(ps[|ps| - 1].paramType).value
  }

  function Names(ps: seq<MessageDefinitionParameter>): (ns: seq<string>)
    ensures |ns| == |ps| && forall i :: 0 <= i < |ps| ==> ns[i] == ps[i].name
  {
    seq(|ps|, i requires 0 <= i < |ps| => ps[i].name)
  }

  // ---------------------------------------------------------------------------
  // One field

  /** A fixed-width field uses exactly its width when that many bytes remain
      and fails short otherwise, leaving the cursor at the end. */
  lemma {:induction false} ValueAtFixed(typeTag: string, readers: TextReaders, buffer: seq<byte>, pos: nat)
    requires pos <= |buffer| && Width(typeTag).Some?
    ensures var w := Width(typeTag).value; var d := ValueAt(typeTag, readers, buffer, pos);
      && (d.result.Ok? <==> pos + w <= |buffer|)
      && (d.result.Ok? ==> d.pos == pos + w && d.result.value == FieldValue(typeTag, buffer[pos..pos + w]))
      && (d.result.Err? ==> d == Decoded(Err(ShortRead), |buffer|))
  {
  }

  /** ValueAt reads nothing before the cursor. */
  lemma {:induction false} ValueAtLocal(typeTag: string, readers: TextReaders, buffer: seq<byte>, buffer': seq<byte>, pos: nat)
    requires pos <= |buffer| == |buffer'| && buffer[pos..] == buffer'[pos..]
    ensures ValueAt(typeTag, readers, buffer, pos) == ValueAt(typeTag, readers, buffer', pos)
  {
    var w := if Width(typeTag).Some? then Width(typeTag).value else 0;
    if pos + w <= |buffer| {
      assert buffer[pos..pos + w] == buffer[pos..][..w] == buffer'[pos..][..w] == buffer'[pos..pos + w];
    }
  }

  // ---------------------------------------------------------------------------
  // The parameter loop

  /** With distinct parameter names, a successful decode has exactly one entry
      per parameter, in definition order. */
  lemma {:induction false} DecodeKeys(ps: seq<MessageDefinitionParameter>, readers: TextReaders, buffer: seq<byte>, pos: nat)
    requires pos <= |buffer| && Distinct(Names(ps))
    ensures var d := DecodeParameters(ps, readers, buffer, pos);
      d.result.Ok? ==> Keys(d.result.value) == Names(ps)
    decreases |ps|
  {
    if ps != [] {
      var pre := ps[..|ps| - 1];
      NamesLast(ps);
      DecodeKeys(pre, readers, buffer, pos);
      DecodeLastKeys(ps, readers, buffer, pos);
    }
  }

  /** The names of all parameters are those of all but the last, then the
      last one's, which with distinct names is not among the others. */
  lemma {:induction false} NamesLast(ps: seq<MessageDefinitionParameter>)
    requires ps != [] && Distinct(Names(ps))
    ensures var n := |ps| - 1;
      && Names(ps) == Names(ps[..n]) + [ps[n].name]
      && Distinct(Names(ps[..n]))
      && ps[n].name !in Names(ps[..n])
  {
    var n := |ps| - 1;
    assert Names(ps[..n]) == Names(ps)[..n];
    assert Names(ps) == Names(ps)[..n] + [Names(ps)[n]];
  }

  /** A decode that succeeds had a successful decode of all but the last
      parameter, and adds the last name to its keys unless it is there. */
  lemma {:induction false} DecodeLastKeys(ps: seq<MessageDefinitionParameter>, readers: TextReaders, buffer: seq<byte>, pos: nat)
    requires pos <= |buffer| && ps != []
    ensures var n := |ps| - 1;
      var d := DecodeParameters(ps, readers, buffer, pos);
      var before := DecodeParameters(ps[..n], readers, buffer, pos);
      d.result.Ok? ==>
        && before.result.Ok?
        && Keys(d.result.value) == if ps[n].name in Keys(before.result.value) then Keys(before.result.value) else Keys(before.result.value) + [ps[n].name]
  {
  }

  /** Where field `i` of a fixed-width message starts, relative to the first. */
  function Offset(ps: seq<MessageDefinitionParameter>, i: nat): (r: nat)
    requires FixedWidth(ps) && i < |ps|
    ensures r == TotalWidth(ps[..i]) && r + Width(ps[i].paramType).value <= TotalWidth(ps)
    decreases |ps|
  {
    var pre := ps[..|ps| - 1];
    assert FixedWidth(pre);
    if i == |ps| - 1 then TotalWidth(pre)
    else
      assert pre[..i] == ps[..i];
      Offset(pre, i)
  }

  /** The last field of a fixed-width message, decoded from the bytes after
      those of the others. */
  function LastField(ps: seq<MessageDefinitionParameter>, buffer: seq<byte>, pos: nat): (field: (string, Value))
    requires ps != [] && FixedWidth(ps) && pos + TotalWidth(ps) <= |buffer|
  {
    var pre := ps[..|ps| - 1];
    var p := ps[|ps| - 1];
    assert FixedWidth(pre);
    (p.name, FieldValue(p.paramType, buffer[pos + TotalWidth(pre)..pos + TotalWidth(ps)]))
  }

  /** The fields of a fixed-width message laid out back to back from `pos`. */
  function FixedFields(ps: seq<MessageDefinitionParameter>, buffer: seq<byte>, pos: nat): (fields: Dict<string, Value>)
    requires FixedWidth(ps) && pos + TotalWidth(ps) <= |buffer|
    ensures |fields| == |ps|
    decreases |ps|
  {
    if ps == [] then []
    else
      var pre := ps[..|ps| - 1];
      assert FixedWidth(pre);
      FixedFields(pre, buffer, pos) + [LastField(ps, buffer, pos)]
  }

  /** The last field follows the others. */
  lemma {:induction false} FixedFieldsStep(ps: seq<MessageDefinitionParameter>, buffer: seq<byte>, pos: nat)
    requires ps != [] && FixedWidth(ps) && pos + TotalWidth(ps) <= |buffer|
    ensures FixedWidth(ps[..|ps| - 1])
    ensures FixedFields(ps, buffer, pos) == FixedFields(ps[..|ps| - 1], buffer, pos) + [LastField(ps, buffer, pos)]
  {
    assert FixedWidth(ps[..|ps| - 1]);
  }

  /** The last field is the one at the last offset. */
  lemma {:induction false} LastFieldAt(ps: seq<MessageDefinitionParameter>, buffer: seq<byte>, pos: nat)
    requires ps != [] && FixedWidth(ps) && pos + TotalWidth(ps) <= |buffer|
    ensures var n := |ps| - 1; var start := pos + Offset(ps, n);
      LastField(ps, buffer, pos) == (ps[n].name, FieldValue(ps[n].paramType, buffer[start..start + Width(ps[n].paramType).value]))
  {
    assert FixedWidth(ps[..|ps| - 1]);
  }

  /** The fields of the first `k` parameters are the first `k` fields. */
  lemma {:induction false} FixedFieldsPrefix(ps: seq<MessageDefinitionParameter>, buffer: seq<byte>, pos: nat, k: nat)
    requires FixedWidth(ps) && pos + TotalWidth(ps) <= |buffer| && k <= |ps|
    ensures FixedWidth(ps[..k]) && TotalWidth(ps[..k]) <= TotalWidth(ps)
    ensures FixedFields(ps[..k], buffer, pos) == FixedFields(ps, buffer, pos)[..k]
    decreases |ps|
  {
    if k == |ps| {
      assert ps[..k] == ps;
    } else {
      var n := |ps| - 1;
      var pre := ps[..n];
      FixedFieldsStep(ps, buffer, pos);
      assert TotalWidth(pre) <= TotalWidth(ps);
      FixedFieldsPrefix(pre, buffer, pos, k);
      assert pre[..k] == ps[..k];
      var fields := FixedFields(pre, buffer, pos);
      assert (fields + [LastField(ps, buffer, pos)])[..k] == fields[..k];
    }
  }

  /** Field `i` is named by parameter `i` and decoded from the bytes at its offset. */
  lemma {:induction false} FixedFieldsAt(ps: seq<MessageDefinitionParameter>, buffer: seq<byte>, pos: nat, i: nat)
    requires FixedWidth(ps) && pos + TotalWidth(ps) <= |buffer| && i < |ps|
    ensures var start := pos + Offset(ps, i);
      FixedFields(ps, buffer, pos)[i] == (ps[i].name, FieldValue(ps[i].paramType, buffer[start..start + Width(ps[i].paramType).value]))
  {
    FixedFieldsPrefix(ps, buffer, pos, i + 1);
    LastFieldIndex(ps, buffer, pos, i);
    var fields := FixedFields(ps, buffer, pos);
    assert fields[..i + 1][i] == fields[i];
  }

  /** Among the first `i + 1` parameters, field `i` is the last one, at the
      offset it has among all of them. */
  lemma {:induction false} LastFieldIndex(ps: seq<MessageDefinitionParameter>, buffer: seq<byte>, pos: nat, i: nat)
    requires FixedWidth(ps) && i < |ps| && FixedWidth(ps[..i + 1]) && pos + TotalWidth(ps[..i + 1]) <= |buffer|
    ensures var start := pos + Offset(ps, i);
      && start + Width(ps[i].paramType).value <= |buffer|
      && FixedFields(ps[..i + 1], buffer, pos)[i] == (ps[i].name, FieldValue(ps[i].paramType, buffer[start..start + Width(ps[i].paramType).value]))
  {
    var front := ps[..i + 1];
    FixedFieldsLast(front, buffer, pos);
    OffsetInPrefix(ps, i);
    assert front[i] == ps[i];
  }

  /** The last of the fixed fields is read at the last offset. */
  lemma {:induction false} FixedFieldsLast(ps: seq<MessageDefinitionParameter>, buffer: seq<byte>, pos: nat)
    requires ps != [] && FixedWidth(ps) && pos + TotalWidth(ps) <= |buffer|
    ensures var n := |ps| - 1; var start := pos + Offset(ps, n);
      FixedFields(ps, buffer, pos)[n] == (ps[n].name, FieldValue(ps[n].paramType, buffer[start..start + Width(ps[n].paramType).value]))
  {
    FixedFieldsStep(ps, buffer, pos);
    LastFieldAt(ps, buffer, pos);
  }

  /** Parameter `i` has the same offset among the first `i + 1` parameters
      as among all of them. */
  lemma {:induction false} OffsetInPrefix(ps: seq<MessageDefinitionParameter>, i: nat)
    requires FixedWidth(ps) && i < |ps| && FixedWidth(ps[..i + 1])
    ensures Offset(ps[..i + 1], i) == Offset(ps, i)
  {
    assert ps[..i + 1][..i] == ps[..i];
  }

  /** The last parameter is read right after the others: to the last field
      when the whole width remains, short otherwise. */
  lemma {:induction false} LastFieldRead(ps: seq<MessageDefinitionParameter>, readers: TextReaders, buffer: seq<byte>, pos: nat)
    requires ps != [] && FixedWidth(ps) && pos <= |buffer|
    ensures FixedWidth(ps[..|ps| - 1])
    ensures TotalWidth(ps) == TotalWidth(ps[..|ps| - 1]) + Width(ps[|ps| - 1].paramType).value
    ensures var start := pos + TotalWidth(ps[..|ps| - 1]);
      start <= |buffer| ==>
        ValueAt(ps[|ps| - 1].paramType, readers, buffer, start) ==
          if pos + TotalWidth(ps) <= |buffer| then Decoded(Ok(LastField(ps, buffer, pos).1), pos + TotalWidth(ps))
          else Decoded(Err(ShortRead), |buffer|)
  {
    var pre := ps[..|ps| - 1];
    assert FixedWidth(pre);
    if pos + TotalWidth(pre) <= |buffer| {
      ValueAtFixed(ps[|ps| - 1].paramType, readers, buffer, pos + TotalWidth(pre));
    }
  }

  /** Putting the last field after the others, under a new name, gives all
      the fields. */
  lemma {:induction false} LastFieldPut(ps: seq<MessageDefinitionParameter>, buffer: seq<byte>, pos: nat, fields: Dict<string, Value>)
    requires ps != [] && FixedWidth(ps) && pos + TotalWidth(ps) <= |buffer| && Distinct(Names(ps))
    requires FixedWidth(ps[..|ps| - 1]) && fields == FixedFields(ps[..|ps| - 1], buffer, pos)
    requires Keys(fields) == Names(ps[..|ps| - 1])
    ensures Put(fields, ps[|ps| - 1].name, LastField(ps, buffer, pos).1) == FixedFields(ps, buffer, pos)
  {
    var n := |ps| - 1;
    assert Names(ps[..n]) == Names(ps)[..n];
    assert ps[n].name !in Keys(fields) by {
      assert ps[n].name == Names(ps)[n];
    }
    PutNew(fields, ps[n].name, LastField(ps, buffer, pos).1);
    FixedFieldsStep(ps, buffer, pos);
  }

  /** Once the other parameters have failed, the last changes nothing. */
  lemma {:induction false} DecodeLastAfterErr(ps: seq<MessageDefinitionParameter>, readers: TextReaders, buffer: seq<byte>, pos: nat)
    requires ps != [] && pos <= |buffer| && DecodeParameters(ps[..|ps| - 1], readers, buffer, pos).result.Err?
    ensures DecodeParameters(ps, readers, buffer, pos) == DecodeParameters(ps[..|ps| - 1], readers, buffer, pos)
  {
    assert ps[..|ps| - 1 + 1] == ps;
    DecodeStep(ps, readers, buffer, pos, |ps| - 1);
  }

  /** Once the other parameters have decoded to `fields` over their width,
      the last one adds its field when its bytes remain and fails short
      otherwise. */
  lemma {:induction false} DecodeLastAfterOk(ps: seq<MessageDefinitionParameter>, readers: TextReaders, buffer: seq<byte>, pos: nat, fields: Dict<string, Value>)
    requires ps != [] && pos <= |buffer| && FixedWidth(ps) && FixedWidth(ps[..|ps| - 1])
    requires DecodeParameters(ps[..|ps| - 1], readers, buffer, pos) == Decoded(Ok(fields), pos + TotalWidth(ps[..|ps| - 1]))
    ensures DecodeParameters(ps, readers, buffer, pos) ==
      if pos + TotalWidth(ps) <= |buffer| then Decoded(Ok(Put(fields, ps[|ps| - 1].name, LastField(ps, buffer, pos).1)), pos + TotalWidth(ps))
      else Decoded(Err(ShortRead), |buffer|)
  {
    assert ps[..|ps| - 1 + 1] == ps;
    DecodeStep(ps, readers, buffer, pos, |ps| - 1);
    LastFieldRead(ps, readers, buffer, pos);
  }

  /** A fixed-width message decodes exactly when its total width remains, and
      then to its fields laid out back to back, the cursor just after the last;
      otherwise the read fails short with the cursor at the end. */
  lemma {:induction false} DecodeFixed(ps: seq<MessageDefinitionParameter>, readers: TextReaders, buffer: seq<byte>, pos: nat)
    requires pos <= |buffer| && FixedWidth(ps) && Distinct(Names(ps))
    ensures var d := DecodeParameters(ps, readers, buffer, pos);
      && (d.result.Ok? <==> pos + TotalWidth(ps) <= |buffer|)
      && (d.result.Err? ==> d == Decoded(Err(ShortRead), |buffer|))
      && (d.result.Ok? ==> d.pos == pos + TotalWidth(ps) && d.result.value == FixedFields(ps, buffer, pos))
    decreases |ps|
  {
    if ps != [] {
      var n := |ps| - 1;
      var pre := ps[..n];
      assert Names(pre) == Names(ps)[..n];
      LastFieldRead(ps, readers, buffer, pos);
      DecodeFixed(pre, readers, buffer, pos);
      var before := DecodeParameters(pre, readers, buffer, pos);
      if before.result.Err? {
        DecodeLastAfterErr(ps, readers, buffer, pos);
      } else {
        DecodeLastAfterOk(ps, readers, buffer, pos, before.result.value);
        if pos + TotalWidth(ps) <= |buffer| {
          DecodeKeys(pre, readers, buffer, pos);
          LastFieldPut(ps, buffer, pos, before.result.value);
        }
      }
    }
  }

  /** A parameter whose type tag is not in the conversion table fails the
      decode, whatever its position. */
  lemma {:induction false} UnknownTypeFails(ps: seq<MessageDefinitionParameter>, readers: TextReaders, buffer: seq<byte>, pos: nat, j: nat)
    requires pos <= |buffer| && j < |ps| && Lookup(ps[j].paramType).None?
    ensures DecodeParameters(ps, readers, buffer, pos).result.Err?
  {
    var pre := ps[..j + 1];
    assert pre[..j] == ps[..j];
    assert DecodeParameters(pre, readers, buffer, pos).result.Err?;
    DecodeErrStays(ps, readers, buffer, pos, j + 1);
  }

  /** A narrow string whose decoding fails becomes `Absent`, and decoding goes
      on after the bytes the reader used. Only the narrow reader is called. */
  lemma {:induction false} UndecodableNarrow(ps: seq<MessageDefinitionParameter>, readers: TextReaders, buffer: seq<byte>, pos: nat, width: nat)
    requires pos <= |buffer| && ps != [] && ps[|ps| - 1].paramType == "STR"
    requires DecodeParameters(ps[..|ps| - 1], readers, buffer, pos).result.Ok?
    requires var q := DecodeParameters(ps[..|ps| - 1], readers, buffer, pos).pos;
      readers.narrow(buffer[q..]) == Undecodable(width)
    ensures var before := DecodeParameters(ps[..|ps| - 1], readers, buffer, pos);
      DecodeParameters(ps, readers, buffer, pos) ==
        Decoded(Ok(Put(before.result.value, ps[|ps| - 1].name, Absent)), ReadEnd(buffer, before.pos, width))
  {
    assert Lookup("STR") == Some(ReadString);
  }

  /** A wide string whose decoding fails fails the whole decode. Only the wide
      reader is called. */
  lemma {:induction false} UndecodableWide(ps: seq<MessageDefinitionParameter>, readers: TextReaders, buffer: seq<byte>, pos: nat, width: nat)
    requires pos <= |buffer| && ps != [] && ps[|ps| - 1].paramType == "WSTR"
    requires DecodeParameters(ps[..|ps| - 1], readers, buffer, pos).result.Ok?
    requires var q := DecodeParameters(ps[..|ps| - 1], readers, buffer, pos).pos;
      readers.wide(buffer[q..]) == Undecodable(width)
    ensures DecodeParameters(ps, readers, buffer, pos).result == Err(UnicodeDecode)
  {
    assert Lookup("WSTR") == Some(ReadWideString);
  }

  lemma {:induction false} DecodeLocal(ps: seq<MessageDefinitionParameter>, readers: TextReaders, buffer: seq<byte>, buffer': seq<byte>, pos: nat)
    requires pos <= |buffer| == |buffer'| && buffer[pos..] == buffer'[pos..]
    ensures DecodeParameters(ps, readers, buffer, pos) == DecodeParameters(ps, readers, buffer', pos)
    decreases |ps|
  {
    if ps != [] {
      var pre := ps[..|ps| - 1];
      DecodeLocal(pre, readers, buffer, buffer', pos);
      var q := DecodeParameters(pre, readers, buffer, pos).pos;
      assert buffer[q..] == buffer[pos..][q - pos..] == buffer'[pos..][q - pos..] == buffer'[q..];
      ValueAtLocal(ps[|ps| - 1].paramType, readers, buffer, buffer', q);
    }
  }

  // ---------------------------------------------------------------------------
  // process_protocol_data

  /** The order id is the byte at the cursor and the next two bytes are the
      declared length; a message of that order is decoded from just after
      them, and an order without a message is an error. */
  lemma {:induction false} ProtocolDataLayout(messages: map<Key, Message>, readers: TextReaders, buffer: seq<byte>, pos: nat)
    requires pos <= |buffer|
    ensures var d := ProtocolDataAt(messages, readers, buffer, pos);
      && (pos + 3 > |buffer| ==> d == Decoded(Err(ShortRead), |buffer|))
      && (pos + 3 <= |buffer| && OrderKey(buffer[pos]) !in messages ==>
            d == Decoded(Err(InvalidMessageOrder(buffer[pos])), pos + 3))
      && (pos + 3 <= |buffer| && OrderKey(buffer[pos]) in messages ==>
            d == MessageDataAt(messages[OrderKey(buffer[pos])].definition, readers, buffer, pos + 3))
  {
    assert Pow256(1) == 256;
    if pos + 1 <= |buffer| {
      assert LittleEndian(buffer[pos..pos + 1]) == buffer[pos] by {
        assert buffer[pos..pos + 1][1..] == [];
      }
    }
  }

  /** A protocol message decode reads nothing before the cursor. */
  lemma {:induction false} ProtocolDataLocal(messages: map<Key, Message>, readers: TextReaders, buffer: seq<byte>, buffer': seq<byte>, pos: nat)
    requires pos <= |buffer| == |buffer'| && buffer[pos..] == buffer'[pos..]
    ensures ProtocolDataAt(messages, readers, buffer, pos) == ProtocolDataAt(messages, readers, buffer', pos)
  {
    ProtocolDataLayout(messages, readers, buffer, pos);
    ProtocolDataLayout(messages, readers, buffer', pos);
    if pos + 3 <= |buffer| {
      assert buffer[pos] == buffer[pos..][0] == buffer'[pos..][0] == buffer'[pos];
      if OrderKey(buffer[pos]) in messages {
        assert buffer[pos + 3..] == buffer[pos..][3..] == buffer'[pos..][3..] == buffer'[pos + 3..];
        DecodeLocal(Values(messages[OrderKey(buffer[pos])].definition.parameters), readers, buffer, buffer', pos + 3);
      }
    }
  }

  /** The declared length is never consulted: any two length bytes give the
      same outcome. */
  lemma {:induction false} LengthIgnored(messages: map<Key, Message>, readers: TextReaders, buffer: seq<byte>, pos: nat, low: byte, high: byte)
    requires pos + 3 <= |buffer|
    ensures ProtocolDataAt(messages, readers, buffer, pos)
         == ProtocolDataAt(messages, readers, buffer[pos + 1 := low][pos + 2 := high], pos)
  {
    var buffer' := buffer[pos + 1 := low][pos + 2 := high];
    ProtocolDataLayout(messages, readers, buffer, pos);
    ProtocolDataLayout(messages, readers, buffer', pos);
    assert buffer[pos + 3..] == buffer'[pos + 3..];
    if OrderKey(buffer[pos]) in messages {
      DecodeLocal(Values(messages[OrderKey(buffer[pos])].definition.parameters), readers, buffer, buffer', pos + 3);
    }
  }

  // ---------------------------------------------------------------------------
  // The parameter iteration as written

  /** The test schema's MSG_TEST has one parameter, so the decoder as written
      fails on it before reading anything, while iterating the entries decodes
      Number from the next four bytes as a signed 32-bit value. */
  lemma {:induction false} IterationFinding(readers: TextReaders, buffer: seq<byte>, pos: nat)
    requires pos + 4 <= |buffer|
    ensures MessageDataAsWritten(SchemaProperties.SampleMessage(Some(1)), buffer, pos) == Decoded(Err(StrHasNoName), pos)
    ensures MessageDataAt(SchemaProperties.SampleMessage(Some(1)), readers, buffer, pos)
         == Decoded(Ok(MessageData("MSG_TEST", [("Number", IntField(TwosComplement(LittleEndian(buffer[pos..pos + 4]), 4)))])), pos + 4)
  {
    var ps := Values(SchemaProperties.SampleMessage(Some(1)).parameters);
    assert ps == [MessageDefinitionParameter("Number", "INT")];
    assert ps[..0] == [];
    assert Lookup("INT") == Some(ReadSigned4);
  }
}
