/** wizmsg/protocol.py: the older schema loader, which the package exports as
    `Protocol`. Messages are keyed by their `_MsgName` text, a later message
    with the same name replaces the earlier one, and every parameter needs a
    TYPE attribute. */
module LegacySchema {
  import opened Wrappers
  import opened Dicts
  import opened Xml
  import Schema
  import SP = SchemaProperties

  datatype MessageParameter = MessageParameter(name: string, paramType: string)

  /** `_MsgName` and `_MsgDescription` are element texts, which may be absent. */
  datatype Message = Message(name: Option<string>, description: Option<string>, parameters: Dict<string, MessageParameter>)

  datatype Protocol = Protocol(
    serviceId: int,
    protocolType: Option<string>,
    version: int,
    description: Option<string>,
    messages: Dict<Option<string>, Message>)

  /** `parameter_element.attrib["TYPE"]`, a KeyError when absent. */
  function ParameterType(e: Element): Result<string> {
    if "TYPE" in e.attrib then Ok(e.attrib["TYPE"]) else Err(MissingTypeKey(e.tag))
  }

  function AddParameter(parameters: Dict<string, MessageParameter>, e: Element): Result<Dict<string, MessageParameter>> {
    if IsMeta(e.tag) then Ok(parameters)
    else
      var t :- ParameterType(e);
      Ok(Put(parameters, e.tag, MessageParameter(e.tag, t)))
  }

  /** The parameter dict the inner loop builds from `record`. */
  function ParametersOf(record: seq<Element>): Result<Dict<string, MessageParameter>>
    decreases |record|
  {
    if record == [] then Ok([])
    else
      var parameters :- ParametersOf(record[..|record| - 1]);
      AddParameter(parameters, record[|record| - 1])
  }

  /** The message a message element yields: name, then description, then parameters. */
  function MessageOf(element: Element): Result<Message>
    requires element.children != []
  {
    var record := element.children[0].children;
    var name :- Schema.MessageField(record, "_MsgName");
    var description :- Schema.MessageField(record, "_MsgDescription");
    var parameters :- ParametersOf(record);
    Ok(Message(name, description, parameters))
  }

  /** One pass of the outer loop: `messages[message_name] = ...`. */
  function AddMessage(messages: Dict<Option<string>, Message>, element: Element): Result<Dict<Option<string>, Message>> {
    if element.tag == "_ProtocolInfo" then Ok(messages)
    else if element.children == [] then Err(MissingRecord(element.tag))
    else
      var message :- MessageOf(element);
      Ok(Put(messages, message.name, message))
  }

  /** `_get_messages_from_xml(root)` of the legacy loader. */
  function CollectMessages(elements: seq<Element>): Result<Dict<Option<string>, Message>>
    decreases |elements|
  {
    if elements == [] then Ok([])
    else
      var messages :- CollectMessages(elements[..|elements| - 1]);
      AddMessage(messages, elements[|elements| - 1])
  }

  /** `Protocol.from_xml_file`, from the parsed document; the protocol-info
      block is read exactly as the newer loader reads it. */
  function ProtocolFromXml(root: Element): Result<Protocol> {
    var info :- Schema.ProtocolInfoOf(root);
    var messages :- CollectMessages(root.children);
    Ok(Protocol(info.serviceId, info.protocolType, info.version, info.description, messages))
  }

  lemma {:induction false} ParametersErrStays(record: seq<Element>, i: nat)
    requires i <= |record| && ParametersOf(record[..i]).Err?
    ensures ParametersOf(record) == ParametersOf(record[..i])
    decreases |record| - i
  {
    if i < |record| {
      assert record[..i + 1][..i] == record[..i];
      ParametersErrStays(record, i + 1);
    } else {
      assert record[..i] == record;
    }
  }

  lemma {:induction false} MessagesErrStays(elements: seq<Element>, i: nat)
    requires i <= |elements| && CollectMessages(elements[..i]).Err?
    ensures CollectMessages(elements) == CollectMessages(elements[..i])
    decreases |elements| - i
  {
    if i < |elements| {
      assert elements[..i + 1][..i] == elements[..i];
      MessagesErrStays(elements, i + 1);
    } else {
      assert elements[..i] == elements;
    }
  }

  /** One pass of the outer loop extends the dict of the passes before it. */
  lemma CollectAt(elements: seq<Element>, i: nat)
    requires i < |elements| && CollectMessages(elements[..i]).Ok?
    ensures CollectMessages(elements[..i + 1]) == AddMessage(CollectMessages(elements[..i]).value, elements[i])
  {
    assert elements[..i + 1][..i] == elements[..i];
  }

  // ---------------------------------------------------------------------------
  // The loader as the source writes it

  method ParametersFromRecord(record: seq<Element>) returns (r: Result<Dict<string, MessageParameter>>)
    ensures r == ParametersOf(record)
  {
    var parameters: Dict<string, MessageParameter> := [];
    var j := 0;
    while j < |record|
      invariant 0 <= j <= |record|
      invariant ParametersOf(record[..j]) == Ok(parameters)
    {
      var parameterElement := record[j];
      assert record[..j + 1][..j] == record[..j];
      var parameterName := parameterElement.tag;
      if !IsMeta(parameterName) {
        if "TYPE" !in parameterElement.attrib {
          r := Err(MissingTypeKey(parameterName));
          ParametersErrStays(record, j + 1);
          return;
        }
        var parameterType := parameterElement.attrib["TYPE"];
        parameters := Put(parameters, parameterName, MessageParameter(parameterName, parameterType));
      }
      j := j + 1;
    }
    assert record[..j] == record;
    r := Ok(parameters);
  }

  method GetMessagesFromXml(root: Element) returns (r: Result<Dict<Option<string>, Message>>)
    ensures r == CollectMessages(root.children)
  {
    var elements := root.children;
    var messages: Dict<Option<string>, Message> := [];
    var i := 0;
    while i < |elements|
      invariant 0 <= i <= |elements|
      invariant CollectMessages(elements[..i]) == Ok(messages)
    {
      var messageElement := elements[i];
      CollectAt(elements, i);
      if messageElement.tag != "_ProtocolInfo" {
        if |messageElement.children| == 0 {
          r := Err(MissingRecord(messageElement.tag));
          MessagesErrStays(elements, i + 1);
          return;
        }
        var record := messageElement.children[0].children;
        var messageName := Schema.MessageField(record, "_MsgName");
        var messageDescription := Schema.MessageField(record, "_MsgDescription");
        if messageName.Err? || messageDescription.Err? {
          r := if messageName.Err? then Err(messageName.error) else Err(messageDescription.error);
          MessagesErrStays(elements, i + 1);
          return;
        }
        var parameters := ParametersFromRecord(record);
        if parameters.Err? {
          r := Err(parameters.error);
          MessagesErrStays(elements, i + 1);
          return;
        }
        assert MessageOf(messageElement) == Ok(Message(messageName.value, messageDescription.value, parameters.value));
        messages := Put(messages, messageName.value, Message(messageName.value, messageDescription.value, parameters.value));
      }
      i := i + 1;
    }
    assert elements[..i] == elements;
    r := Ok(messages);
  }

  method FromXmlFile(root: Element) returns (r: Result<Protocol>)
    ensures r == ProtocolFromXml(root)
  {
    var info :- Schema.ProtocolInfoOf(root);
    var messages :- GetMessagesFromXml(root);
    r := Ok(Protocol(info.serviceId, info.protocolType, info.version, info.description, messages));
  }

  // ---------------------------------------------------------------------------
  // Properties

  /** Child `j` is a parameter without TYPE. */
  predicate BadParameter(record: seq<Element>, j: int) {
    0 <= j < |record| && !IsMeta(record[j].tag) && "TYPE" !in record[j].attrib
  }

  /** Building the parameter dict fails exactly when some parameter has no
      TYPE (there is no GlobalID exception here), and then it names the first. */
  lemma {:induction false} ParametersFailure(record: seq<Element>)
    ensures ParametersOf(record).Err? <==> exists j :: BadParameter(record, j)
    ensures ParametersOf(record).Err? ==>
      exists j :: BadParameter(record, j) && ParametersOf(record).error == MissingTypeKey(record[j].tag)
              && forall i :: 0 <= i < j ==> !BadParameter(record, i)
    decreases |record|
  {
    if record != [] {
      var n := |record| - 1;
      var pre := record[..n];
      ParametersFailure(pre);
      assert forall j :: 0 <= j < n ==> (BadParameter(pre, j) <==> BadParameter(record, j));
      if ParametersOf(pre).Ok? {
        assert forall j :: 0 <= j < n ==> !BadParameter(record, j);
        if ParametersOf(record).Err? {
          assert BadParameter(record, n);
        }
      }
    }
  }

  /** The parameters are the non-meta children in order of first appearance,
      each named by its key. */
  lemma {:induction false} ParametersKeys(record: seq<Element>)
    requires ParametersOf(record).Ok?
    ensures var ps := ParametersOf(record).value;
      && Keys(ps) == Dedup(SP.NonMetaTags(record))
      && (forall i :: 0 <= i < |ps| ==> ps[i].1.name == ps[i].0)
    decreases |record|
  {
    if record != [] {
      var n := |record| - 1;
      var pre := record[..n];
      var e := record[n];
      ParametersKeys(pre);
      var before := ParametersOf(pre).value;
      var ps := ParametersOf(record).value;
      if !IsMeta(e.tag) {
        var v := MessageParameter(e.tag, ParameterType(e).value);
        assert ps == Put(before, e.tag, v);
        assert SP.NonMetaTags(record) == SP.NonMetaTags(pre) + [e.tag];
        assert (SP.NonMetaTags(pre) + [e.tag])[..|SP.NonMetaTags(pre)|] == SP.NonMetaTags(pre);
        forall i | 0 <= i < |ps| ensures ps[i].1.name == ps[i].0 {
          assert ps[i] in ps;
        }
      }
    }
  }

  /** Each parameter carries the TYPE of its last appearance. */
  lemma {:induction false} ParametersShape(record: seq<Element>)
    requires ParametersOf(record).Ok?
    ensures var ps := ParametersOf(record).value;
      forall j :: SP.LastParameter(record, j) ==>
        ParameterType(record[j]).Ok?
        && Get(ps, record[j].tag) == Some(MessageParameter(record[j].tag, ParameterType(record[j]).value))
    decreases |record|
  {
    if record != [] {
      var n := |record| - 1;
      var pre := record[..n];
      var e := record[n];
      ParametersShape(pre);
      var before := ParametersOf(pre).value;
      var ps := ParametersOf(record).value;
      forall j | SP.LastParameter(record, j)
        ensures ParameterType(record[j]).Ok?
              && Get(ps, record[j].tag) == Some(MessageParameter(record[j].tag, ParameterType(record[j]).value))
      {
        if j == n {
          GetPut(before, e.tag, MessageParameter(e.tag, ParameterType(e).value), e.tag);
        } else {
          assert pre[j] == record[j];
          assert SP.LastParameter(pre, j);
          if !IsMeta(e.tag) {
            GetPut(before, e.tag, MessageParameter(e.tag, ParameterType(e).value), record[j].tag);
          }
        }
      }
    }
  }

  /** The `_MsgName` a message element is filed under, when it has one. */
  function NameOfElement(e: Element): Option<Option<string>> {
    if e.tag == "_ProtocolInfo" || e.children == [] then None
    else
      var name := Schema.MessageField(e.children[0].children, "_MsgName");
      if name.Err? then None else Some(name.value)
  }

  /** The names of the message elements, in document order. */
  function MessageNames(elements: seq<Element>): seq<Option<string>>
    decreases |elements|
  {
    if elements == [] then []
    else
      var name := NameOfElement(elements[|elements| - 1]);
      MessageNames(elements[..|elements| - 1]) + if name.Some? then [name.value] else []
  }

  /** Element `j` is the last message element filed under its name. */
  predicate LastMessage(elements: seq<Element>, j: int) {
    && 0 <= j < |elements| && NameOfElement(elements[j]).Some?
    && forall j' :: j < j' < |elements| ==> NameOfElement(elements[j']) != NameOfElement(elements[j])
  }

  lemma {:induction false} MessageNamesStep(elements: seq<Element>)
    requires elements != []
    ensures var name := NameOfElement(elements[|elements| - 1]);
      MessageNames(elements) == MessageNames(elements[..|elements| - 1]) + if name.Some? then [name.value] else []
  {
  }

  lemma {:induction false} CollectStep(elements: seq<Element>)
    requires elements != [] && CollectMessages(elements).Ok?
    ensures var pre := elements[..|elements| - 1];
      CollectMessages(pre).Ok? && CollectMessages(elements) == AddMessage(CollectMessages(pre).value, elements[|elements| - 1])
  {
  }

  /** The two outcomes of one pass of the message loop that does not fail. */
  lemma {:induction false} AddMessageCases(before: Dict<Option<string>, Message>, e: Element)
    requires AddMessage(before, e).Ok?
    ensures e.tag == "_ProtocolInfo" ==> AddMessage(before, e).value == before && NameOfElement(e).None?
    ensures e.tag != "_ProtocolInfo" ==>
      && e.children != [] && MessageOf(e).Ok? && NameOfElement(e) == Some(MessageOf(e).value.name)
      && AddMessage(before, e).value == Put(before, MessageOf(e).value.name, MessageOf(e).value)
  {
  }

  /** The dict has one entry per distinct message name, in order of first
      appearance. */
  lemma {:induction false} CollectKeys(elements: seq<Element>)
    requires CollectMessages(elements).Ok?
    ensures Keys(CollectMessages(elements).value) == Dedup(MessageNames(elements))
    decreases |elements|
  {
    if elements != [] {
      var n := |elements| - 1;
      var pre := elements[..n];
      var e := elements[n];
      CollectStep(elements);
      CollectKeys(pre);
      var before := CollectMessages(pre).value;
      AddMessageCases(before, e);
      MessageNamesStep(elements);
      if e.tag != "_ProtocolInfo" {
        var m := MessageOf(e).value;
        DedupStep(MessageNames(pre), m.name);
        assert MessageNames(elements) == MessageNames(pre) + [m.name];
      } else {
        assert MessageNames(elements) == MessageNames(pre);
        assert CollectMessages(elements).value == before;
      }
    }
  }

  /** Each message is filed under its own name. */
  lemma {:induction false} CollectNamed(elements: seq<Element>)
    requires CollectMessages(elements).Ok?
    ensures var d := CollectMessages(elements).value;
      forall i :: 0 <= i < |d| ==> d[i].1.name == d[i].0
    decreases |elements|
  {
    if elements != [] {
      var pre := elements[..|elements| - 1];
      CollectStep(elements);
      CollectNamed(pre);
      AddMessageCases(CollectMessages(pre).value, elements[|elements| - 1]);
      var d := CollectMessages(elements).value;
      forall i | 0 <= i < |d| ensures d[i].1.name == d[i].0 {
        assert d[i] in d;
      }
    }
  }

  /** A later message with the same `_MsgName` replaces the earlier one: the
      value under a name is the message read from the last element with it. */
  lemma {:induction false} LastMessageWins(elements: seq<Element>)
    requires CollectMessages(elements).Ok?
    ensures forall j :: LastMessage(elements, j) ==>
      && elements[j].children != [] && MessageOf(elements[j]).Ok?
      && Get(CollectMessages(elements).value, NameOfElement(elements[j]).value) == Some(MessageOf(elements[j]).value)
    decreases |elements|
  {
    if elements != [] {
      var n := |elements| - 1;
      var pre := elements[..n];
      var e := elements[n];
      CollectStep(elements);
      LastMessageWins(pre);
      var before := CollectMessages(pre).value;
      var d := CollectMessages(elements).value;
      AddMessageCases(before, e);
      forall j | LastMessage(elements, j)
        ensures && elements[j].children != [] && MessageOf(elements[j]).Ok?
                && Get(d, NameOfElement(elements[j]).value) == Some(MessageOf(elements[j]).value)
      {
        var name := NameOfElement(elements[j]).value;
        if j < n {
          assert pre[j] == elements[j];
          assert LastMessage(pre, j);
          if e.tag != "_ProtocolInfo" {
            var m := MessageOf(e).value;
            assert NameOfElement(e) != NameOfElement(elements[j]);
            GetPut(before, m.name, m, name);
          } else {
            assert d == before;
          }
        } else {
          var m := MessageOf(e).value;
          GetPut(before, m.name, m, name);
        }
      }
    }
  }

  /** A message element without a record, `_MsgName` or `_MsgDescription`
      fails the load. */
  lemma {:induction false} MessageFieldsRequired(elements: seq<Element>, j: nat)
    requires j < |elements| && elements[j].tag != "_ProtocolInfo"
    requires || elements[j].children == []
             || Find(elements[j].children[0].children, "_MsgName").None?
             || Find(elements[j].children[0].children, "_MsgDescription").None?
    ensures CollectMessages(elements).Err?
  {
    var pre := elements[..j];
    assert elements[..j + 1][..j] == pre;
    assert CollectMessages(elements[..j + 1]).Err?;
    MessagesErrStays(elements, j + 1);
  }

  lemma {:induction false} SampleParameters()
    ensures ParametersOf(SP.SampleDocument().children[1].children[0].children)
         == Ok([("Number", MessageParameter("Number", "INT"))])
  {
    var record := SP.SampleDocument().children[1].children[0].children;
    forall i | 0 <= i < 4 ensures IsMeta(record[i].tag) { }
    assert ParametersOf(record[..1]) == Ok([]) by { assert record[..1][..0] == []; }
    assert ParametersOf(record[..2]) == Ok([]) by { assert record[..2][..1] == record[..1]; }
    assert ParametersOf(record[..3]) == Ok([]) by { assert record[..3][..2] == record[..2]; }
    assert ParametersOf(record[..4]) == Ok([]) by { assert record[..4][..3] == record[..3]; }
    assert record[..5][..4] == record[..4] && record[..5] == record;
  }

  function SampleMessage(): Message {
    Message(Some("MSG_TEST"), Some("test if protocol system works"), [("Number", MessageParameter("Number", "INT"))])
  }

  lemma {:induction false} SampleMessages()
    ensures CollectMessages(SP.SampleDocument().children) == Ok([(Some("MSG_TEST"), SampleMessage())])
  {
    var root := SP.SampleDocument();
    var record := root.children[1].children[0].children;
    SampleParameters();
    assert Find(record, "_MsgName") == Some(record[0]);
    assert Find(record, "_MsgDescription") == Some(record[1]) by {
      assert Find(record[1..], "_MsgDescription") == Some(record[1]);
    }
    assert MessageOf(root.children[1]) == Ok(SampleMessage());
    assert root.children[..1][..0] == [] && root.children[..2][..1] == root.children[..1];
    assert CollectMessages(root.children[..1]) == Ok([]);
    assert root.children[..2] == root.children;
  }

  /** The protocol info must be present, have a record, and hold the four
      fields, whose two numbers must parse, before the messages are read; a
      loaded protocol takes its header from that record and its messages from
      the message loop. */
  lemma {:induction false} ProtocolInfoRequired(root: Element)
    ensures Find(root.children, "_ProtocolInfo").None? ==> ProtocolFromXml(root) == Err(MissingProtocolInfo)
    ensures var info := Find(root.children, "_ProtocolInfo");
      info.Some? && info.value.children == [] ==> ProtocolFromXml(root) == Err(MissingRecord("_ProtocolInfo"))
    ensures ProtocolFromXml(root).Ok? ==>
      var info := Find(root.children, "_ProtocolInfo");
      var p := ProtocolFromXml(root).value;
      && info.Some? && info.value.children != []
      && var record := info.value.children[0].children;
      && Schema.InfoField(record, "ServiceID").Ok? && IntOf(Schema.InfoField(record, "ServiceID").value) == Ok(p.serviceId)
      && Schema.InfoField(record, "ProtocolType") == Ok(p.protocolType)
      && Schema.InfoField(record, "ProtocolVersion").Ok? && IntOf(Schema.InfoField(record, "ProtocolVersion").value) == Ok(p.version)
      && Schema.InfoField(record, "ProtocolDescription") == Ok(p.description)
      && CollectMessages(root.children) == Ok(p.messages)
  {
    SP.InfoFields(root);
    if ProtocolFromXml(root).Ok? {
      var info := Schema.ProtocolInfoOf(root).value;
      var p := ProtocolFromXml(root).value;
      assert p.serviceId == info.serviceId && p.protocolType == info.protocolType;
      assert p.version == info.version && p.description == info.description;
    }
  }

  /** A missing info field fails the load. */
  lemma {:induction false} InfoFieldRequired(root: Element, name: string)
    requires name in ["ServiceID", "ProtocolType", "ProtocolVersion", "ProtocolDescription"]
    requires var info := Find(root.children, "_ProtocolInfo");
      info.Some? && info.value.children != [] && Find(info.value.children[0].children, name).None?
    ensures ProtocolFromXml(root).Err?
  {
    var record := Find(root.children, "_ProtocolInfo").value.children[0].children;
    assert Schema.InfoField(record, name).Err?;
    ProtocolInfoRequired(root);
    if name == "ServiceID" {
      assert Schema.InfoField(record, "ServiceID").Err?;
    } else if name == "ProtocolType" {
      assert Schema.InfoField(record, "ProtocolType").Err?;
    } else if name == "ProtocolVersion" {
      assert Schema.InfoField(record, "ProtocolVersion").Err?;
    } else {
      assert Schema.InfoField(record, "ProtocolDescription").Err?;
    }
  }

  /** The schema of tests/test_protocol.py loads as service 20 of type FAKE,
      version 1, with MSG_TEST holding the single parameter Number of type INT. */
  lemma {:induction false} SampleLoads()
    ensures ProtocolFromXml(SP.SampleDocument()) == Ok(Protocol(20, Some("FAKE"), 1, Some("Fake Messages"), [
      (Some("MSG_TEST"), Message(Some("MSG_TEST"), Some("test if protocol system works"),
                                 [("Number", MessageParameter("Number", "INT"))]))]))
  {
    SP.SampleInfo();
    SampleMessages();
  }
}
