/** wizmsg/protocol_definition.py: turning a schema document into message
    definitions keyed by both their resolved order and their name. */
module Schema {
  import opened Wrappers
  import opened Dicts
  import opened Sorting
  import opened Xml

  datatype MessageDefinitionParameter = MessageDefinitionParameter(name: string, paramType: string)

  /** `order` is the declared `_MsgOrder` until resolution, the position after. */
  datatype MessageDefinition = MessageDefinition(
    order: Option<int>,
    name: string,
    description: Option<string>,
    parameters: Dict<string, MessageDefinitionParameter>)

  /** The result dict mixes int keys (orders) and str keys (names). */
  datatype Key = OrderKey(order: int) | NameKey(name: string)

  datatype ProtocolInfo = ProtocolInfo(serviceId: int, protocolType: Option<string>, version: int, description: Option<string>)

  datatype ProtocolDefinition = ProtocolDefinition(
    serviceId: int,
    protocolType: Option<string>,
    version: int,
    description: Option<string>,
    messages: map<Key, MessageDefinition>)

  // ---------------------------------------------------------------------------
  // Parameters (the loop over the record's children)

  /** A parameter's TYPE attribute; without one, only `GlobalID` is given "GID". */
  function ParameterType(e: Element): Result<string> {
    if "TYPE" in e.attrib then Ok(e.attrib["TYPE"])
    else if e.tag == "GlobalID" then Ok("GID")
    else Err(UnhandledType(e.tag))
  }

  /** One pass of the parameter loop: meta children are skipped. */
  function AddParameter(parameters: Dict<string, MessageDefinitionParameter>, e: Element): Result<Dict<string, MessageDefinitionParameter>> {
    if IsMeta(e.tag) then Ok(parameters)
    else
      var t :- ParameterType(e);
      Ok(Put(parameters, e.tag, MessageDefinitionParameter(e.tag, t)))
  }

  /** The parameter dict the loop builds from `record`, in document order. */
  function ParametersOf(record: seq<Element>): Result<Dict<string, MessageDefinitionParameter>>
    decreases |record|
  {
    if record == [] then Ok([])
    else
      var parameters :- ParametersOf(record[..|record| - 1]);
      AddParameter(parameters, record[|record| - 1])
  }

  // ---------------------------------------------------------------------------
  // Messages (the loop over the root's children)

  /** `_get_record_value(name)`: the text of a required record field. */
  function MessageField(record: seq<Element>, name: string): Result<Option<string>> {
    var e := Find(record, name);
    if e.None? then Err(MissingMessageField(name)) else Ok(e.value.text)
  }

  /** `_get_record_value("_MsgOrder", allow_missing=True, as_int=True)`. */
  function MessageOrder(record: seq<Element>): Result<Option<int>> {
    var e := Find(record, "_MsgOrder");
    if e.None? then Ok(None)
    else
      var order :- IntOf(e.value.text);
      Ok(Some(order))
  }

  /** The definition a message element yields when it is read. */
  function MessageOf(element: Element): Result<MessageDefinition>
    requires element.children != []
  {
    var record := element.children[0].children;
    var description :- MessageField(record, "_MsgDescription");
    var order :- MessageOrder(record);
    var parameters :- ParametersOf(record);
    Ok(MessageDefinition(order, element.tag, description, parameters))
  }

  /** One pass of the message loop. `message_element[0]` is taken before the
      duplicate check, so even a duplicate needs a record; a dataclass
      instance is always truthy, so `messages.get(name)` tests presence. */
  function AddMessage(messages: Dict<string, MessageDefinition>, element: Element): Result<Dict<string, MessageDefinition>> {
    if element.tag == "_ProtocolInfo" then Ok(messages)
    else if element.children == [] then Err(MissingRecord(element.tag))
    else if element.tag in Keys(messages) then Ok(messages)
    else
      var message :- MessageOf(element);
      Ok(Put(messages, element.tag, message))
  }

  /** The `messages` dict after the loop over `elements`. */
  function CollectMessages(elements: seq<Element>): Result<Dict<string, MessageDefinition>>
    decreases |elements|
  {
    if elements == [] then Ok([])
    else
      var messages :- CollectMessages(elements[..|elements| - 1]);
      AddMessage(messages, elements[|elements| - 1])
  }

  // ---------------------------------------------------------------------------
  // Order resolution

  function OrderValue(m: MessageDefinition): int {
    if m.order.Some? then m.order.value else 0
  }

  /** The sort key `lambda m: m.order`. */
  function OrderLe(a: MessageDefinition, b: MessageDefinition): bool {
    OrderValue(a) <= OrderValue(b)
  }

  /** The sort key `lambda m: m.name`. */
  function NameLe(a: MessageDefinition, b: MessageDefinition): bool {
    LexLe(a.name, b.name)
  }

  predicate AnyOrder(defs: seq<MessageDefinition>) {
    exists i :: 0 <= i < |defs| && defs[i].order.Some?
  }

  predicate AllOrders(defs: seq<MessageDefinition>) {
    forall i :: 0 <= i < |defs| ==> defs[i].order.Some?
  }

  /** `sorted(message_defs, key=...)`. Sorting by order compares `None` with
      `int` (or `None` with `None`) as soon as one order is missing, since
      the sort must compare every pair that ends up adjacent; Python raises
      TypeError for that. */
  function SortDefinitions(defs: seq<MessageDefinition>, byOrder: bool): Result<seq<MessageDefinition>> {
    if byOrder then
      if !AllOrders(defs) then Err(UnorderableOrders) else Ok(Sort(defs, OrderLe))
    else Ok(Sort(defs, NameLe))
  }

  /** The renumbering loop: the definition at position `idx` (from 1) must
      not declare any other order, and is given order `idx`. */
  function Renumber(sorted: seq<MessageDefinition>): (r: Result<seq<MessageDefinition>>)
    ensures r.Ok? ==> |r.value| == |sorted|
    decreases |sorted|
  {
    if sorted == [] then Ok([])
    else
      var done :- Renumber(sorted[..|sorted| - 1]);
      var message := sorted[|sorted| - 1];
      var idx := |sorted|;
      if message.order.Some? && message.order.value != idx then Err(OrderMismatch(message.order.value, idx))
      else Ok(done + [message.(order := Some(idx))])
  }

  /** `sorted_messages[idx] = message` for every position. */
  function OrderIndex(resolved: seq<MessageDefinition>): map<Key, MessageDefinition>
    decreases |resolved|
  {
    if resolved == [] then map[]
    else OrderIndex(resolved[..|resolved| - 1])[OrderKey(|resolved|) := resolved[|resolved| - 1]]
  }

  /** The name-keyed view of the same definitions: `messages` holds the very
      objects the loop renumbers. */
  function NameIndex(resolved: seq<MessageDefinition>): map<Key, MessageDefinition>
    decreases |resolved|
  {
    if resolved == [] then map[]
    else
      var last := resolved[|resolved| - 1];
      NameIndex(resolved[..|resolved| - 1])[NameKey(last.name) := last]
  }

  /** The result dict for definitions in their sorted order. */
  function Resolve(sorted: seq<MessageDefinition>): Result<map<Key, MessageDefinition>> {
    var resolved :- Renumber(sorted);
    Ok(OrderIndex(resolved) + NameIndex(resolved))
  }

  /** `_get_messages_from_xml(root)`. */
  function MessagesFromXml(root: Element): Result<map<Key, MessageDefinition>> {
    var messages :- CollectMessages(root.children);
    var defs := Values(messages);
    var sorted :- SortDefinitions(defs, AnyOrder(defs));
    Resolve(sorted)
  }

  // ---------------------------------------------------------------------------
  // Protocol info and the whole document

  /** The protocol-info `_get_record_value(name)`. */
  function InfoField(record: seq<Element>, name: string): Result<Option<string>> {
    var e := Find(record, name);
    if e.None? then Err(MissingInfoField(name)) else Ok(e.value.text)
  }

  /** The four protocol-info fields, read in the order `from_xml_file` reads them. */
  function ProtocolInfoOf(root: Element): Result<ProtocolInfo> {
    var info := Find(root.children, "_ProtocolInfo");
    if info.None? then Err(MissingProtocolInfo)
    else if info.value.children == [] then Err(MissingRecord("_ProtocolInfo"))
    else
      var record := info.value.children[0].children;
      var serviceIdText :- InfoField(record, "ServiceID");
      var serviceId :- IntOf(serviceIdText);
      var protocolType :- InfoField(record, "ProtocolType");
      var versionText :- InfoField(record, "ProtocolVersion");
      var version :- IntOf(versionText);
      var description :- InfoField(record, "ProtocolDescription");
      Ok(ProtocolInfo(serviceId, protocolType, version, description))
  }

  /** `ProtocolDefinition.from_xml_file`, from the parsed document. */
  function ProtocolFromXml(root: Element): Result<ProtocolDefinition> {
    var info :- ProtocolInfoOf(root);
    var messages :- MessagesFromXml(root);
    Ok(ProtocolDefinition(info.serviceId, info.protocolType, info.version, info.description, messages))
  }

  // ---------------------------------------------------------------------------
  // Errors stay errors once a loop has failed

  lemma {:induction false} ParametersErrStays(record: seq<Element>, i: nat)
    requires i <= |record| && ParametersOf(record[..i]).Err?
    ensures ParametersOf(record) == ParametersOf(record[..i])
    decreases |record| - i
  {
    if i < |record| {
      assert record[..i + 1][..i] == record[..i];
      ParametersErrStays(record, i + 1);
    } else {
      assert record[..i] == record;
    }
  }

  lemma {:induction false} MessagesErrStays(elements: seq<Element>, i: nat)
    requires i <= |elements| && CollectMessages(elements[..i]).Err?
    ensures CollectMessages(elements) == CollectMessages(elements[..i])
    decreases |elements| - i
  {
    if i < |elements| {
      assert elements[..i + 1][..i] == elements[..i];
      MessagesErrStays(elements, i + 1);
    } else {
      assert elements[..i] == elements;
    }
  }

  lemma {:induction false} RenumberErrStays(sorted: seq<MessageDefinition>, i: nat)
    requires i <= |sorted| && Renumber(sorted[..i]).Err?
    ensures Renumber(sorted) == Renumber(sorted[..i])
    decreases |sorted| - i
  {
    if i < |sorted| {
      assert sorted[..i + 1][..i] == sorted[..i];
      RenumberErrStays(sorted, i + 1);
    } else {
      assert sorted[..i] == sorted;
    }
  }

  lemma CollectAt(elements: seq<Element>, i: nat)
    requires i < |elements| && CollectMessages(elements[..i]).Ok?
    ensures CollectMessages(elements[..i + 1]) == AddMessage(CollectMessages(elements[..i]).value, elements[i])
  {
    assert elements[..i + 1][..i] == elements[..i];
  }

  lemma RenumberStep(sorted: seq<MessageDefinition>, i: nat, resolved: seq<MessageDefinition>)
    requires i < |sorted| && Renumber(sorted[..i]) == Ok(resolved)
    ensures var m := sorted[i];
      Renumber(sorted[..i + 1]) ==
        if m.order.Some? && m.order.value != i + 1 then Err(OrderMismatch(m.order.value, i + 1))
        else Ok(resolved + [m.(order := Some(i + 1))])
  {
    assert sorted[..i + 1][..i] == sorted[..i];
  }

  lemma IndexStep(resolved: seq<MessageDefinition>, m: MessageDefinition)
    ensures OrderIndex(resolved + [m]) == OrderIndex(resolved)[OrderKey(|resolved| + 1) := m]
    ensures NameIndex(resolved + [m]) == NameIndex(resolved)[NameKey(m.name) := m]
  {
    assert (resolved + [m])[..|resolved|] == resolved;
  }

  // ---------------------------------------------------------------------------
  // The loader as the source writes it

  /** The parameter loop over a record, with its TYPE rule. */
  method ParametersFromRecord(record: seq<Element>) returns (r: Result<Dict<string, MessageDefinitionParameter>>)
    ensures r == ParametersOf(record)
  {
    var parameters: Dict<string, MessageDefinitionParameter> := [];
    var j := 0;
    while j < |record|
      invariant 0 <= j <= |record|
      invariant ParametersOf(record[..j]) == Ok(parameters)
    {
      var parameterElement := record[j];
      assert record[..j + 1][..j] == record[..j];
      var parameterName := parameterElement.tag;
      if !IsMeta(parameterName) {
        var parameterType: string;
        if "TYPE" in parameterElement.attrib {
          parameterType := parameterElement.attrib["TYPE"];
        } else if parameterName == "GlobalID" {
          parameterType := "GID";
        } else {
          r := Err(UnhandledType(parameterName));
          ParametersErrStays(record, j + 1);
          return;
        }
        parameters := Put(parameters, parameterName, MessageDefinitionParameter(parameterName, parameterType));
      }
      j := j + 1;
    }
    assert record[..j] == record;
    r := Ok(parameters);
  }

  /** The first loop of `_get_messages_from_xml`: one definition per new name. */
  method ReadMessages(elements: seq<Element>) returns (r: Result<Dict<string, MessageDefinition>>)
    ensures r == CollectMessages(elements)
  {
    var messages: Dict<string, MessageDefinition> := [];
    var i := 0;
    while i < |elements|
      invariant 0 <= i <= |elements|
      invariant CollectMessages(elements[..i]) == Ok(messages)
    {
      var messageElement := elements[i];
      CollectAt(elements, i);
      if messageElement.tag != "_ProtocolInfo" {
        if |messageElement.children| == 0 {
          r := Err(MissingRecord(messageElement.tag));
          MessagesErrStays(elements, i + 1);
          return;
        }
        var record := messageElement.children[0].children;
        var messageName := messageElement.tag;
        if messageName !in Keys(messages) {
          var description := MessageField(record, "_MsgDescription");
          var order := MessageOrder(record);
          if description.Err? || order.Err? {
            r := if description.Err? then Err(description.error) else Err(order.error);
            MessagesErrStays(elements, i + 1);
            return;
          }
          var parameters := ParametersFromRecord(record);
          if parameters.Err? {
            r := Err(parameters.error);
            MessagesErrStays(elements, i + 1);
            return;
          }
          assert MessageOf(messageElement) == Ok(MessageDefinition(order.value, messageName, description.value, parameters.value));
          messages := Put(messages, messageName, MessageDefinition(order.value, messageName, description.value, parameters.value));
        }
      }
      i := i + 1;
    }
    assert elements[..i] == elements;
    r := Ok(messages);
  }

  /** The for-else loop: does any definition declare an order? */
  method InMessageOrder(messageDefs: seq<MessageDefinition>) returns (inMessageOrder: bool)
    ensures inMessageOrder == AnyOrder(messageDefs)
  {
    inMessageOrder := false;
    var k := 0;
    while k < |messageDefs|
      invariant 0 <= k <= |messageDefs|
      invariant forall m :: 0 <= m < k ==> messageDefs[m].order.None?
    {
      if messageDefs[k].order.Some? {
        inMessageOrder := true;
        return;
      }
      k := k + 1;
    }
  }

  /** The renumbering loop, filling `sorted_messages` and (through the shared
      objects) the name-keyed entries. */
  method IndexMessages(sorted: seq<MessageDefinition>) returns (r: Result<map<Key, MessageDefinition>>)
    ensures r == Resolve(sorted)
  {
    var sortedMessages: map<Key, MessageDefinition> := map[];
    var byName: map<Key, MessageDefinition> := map[];
    ghost var resolved: seq<MessageDefinition> := [];
    var idx := 1;
    while idx <= |sorted|
      invariant 1 <= idx <= |sorted| + 1
      invariant Renumber(sorted[..idx - 1]) == Ok(resolved) && |resolved| == idx - 1
      invariant sortedMessages == OrderIndex(resolved) && byName == NameIndex(resolved)
    {
      var message := sorted[idx - 1];
      if message.order.Some? && message.order.value != idx {
        r := Err(OrderMismatch(message.order.value, idx));
        RenumberStep(sorted, idx - 1, resolved);
        RenumberErrStays(sorted, idx);
        return;
      }
      var renumbered := message.(order := Some(idx));
      sortedMessages := sortedMessages[OrderKey(idx) := renumbered];
      byName := byName[NameKey(renumbered.name) := renumbered];
      RenumberStep(sorted, idx - 1, resolved);
      IndexStep(resolved, renumbered);
      resolved := resolved + [renumbered];
      idx := idx + 1;
    }
    assert sorted[..idx - 1] == sorted;
    r := Ok(sortedMessages + byName);
  }

  /** `_get_messages_from_xml(root)`: collect, sort, renumber, index twice. */
  method GetMessagesFromXml(root: Element) returns (r: Result<map<Key, MessageDefinition>>)
    ensures r == MessagesFromXml(root)
  {
    var messages :- ReadMessages(root.children);
    var messageDefs := Values(messages);
    var inMessageOrder := InMessageOrder(messageDefs);
    var sorted :- SortDefinitions(messageDefs, inMessageOrder);
    r := IndexMessages(sorted);
  }

  /** `ProtocolDefinition.from_xml_file`, from the parsed document. */
  method FromXmlFile(root: Element) returns (r: Result<ProtocolDefinition>)
    ensures r == ProtocolFromXml(root)
  {
    var info :- ProtocolInfoOf(root);
    var messages :- GetMessagesFromXml(root);
    r := Ok(ProtocolDefinition(info.serviceId, info.protocolType, info.version, info.description, messages));
  }
}
