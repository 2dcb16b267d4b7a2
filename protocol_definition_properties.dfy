/** What `_get_messages_from_xml` and `ProtocolDefinition.from_xml_file`
    promise about the definitions they build. */
module SchemaProperties {
  import opened Wrappers
  import opened Dicts
  import opened Sorting
  import opened Xml
  import opened Schema

  // ---------------------------------------------------------------------------
  // Reference definitions

  /** The tags of the children that are parameters (not meta fields). */
  function NonMetaTags(record: seq<Element>): (tags: seq<string>)
    ensures forall t :: t in tags <==> exists j :: 0 <= j < |record| && record[j].tag == t && !IsMeta(t)
    decreases |record|
  {
    if record == [] then []
    else
      var pre := record[..|record| - 1];
      var e := record[|record| - 1];
      assert forall j :: 0 <= j < |pre| ==> pre[j] == record[j];
      if IsMeta(e.tag) then NonMetaTags(pre) else NonMetaTags(pre) + [e.tag]
  }

  /** The tags of the children that are messages (everything but the protocol info). */
  function MessageTags(elements: seq<Element>): (tags: seq<string>)
    ensures forall t :: t in tags <==> exists j :: 0 <= j < |elements| && elements[j].tag == t && t != "_ProtocolInfo"
    decreases |elements|
  {
    if elements == [] then []
    else
      var pre := elements[..|elements| - 1];
      var e := elements[|elements| - 1];
      assert forall j :: 0 <= j < |pre| ==> pre[j] == elements[j];
      if e.tag == "_ProtocolInfo" then MessageTags(pre) else MessageTags(pre) + [e.tag]
  }

  /** Child `j` is a parameter without TYPE that is not `GlobalID`. */
  predicate BadParameter(record: seq<Element>, j: int) {
    0 <= j < |record| && !IsMeta(record[j].tag) && "TYPE" !in record[j].attrib && record[j].tag != "GlobalID"
  }

  /** Child `j` is the last parameter child carrying its tag. */
  predicate LastParameter(record: seq<Element>, j: int) {
    0 <= j < |record| && !IsMeta(record[j].tag) && forall j' :: j < j' < |record| ==> record[j'].tag != record[j].tag
  }

  /** Child `j` is the first message element carrying its tag. */
  predicate FirstMessage(elements: seq<Element>, j: int) {
    0 <= j < |elements| && elements[j].tag != "_ProtocolInfo" && forall j' :: 0 <= j' < j ==> elements[j'].tag != elements[j].tag
  }

  function NameOf(m: MessageDefinition): string {
    m.name
  }

  // ---------------------------------------------------------------------------
  // Parameters

  /** Building the parameter dict fails exactly when some parameter has no
      TYPE and is not `GlobalID`, and then it names the first of them. */
  lemma {:induction false} ParametersFailure(record: seq<Element>)
    ensures ParametersOf(record).Err? <==> exists j :: BadParameter(record, j)
    ensures ParametersOf(record).Err? ==>
      exists j :: BadParameter(record, j) && ParametersOf(record).error == UnhandledType(record[j].tag)
              && forall i :: 0 <= i < j ==> !BadParameter(record, i)
    decreases |record|
  {
    if record != [] {
      var n := |record| - 1;
      var pre := record[..n];
      ParametersFailure(pre);
      ParametersLast(record);
      assert forall j :: 0 <= j < n ==> (BadParameter(pre, j) <==> BadParameter(record, j));
      if ParametersOf(pre).Ok? {
        assert forall j :: 0 <= j < n ==> !BadParameter(record, j);
      }
    }
  }

  /** The parameter loop's last pass: an earlier failure is kept, and
      otherwise the last child fails it exactly when it is a bad parameter. */
  lemma {:induction false} ParametersLast(record: seq<Element>)
    requires record != []
    ensures var n := |record| - 1;
      var pre := ParametersOf(record[..n]);
      && (pre.Err? ==> ParametersOf(record) == Err(pre.error))
      && (pre.Ok? ==> (ParametersOf(record).Err? <==> BadParameter(record, n)))
      && (pre.Ok? && BadParameter(record, n) ==> ParametersOf(record) == Err(UnhandledType(record[n].tag)))
  {
  }

  /** The parameter dict has one entry per distinct parameter tag, in order of
      first appearance; each entry is named by its key; and a tag given twice
      keeps the TYPE of its last appearance (the default "GID" for a GlobalID
      without TYPE). */
  lemma {:induction false} ParametersShape(record: seq<Element>)
    requires ParametersOf(record).Ok?
    ensures var ps := ParametersOf(record).value;
      && Keys(ps) == Dedup(NonMetaTags(record))
      && (forall i :: 0 <= i < |ps| ==> ps[i].1.name == ps[i].0)
      && forall j :: LastParameter(record, j) ==>
           ParameterType(record[j]).Ok?
           && Get(ps, record[j].tag) == Some(MessageDefinitionParameter(record[j].tag, ParameterType(record[j]).value))
    decreases |record|
  {
    if record != [] {
      var n := |record| - 1;
      var pre := record[..n];
      var e := record[n];
      ParametersShape(pre);
      var before := ParametersOf(pre).value;
      var ps := ParametersOf(record).value;
      if IsMeta(e.tag) {
        assert ps == before;
      } else {
        var v := MessageDefinitionParameter(e.tag, ParameterType(e).value);
        assert ps == Put(before, e.tag, v);
        assert NonMetaTags(record) == NonMetaTags(pre) + [e.tag];
        assert (NonMetaTags(pre) + [e.tag])[..|NonMetaTags(pre)|] == NonMetaTags(pre);
        forall i | 0 <= i < |ps| ensures ps[i].1.name == ps[i].0 {
          assert ps[i] in ps;
        }
      }
      forall j | LastParameter(record, j)
        ensures ParameterType(record[j]).Ok?
              && Get(ps, record[j].tag) == Some(MessageDefinitionParameter(record[j].tag, ParameterType(record[j]).value))
      {
        if j == n {
          GetPut(before, e.tag, MessageDefinitionParameter(e.tag, ParameterType(e).value), e.tag);
        } else {
          assert pre[j] == record[j];
          assert LastParameter(pre, j);
          if !IsMeta(e.tag) {
            GetPut(before, e.tag, MessageDefinitionParameter(e.tag, ParameterType(e).value), record[j].tag);
          }
        }
      }
    }
  }

  // ---------------------------------------------------------------------------
  // Messages

  predicate WellKeyed(d: Dict<string, MessageDefinition>) {
    forall i :: 0 <= i < |d| ==> d[i].1.name == d[i].0
  }

  lemma {:induction false} CollectStep(elements: seq<Element>)
    requires elements != [] && CollectMessages(elements).Ok?
    ensures var pre := elements[..|elements| - 1];
      CollectMessages(pre).Ok? && CollectMessages(elements) == AddMessage(CollectMessages(pre).value, elements[|elements| - 1])
  {
  }

  /** A pass of the message loop that succeeds on a message element found
      a record in it. */
  lemma {:induction false} AddMessageRecord(before: Dict<string, MessageDefinition>, e: Element)
    requires AddMessage(before, e).Ok?
    ensures e.tag != "_ProtocolInfo" ==> e.children != []
  {
  }

  /** The three outcomes of one pass of the message loop. */
  lemma {:induction false} AddMessageCases(before: Dict<string, MessageDefinition>, e: Element)
    requires AddMessage(before, e).Ok?
    ensures e.tag != "_ProtocolInfo" ==> e.children != []
    ensures e.tag == "_ProtocolInfo" || e.tag in Keys(before) ==> AddMessage(before, e).value == before
    ensures e.tag != "_ProtocolInfo" && e.tag !in Keys(before) ==>
      MessageOf(e).Ok? && AddMessage(before, e).value == Put(before, e.tag, MessageOf(e).value)
  {
  }

  lemma {:induction false} MessageTagsStep(elements: seq<Element>)
    requires elements != []
    ensures var e := elements[|elements| - 1];
      MessageTags(elements) == MessageTags(elements[..|elements| - 1]) + if e.tag == "_ProtocolInfo" then [] else [e.tag]
  {
  }

  /** A message read from an element is named by the element's tag. */
  lemma {:induction false} MessageOfName(e: Element)
    requires e.children != [] && MessageOf(e).Ok?
    ensures MessageOf(e).value.name == e.tag
  {
  }

  /** Filing a message under its own name keeps every entry named by its key. */
  lemma {:induction false} PutWellKeyed(d: Dict<string, MessageDefinition>, k: string, v: MessageDefinition)
    requires WellKeyed(d) && v.name == k
    ensures WellKeyed(Put(d, k, v))
  {
    var r := Put(d, k, v);
    forall i | 0 <= i < |r| ensures r[i].1.name == r[i].0 {
      assert r[i] in r;
    }
  }

  /** The message dict has one entry per distinct message tag (the protocol
      info excluded), in order of first appearance, and each entry is named
      by its key. */
  lemma {:induction false} CollectKeys(elements: seq<Element>)
    requires CollectMessages(elements).Ok?
    ensures var d := CollectMessages(elements).value;
      Keys(d) == Dedup(MessageTags(elements)) && WellKeyed(d)
    decreases |elements|
  {
    if elements != [] {
      var n := |elements| - 1;
      var pre := elements[..n];
      var e := elements[n];
      CollectStep(elements);
      CollectKeys(pre);
      var before := CollectMessages(pre).value;
      AddMessageCases(before, e);
      MessageTagsStep(elements);
      if e.tag != "_ProtocolInfo" {
        DedupStep(MessageTags(pre), e.tag);
        if e.tag !in Keys(before) {
          MessageOfName(e);
          PutWellKeyed(before, e.tag, MessageOf(e).value);
        }
      } else {
        assert MessageTags(elements) == MessageTags(pre);
      }
    }
  }

  /** Every message element, duplicates included, has a record. */
  lemma {:induction false} CollectRecords(elements: seq<Element>)
    requires CollectMessages(elements).Ok?
    ensures forall j :: 0 <= j < |elements| && elements[j].tag != "_ProtocolInfo" ==> elements[j].children != []
    decreases |elements|
  {
    if elements != [] {
      var n := |elements| - 1;
      var pre := elements[..n];
      CollectStep(elements);
      CollectRecords(pre);
      AddMessageRecord(CollectMessages(pre).value, elements[n]);
      RecordsExtend(elements);
    }
  }

  /** Records for the message elements before the last one, and for the
      last one, are records for all of them. */
  lemma {:induction false} RecordsExtend(elements: seq<Element>)
    requires elements != []
    requires var pre := elements[..|elements| - 1];
      forall j :: 0 <= j < |pre| && pre[j].tag != "_ProtocolInfo" ==> pre[j].children != []
    requires var e := elements[|elements| - 1]; e.tag != "_ProtocolInfo" ==> e.children != []
    ensures forall j :: 0 <= j < |elements| && elements[j].tag != "_ProtocolInfo" ==> elements[j].children != []
  {
    var pre := elements[..|elements| - 1];
    forall j | 0 <= j < |elements| && elements[j].tag != "_ProtocolInfo"
      ensures elements[j].children != []
    {
      if j < |pre| {
        assert pre[j] == elements[j];
      }
    }
  }

  /** The entry for a tag is the definition read from its first element;
      later elements with the same tag are ignored. */
  lemma {:induction false} CollectFirst(elements: seq<Element>)
    requires CollectMessages(elements).Ok?
    ensures forall j :: FirstMessage(elements, j) ==>
      && elements[j].children != [] && MessageOf(elements[j]).Ok?
      && Get(CollectMessages(elements).value, elements[j].tag) == Some(MessageOf(elements[j]).value)
    decreases |elements|
  {
    if elements != [] {
      var n := |elements| - 1;
      var pre := elements[..n];
      var e := elements[n];
      CollectStep(elements);
      assert forall j :: 0 <= j < n ==> pre[j] == elements[j];
      CollectFirst(pre);
      CollectKeys(pre);
      var before := CollectMessages(pre).value;
      AddMessageCases(before, e);
      forall j | FirstMessage(elements, j)
        ensures && elements[j].children != [] && MessageOf(elements[j]).Ok?
                && Get(CollectMessages(elements).value, elements[j].tag) == Some(MessageOf(elements[j]).value)
      {
        if j == n {
          DedupSpec(MessageTags(pre));
          assert e.tag !in MessageTags(pre);
          GetPut(before, e.tag, MessageOf(e).value, e.tag);
        } else {
          assert FirstMessage(pre, j);
          if e.tag != "_ProtocolInfo" && e.tag !in Keys(before) {
            GetPut(before, e.tag, MessageOf(e).value, elements[j].tag);
          }
        }
      }
    }
  }

  /** A message element without a record fails the load, even when it only
      repeats an earlier name. */
  lemma {:induction false} MissingRecordFails(elements: seq<Element>, j: nat)
    requires j < |elements| && elements[j].tag != "_ProtocolInfo" && elements[j].children == []
    ensures CollectMessages(elements).Err?
  {
    if CollectMessages(elements).Ok? {
      CollectRecords(elements);
    }
  }

  /** A message element whose tag was already collected is skipped before any
      of its fields are read: the load is unchanged, however malformed its
      `_MsgDescription`, `_MsgOrder` or parameters are. Only its record is
      needed, since `message_element[0]` comes before the duplicate check. */
  lemma {:induction false} DuplicateSkipped(pre: seq<Element>, dup: Element)
    requires CollectMessages(pre).Ok? && dup.tag != "_ProtocolInfo" && dup.children != []
    requires dup.tag in MessageTags(pre)
    ensures CollectMessages(pre + [dup]) == CollectMessages(pre)
  {
    var elements := pre + [dup];
    assert elements[..|pre|] == pre;
    CollectAt(elements, |pre|);
    assert elements[..|pre| + 1] == elements;
    CollectKeys(pre);
    DedupSpec(MessageTags(pre));
  }

  /** A message is read only when its `_MsgDescription`, its `_MsgOrder` and
      its parameters are; a missing `_MsgDescription` is the first failure. */
  lemma {:induction false} MessageOfRequired(e: Element)
    requires e.children != []
    ensures var record := e.children[0].children;
      MessageOf(e).Ok? <==> MessageField(record, "_MsgDescription").Ok? && MessageOrder(record).Ok? && ParametersOf(record).Ok?
    ensures var record := e.children[0].children;
      Find(record, "_MsgDescription").None? ==> MessageOf(e) == Err(MissingMessageField("_MsgDescription"))
  {
  }

  /** The message loop succeeds exactly when every message element has a
      record and the first element of each tag reads as a message. */
  lemma {:induction false} CollectSucceeds(elements: seq<Element>)
    ensures CollectMessages(elements).Ok? <==>
      && (forall j :: 0 <= j < |elements| && elements[j].tag != "_ProtocolInfo" ==> elements[j].children != [])
      && (forall j :: FirstMessage(elements, j) ==> elements[j].children != [] && MessageOf(elements[j]).Ok?)
  {
    if CollectMessages(elements).Ok? {
      CollectRecords(elements);
      CollectFirst(elements);
    } else {
      if (forall j :: 0 <= j < |elements| && elements[j].tag != "_ProtocolInfo" ==> elements[j].children != [])
         && (forall j :: FirstMessage(elements, j) ==> elements[j].children != [] && MessageOf(elements[j]).Ok?) {
        CollectSucceedsIf(elements);
      }
    }
  }

  /** The converse half of CollectSucceeds, by induction on the elements. */
  lemma {:induction false} CollectSucceedsIf(elements: seq<Element>)
    requires forall j :: 0 <= j < |elements| && elements[j].tag != "_ProtocolInfo" ==> elements[j].children != []
    requires forall j :: FirstMessage(elements, j) ==> elements[j].children != [] && MessageOf(elements[j]).Ok?
    ensures CollectMessages(elements).Ok?
    decreases |elements|
  {
    if elements != [] {
      var n := |elements| - 1;
      var pre := elements[..n];
      var e := elements[n];
      assert forall j :: 0 <= j < n ==> pre[j] == elements[j];
      assert forall j :: 0 <= j < n ==> (FirstMessage(pre, j) <==> FirstMessage(elements, j));
      CollectSucceedsIf(pre);
      CollectAt(elements, n);
      assert elements[..n + 1] == elements;
      var before := CollectMessages(pre).value;
      if e.tag != "_ProtocolInfo" && e.tag !in Keys(before) {
        CollectKeys(pre);
        DedupSpec(MessageTags(pre));
        assert e.tag !in MessageTags(pre);
        assert FirstMessage(elements, n);
      }
    }
  }

  // ---------------------------------------------------------------------------
  // Renumbering and the two indexes

  /** Renumbering succeeds exactly when no definition declares an order other
      than its position (from 1), and gives every definition its position. */
  lemma {:induction false} RenumberShape(sorted: seq<MessageDefinition>)
    ensures Renumber(sorted).Ok? <==>
      forall i :: 0 <= i < |sorted| && sorted[i].order.Some? ==> sorted[i].order.value == i + 1
    ensures Renumber(sorted).Ok? ==>
      forall i :: 0 <= i < |sorted| ==> Renumber(sorted).value[i] == sorted[i].(order := Some(i + 1))
    decreases |sorted|
  {
    if sorted != [] {
      var n := |sorted| - 1;
      var pre := sorted[..n];
      assert forall i :: 0 <= i < n ==> pre[i] == sorted[i];
      RenumberShape(pre);
    }
  }

  lemma {:induction false} OrderIndexShape(resolved: seq<MessageDefinition>)
    ensures forall k :: OrderKey(k) in OrderIndex(resolved) <==> 1 <= k <= |resolved|
    ensures forall k :: 1 <= k <= |resolved| ==> OrderIndex(resolved)[OrderKey(k)] == resolved[k - 1]
    ensures forall name :: NameKey(name) !in OrderIndex(resolved)
    decreases |resolved|
  {
    if resolved != [] {
      var pre := resolved[..|resolved| - 1];
      OrderIndexShape(pre);
    }
  }

  /** The name keys are the names of the definitions, and nothing else. */
  lemma {:induction false} NameIndexKeys(resolved: seq<MessageDefinition>)
    ensures forall name :: NameKey(name) in NameIndex(resolved) <==> name in Project(resolved, NameOf)
    ensures forall k :: OrderKey(k) !in NameIndex(resolved)
    decreases |resolved|
  {
    if resolved != [] {
      var n := |resolved| - 1;
      var pre := resolved[..n];
      assert resolved == pre + [resolved[n]];
      IndexStep(pre, resolved[n]);
      assert Project(resolved, NameOf) == Project(pre, NameOf) + [resolved[n].name];
      NameIndexKeys(pre);
    }
  }

  /** With distinct names, each definition is the one stored under its name. */
  lemma {:induction false} NameIndexValues(resolved: seq<MessageDefinition>)
    requires Distinct(Project(resolved, NameOf))
    ensures forall i :: 0 <= i < |resolved| ==>
      NameKey(resolved[i].name) in NameIndex(resolved) && NameIndex(resolved)[NameKey(resolved[i].name)] == resolved[i]
    decreases |resolved|
  {
    if resolved != [] {
      var n := |resolved| - 1;
      var pre := resolved[..n];
      var m := resolved[n];
      assert resolved == pre + [m];
      IndexStep(pre, m);
      var names := Project(resolved, NameOf);
      assert Project(pre, NameOf) == names[..n];
      NameIndexValues(pre);
      forall i | 0 <= i < |resolved|
        ensures NameKey(resolved[i].name) in NameIndex(resolved) && NameIndex(resolved)[NameKey(resolved[i].name)] == resolved[i]
      {
        if i < n {
          assert names[i] != names[n];
          assert pre[i] == resolved[i];
        }
      }
    }
  }

  lemma {:induction false} NameIndexShape(resolved: seq<MessageDefinition>)
    requires Distinct(Project(resolved, NameOf))
    ensures forall name :: NameKey(name) in NameIndex(resolved) <==> name in Project(resolved, NameOf)
    ensures forall i :: 0 <= i < |resolved| ==> NameIndex(resolved)[NameKey(resolved[i].name)] == resolved[i]
    ensures forall k :: OrderKey(k) !in NameIndex(resolved)
  {
    NameIndexKeys(resolved);
    NameIndexValues(resolved);
  }

  /** Sorting definitions (either way) rearranges them, names included. */
  lemma {:induction false} SortDefinitionsPermutes(defs: seq<MessageDefinition>, byOrder: bool)
    requires SortDefinitions(defs, byOrder).Ok?
    ensures var sorted := SortDefinitions(defs, byOrder).value;
      multiset(sorted) == multiset(defs) && multiset(Project(sorted, NameOf)) == multiset(Project(defs, NameOf))
  {
    var le := if byOrder then OrderLe else NameLe;
    SortElements(defs, le);
    SortPermutes(defs, le, NameOf);
  }

  /** The names of a well-keyed dict's values are its keys. */
  lemma {:induction false} ValueNames(d: Dict<string, MessageDefinition>)
    requires forall i :: 0 <= i < |d| ==> d[i].1.name == d[i].0
    ensures Project(Values(d), NameOf) == Keys(d)
  {
  }

  /** Distinct names, arranged differently, are still distinct and the same set. */
  lemma {:induction false} SameNames(a: seq<string>, b: seq<string>)
    requires multiset(a) == multiset(b) && Distinct(a)
    ensures Distinct(b) && forall name :: name in b <==> name in a
  {
    DistinctPermutation(a, b);
    forall name ensures name in b <==> name in a {
      assert name in multiset(b) <==> name in multiset(a);
    }
  }

  /** Sorting rearranges the definitions and renumbering gives each its
      position, which agrees with any order it declared. */
  lemma {:induction false} ResolutionOrders(d: Dict<string, MessageDefinition>, sorted: seq<MessageDefinition>, resolved: seq<MessageDefinition>)
    requires SortDefinitions(Values(d), AnyOrder(Values(d))) == Ok(sorted)
    requires Renumber(sorted) == Ok(resolved)
    ensures |resolved| == |sorted| == |d|
    ensures multiset(sorted) == multiset(Values(d))
    ensures forall i :: 0 <= i < |sorted| ==> resolved[i] == sorted[i].(order := Some(i + 1))
    ensures forall i :: 0 <= i < |sorted| && sorted[i].order.Some? ==> sorted[i].order.value == i + 1
  {
    SortDefinitionsPermutes(Values(d), AnyOrder(Values(d)));
    RenumberShape(sorted);
  }

  /** Definitions carrying the dict's names in another arrangement, each
      renamed to itself, have the dict's keys as names, each once. */
  lemma {:induction false} ResolutionNames(d: Dict<string, MessageDefinition>, sorted: seq<MessageDefinition>, resolved: seq<MessageDefinition>)
    requires Distinct(Keys(d)) && forall i :: 0 <= i < |d| ==> d[i].1.name == d[i].0
    requires multiset(Project(sorted, NameOf)) == multiset(Project(Values(d), NameOf))
    requires |resolved| == |sorted| && forall i :: 0 <= i < |sorted| ==> resolved[i].name == sorted[i].name
    ensures Distinct(Project(resolved, NameOf))
    ensures forall name :: name in Project(resolved, NameOf) <==> name in Keys(d)
  {
    ValueNames(d);
    assert Project(resolved, NameOf) == Project(sorted, NameOf);
    SameNames(Keys(d), Project(resolved, NameOf));
  }

  /** The definitions being sorted, renumbered and indexed, named once. */
  lemma {:induction false} ResolutionFacts(d: Dict<string, MessageDefinition>, sorted: seq<MessageDefinition>, resolved: seq<MessageDefinition>)
    requires Distinct(Keys(d)) && forall i :: 0 <= i < |d| ==> d[i].1.name == d[i].0
    requires SortDefinitions(Values(d), AnyOrder(Values(d))) == Ok(sorted)
    requires Renumber(sorted) == Ok(resolved)
    ensures |resolved| == |sorted| == |d|
    ensures multiset(sorted) == multiset(Values(d))
    ensures Distinct(Project(resolved, NameOf))
    ensures forall name :: name in Project(resolved, NameOf) <==> name in Keys(d)
    ensures forall i :: 0 <= i < |sorted| ==> resolved[i] == sorted[i].(order := Some(i + 1))
    ensures forall i :: 0 <= i < |sorted| && sorted[i].order.Some? ==> sorted[i].order.value == i + 1
  {
    ResolutionOrders(d, sorted, resolved);
    SortDefinitionsPermutes(Values(d), AnyOrder(Values(d)));
    ResolutionNames(d, sorted, resolved);
  }

  /** What the name-keyed entry of a resolved schema holds. */
  lemma {:induction false} NameEntry(d: Dict<string, MessageDefinition>, sorted: seq<MessageDefinition>, resolved: seq<MessageDefinition>, p: nat)
    requires Distinct(Keys(d)) && forall i :: 0 <= i < |d| ==> d[i].1.name == d[i].0
    requires |resolved| == |sorted| == |d| && multiset(sorted) == multiset(Values(d))
    requires forall i :: 0 <= i < |sorted| ==> resolved[i] == sorted[i].(order := Some(i + 1))
    requires forall i :: 0 <= i < |sorted| && sorted[i].order.Some? ==> sorted[i].order.value == i + 1
    requires p < |resolved|
    ensures var m := Get(d, resolved[p].name);
      && m.Some? && resolved[p] == m.value.(order := Some(p + 1))
      && (m.value.order.Some? ==> m.value.order == Some(p + 1))
  {
    assert sorted[p] in multiset(sorted);
    var j := ValueEntry(d, sorted[p]);
    GetDistinct(d, j);
  }

  // ---------------------------------------------------------------------------
  // The resolved schema

  /** The pieces the resolved dict is made of. */
  lemma {:induction false} ResolvedParts(root: Element) returns (d: Dict<string, MessageDefinition>, resolved: seq<MessageDefinition>)
    requires CollectMessages(root.children).Ok? && MessagesFromXml(root).Ok?
    ensures d == CollectMessages(root.children).value
    ensures MessagesFromXml(root).value == OrderIndex(resolved) + NameIndex(resolved)
    ensures |resolved| == |d| && Distinct(Project(resolved, NameOf))
    ensures forall name :: name in Project(resolved, NameOf) <==> name in Keys(d)
    ensures forall p :: 0 <= p < |resolved| ==>
      var m := Get(d, resolved[p].name);
      && m.Some? && resolved[p] == m.value.(order := Some(p + 1))
      && (m.value.order.Some? ==> m.value.order == Some(p + 1))
  {
    d := CollectMessages(root.children).value;
    CollectKeys(root.children);
    DedupSpec(MessageTags(root.children));
    var sorted := SortDefinitions(Values(d), AnyOrder(Values(d))).value;
    resolved := Renumber(sorted).value;
    ResolutionFacts(d, sorted, resolved);
    forall p | 0 <= p < |resolved|
      ensures var m := Get(d, resolved[p].name);
        && m.Some? && resolved[p] == m.value.(order := Some(p + 1))
        && (m.value.order.Some? ==> m.value.order == Some(p + 1))
    {
      NameEntry(d, sorted, resolved, p);
    }
  }

  /** Every position from 1 to the number of messages is a key, and no other
      int; the definition there has that position as its order and is also
      the one stored under its name. */
  lemma {:induction false} ResolvedOrderKeys(root: Element)
    requires CollectMessages(root.children).Ok? && MessagesFromXml(root).Ok?
    ensures var d := CollectMessages(root.children).value; var r := MessagesFromXml(root).value;
      && (forall k :: OrderKey(k) in r <==> 1 <= k <= |d|)
      && forall k :: 1 <= k <= |d| ==>
            r[OrderKey(k)].order == Some(k) && NameKey(r[OrderKey(k)].name) in r
            && r[NameKey(r[OrderKey(k)].name)] == r[OrderKey(k)]
  {
    var d, resolved := ResolvedParts(root);
    var r := MessagesFromXml(root).value;
    OrderIndexShape(resolved);
    NameIndexShape(resolved);
    forall k | 1 <= k <= |d|
      ensures r[OrderKey(k)] == resolved[k - 1] && r[NameKey(resolved[k - 1].name)] == resolved[k - 1]
    {
      assert resolved[k - 1].name in Project(resolved, NameOf);
    }
  }

  /** Every message name is a key, and no other str; the definition there is
      the one read for that name, with its resolved order, which is kept when
      it was declared and leads back to the same definition. */
  lemma {:induction false} ResolvedNameKeys(root: Element)
    requires CollectMessages(root.children).Ok? && MessagesFromXml(root).Ok?
    ensures var d := CollectMessages(root.children).value; var r := MessagesFromXml(root).value;
      && (forall name :: NameKey(name) in r <==> name in Keys(d))
      && forall name :: name in Keys(d) ==>
            var m := r[NameKey(name)];
            && m.order.Some? && OrderKey(m.order.value) in r && r[OrderKey(m.order.value)] == m
            && m == Get(d, name).value.(order := m.order)
            && (Get(d, name).value.order.Some? ==> m.order == Get(d, name).value.order)
  {
    var d, resolved := ResolvedParts(root);
    var r := MessagesFromXml(root).value;
    OrderIndexShape(resolved);
    NameIndexShape(resolved);
    forall name | name in Keys(d)
      ensures var m := r[NameKey(name)];
        && m.order.Some? && OrderKey(m.order.value) in r && r[OrderKey(m.order.value)] == m
        && m == Get(d, name).value.(order := m.order)
        && (Get(d, name).value.order.Some? ==> m.order == Get(d, name).value.order)
    {
      var p :| 0 <= p < |resolved| && Project(resolved, NameOf)[p] == name;
      assert r[NameKey(name)] == resolved[p];
      assert r[OrderKey(p + 1)] == resolved[p];
    }
  }

  /** How the order of the definitions is decided: declared orders must be
      all present or all absent; declared orders succeed exactly when they are
      1 to N in some arrangement; without them the positions follow the names. */
  lemma {:induction false} OrderResolution(root: Element)
    requires CollectMessages(root.children).Ok?
    ensures var defs := Values(CollectMessages(root.children).value);
      && (AnyOrder(defs) && !AllOrders(defs) ==> MessagesFromXml(root) == Err(UnorderableOrders))
      && (AllOrders(defs) ==>
            (MessagesFromXml(root).Ok? <==> multiset(Project(defs, OrderValue)) == multiset(Range(1, |defs|))))
      && (!AnyOrder(defs) ==>
            && MessagesFromXml(root).Ok?
            && var r := MessagesFromXml(root).value;
               forall k :: OrderKey(k) in r && OrderKey(k + 1) in r ==> LexLe(r[OrderKey(k)].name, r[OrderKey(k + 1)].name))
  {
    var defs := Values(CollectMessages(root.children).value);
    if AllOrders(defs) && defs != [] {
      assert AnyOrder(defs) by { assert defs[0].order.Some?; }
      DeclaredOrders(defs);
    } else if !AnyOrder(defs) {
      NamedOrders(root, defs);
    }
  }

  /** Sorted by declared order, the orders are non-decreasing, the same
      numbers as before, and all present. */
  lemma {:induction false} OrderSortFacts(defs: seq<MessageDefinition>)
    requires AllOrders(defs)
    ensures var sorted := Sort(defs, OrderLe);
      && NonDecreasing(Project(sorted, OrderValue))
      && multiset(Project(sorted, OrderValue)) == multiset(Project(defs, OrderValue))
      && AllOrders(sorted)
  {
    var sorted := Sort(defs, OrderLe);
    assert Total(OrderLe) by {
      forall a, b ensures OrderLe(a, b) || OrderLe(b, a) { }
    }
    SortSorted(defs, OrderLe);
    AdjacentNonDecreasing(Project(sorted, OrderValue));
    SortElements(defs, OrderLe);
    SortPermutes(defs, OrderLe, OrderValue);
    forall i | 0 <= i < |sorted| ensures sorted[i].order.Some? {
      assert sorted[i] in multiset(defs);
    }
  }

  /** With every order declared, renumbering succeeds exactly when the orders
      read 1, 2, ... in sequence. */
  lemma {:induction false} RenumberDeclared(sorted: seq<MessageDefinition>)
    requires AllOrders(sorted)
    ensures Renumber(sorted).Ok? <==> Project(sorted, OrderValue) == Range(1, |sorted|)
  {
    RenumberShape(sorted);
    if Renumber(sorted).Ok? {
      assert forall i :: 0 <= i < |sorted| ==> Project(sorted, OrderValue)[i] == Range(1, |sorted|)[i];
    }
    if Project(sorted, OrderValue) == Range(1, |sorted|) {
      assert forall i :: 0 <= i < |sorted| ==> sorted[i].order.value == Project(sorted, OrderValue)[i];
    }
  }

  lemma {:induction false} DeclaredOrders(defs: seq<MessageDefinition>)
    requires AllOrders(defs)
    ensures Renumber(Sort(defs, OrderLe)).Ok? <==> multiset(Project(defs, OrderValue)) == multiset(Range(1, |defs|))
  {
    var sorted := Sort(defs, OrderLe);
    var orders := Project(sorted, OrderValue);
    OrderSortFacts(defs);
    RenumberDeclared(sorted);
    var want := Range(1, |defs|);
    if multiset(Project(defs, OrderValue)) == multiset(want) {
      AdjacentNonDecreasing(want);
      SortedUnique(orders, want);
    }
  }

  lemma {:induction false} NamedOrders(root: Element, defs: seq<MessageDefinition>)
    requires CollectMessages(root.children).Ok? && defs == Values(CollectMessages(root.children).value)
    requires !AnyOrder(defs)
    ensures MessagesFromXml(root).Ok?
    ensures var r := MessagesFromXml(root).value;
      forall k :: OrderKey(k) in r && OrderKey(k + 1) in r ==> LexLe(r[OrderKey(k)].name, r[OrderKey(k + 1)].name)
  {
    var sorted := Sort(defs, NameLe);
    assert Total(NameLe) by {
      forall a, b ensures NameLe(a, b) || NameLe(b, a) { LexLeTotal(a.name, b.name); }
    }
    SortSorted(defs, NameLe);
    SortElements(defs, NameLe);
    forall i | 0 <= i < |sorted| ensures sorted[i].order.None? {
      assert sorted[i] in multiset(defs);
    }
    RenumberShape(sorted);
    var resolved := Renumber(sorted).value;
    var r := MessagesFromXml(root).value;
    assert r == OrderIndex(resolved) + NameIndex(resolved);
    OrderIndexShape(resolved);
    NameIndexKeys(resolved);
    forall k | OrderKey(k) in r && OrderKey(k + 1) in r
      ensures LexLe(r[OrderKey(k)].name, r[OrderKey(k + 1)].name)
    {
      assert r[OrderKey(k)] == resolved[k - 1] && r[OrderKey(k + 1)] == resolved[k];
      assert NameLe(sorted[k - 1], sorted[k]);
    }
  }

  /** The four info fields come from the first record of `_ProtocolInfo`. */
  lemma {:induction false} InfoFields(root: Element)
    ensures Find(root.children, "_ProtocolInfo").None? ==> ProtocolInfoOf(root) == Err(MissingProtocolInfo)
    ensures ProtocolInfoOf(root).Ok? ==>
      var info := Find(root.children, "_ProtocolInfo");
      var p := ProtocolInfoOf(root).value;
      && info.Some? && info.value.children != []
      && var record := info.value.children[0].children;
      && InfoField(record, "ServiceID").Ok? && IntOf(InfoField(record, "ServiceID").value) == Ok(p.serviceId)
      && InfoField(record, "ProtocolType") == Ok(p.protocolType)
      && InfoField(record, "ProtocolVersion").Ok? && IntOf(InfoField(record, "ProtocolVersion").value) == Ok(p.version)
      && InfoField(record, "ProtocolDescription") == Ok(p.description)
  {
    var info := Find(root.children, "_ProtocolInfo");
    if info.Some? && info.value.children != [] {
      var record := info.value.children[0].children;
      var serviceId := InfoField(record, "ServiceID");
      var protocolType := InfoField(record, "ProtocolType");
      var version := InfoField(record, "ProtocolVersion");
      var description := InfoField(record, "ProtocolDescription");
      if serviceId.Ok? && IntOf(serviceId.value).Ok? && protocolType.Ok? && version.Ok? && IntOf(version.value).Ok? && description.Ok? {
        assert ProtocolInfoOf(root) == Ok(ProtocolInfo(IntOf(serviceId.value).value, protocolType.value, IntOf(version.value).value, description.value));
      }
    }
  }

  /** The protocol info must be present and complete, and its two numbers must
      parse, before the messages are read. */
  lemma {:induction false} ProtocolInfoRequired(root: Element)
    ensures Find(root.children, "_ProtocolInfo").None? ==> ProtocolFromXml(root) == Err(MissingProtocolInfo)
    ensures ProtocolFromXml(root).Ok? ==>
      var info := Find(root.children, "_ProtocolInfo");
      var p := ProtocolFromXml(root).value;
      && info.Some? && info.value.children != []
      && var record := info.value.children[0].children;
      && InfoField(record, "ServiceID").Ok? && IntOf(InfoField(record, "ServiceID").value) == Ok(p.serviceId)
      && InfoField(record, "ProtocolType") == Ok(p.protocolType)
      && InfoField(record, "ProtocolVersion").Ok? && IntOf(InfoField(record, "ProtocolVersion").value) == Ok(p.version)
      && InfoField(record, "ProtocolDescription") == Ok(p.description)
      && MessagesFromXml(root) == Ok(p.messages)
  {
    InfoFields(root);
    if ProtocolFromXml(root).Ok? {
      var info := ProtocolInfoOf(root).value;
      var p := ProtocolFromXml(root).value;
      assert p.serviceId == info.serviceId && p.protocolType == info.protocolType;
      assert p.version == info.version && p.description == info.description;
    }
  }

  // ---------------------------------------------------------------------------
  // The schema of the repository's loader test

  function Leaf(tag: string, typeTag: string, text: Option<string>): Element {
    Element(tag, text, map["TYPE" := typeTag], [])
  }

  /** The document of tests/test_protocol.py, as ElementTree parses it
      (empty elements have no text; whitespace text is irrelevant here). */
  function SampleDocument(): Element {
    Element("FakeMessages", None, map[], [SampleInfoElement(), SampleMessageElement()])
  }

  function SampleInfoElement(): Element {
    Element("_ProtocolInfo", None, map[], [
      Element("RECORD", None, map[], [
        Leaf("ServiceID", "UBYT", Some("20")),
        Leaf("ProtocolType", "STR", Some("FAKE")),
        Leaf("ProtocolVersion", "INT", Some("1")),
        Leaf("ProtocolDescription", "STR", Some("Fake Messages"))])])
  }

  function SampleMessageElement(): Element {
    Element("MSG_TEST", None, map[], [
      Element("RECORD", None, map[], [
        Leaf("_MsgName", "STR", Some("MSG_TEST")),
        Leaf("_MsgDescription", "STR", Some("test if protocol system works")),
        Leaf("_MsgHandler", "STR", None),
        Leaf("_MsgAccessLvl", "UBYT", Some("0")),
        Leaf("Number", "INT", None)])])
  }

  function SampleMessage(order: Option<int>): MessageDefinition {
    MessageDefinition(order, "MSG_TEST", Some("test if protocol system works"),
                      [("Number", MessageDefinitionParameter("Number", "INT"))])
  }

  /** Info fields that are present and whose numbers parse make the protocol
      info. */
  lemma {:induction false} InfoFromFields(root: Element, info: Element, serviceId: Option<string>, protocolType: Option<string>,
                                          version: Option<string>, description: Option<string>)
    requires Find(root.children, "_ProtocolInfo") == Some(info) && info.children != []
    requires var record := info.children[0].children;
      && InfoField(record, "ServiceID") == Ok(serviceId) && IntOf(serviceId).Ok?
      && InfoField(record, "ProtocolType") == Ok(protocolType)
      && InfoField(record, "ProtocolVersion") == Ok(version) && IntOf(version).Ok?
      && InfoField(record, "ProtocolDescription") == Ok(description)
    ensures ProtocolInfoOf(root) == Ok(ProtocolInfo(IntOf(serviceId).value, protocolType, IntOf(version).value, description))
  {
  }

  /** The two numbers of the sample's protocol info parse. */
  lemma {:induction false} SampleNumbers()
    ensures IntOf(Some("20")) == Ok(20) && IntOf(Some("1")) == Ok(1)
  {
    assert DigitsValue("2") == 2;
    assert DigitsValue("20") == 20 by { assert "20"[..1] == "2"; }
  }

  lemma {:induction false} SampleInfo()
    ensures ProtocolInfoOf(SampleDocument()) == Ok(ProtocolInfo(20, Some("FAKE"), 1, Some("Fake Messages")))
  {
    var info := SampleInfoElement();
    assert Find(SampleDocument().children, "_ProtocolInfo") == Some(info);
    var record := info.children[0].children;
    assert InfoField(record, "ServiceID") == Ok(Some("20"));
    assert InfoField(record, "ProtocolType") == Ok(Some("FAKE")) by {
      assert record[1..][0] == record[1];
    }
    assert InfoField(record, "ProtocolVersion") == Ok(Some("1")) by {
      assert record[1..][1..][0] == record[2];
    }
    assert InfoField(record, "ProtocolDescription") == Ok(Some("Fake Messages")) by {
      assert record[1..][1..][1..][0] == record[3];
    }
    SampleNumbers();
    InfoFromFields(SampleDocument(), info, Some("20"), Some("FAKE"), Some("1"), Some("Fake Messages"));
  }

  lemma {:induction false} SampleParameters()
    ensures ParametersOf(SampleMessageElement().children[0].children)
         == Ok([("Number", MessageDefinitionParameter("Number", "INT"))])
  {
    var record := SampleMessageElement().children[0].children;
    forall i | 0 <= i < 4 ensures IsMeta(record[i].tag) { }
    assert ParametersOf(record[..1]) == Ok([]) by { assert record[..1][..0] == []; }
    assert ParametersOf(record[..2]) == Ok([]) by { assert record[..2][..1] == record[..1]; }
    assert ParametersOf(record[..3]) == Ok([]) by { assert record[..3][..2] == record[..2]; }
    assert ParametersOf(record[..4]) == Ok([]) by { assert record[..4][..3] == record[..3]; }
    assert record[..5][..4] == record[..4] && record[..5] == record;
  }

  /** The info element is skipped and a single message is collected under
      its tag. */
  lemma {:induction false} CollectInfoAndMessage(info: Element, message: Element, m: MessageDefinition)
    requires info.tag == "_ProtocolInfo" && message.tag != "_ProtocolInfo"
    requires message.children != [] && MessageOf(message) == Ok(m)
    ensures CollectMessages([info, message]) == Ok([(message.tag, m)])
  {
    var elements := [info, message];
    assert elements[..0] == [];
    CollectAt(elements, 0);
    assert CollectMessages(elements[..1]) == Ok([]);
    CollectAt(elements, 1);
    assert Put([], message.tag, m) == [(message.tag, m)];
    assert elements[..2] == elements;
  }

  lemma {:induction false} SampleMessageOf()
    ensures MessageOf(SampleMessageElement()) == Ok(SampleMessage(None))
  {
    var record := SampleMessageElement().children[0].children;
    assert Find(record, "_MsgDescription") == Some(record[1]) by {
      assert record[1..][0] == record[1];
    }
    assert MessageField(record, "_MsgDescription") == Ok(Some("test if protocol system works"));
    assert forall i | 0 <= i < |record| :: record[i].tag != "_MsgOrder";
    assert MessageOrder(record) == Ok(None);
    SampleParameters();
  }

  lemma {:induction false} SampleMessages()
    ensures CollectMessages(SampleDocument().children) == Ok([("MSG_TEST", SampleMessage(None))])
  {
    SampleMessageOf();
    CollectInfoAndMessage(SampleInfoElement(), SampleMessageElement(), SampleMessage(None));
  }

  lemma {:induction false} SampleResolved(root: Element)
    requires CollectMessages(root.children) == Ok([("MSG_TEST", SampleMessage(None))])
    ensures MessagesFromXml(root) == Ok(map[OrderKey(1) := SampleMessage(Some(1)), NameKey("MSG_TEST") := SampleMessage(Some(1))])
  {
    var defs := [SampleMessage(None)];
    assert Values([("MSG_TEST", SampleMessage(None))]) == defs;
    assert !AnyOrder(defs);
    assert Sort(defs, NameLe) == defs;
    assert Renumber(defs) == Ok([SampleMessage(Some(1))]) by {
      assert defs[..0] == [] && Renumber([]) == Ok([]);
      assert SampleMessage(None).(order := Some(1)) == SampleMessage(Some(1));
      assert [] + [SampleMessage(Some(1))] == [SampleMessage(Some(1))];
    }
    var resolved := [SampleMessage(Some(1))];
    assert OrderIndex(resolved) == map[OrderKey(1) := SampleMessage(Some(1))] by { assert resolved[..0] == []; }
    assert NameIndex(resolved) == map[NameKey("MSG_TEST") := SampleMessage(Some(1))] by { assert resolved[..0] == []; }
    assert SortDefinitions(defs, false) == Ok(defs);
    assert Resolve(defs) == Ok(OrderIndex(resolved) + NameIndex(resolved));
    assert map[OrderKey(1) := SampleMessage(Some(1))] + map[NameKey("MSG_TEST") := SampleMessage(Some(1))]
        == map[OrderKey(1) := SampleMessage(Some(1)), NameKey("MSG_TEST") := SampleMessage(Some(1))];
  }

  /** Service 20 of type FAKE with one message, MSG_TEST, at position 1,
      whose only parameter is Number of type INT. */
  function SampleProtocol(): ProtocolDefinition {
    ProtocolDefinition(20, Some("FAKE"), 1, Some("Fake Messages"),
                       map[OrderKey(1) := SampleMessage(Some(1)), NameKey("MSG_TEST") := SampleMessage(Some(1))])
  }

  /** The sample loads as SampleProtocol. */
  lemma {:induction false} SampleLoads()
    ensures ProtocolFromXml(SampleDocument()) == Ok(SampleProtocol())
  {
    SampleInfo();
    SampleMessages();
    SampleResolved(SampleDocument());
  }
}
