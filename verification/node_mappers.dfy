/** The mappers from the parsing libraries' trees to the editable tree
    (`toEditableNode` in both applications), with the scalar type inference
    each applies. Every mapped node is linked to the owner it is built under,
    gets fresh ids in pre-order, and starts with the display state of a freshly
    constructed node. */
module NodeMappers {
  import Seqs
  import Text
  import opened EditorModels
  import opened LibraryTrees

  // --- YAML ---

  /** Type inference for a YAML scalar: "true"/"false" in any case is a
      Boolean, a text `toDoubleOrNull` accepts is a Number, anything else a
      String. */
  function YamlScalarType(content: string, ds: Text.DoubleSyntax): (t: ScalarType)
    ensures t == ScalarType.Boolean <==> Text.Lowercase(content) in {"true", "false"}
    ensures t == ScalarType.Number <==> Text.Lowercase(content) !in {"true", "false"} && ds.isDouble(content)
  {
    Text.EqualsIgnoreCaseLower(content, "true");
    Text.EqualsIgnoreCaseLower(content, "false");
    if Text.EqualsIgnoreCase(content, "true") || Text.EqualsIgnoreCase(content, "false") then ScalarType.Boolean
    else if ds.isDouble(content) then ScalarType.Number
    else ScalarType.String
  }

  /** The YAML tree with every tag wrapper dropped: what the editor keeps of it. */
  function Untag(y: YamlNode): YamlNode
    decreases y
  {
    match y
    case YamlScalar(_) => y
    case YamlNull => y
    case YamlList(items) => YamlList(seq(|items|, k requires 0 <= k < |items| => Untag(items[k])))
    case YamlMap(entries) => YamlMap(seq(|entries|, k requires 0 <= k < |entries| => UntagMember(entries[k])))
    case YamlTaggedNode(_, inner) => Untag(inner)
  }

  function UntagMember(m: Member<YamlNode>): Member<YamlNode>
    decreases m
  {
    Member(m.key, Untag(m.value))
  }

  /** Every map in the tree has distinct keys. */
  predicate YamlKeysDistinct(y: YamlNode)
    decreases y
  {
    match y
    case YamlScalar(_) => true
    case YamlNull => true
    case YamlList(items) => forall k :: 0 <= k < |items| ==> YamlKeysDistinct(items[k])
    case YamlMap(entries) =>
      Seqs.Distinct(MemberKeys(entries)) && forall k :: 0 <= k < |entries| ==> YamlMemberKeysDistinct(entries[k])
    case YamlTaggedNode(_, inner) => YamlKeysDistinct(inner)
  }

  predicate YamlMemberKeysDistinct(m: Member<YamlNode>)
    decreases m
  {
    YamlKeysDistinct(m.value)
  }

  /** `YamlNode.toEditableNode(parent)`: a tag wrapper is mapped as its inner
      node; a map's entries keep their order and their keys, duplicates
      included. */
  function FromYaml(y: YamlNode, parent: ParentRef, next: nat, ds: Text.DoubleSyntax): (r: Cloned)
    ensures r.node.id == next && r.node.parent == parent
    ensures next < r.next && Ids(r.node) == Seqs.Range(next, r.next)
    ensures Wired(r.node) && FreshDisplay(r.node)
    decreases y
  {
    match y
    case YamlScalar(content) => Cloned(NewScalar(next, parent, content, YamlScalarType(content, ds)), next + 1)
    case YamlNull => Cloned(EditableNull(next, parent), next + 1)
    case YamlList(items) =>
      var c := FromYamlItems(items, next, next + 1, ds);
      Seqs.RangeCons(next, c.next);
      Cloned(EditableList(next, parent, c.items, true), c.next)
    case YamlMap(entries) =>
      var c := FromYamlMembers(entries, next, next + 1, ds);
      Seqs.RangeCons(next, c.next);
      Cloned(EditableMap(next, parent, c.entries, true), c.next)
    case YamlTaggedNode(_, inner) => FromYaml(inner, parent, next, ds)
  }

  /** A YAML scalar keeps its text verbatim under the inferred type, a YAML
      null becomes a null node with the given parent, and a tag wrapper maps
      exactly as the node it wraps. */
  lemma FromYamlLeaves(y: YamlNode, parent: ParentRef, next: nat, ds: Text.DoubleSyntax)
    ensures y.YamlScalar? ==>
      var n := FromYaml(y, parent, next, ds).node;
      n.EditableScalar? && n.text == y.content && n.explicitType == YamlScalarType(y.content, ds)
      && (n.isMultiLine <==> Text.HasNewline(y.content))
    ensures y.YamlNull? ==> FromYaml(y, parent, next, ds).node == EditableNull(next, parent)
    ensures y.YamlTaggedNode? ==> FromYaml(y, parent, next, ds) == FromYaml(y.innerNode, parent, next, ds)
  {
  }

  function FromYamlItems(s: seq<YamlNode>, listId: nat, next: nat, ds: Text.DoubleSyntax): (r: ClonedItems)
    ensures |r.items| == |s|
    ensures forall k :: 0 <= k < |s| ==>
      r.items[k].parent == InList(listId) && Wired(r.items[k]) && FreshDisplay(r.items[k])
    ensures next <= r.next && ItemIds(r.items) == Seqs.Range(next, r.next)
    decreases s
  {
    if |s| == 0 then ClonedItems([], next)
    else
      var h := FromYaml(s[0], InList(listId), next, ds);
      var t := FromYamlItems(s[1..], listId, h.next, ds);
      Seqs.RangeConcat(next, h.next, t.next);
      var items := [h.node] + t.items;
      assert items[1..] == t.items;
      ClonedItems(items, t.next)
  }

  function FromYamlMembers(s: seq<Member<YamlNode>>, mapId: nat, next: nat, ds: Text.DoubleSyntax): (r: ClonedEntries)
    ensures |r.entries| == |s|
    ensures forall k :: 0 <= k < |s| ==>
      r.entries[k].key == s[k].key && EntryWired(r.entries[k], mapId) && EntryFreshDisplay(r.entries[k])
    ensures next <= r.next && EntryIds(r.entries) == Seqs.Range(next, r.next)
    decreases s
  {
    if |s| == 0 then ClonedEntries([], next)
    else
      var h := FromYamlMember(s[0], mapId, next, ds);
      var t := FromYamlMembers(s[1..], mapId, h.next, ds);
      Seqs.RangeConcat(next, h.next, t.next);
      var entries := [h.entry] + t.entries;
      assert entries[1..] == t.entries;
      ClonedEntries(entries, t.next)
  }

  /** One map entry: the entry takes the key's text and owns the mapped value. */
  function FromYamlMember(m: Member<YamlNode>, mapId: nat, next: nat, ds: Text.DoubleSyntax): (r: ClonedEntry)
    ensures r.entry.id == next && r.entry.key == m.key
    ensures EntryWired(r.entry, mapId) && EntryFreshDisplay(r.entry)
    ensures next < r.next && EntryOwnIds(r.entry) == Seqs.Range(next, r.next)
    decreases m
  {
    var v := FromYaml(m.value, InEntry(next, mapId), next + 1, ds);
    Seqs.RangeCons(next, v.next);
    ClonedEntry(EditableMapEntry(next, mapId, m.key, v.node), v.next)
  }

  // --- JSON ---

  /** The two type-inference rules for JSON primitives. `Strict` is the web
      converter's: a string is a String, the literal texts "true"/"false" are
      Booleans, and every other primitive is a Number. `Lenient` is the config
      editor's: a string is a String, a text `booleanOrNull` reads
      (case-insensitive "true"/"false") is a Boolean, a text read as a double
      or a 64-bit integer is a Number, anything else a String. */
  datatype JsonRule = Strict | Lenient

  function JsonScalarType(rule: JsonRule, content: string, isString: bool, ds: Text.DoubleSyntax): (t: ScalarType)
    ensures isString ==> t == ScalarType.String
    ensures rule.Strict? ==> (t == ScalarType.Boolean <==> !isString && content in {"true", "false"})
    ensures rule.Strict? ==> t != ScalarType.String || isString
    ensures rule.Lenient? ==> (t == ScalarType.Boolean <==> !isString && Text.Lowercase(content) in {"true", "false"})
    ensures rule.Lenient? ==> (t == ScalarType.Number <==>
      !isString && Text.Lowercase(content) !in {"true", "false"} && (ds.isDouble(content) || Text.ParseLong(content).Some?))
  {
    Text.EqualsIgnoreCaseLower(content, "true");
    Text.EqualsIgnoreCaseLower(content, "false");
    match rule
    case Strict =>
      if isString then ScalarType.String
      else if content == "true" || content == "false" then ScalarType.Boolean
      else ScalarType.Number
    case Lenient =>
      if isString then ScalarType.String
      else if Text.EqualsIgnoreCase(content, "true") || Text.EqualsIgnoreCase(content, "false") then ScalarType.Boolean
      else if ds.isDouble(content) || Text.ParseLong(content).Some? then ScalarType.Number
      else ScalarType.String
  }

  /** `JsonElement.toEditableNode(parent)`. The scalar keeps the primitive's
      content (a non-string primitive prints as its content). */
  function FromJson(j: JsonElement, rule: JsonRule, parent: ParentRef, next: nat, ds: Text.DoubleSyntax): (r: Cloned)
    ensures r.node.id == next && r.node.parent == parent
    ensures next < r.next && Ids(r.node) == Seqs.Range(next, r.next)
    ensures Wired(r.node) && FreshDisplay(r.node)
    decreases j
  {
    match j
    case JsonNull => Cloned(EditableNull(next, parent), next + 1)
    case JsonPrimitive(content, isString) =>
      Cloned(NewScalar(next, parent, content, JsonScalarType(rule, content, isString, ds)), next + 1)
    case JsonArray(elements) =>
      var c := FromJsonItems(elements, rule, next, next + 1, ds);
      Seqs.RangeCons(next, c.next);
      Cloned(EditableList(next, parent, c.items, true), c.next)
    case JsonObject(members) =>
      var c := FromJsonMembers(members, rule, next, next + 1, ds);
      Seqs.RangeCons(next, c.next);
      Cloned(EditableMap(next, parent, c.entries, true), c.next)
  }

  /** A primitive becomes a scalar with its content under the rule's type, a
      JSON null a null node with the given parent, an array a list of its
      elements mapped one by one in order, and an object a map whose entries
      keep the members' keys and order and hold their mapped values. */
  lemma FromJsonLeaves(j: JsonElement, rule: JsonRule, parent: ParentRef, next: nat, ds: Text.DoubleSyntax)
    ensures j.JsonPrimitive? ==>
      var n := FromJson(j, rule, parent, next, ds).node;
      n.EditableScalar? && n.text == j.content && n.explicitType == JsonScalarType(rule, j.content, j.isString, ds)
      && (n.isMultiLine <==> Text.HasNewline(j.content))
    ensures j.JsonNull? ==> FromJson(j, rule, parent, next, ds).node == EditableNull(next, parent)
    ensures j.JsonArray? ==>
      var n := FromJson(j, rule, parent, next, ds).node;
      n.EditableList? && |n.items| == |j.elements|
      && forall k :: 0 <= k < |n.items| ==> n.items[k] == FromJson(j.elements[k], rule, InList(next), n.items[k].id, ds).node
    ensures j.JsonObject? ==>
      var n := FromJson(j, rule, parent, next, ds).node;
      n.EditableMap? && |n.entries| == |j.members|
      && forall k :: 0 <= k < |n.entries| ==>
        n.entries[k].key == j.members[k].key
        && n.entries[k].value == FromJson(j.members[k].value, rule, InEntry(n.entries[k].id, next), n.entries[k].id + 1, ds).node
  {
    if j.JsonArray? {
      FromJsonItemsElementwise(j.elements, rule, next, next + 1, ds);
    } else if j.JsonObject? {
      FromJsonMembersElementwise(j.members, rule, next, next + 1, ds);
    }
  }

  function FromJsonItems(s: seq<JsonElement>, rule: JsonRule, listId: nat, next: nat, ds: Text.DoubleSyntax): (r: ClonedItems)
    ensures |r.items| == |s|
    ensures forall k :: 0 <= k < |s| ==>
      r.items[k].parent == InList(listId) && Wired(r.items[k]) && FreshDisplay(r.items[k])
    ensures next <= r.next && ItemIds(r.items) == Seqs.Range(next, r.next)
    decreases s
  {
    if |s| == 0 then ClonedItems([], next)
    else
      var h := FromJson(s[0], rule, InList(listId), next, ds);
      var t := FromJsonItems(s[1..], rule, listId, h.next, ds);
      Seqs.RangeConcat(next, h.next, t.next);
      var items := [h.node] + t.items;
      assert items[1..] == t.items;
      ClonedItems(items, t.next)
  }

  function FromJsonMembers(s: seq<Member<JsonElement>>, rule: JsonRule, mapId: nat, next: nat, ds: Text.DoubleSyntax): (r: ClonedEntries)
    ensures |r.entries| == |s|
    ensures forall k :: 0 <= k < |s| ==>
      r.entries[k].key == s[k].key && EntryWired(r.entries[k], mapId) && EntryFreshDisplay(r.entries[k])
    ensures next <= r.next && EntryIds(r.entries) == Seqs.Range(next, r.next)
    decreases s
  {
    if |s| == 0 then ClonedEntries([], next)
    else
      var h := FromJsonMember(s[0], rule, mapId, next, ds);
      var t := FromJsonMembers(s[1..], rule, mapId, h.next, ds);
      Seqs.RangeConcat(next, h.next, t.next);
      var entries := [h.entry] + t.entries;
      assert entries[1..] == t.entries;
      ClonedEntries(entries, t.next)
  }

  function FromJsonMember(m: Member<JsonElement>, rule: JsonRule, mapId: nat, next: nat, ds: Text.DoubleSyntax): (r: ClonedEntry)
    ensures r.entry.id == next && r.entry.key == m.key
    ensures r.entry.value == FromJson(m.value, rule, InEntry(next, mapId), next + 1, ds).node
    ensures EntryWired(r.entry, mapId) && EntryFreshDisplay(r.entry)
    ensures next < r.next && EntryOwnIds(r.entry) == Seqs.Range(next, r.next)
    decreases m
  {
    var v := FromJson(m.value, rule, InEntry(next, mapId), next + 1, ds);
    Seqs.RangeCons(next, v.next);
    ClonedEntry(EditableMapEntry(next, mapId, m.key, v.node), v.next)
  }

  /** Array elements are mapped one by one, in order, each from the first id
      its predecessors left free. */
  lemma {:induction false} FromJsonItemsElementwise(s: seq<JsonElement>, rule: JsonRule, listId: nat, next: nat, ds: Text.DoubleSyntax)
    ensures var r := FromJsonItems(s, rule, listId, next, ds);
      forall k :: 0 <= k < |s| ==> r.items[k] == FromJson(s[k], rule, InList(listId), r.items[k].id, ds).node
    decreases s
  {
    if |s| > 0 {
      var h := FromJson(s[0], rule, InList(listId), next, ds);
      FromJsonItemsElementwise(s[1..], rule, listId, h.next, ds);
      var r := FromJsonItems(s, rule, listId, next, ds);
      assert forall k :: 1 <= k < |s| ==> r.items[k] == FromJsonItems(s[1..], rule, listId, h.next, ds).items[k - 1] && s[k] == s[1..][k - 1];
    }
  }

  /** Object members are mapped one by one, in order: each entry holds its
      member's value mapped under it, from the id after the entry's own. */
  lemma {:induction false} FromJsonMembersElementwise(s: seq<Member<JsonElement>>, rule: JsonRule, mapId: nat, next: nat, ds: Text.DoubleSyntax)
    ensures var r := FromJsonMembers(s, rule, mapId, next, ds);
      forall k :: 0 <= k < |s| ==> r.entries[k] == FromJsonMember(s[k], rule, mapId, r.entries[k].id, ds).entry
    decreases s
  {
    if |s| > 0 {
      var h := FromJsonMember(s[0], rule, mapId, next, ds);
      FromJsonMembersElementwise(s[1..], rule, mapId, h.next, ds);
      var r := FromJsonMembers(s, rule, mapId, next, ds);
      var t := FromJsonMembers(s[1..], rule, mapId, h.next, ds);
      assert r.entries == [h.entry] + t.entries;
      forall k | 1 <= k < |s|
        ensures r.entries[k] == FromJsonMember(s[k], rule, mapId, r.entries[k].id, ds).entry
      {
        assert r.entries[k] == t.entries[k - 1] && s[k] == s[1..][k - 1];
      }
    }
  }

  // --- The config editor's entry point ---

  /** What the config editor's `Any.toEditableNode` may be handed. */
  datatype AnyTree = YamlTree(yaml: YamlNode) | JsonTree(json: JsonElement) | OtherValue

  /** `Any.toEditableNode(parent)`: YAML and JSON trees go to their mappers
      (JSON with the lenient rule); any other value becomes a null node. */
  function FromAny(a: AnyTree, parent: ParentRef, next: nat, ds: Text.DoubleSyntax): (r: Cloned)
    ensures r.node.id == next && r.node.parent == parent
    ensures next < r.next && Ids(r.node) == Seqs.Range(next, r.next)
    ensures Wired(r.node) && FreshDisplay(r.node)
    ensures a.OtherValue? ==> r.node.EditableNull?
  {
    match a
    case YamlTree(y) => FromYaml(y, parent, next, ds)
    case JsonTree(j) => FromJson(j, Lenient, parent, next, ds)
    case OtherValue => Cloned(EditableNull(next, parent), next + 1)
  }
}
