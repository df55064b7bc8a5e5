/** `NodeSerializer` and the editable-tree-to-library-tree mappers it uses
    (`toYamlNode`, `toJsonElement`). The text encoders of the libraries are
    not part of this model: a serialised document is the library tree handed
    to the encoder, tagged with the encoder that prints it. */
module NodeSerializer {
  import Seqs
  import Text
  import opened Wrappers
  import opened EditorModels
  import opened LibraryTrees
  import opened NodeMappers
  import opened FileFormats
  import EditorLogic

  /** `toYamlNode`: scalars keep their raw text and drop their type, maps are
      built by `associate`, so of two entries with one key the later wins. */
  function ToYamlNode(n: EditableNode): YamlNode
    decreases n, 1
  {
    match n
    case EditableScalar(_, _, text, _, _) => YamlScalar(text)
    case EditableList(_, _, items, _) => YamlList(YamlItemsOf(n))
    case EditableMap(_, _, entries, _) => YamlMap(Associate(YamlMembersOf(n)))
    case EditableNull(_, _) => YamlNull
  }

  /** A list's items as YAML nodes, in order. */
  function YamlItemsOf(n: EditableNode): (r: seq<YamlNode>)
    requires n.EditableList?
    ensures |r| == |n.items| && forall k :: 0 <= k < |r| ==> r[k] == ToYamlNode(n.items[k])
    decreases n, 0
  {
    seq(|n.items|, k requires 0 <= k < |n.items| => ToYamlNode(n.items[k]))
  }

  /** A map's entries as key/YAML-node pairs, in order, before `associate`. */
  function YamlMembersOf(n: EditableNode): (r: seq<Member<YamlNode>>)
    requires n.EditableMap?
    ensures |r| == |n.entries| && forall k :: 0 <= k < |r| ==> r[k] == ToYamlMember(n.entries[k])
    ensures MemberKeys(r) == KeysOf(n.entries)
    decreases n, 0
  {
    var r := seq(|n.entries|, k requires 0 <= k < |n.entries| => ToYamlMember(n.entries[k]));
    assert MemberKeys(r) == KeysOf(n.entries);
    r
  }

  function ToYamlMember(e: EditableMapEntry): Member<YamlNode>
    decreases e, 0
  {
    Member(e.key, ToYamlNode(e.value))
  }

  /** A scalar as a JSON primitive, by its declared type: a Boolean is true
      only for the exact text "true" (`toBooleanStrictOrNull() ?: false`); a
      Number is a 64-bit integer when the text reads as one, else the double
      it reads as, else 0.0; a String is a string primitive. */
  function ScalarToJson(text: string, t: ScalarType, ds: Text.DoubleSyntax): (r: JsonElement)
    ensures r.JsonPrimitive?
    ensures r.isString <==> t == ScalarType.String
    ensures t == ScalarType.String ==> r.content == text
    ensures t == ScalarType.Boolean ==> (r.content == "true" <==> text == "true") && (r.content == "true" || r.content == "false")
    ensures t == ScalarType.Number && Text.ParseLong(text).Some? ==> Text.ParseLong(r.content) == Text.ParseLong(text)
  {
    match t
    case Boolean => JsonPrimitive(if text == "true" then "true" else "false", false)
    case Number =>
      (match Text.ParseLong(text)
       case Some(v) =>
         Text.ParseLongOfLongToString(v);
         JsonPrimitive(Text.LongToString(v), false)
       case None => JsonPrimitive(if ds.isDouble(text) then ds.render(text) else ds.render("0.0"), false))
    case String => JsonPrimitive(text, true)
  }

  /** The factory's default values as the serialisers write them: an empty
      string, the integer 0, the boolean true, null, and an empty list or
      map; each default scalar's text is read back as a value of its tag. */
  lemma DefaultValues(t: NodeType, parent: ParentRef, id: nat, ds: Text.DoubleSyntax)
    ensures var n := EditorLogic.Create(t, parent, id);
      ToJsonElement(n, ds) == match t
        case String => JsonPrimitive("", true)
        case Number => JsonPrimitive("0", false)
        case Boolean => JsonPrimitive("true", false)
        case Null => JsonNull
        case List => JsonArray([])
        case Map => JsonObject([])
    ensures var n := EditorLogic.Create(t, parent, id);
      ToYamlNode(n) == match t
        case String => YamlScalar("")
        case Number => YamlScalar("0")
        case Boolean => YamlScalar("true")
        case Null => YamlNull
        case List => YamlList([])
        case Map => YamlMap([])
  {
    var n := EditorLogic.Create(t, parent, id);
    if t == NodeType.Number {
      assert Text.ParseLong("0") == Some(0);
      assert Text.LongToString(0) == "0";
    }
  }

  /** `toJsonElement`: objects are built by `associate`, like `toYamlNode`. */
  function ToJsonElement(n: EditableNode, ds: Text.DoubleSyntax): (r: JsonElement)
    ensures n.EditableList? <==> r.JsonArray?
    ensures n.EditableMap? <==> r.JsonObject?
    ensures n.EditableNull? <==> r.JsonNull?
    ensures r.JsonArray? ==> |r.elements| == |n.items|
    ensures r.JsonObject? ==>
      (Seqs.Distinct(MemberKeys(r.members)) && forall k :: k in MemberKeys(r.members) <==> k in KeysOf(n.entries))
    decreases n, 1
  {
    match n
    case EditableScalar(_, _, text, t, _) => ScalarToJson(text, t, ds)
    case EditableList(_, _, items, _) => JsonArray(JsonItemsOf(n, ds))
    case EditableMap(_, _, entries, _) => JsonObject(Associate(JsonMembersOf(n, ds)))
    case EditableNull(_, _) => JsonNull
  }

  /** A list's items as JSON elements, in order. */
  function JsonItemsOf(n: EditableNode, ds: Text.DoubleSyntax): (r: seq<JsonElement>)
    requires n.EditableList?
    ensures |r| == |n.items| && forall k :: 0 <= k < |r| ==> r[k] == ToJsonElement(n.items[k], ds)
    decreases n, 0
  {
    seq(|n.items|, k requires 0 <= k < |n.items| => ToJsonElement(n.items[k], ds))
  }

  /** A map's entries as key/JSON-element pairs, in order, before `associate`. */
  function JsonMembersOf(n: EditableNode, ds: Text.DoubleSyntax): (r: seq<Member<JsonElement>>)
    requires n.EditableMap?
    ensures |r| == |n.entries| && forall k :: 0 <= k < |r| ==> r[k] == ToJsonMember(n.entries[k], ds)
    ensures MemberKeys(r) == KeysOf(n.entries)
    decreases n, 0
  {
    var r := seq(|n.entries|, k requires 0 <= k < |n.entries| => ToJsonMember(n.entries[k], ds));
    assert MemberKeys(r) == KeysOf(n.entries);
    r
  }

  function ToJsonMember(e: EditableMapEntry, ds: Text.DoubleSyntax): Member<JsonElement>
    decreases e, 0
  {
    Member(e.key, ToJsonElement(e.value, ds))
  }

  /** What `serialize` hands to an encoder, or the literal text it returns. */
  datatype Serialized =
    | YamlText(yaml: YamlNode)
    | Json5Text(json5: JsonElement)
    | PrettyJsonText(json: JsonElement)
    | Literal(text: string)

  /** `NodeSerializer.serialize(node, type)`. */
  function Serialize(n: EditableNode, t: ParserType, ds: Text.DoubleSyntax): (r: Serialized)
    ensures t == ParserType.UNSUPPORTED <==> r == Literal("Unknown")
    ensures t == ParserType.YAML ==> r.YamlText?
    ensures t == ParserType.JSON5 || t == ParserType.JSON ==> (r.Json5Text? || r.PrettyJsonText?)
  {
    match t
    case YAML => YamlText(ToYamlNode(n))
    case JSON5 => Json5Text(ToJsonElement(n, ds))
    case JSON => PrettyJsonText(ToJsonElement(n, ds))
    case UNSUPPORTED => Literal("Unknown")
  }

  /** `serializeForClipboard`: always JSON5, whatever the file's format. */
  function SerializeForClipboard(n: EditableNode, ds: Text.DoubleSyntax): (r: Serialized)
    ensures r == Serialize(n, ParserType.JSON5, ds)
    ensures r.Json5Text? && r.json5 == ToJsonElement(n, ds)
  {
    Json5Text(ToJsonElement(n, ds))
  }

  // --- Round trips ---

  /** Reading a YAML tree with distinct keys and writing it back gives the
      tree without its tags. */
  lemma {:induction false} YamlRoundTrip(y: YamlNode, parent: ParentRef, next: nat, ds: Text.DoubleSyntax)
    requires YamlKeysDistinct(y)
    ensures ToYamlNode(FromYaml(y, parent, next, ds).node) == Untag(y)
    decreases y
  {
    match y
    case YamlScalar(_) =>
    case YamlNull =>
    case YamlList(items) =>
      YamlItemsRoundTrip(items, next, next + 1, ds);
      YamlListRoundTrip(items, parent, next, ds);
    case YamlMap(entries) =>
      YamlMembersRoundTrip(entries, next, next + 1, ds);
      YamlMapRoundTrip(entries, parent, next, ds);
    case YamlTaggedNode(_, inner) =>
      YamlRoundTrip(inner, parent, next, ds);
  }

  lemma YamlListRoundTrip(items: seq<YamlNode>, parent: ParentRef, next: nat, ds: Text.DoubleSyntax)
    requires forall k :: 0 <= k < |items| ==>
      ToYamlNode(FromYamlItems(items, next, next + 1, ds).items[k]) == Untag(items[k])
    ensures ToYamlNode(FromYaml(YamlList(items), parent, next, ds).node) == Untag(YamlList(items))
  {
    var c := FromYamlItems(items, next, next + 1, ds);
    var l := EditableList(next, parent, c.items, true);
    assert FromYaml(YamlList(items), parent, next, ds).node == l;
    assert YamlItemsOf(l) == Untag(YamlList(items)).items;
  }

  lemma YamlMapRoundTrip(entries: seq<Member<YamlNode>>, parent: ParentRef, next: nat, ds: Text.DoubleSyntax)
    requires Seqs.Distinct(MemberKeys(entries))
    requires forall k :: 0 <= k < |entries| ==>
      ToYamlMember(FromYamlMembers(entries, next, next + 1, ds).entries[k]) == UntagMember(entries[k])
    ensures ToYamlNode(FromYaml(YamlMap(entries), parent, next, ds).node) == Untag(YamlMap(entries))
  {
    var c := FromYamlMembers(entries, next, next + 1, ds);
    var m := EditableMap(next, parent, c.entries, true);
    assert FromYaml(YamlMap(entries), parent, next, ds).node == m;
    var ms := YamlMembersOf(m);
    assert ms == Untag(YamlMap(entries)).entries;
    assert MemberKeys(ms) == MemberKeys(entries);
    assert Associate(ms) == ms;
  }

  lemma {:induction false} YamlItemsRoundTrip(s: seq<YamlNode>, listId: nat, next: nat, ds: Text.DoubleSyntax)
    requires forall k :: 0 <= k < |s| ==> YamlKeysDistinct(s[k])
    ensures forall k :: 0 <= k < |s| ==> ToYamlNode(FromYamlItems(s, listId, next, ds).items[k]) == Untag(s[k])
    decreases s
  {
    if |s| > 0 {
      var h := FromYaml(s[0], InList(listId), next, ds);
      YamlRoundTrip(s[0], InList(listId), next, ds);
      YamlItemsRoundTrip(s[1..], listId, h.next, ds);
    }
  }

  lemma {:induction false} YamlMembersRoundTrip(s: seq<Member<YamlNode>>, mapId: nat, next: nat, ds: Text.DoubleSyntax)
    requires forall k :: 0 <= k < |s| ==> YamlMemberKeysDistinct(s[k])
    ensures forall k :: 0 <= k < |s| ==> ToYamlMember(FromYamlMembers(s, mapId, next, ds).entries[k]) == UntagMember(s[k])
    decreases s
  {
    if |s| > 0 {
      var h := FromYamlMember(s[0], mapId, next, ds);
      YamlRoundTrip(s[0].value, InEntry(next, mapId), next + 1, ds);
      YamlMembersRoundTrip(s[1..], mapId, h.next, ds);
    }
  }

  /** A JSON primitive the web converter reads back unchanged: a string, a
      boolean literal, an integer in its own decimal form, or a number that
      is not an integer and prints as itself. */
  predicate CanonicalPrimitive(content: string, isString: bool, ds: Text.DoubleSyntax) {
    || isString
    || content == "true" || content == "false"
    || (Text.ParseLong(content).Some? && Text.LongToString(Text.ParseLong(content).value) == content)
    || (Text.ParseLong(content).None? && ds.isDouble(content) && ds.render(content) == content)
  }

  /** Every primitive is canonical and every object has distinct keys. */
  predicate Canonical(j: JsonElement, ds: Text.DoubleSyntax)
    decreases j
  {
    match j
    case JsonNull => true
    case JsonPrimitive(content, isString) => CanonicalPrimitive(content, isString, ds)
    case JsonArray(elements) => forall k :: 0 <= k < |elements| ==> Canonical(elements[k], ds)
    case JsonObject(members) =>
      Seqs.Distinct(MemberKeys(members)) && forall k :: 0 <= k < |members| ==> CanonicalMember(members[k], ds)
  }

  predicate CanonicalMember(m: Member<JsonElement>, ds: Text.DoubleSyntax)
    decreases m
  {
    Canonical(m.value, ds)
  }

  /** Reading a canonical JSON tree with the web converter's rule and
      writing it back gives the same tree. */
  lemma {:induction false} JsonRoundTrip(j: JsonElement, parent: ParentRef, next: nat, ds: Text.DoubleSyntax)
    requires Canonical(j, ds)
    ensures ToJsonElement(FromJson(j, Strict, parent, next, ds).node, ds) == j
    decreases j
  {
    match j
    case JsonNull =>
    case JsonPrimitive(content, isString) =>
      JsonPrimitiveRoundTrip(content, isString, parent, next, ds);
    case JsonArray(elements) =>
      JsonItemsRoundTrip(elements, next, next + 1, ds);
      JsonArrayRoundTrip(elements, parent, next, ds);
    case JsonObject(members) =>
      JsonMembersRoundTrip(members, next, next + 1, ds);
      JsonObjectRoundTrip(members, parent, next, ds);
  }

  lemma JsonPrimitiveRoundTrip(content: string, isString: bool, parent: ParentRef, next: nat, ds: Text.DoubleSyntax)
    requires CanonicalPrimitive(content, isString, ds)
    ensures ToJsonElement(FromJson(JsonPrimitive(content, isString), Strict, parent, next, ds).node, ds)
      == JsonPrimitive(content, isString)
  {
    var t := JsonScalarType(Strict, content, isString, ds);
    assert FromJson(JsonPrimitive(content, isString), Strict, parent, next, ds).node
      == NewScalar(next, parent, content, t);
    assert ToJsonElement(NewScalar(next, parent, content, t), ds) == ScalarToJson(content, t, ds);
  }

  lemma JsonArrayRoundTrip(elements: seq<JsonElement>, parent: ParentRef, next: nat, ds: Text.DoubleSyntax)
    requires forall k :: 0 <= k < |elements| ==>
      ToJsonElement(FromJsonItems(elements, Strict, next, next + 1, ds).items[k], ds) == elements[k]
    ensures ToJsonElement(FromJson(JsonArray(elements), Strict, parent, next, ds).node, ds) == JsonArray(elements)
  {
    var c := FromJsonItems(elements, Strict, next, next + 1, ds);
    var l := EditableList(next, parent, c.items, true);
    assert FromJson(JsonArray(elements), Strict, parent, next, ds).node == l;
    assert JsonItemsOf(l, ds) == elements;
  }

  lemma JsonObjectRoundTrip(members: seq<Member<JsonElement>>, parent: ParentRef, next: nat, ds: Text.DoubleSyntax)
    requires Seqs.Distinct(MemberKeys(members))
    requires forall k :: 0 <= k < |members| ==>
      ToJsonMember(FromJsonMembers(members, Strict, next, next + 1, ds).entries[k], ds) == members[k]
    ensures ToJsonElement(FromJson(JsonObject(members), Strict, parent, next, ds).node, ds) == JsonObject(members)
  {
    var c := FromJsonMembers(members, Strict, next, next + 1, ds);
    var m := EditableMap(next, parent, c.entries, true);
    assert FromJson(JsonObject(members), Strict, parent, next, ds).node == m;
    var ms := JsonMembersOf(m, ds);
    assert ms == members;
    assert Associate(ms) == ms;
  }

  lemma {:induction false} JsonItemsRoundTrip(s: seq<JsonElement>, listId: nat, next: nat, ds: Text.DoubleSyntax)
    requires forall k :: 0 <= k < |s| ==> Canonical(s[k], ds)
    ensures forall k :: 0 <= k < |s| ==> ToJsonElement(FromJsonItems(s, Strict, listId, next, ds).items[k], ds) == s[k]
    decreases s
  {
    if |s| > 0 {
      var h := FromJson(s[0], Strict, InList(listId), next, ds);
      JsonRoundTrip(s[0], InList(listId), next, ds);
      JsonItemsRoundTrip(s[1..], listId, h.next, ds);
    }
  }

  lemma {:induction false} JsonMembersRoundTrip(s: seq<Member<JsonElement>>, mapId: nat, next: nat, ds: Text.DoubleSyntax)
    requires forall k :: 0 <= k < |s| ==> CanonicalMember(s[k], ds)
    ensures forall k :: 0 <= k < |s| ==> ToJsonMember(FromJsonMembers(s, Strict, mapId, next, ds).entries[k], ds) == s[k]
    decreases s
  {
    if |s| > 0 {
      var h := FromJsonMember(s[0], Strict, mapId, next, ds);
      JsonRoundTrip(s[0].value, InEntry(next, mapId), next + 1, ds);
      JsonMembersRoundTrip(s[1..], mapId, h.next, ds);
    }
  }

  // --- The two JSON rules ---

  /** Case-insensitively "true" or "false". */
  predicate BooleanLike(c: string) {
    Text.EqualsIgnoreCase(c, "true") || Text.EqualsIgnoreCase(c, "false")
  }

  /** On a canonical primitive the config editor's rule and the web
      converter's give the same type, provided no text read as a double is
      boolean-like. */
  lemma PrimitiveRulesAgree(content: string, isString: bool, ds: Text.DoubleSyntax)
    requires CanonicalPrimitive(content, isString, ds)
    requires ds.isDouble(content) ==> !BooleanLike(content)
    ensures JsonScalarType(Lenient, content, isString, ds) == JsonScalarType(Strict, content, isString, ds)
  {
    if !isString && content != "true" && content != "false" && Text.ParseLong(content).Some? {
      var v := Text.ParseLong(content).value;
      var digits := Text.NatToString(if v < 0 then -v else v);
      assert content[0] == '-' || Text.IsDigit(content[0]) by {
        if v >= 0 {
          assert content == digits;
        } else {
          assert content == "-" + digits;
        }
      }
      assert !Text.CharEqualsIgnoreCase(content[0], 't');
      assert !Text.CharEqualsIgnoreCase(content[0], 'f');
    }
  }

  /** On canonical trees the config editor's JSON mapper builds exactly the
      tree the web converter's does. */
  lemma {:induction false} JsonRulesAgree(j: JsonElement, parent: ParentRef, next: nat, ds: Text.DoubleSyntax)
    requires Canonical(j, ds)
    requires forall c :: ds.isDouble(c) ==> !BooleanLike(c)
    ensures FromJson(j, Lenient, parent, next, ds) == FromJson(j, Strict, parent, next, ds)
    decreases j
  {
    match j
    case JsonNull =>
    case JsonPrimitive(content, isString) =>
      PrimitiveRulesAgree(content, isString, ds);
    case JsonArray(elements) =>
      JsonItemsRulesAgree(elements, next, next + 1, ds);
    case JsonObject(members) =>
      JsonMembersRulesAgree(members, next, next + 1, ds);
  }

  lemma {:induction false} JsonItemsRulesAgree(s: seq<JsonElement>, listId: nat, next: nat, ds: Text.DoubleSyntax)
    requires forall k :: 0 <= k < |s| ==> Canonical(s[k], ds)
    requires forall c :: ds.isDouble(c) ==> !BooleanLike(c)
    ensures FromJsonItems(s, Lenient, listId, next, ds) == FromJsonItems(s, Strict, listId, next, ds)
    decreases s
  {
    if |s| > 0 {
      JsonRulesAgree(s[0], InList(listId), next, ds);
      var h := FromJson(s[0], Strict, InList(listId), next, ds);
      JsonItemsRulesAgree(s[1..], listId, h.next, ds);
    }
  }

  lemma {:induction false} JsonMembersRulesAgree(s: seq<Member<JsonElement>>, mapId: nat, next: nat, ds: Text.DoubleSyntax)
    requires forall k :: 0 <= k < |s| ==> CanonicalMember(s[k], ds)
    requires forall c :: ds.isDouble(c) ==> !BooleanLike(c)
    ensures FromJsonMembers(s, Lenient, mapId, next, ds) == FromJsonMembers(s, Strict, mapId, next, ds)
    decreases s
  {
    if |s| > 0 {
      JsonRulesAgree(s[0].value, InEntry(next, mapId), next + 1, ds);
      var h := FromJsonMember(s[0], Strict, mapId, next, ds);
      JsonMembersRulesAgree(s[1..], mapId, h.next, ds);
    }
  }

  /** The config editor reads a non-string primitive that is neither
      boolean-like nor a number as a String, so it is written back quoted. */
  lemma LenientQuotesUnreadable(content: string, parent: ParentRef, next: nat, ds: Text.DoubleSyntax)
    requires !BooleanLike(content) && !ds.isDouble(content) && Text.ParseLong(content).None?
    ensures ToJsonElement(FromJson(JsonPrimitive(content, false), Lenient, parent, next, ds).node, ds)
      == JsonPrimitive(content, true)
  {
  }

  // --- What the conversions lose ---

  /** A YAML scalar spelled "True" (or any case variant of "true" other than
      "true" itself) is typed Boolean on reading but written to JSON as false. */
  lemma CaseVariantTrueBecomesFalse(content: string, parent: ParentRef, next: nat, ds: Text.DoubleSyntax)
    requires Text.EqualsIgnoreCase(content, "true") && content != "true"
    ensures ToJsonElement(FromYaml(YamlScalar(content), parent, next, ds).node, ds) == JsonPrimitive("false", false)
  {
  }

  /** A Number scalar whose text reads neither as an integer nor as a double
      is written to JSON as the double 0.0. */
  lemma UnreadableNumberBecomesZero(n: EditableNode, ds: Text.DoubleSyntax)
    requires n.EditableScalar? && n.explicitType == ScalarType.Number
    requires Text.ParseLong(n.text).None? && !ds.isDouble(n.text)
    ensures ToJsonElement(n, ds) == JsonPrimitive(ds.render("0.0"), false)
  {
  }

  /** Of two map entries with the same key only the later one reaches YAML. */
  lemma DuplicateKeyLastWins(n: EditableNode, i: nat, j: nat)
    requires n.EditableMap? && i < j < |n.entries| && n.entries[i].key == n.entries[j].key
    requires forall l :: j < l < |n.entries| ==> n.entries[l].key != n.entries[j].key
    ensures ToYamlNode(n).YamlMap?
    ensures Member(n.entries[j].key, ToYamlNode(n.entries[j].value)) in ToYamlNode(n).entries
    ensures Member(n.entries[i].key, ToYamlNode(n.entries[i].value)) in ToYamlNode(n).entries
      ==> ToYamlNode(n.entries[i].value) == ToYamlNode(n.entries[j].value)
  {
    var es := n.entries;
    var ms := YamlMembersOf(n);
    var r := Associate(ms);
    assert MemberKeys(ms)[j] == es[j].key;
    assert es[j].key in MemberKeys(r);
    var p :| 0 <= p < |r| && MemberKeys(r)[p] == es[j].key;
    assert IsWinner(ms, r[p]);
    var q :| 0 <= q < |ms| && ms[q] == r[p] && LastOfKey(ms, q);
    assert q == j;
    assert r[p] in r;
    if ms[i] in r {
      var p2 :| 0 <= p2 < |r| && r[p2] == ms[i];
      assert MemberKeys(r)[p2] == MemberKeys(r)[p];
    }
  }
}
