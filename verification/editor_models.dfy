/** The editable document tree: a closed sum of scalar, null, list and map
    nodes, map entries as the slots a map owns, and the root holder.

    Object identity of the Kotlin classes is modelled by a natural-number `id`
    on every node and entry (Kotlin draws a fresh UUIDv7; here ids come from a
    counter). The non-owning `parent` back link is a `ParentRef` naming the
    owner by id. */
module EditorModels {
  import Seqs
  import Text

  datatype ScalarType = String | Number | Boolean

  datatype NodeType = String | Number | Boolean | List | Map | Null

  /** The `ParentContainer` a node points back to; `Detached` is Kotlin's null. */
  datatype ParentRef =
    | Detached
    | InList(listId: nat)
    | InEntry(entryId: nat, mapId: nat)   // the entry and the map the entry's `parentMap` points to
    | InMap(mapId: nat)
    | InRoot

  datatype EditableNode =
    | EditableScalar(id: nat, parent: ParentRef, text: string, explicitType: ScalarType, isMultiLine: bool)
    | EditableNull(id: nat, parent: ParentRef)
    | EditableList(id: nat, parent: ParentRef, items: seq<EditableNode>, isExpanded: bool)
    | EditableMap(id: nat, parent: ParentRef, entries: seq<EditableMapEntry>, isExpanded: bool)
  {
    predicate IsContainer() {
      EditableList? || EditableMap?
    }
  }

  datatype EditableMapEntry = EditableMapEntry(id: nat, parentMap: nat, key: string, value: EditableNode)

  /** The document holder whose single child is `rootNode`. */
  datatype EditableRoot = EditableRoot(rootNode: EditableNode)

  /** Kotlin's `EditableScalar` constructor: the multi-line hint starts as
      "the text contains a newline". */
  function NewScalar(id: nat, parent: ParentRef, text: string, t: ScalarType): EditableNode {
    EditableScalar(id, parent, text, t, Text.HasNewline(text))
  }

  /** The kind of a node, in the editor's `NodeType` terms. */
  function TypeOf(n: EditableNode): NodeType {
    match n
    case EditableScalar(_, _, _, t, _) =>
      (match t
       case String => NodeType.String
       case Number => NodeType.Number
       case Boolean => NodeType.Boolean)
    case EditableNull(_, _) => NodeType.Null
    case EditableList(_, _, _, _) => NodeType.List
    case EditableMap(_, _, _, _) => NodeType.Map
  }

  // --- Identities ---

  /** Ids of the direct children of a list, in order. */
  function IdsOf(items: seq<EditableNode>): (r: seq<nat>)
    ensures |r| == |items| && forall k :: 0 <= k < |items| ==> r[k] == items[k].id
  {
    seq(|items|, k requires 0 <= k < |items| => items[k].id)
  }

  /** Ids of the entries of a map, in order. */
  function EntryIdsOf(entries: seq<EditableMapEntry>): (r: seq<nat>)
    ensures |r| == |entries| && forall k :: 0 <= k < |entries| ==> r[k] == entries[k].id
  {
    seq(|entries|, k requires 0 <= k < |entries| => entries[k].id)
  }

  /** Key texts of the entries of a map, in order. */
  function KeysOf(entries: seq<EditableMapEntry>): (r: seq<string>)
    ensures |r| == |entries| && forall k :: 0 <= k < |entries| ==> r[k] == entries[k].key
  {
    seq(|entries|, k requires 0 <= k < |entries| => entries[k].key)
  }

  /** Every id a node owns, its own first, in pre-order; entries count. */
  function Ids(n: EditableNode): seq<nat>
    decreases n
  {
    match n
    case EditableList(id, _, items, _) => [id] + ItemIds(items)
    case EditableMap(id, _, entries, _) => [id] + EntryIds(entries)
    case _ => [n.id]
  }

  function ItemIds(s: seq<EditableNode>): seq<nat>
    decreases s
  {
    if |s| == 0 then [] else Ids(s[0]) + ItemIds(s[1..])
  }

  function EntryIds(s: seq<EditableMapEntry>): seq<nat>
    decreases s
  {
    if |s| == 0 then [] else EntryOwnIds(s[0]) + EntryIds(s[1..])
  }

  function EntryOwnIds(e: EditableMapEntry): seq<nat>
    decreases e
  {
    [e.id] + Ids(e.value)
  }

  // --- Content, ignoring identity, links and display state ---

  /** What a document says: the tree with ids, parent links and display hints
      dropped. */
  datatype Value =
    | VScalar(text: string, tag: ScalarType)
    | VNull
    | VList(elements: seq<Value>)
    | VMap(members: seq<VMember>)

  datatype VMember = VMember(key: string, value: Value)

  function Shape(n: EditableNode): Value
    decreases n
  {
    match n
    case EditableScalar(_, _, text, t, _) => VScalar(text, t)
    case EditableNull(_, _) => VNull
    case EditableList(_, _, items, _) => VList(seq(|items|, k requires 0 <= k < |items| => Shape(items[k])))
    case EditableMap(_, _, entries, _) => VMap(seq(|entries|, k requires 0 <= k < |entries| => EntryShape(entries[k])))
  }

  function EntryShape(e: EditableMapEntry): VMember
    decreases e
  {
    VMember(e.key, Shape(e.value))
  }

  /** Parent links agree with ownership: list items point to their list, map
      values to their entry, and entries to their map. */
  predicate Wired(n: EditableNode)
    decreases n
  {
    match n
    case EditableList(id, _, items, _) =>
      forall k :: 0 <= k < |items| ==> items[k].parent == InList(id) && Wired(items[k])
    case EditableMap(id, _, entries, _) =>
      forall k :: 0 <= k < |entries| ==> EntryWired(entries[k], id)
    case _ => true
  }

  predicate EntryWired(e: EditableMapEntry, mapId: nat)
    decreases e
  {
    e.parentMap == mapId && e.value.parent == InEntry(e.id, mapId) && Wired(e.value)
  }

  /** Display state as Kotlin's constructors leave it: containers expanded,
      scalars multi-line exactly when their text holds a newline. */
  predicate FreshDisplay(n: EditableNode)
    decreases n
  {
    match n
    case EditableScalar(_, _, text, _, multi) => multi == Text.HasNewline(text)
    case EditableNull(_, _) => true
    case EditableList(_, _, items, expanded) =>
      expanded && forall k :: 0 <= k < |items| ==> FreshDisplay(items[k])
    case EditableMap(_, _, entries, expanded) =>
      expanded && forall k :: 0 <= k < |entries| ==> EntryFreshDisplay(entries[k])
  }

  predicate EntryFreshDisplay(e: EditableMapEntry)
    decreases e
  {
    FreshDisplay(e.value)
  }

  // --- replaceChild ---

  /** `EditableList.replaceChild`: the first item that is `oldId` becomes
      `newNode`; nothing happens when there is none. */
  function ListReplaceChild(items: seq<EditableNode>, oldId: nat, newNode: EditableNode): (r: seq<EditableNode>)
    ensures |r| == |items|
    ensures oldId !in IdsOf(items) ==> r == items
    ensures oldId in IdsOf(items) ==>
      var i := Seqs.IndexOf(IdsOf(items), oldId);
      r[i] == newNode && forall k :: 0 <= k < |items| && k != i ==> r[k] == items[k]
  {
    var i := Seqs.IndexOf(IdsOf(items), oldId);
    if i == -1 then items else items[i := newNode]
  }

  /** `EditableMapEntry.replaceChild`: the value is swapped only when it is `oldId`. */
  function EntryReplaceChild(e: EditableMapEntry, oldId: nat, newNode: EditableNode): (r: EditableMapEntry)
    ensures r.id == e.id && r.key == e.key && r.parentMap == e.parentMap
    ensures r.value == if e.value.id == oldId then newNode else e.value
  {
    if e.value.id == oldId then e.(value := newNode) else e
  }

  /** `EditableRoot.replaceChild`: the root node is swapped only when it is `oldId`. */
  function RootReplaceChild(root: EditableRoot, oldId: nat, newNode: EditableNode): (r: EditableRoot)
    ensures r.rootNode == if root.rootNode.id == oldId then newNode else root.rootNode
  {
    if root.rootNode.id == oldId then EditableRoot(newNode) else root
  }

  /** Replacing a child and then replacing its replacement by the original
      restores the list, provided the replacement's id occurs before it in no
      earlier item. */
  lemma ListReplaceChildUndo(items: seq<EditableNode>, i: nat, newNode: EditableNode)
    requires i < |items| && Seqs.IndexOf(IdsOf(items), items[i].id) == i
    requires newNode.id !in IdsOf(items)
    ensures ListReplaceChild(ListReplaceChild(items, items[i].id, newNode), newNode.id, items[i]) == items
  {
    var mid := ListReplaceChild(items, items[i].id, newNode);
    assert IdsOf(mid) == IdsOf(items)[i := newNode.id];
    assert IdsOf(mid)[..i] == IdsOf(items)[..i];
    assert newNode.id in IdsOf(mid);
    assert Seqs.IndexOf(IdsOf(mid), newNode.id) == i;
  }

  // --- clone ---

  datatype Cloned = Cloned(node: EditableNode, next: nat)
  datatype ClonedItems = ClonedItems(items: seq<EditableNode>, next: nat)
  datatype ClonedEntries = ClonedEntries(entries: seq<EditableMapEntry>, next: nat)
  datatype ClonedEntry = ClonedEntry(entry: EditableMapEntry, next: nat)

  /** `clone(newParent)`: a deep copy with fresh ids drawn from `next` on (in
      pre-order), linked to `newParent`, every child linked to its new owner,
      and display state reset as a freshly constructed node has it. */
  function Clone(n: EditableNode, newParent: ParentRef, next: nat): (r: Cloned)
    ensures r.node.id == next && r.node.parent == newParent
    ensures next < r.next && Ids(r.node) == Seqs.Range(next, r.next)
    ensures Shape(r.node) == Shape(n)
    ensures TypeOf(r.node) == TypeOf(n)
    ensures Wired(r.node) && FreshDisplay(r.node)
    decreases n
  {
    match n
    case EditableScalar(_, _, text, t, _) => Cloned(NewScalar(next, newParent, text, t), next + 1)
    case EditableNull(_, _) => Cloned(EditableNull(next, newParent), next + 1)
    case EditableList(_, _, items, _) =>
      var c := CloneItems(items, next, next + 1);
      Seqs.RangeCons(next, c.next);
      var copy := EditableList(next, newParent, c.items, true);
      assert Shape(copy).elements == Shape(n).elements;
      Cloned(copy, c.next)
    case EditableMap(_, _, entries, _) =>
      var c := CloneEntries(entries, next, next + 1);
      Seqs.RangeCons(next, c.next);
      var copy := EditableMap(next, newParent, c.entries, true);
      assert Shape(copy).members == Shape(n).members;
      Cloned(copy, c.next)
  }

  function CloneItems(s: seq<EditableNode>, listId: nat, next: nat): (r: ClonedItems)
    ensures |r.items| == |s|
    ensures forall k :: 0 <= k < |s| ==>
      r.items[k].parent == InList(listId) && Shape(r.items[k]) == Shape(s[k])
      && Wired(r.items[k]) && FreshDisplay(r.items[k])
    ensures next <= r.next && ItemIds(r.items) == Seqs.Range(next, r.next)
    decreases s
  {
    if |s| == 0 then ClonedItems([], next)
    else
      var h := Clone(s[0], InList(listId), next);
      var t := CloneItems(s[1..], listId, h.next);
      Seqs.RangeConcat(next, h.next, t.next);
      var items := [h.node] + t.items;
      assert items[1..] == t.items;
      ClonedItems(items, t.next)
  }

  function CloneEntries(s: seq<EditableMapEntry>, mapId: nat, next: nat): (r: ClonedEntries)
    ensures |r.entries| == |s|
    ensures forall k :: 0 <= k < |s| ==>
      EntryShape(r.entries[k]) == EntryShape(s[k]) && EntryWired(r.entries[k], mapId)
      && EntryFreshDisplay(r.entries[k])
    ensures next <= r.next && EntryIds(r.entries) == Seqs.Range(next, r.next)
    decreases s
  {
    if |s| == 0 then ClonedEntries([], next)
    else
      var h := CloneEntry(s[0], mapId, next);
      var t := CloneEntries(s[1..], mapId, h.next);
      Seqs.RangeConcat(next, h.next, t.next);
      var entries := [h.entry] + t.entries;
      assert entries[1..] == t.entries;
      ClonedEntries(entries, t.next)
  }

  /** `EditableMapEntry.clone(newParentMap)`: same key, fresh entry id, value
      cloned under the new entry. */
  function CloneEntry(e: EditableMapEntry, mapId: nat, next: nat): (r: ClonedEntry)
    ensures r.entry.id == next && r.entry.key == e.key
    ensures EntryShape(r.entry) == EntryShape(e) && EntryWired(r.entry, mapId) && EntryFreshDisplay(r.entry)
    ensures next < r.next && EntryOwnIds(r.entry) == Seqs.Range(next, r.next)
    decreases e
  {
    var v := Clone(e.value, InEntry(next, mapId), next + 1);
    Seqs.RangeCons(next, v.next);
    ClonedEntry(EditableMapEntry(next, mapId, e.key, v.node), v.next)
  }

  // --- duplicateKeys ---

  /** `EditableMap.duplicateKeys`: the key texts that more than one entry carries. */
  function DuplicateKeys(entries: seq<EditableMapEntry>): (r: set<string>)
    ensures forall k :: k in r <==>
      exists i, j :: 0 <= i < j < |entries| && entries[i].key == k && entries[j].key == k
    ensures r == {} <==> Seqs.Distinct(KeysOf(entries))
  {
    var keys := KeysOf(entries);
    var r := set k | k in keys && Seqs.Count(keys, k) > 1;
    RepeatedKeys(keys, r);
    r
  }

  lemma RepeatedKeys(keys: seq<string>, r: set<string>)
    requires r == set k | k in keys && Seqs.Count(keys, k) > 1
    ensures forall k :: k in r <==> exists i, j :: 0 <= i < j < |keys| && keys[i] == k && keys[j] == k
    ensures r == {} <==> Seqs.Distinct(keys)
  {
    forall k
      ensures k in r <==> exists i, j :: 0 <= i < j < |keys| && keys[i] == k && keys[j] == k
    {
      Seqs.CountAtLeastTwo(keys, k);
    }
    if r == {} {
      forall i, j | 0 <= i < j < |keys|
        ensures keys[i] != keys[j]
      {
        var a, b := keys[i], keys[j];
        assert a == b ==> a in r;
      }
    } else {
      var k :| k in r;
      var i, j :| 0 <= i < j < |keys| && keys[i] == k && keys[j] == k;
    }
  }
}
