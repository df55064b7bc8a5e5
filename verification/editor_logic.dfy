/** The reversible edit commands of the editor, the node factory, the unique
    key generator and `setAllExpanded`.

    A command runs against a `Document` (the root holder plus the counter ids
    are drawn from). Executing a command returns the new document and the
    command with the state the Kotlin object records while executing (the id
    of what it added, where it removed from, what it displaced); undoing reads
    that record. Containers are named by id and resolved with `TreeEdits.Find`. */
module EditorLogic {
  import opened Wrappers
  import Seqs
  import Text
  import opened EditorModels
  import opened TreeEdits

  // --- NodeFactory ---

  /** `NodeFactory.create`: a default node of the requested type. */
  function Create(t: NodeType, parent: ParentRef, id: nat): (r: EditableNode)
    ensures r.id == id && r.parent == parent && TypeOf(r) == t
    ensures Ids(r) == [id] && Wired(r) && FreshDisplay(r)
  {
    match t
    case String => NewScalar(id, parent, "", ScalarType.String)
    case Number => NewScalar(id, parent, "0", ScalarType.Number)
    case Boolean => NewScalar(id, parent, "true", ScalarType.Boolean)
    case Null => EditableNull(id, parent)
    case List => EditableList(id, parent, [], true)
    case Map => EditableMap(id, parent, [], true)
  }

  // --- UniqueKeyGenerator ---

  /** The probe `"${base}_$n"`. */
  function Suffixed(base: string, n: nat): string {
    base + "_" + Text.NatToString(n)
  }

  lemma SuffixedInjective(base: string, a: nat, b: nat)
    requires Suffixed(base, a) == Suffixed(base, b)
    ensures a == b
  {
    assert Suffixed(base, a)[|base| + 1..] == Text.NatToString(a);
    assert Suffixed(base, b)[|base| + 1..] == Text.NatToString(b);
    Text.NatToStringInjective(a, b);
  }

  /** The keys tried before the probe with counter `counter`: `base` and
      the probes with counters 1 .. counter-1. */
  function Probed(base: string, counter: nat): set<string>
    decreases counter
  {
    if counter <= 1 then {base} else Probed(base, counter - 1) + {Suffixed(base, counter - 1)}
  }

  /** A probe is tried only once. */
  lemma {:induction false} NotYetProbed(base: string, counter: nat, n: nat)
    requires 1 <= counter <= n
    ensures Suffixed(base, n) !in Probed(base, counter)
    decreases counter
  {
    assert |Suffixed(base, n)| > |base|;
    if counter > 1 {
      NotYetProbed(base, counter - 1, n);
      if Suffixed(base, counter - 1) == Suffixed(base, n) {
        SuffixedInjective(base, counter - 1, n);
      }
    }
  }

  /** Every probe before counter `counter` is an existing key. */
  predicate AllTaken(existing: set<string>, base: string, counter: nat) {
    forall m :: 1 <= m < counter ==> Suffixed(base, m) in existing
  }

  /** The existing keys the probe loop has not tried yet. */
  function Untried(existing: set<string>, base: string, counter: nat): nat {
    |existing - Probed(base, counter)|
  }

  /** A taken probe lets the loop go on: one more probe is taken, and one
      fewer existing key is untried. */
  lemma ProbeStep(existing: set<string>, base: string, counter: nat)
    requires counter >= 1 && AllTaken(existing, base, counter) && Suffixed(base, counter) in existing
    ensures AllTaken(existing, base, counter + 1)
    ensures Untried(existing, base, counter + 1) < Untried(existing, base, counter)
  {
    var key := Suffixed(base, counter);
    NotYetProbed(base, counter, counter);
    assert existing - Probed(base, counter + 1) == (existing - Probed(base, counter)) - {key};
  }

  /** The probe loop of `UniqueKeyGenerator.generate`, from counter `counter`
      on: the counter it stops at, the first whose probe is free. */
  function GenerateFrom(existing: set<string>, base: string, counter: nat): (n: nat)
    requires counter >= 1 && AllTaken(existing, base, counter)
    ensures n >= counter && Suffixed(base, n) !in existing && AllTaken(existing, base, n)
    decreases Untried(existing, base, counter)
  {
    if Suffixed(base, counter) !in existing then counter
    else
      ProbeStep(existing, base, counter);
      GenerateFrom(existing, base, counter + 1)
  }

  /** `UniqueKeyGenerator.generate(map, base)`: `base` when no entry has it,
      otherwise `base_n` for the least n >= 1 that no entry has. */
  function GenerateKey(entries: seq<EditableMapEntry>, base: string): (r: string)
    ensures r !in KeysOf(entries)
    ensures base !in KeysOf(entries) ==> r == base
    ensures base in KeysOf(entries) ==> exists n :: (n >= 1 && r == Suffixed(base, n)
      && forall m :: 1 <= m < n ==> Suffixed(base, m) in KeysOf(entries))
  {
    var existing := set k | k in KeysOf(entries);
    if base !in existing then base else Suffixed(base, GenerateFrom(existing, base, 1))
  }

  // --- setAllExpanded ---

  /** Every list and map in the tree has `isExpanded == expanded`. */
  predicate AllExpandedAs(n: EditableNode, expanded: bool)
    decreases n
  {
    match n
    case EditableList(_, _, items, ex) =>
      ex == expanded && forall k :: 0 <= k < |items| ==> AllExpandedAs(items[k], expanded)
    case EditableMap(_, _, entries, ex) =>
      ex == expanded && forall k :: 0 <= k < |entries| ==> EntryAllExpandedAs(entries[k], expanded)
    case _ => true
  }

  predicate EntryAllExpandedAs(e: EditableMapEntry, expanded: bool)
    decreases e
  {
    AllExpandedAs(e.value, expanded)
  }

  /** `setAllExpanded(node, expanded)`: every container of the tree gets the
      flag; content, ids and links stay as they are. */
  function SetAllExpanded(n: EditableNode, expanded: bool): (r: EditableNode)
    ensures r.id == n.id && r.parent == n.parent && TypeOf(r) == TypeOf(n)
    ensures Shape(r) == Shape(n) && Ids(r) == Ids(n)
    ensures Wired(n) ==> Wired(r)
    ensures AllExpandedAs(r, expanded)
    decreases n
  {
    match n
    case EditableList(id, p, items, _) =>
      var r := EditableList(id, p, SetAllExpandedItems(items, expanded), expanded);
      assert Shape(r).elements == Shape(n).elements;
      r
    case EditableMap(id, p, entries, _) =>
      var r := EditableMap(id, p, SetAllExpandedEntries(entries, expanded), expanded);
      assert Shape(r).members == Shape(n).members;
      r
    case _ => n
  }

  function SetAllExpandedItems(s: seq<EditableNode>, expanded: bool): (r: seq<EditableNode>)
    ensures |r| == |s| && ItemIds(r) == ItemIds(s)
    ensures forall k :: 0 <= k < |s| ==>
      r[k].id == s[k].id && r[k].parent == s[k].parent && Shape(r[k]) == Shape(s[k])
      && (Wired(s[k]) ==> Wired(r[k])) && AllExpandedAs(r[k], expanded)
    decreases s
  {
    if |s| == 0 then []
    else
      var r := [SetAllExpanded(s[0], expanded)] + SetAllExpandedItems(s[1..], expanded);
      assert r[1..] == SetAllExpandedItems(s[1..], expanded);
      r
  }

  function SetAllExpandedEntries(s: seq<EditableMapEntry>, expanded: bool): (r: seq<EditableMapEntry>)
    ensures |r| == |s| && EntryIds(r) == EntryIds(s)
    ensures forall k :: 0 <= k < |s| ==>
      r[k].id == s[k].id && r[k].key == s[k].key && r[k].parentMap == s[k].parentMap
      && EntryShape(r[k]) == EntryShape(s[k])
      && (forall m :: EntryWired(s[k], m) ==> EntryWired(r[k], m)) && EntryAllExpandedAs(r[k], expanded)
    decreases s
  {
    if |s| == 0 then []
    else
      var r := [SetAllExpandedEntry(s[0], expanded)] + SetAllExpandedEntries(s[1..], expanded);
      assert r[1..] == SetAllExpandedEntries(s[1..], expanded);
      r
  }

  function SetAllExpandedEntry(e: EditableMapEntry, expanded: bool): (r: EditableMapEntry)
    ensures r.id == e.id && r.key == e.key && r.parentMap == e.parentMap
    ensures EntryShape(r) == EntryShape(e) && EntryOwnIds(r) == EntryOwnIds(e)
    ensures forall m :: EntryWired(e, m) ==> EntryWired(r, m)
    ensures EntryAllExpandedAs(r, expanded)
    decreases e
  {
    e.(value := SetAllExpanded(e.value, expanded))
  }

  // --- The document ---

  /** The editor's root holder together with the counter fresh ids are drawn from. */
  datatype Document = Document(root: EditableRoot, nextId: nat)

  /** Every id in the tree was drawn before `nextId`. */
  predicate IdsBelow(d: Document) {
    forall y :: y in Ids(d.root.rootNode) ==> y < d.nextId
  }

  /** What the editor keeps true of an open document: ids below the counter,
      parent links agreeing with ownership, and no id carried twice. */
  predicate Consistent(d: Document) {
    IdsBelow(d) && Wired(d.root.rootNode) && Seqs.Distinct(Ids(d.root.rootNode))
  }

  /** The first node of the tree, in pre-order, with id `c`. */
  function FindNode(d: Document, c: nat): (r: Option<EditableNode>)
    ensures r.Some? ==> r.value.id == c
  {
    var r := Find(d.root.rootNode, c);
    if r.Some? then FindIds(d.root.rootNode, c); r else r
  }

  function PutNode(d: Document, c: nat, v: EditableNode): Document {
    d.(root := EditableRoot(Put(d.root.rootNode, c, v)))
  }

  /** A container found in a document whose ids are all below the counter has
      children whose ids are below the counter too. */
  lemma FoundChildrenBelow(d: Document, c: nat)
    requires IdsBelow(d) && FindNode(d, c).Some?
    ensures FindNode(d, c).value.id == c
    ensures var x := FindNode(d, c).value;
      (x.EditableList? ==> forall k :: 0 <= k < |x.items| ==> x.items[k].id < d.nextId)
      && (x.EditableMap? ==> forall k :: 0 <= k < |x.entries| ==>
            x.entries[k].id < d.nextId && x.entries[k].value.id < d.nextId)
  {
    FindIds(d.root.rootNode, c);
    var x := FindNode(d, c).value;
    if x.EditableList? {
      forall k | 0 <= k < |x.items|
        ensures x.items[k].id < d.nextId
      {
        ItemIdsContain(x.items, k);
        assert x.items[k].id in Ids(x.items[k]);
        assert x.items[k].id in Ids(x);
      }
    }
    if x.EditableMap? {
      forall k | 0 <= k < |x.entries|
        ensures x.entries[k].id < d.nextId && x.entries[k].value.id < d.nextId
      {
        EntryIdsContain(x.entries, k);
        assert x.entries[k].value.id in Ids(x.entries[k].value);
        assert x.entries[k].id in Ids(x) && x.entries[k].value.id in Ids(x);
      }
    }
  }

  // --- Local edits of a container's children ---

  /** Kotlin's `items.remove(node)`: the first item with that id goes. */
  function RemoveItem(items: seq<EditableNode>, id: nat): (r: seq<EditableNode>)
    ensures id !in IdsOf(items) ==> r == items
    ensures id in IdsOf(items) ==> r == Seqs.RemoveAt(items, Seqs.IndexOf(IdsOf(items), id))
  {
    var i := Seqs.IndexOf(IdsOf(items), id);
    if i == -1 then items else Seqs.RemoveAt(items, i)
  }

  /** Kotlin's `entries.remove(entry)`: the first entry with that id goes. */
  function RemoveEntry(entries: seq<EditableMapEntry>, id: nat): (r: seq<EditableMapEntry>)
    ensures id !in EntryIdsOf(entries) ==> r == entries
    ensures id in EntryIdsOf(entries) ==> r == Seqs.RemoveAt(entries, Seqs.IndexOf(EntryIdsOf(entries), id))
  {
    var i := Seqs.IndexOf(EntryIdsOf(entries), id);
    if i == -1 then entries else Seqs.RemoveAt(entries, i)
  }

  /** Removing what was just appended gives back the children. */
  lemma RemoveAppendedItem(items: seq<EditableNode>, n: EditableNode)
    requires n.id !in IdsOf(items)
    ensures RemoveItem(items + [n], n.id) == items
  {
    var s := items + [n];
    assert IdsOf(s) == IdsOf(items) + [n.id];
    assert Seqs.IndexOf(IdsOf(s), n.id) == |items| by {
      assert IdsOf(s)[..|items|] == IdsOf(items);
    }
  }

  lemma RemoveAppendedEntry(entries: seq<EditableMapEntry>, e: EditableMapEntry)
    requires e.id !in EntryIdsOf(entries)
    ensures RemoveEntry(entries + [e], e.id) == entries
  {
    var s := entries + [e];
    assert EntryIdsOf(s) == EntryIdsOf(entries) + [e.id];
    assert Seqs.IndexOf(EntryIdsOf(s), e.id) == |entries| by {
      assert EntryIdsOf(s)[..|entries|] == EntryIdsOf(entries);
    }
  }

  /** `MoveItemCommand.move`: the item with `nodeId` trades places with its
      neighbour above (`up`) or below; nothing happens at the boundary or when
      the item is not in the list. */
  function MoveInList(items: seq<EditableNode>, nodeId: nat, up: bool): (r: seq<EditableNode>)
    ensures |r| == |items|
    ensures var i := Seqs.IndexOf(IdsOf(items), nodeId);
      var t := if up then i - 1 else i + 1;
      if i >= 0 && 0 <= t < |items| then
        r[t] == items[i] && r[i] == items[t]
        && forall k :: 0 <= k < |items| && k != i && k != t ==> r[k] == items[k]
      else r == items
  {
    var i := Seqs.IndexOf(IdsOf(items), nodeId);
    if i == -1 then items
    else
      var t := if up then i - 1 else i + 1;
      if 0 <= t < |items| then Seqs.InsertAt(Seqs.RemoveAt(items, i), t, items[i]) else items
  }

  // --- The commands ---

  /** Where `RemoveNodeCommand` took its node from. */
  datatype Removal =
    | NoContainer                                                   // the parent is neither a list nor an entry
    | Missing                                                       // the node was not among its parent's children
    | FromList(listId: nat, index: nat, item: EditableNode)
    | FromMap(mapId: nat, index: nat, entry: EditableMapEntry)

  /** The `ReplaceNodeCommand` factories the editor offers. */
  datatype Factory = WrapInList | WrapInMap

  /** What `ReplaceNodeCommand` put in and what it displaced. */
  datatype Replacement = Replacement(newNode: EditableNode, displaced: EditableNode)

  /** The commands, each with the record its Kotlin object keeps between
      `execute` and `undo` (`None`/`NoContainer` before the first execution). */
  datatype Command =
    | AddItemCommand(parentId: nat, nodeType: NodeType, added: Option<nat>)
    | RemoveNodeCommand(node: EditableNode, removal: Removal)
    | InsertListCommand(listId: nat, index: int, inserted: Option<nat>)
    | MoveItemCommand(listId: nat, nodeId: nat, up: bool)
    | ReplaceNodeCommand(oldNode: EditableNode, factory: Factory, replaced: Option<Replacement>)

  datatype Executed = Executed(doc: Document, command: Command)

  /** `add(index, x)` with an index outside 0..size. */
  datatype UndoError = IndexOutOfBounds(index: int)

  /** The node a factory builds: wrap a copy of `source` in a new list, or in a
      new map under the key "change_key". */
  function Build(f: Factory, source: EditableNode, parent: ParentRef, next: nat): (r: Cloned)
    ensures r.node.id == next && r.node.parent == parent && next < r.next
    ensures Ids(r.node) == Seqs.Range(next, r.next)
    ensures Wired(r.node) && FreshDisplay(r.node)
    ensures f == WrapInList ==> Shape(r.node) == VList([Shape(source)])
    ensures f == WrapInMap ==> Shape(r.node) == VMap([VMember("change_key", Shape(source))])
  {
    match f
    case WrapInList =>
      var c := Clone(source, InList(next), next + 1);
      var list := EditableList(next, parent, [c.node], true);
      assert ItemIds([c.node]) == Ids(c.node);
      assert Shape(list).elements == [Shape(source)];
      Seqs.RangeCons(next, c.next);
      Cloned(list, c.next)
    case WrapInMap =>
      var c := Clone(source, InEntry(next + 1, next), next + 2);
      var wrapper := EditableMap(next, parent, [EditableMapEntry(next + 1, next, "change_key", c.node)], true);
      assert EntryIds(wrapper.entries) == [next + 1] + Ids(c.node);
      assert Shape(wrapper).members == [VMember("change_key", Shape(source))];
      Seqs.RangeCons(next + 1, c.next);
      Seqs.RangeCons(next, c.next);
      Cloned(wrapper, c.next)
  }

  /** The child `replaceChild(oldId, _)` on the container `parent` would displace. */
  function CurrentChild(d: Document, parent: ParentRef, oldId: nat): (r: Option<EditableNode>)
    ensures r.Some? ==> r.value.id == oldId
  {
    match parent
    case InList(l) =>
      (match FindNode(d, l)
       case Some(x) =>
         if x.EditableList? && oldId in IdsOf(x.items)
         then Some(x.items[Seqs.IndexOf(IdsOf(x.items), oldId)]) else None
       case None => None)
    case InEntry(e, m) =>
      (match FindNode(d, m)
       case Some(x) =>
         if x.EditableMap? && e in EntryIdsOf(x.entries)
            && x.entries[Seqs.IndexOf(EntryIdsOf(x.entries), e)].value.id == oldId
         then Some(x.entries[Seqs.IndexOf(EntryIdsOf(x.entries), e)].value) else None
       case None => None)
    case InRoot => if d.root.rootNode.id == oldId then Some(d.root.rootNode) else None
    case _ => None
  }

  /** `parent.replaceChild(oldId, newNode)`, dispatched on the kind of parent;
      a map's own `replaceChild` does nothing. */
  function ReplaceAt(d: Document, parent: ParentRef, oldId: nat, newNode: EditableNode): (r: Document)
    ensures parent.InMap? || parent.Detached? ==> r == d
    ensures r.nextId == d.nextId
  {
    match parent
    case InList(l) =>
      (match FindNode(d, l)
       case Some(x) =>
         if x.EditableList? then PutNode(d, l, x.(items := ListReplaceChild(x.items, oldId, newNode))) else d
       case None => d)
    case InEntry(e, m) =>
      (match FindNode(d, m)
       case Some(x) =>
         if x.EditableMap? && e in EntryIdsOf(x.entries) then
           var k := Seqs.IndexOf(EntryIdsOf(x.entries), e);
           PutNode(d, m, x.(entries := x.entries[k := EntryReplaceChild(x.entries[k], oldId, newNode)]))
         else d
       case None => d)
    case InRoot => d.(root := RootReplaceChild(d.root, oldId, newNode))
    case _ => d
  }

  /** `Command.execute`. */
  function ExecuteCommand(d: Document, cmd: Command): Executed {
    match cmd
    case AddItemCommand(p, t, _) => ExecuteAddItem(d, cmd, p, t)
    case RemoveNodeCommand(node, _) =>
      var removal := RemoveFrom(d, node);
      Executed(if removal.FromList? || removal.FromMap? then Detach(d, removal) else d,
               RemoveNodeCommand(node, removal))
    case InsertListCommand(l, index, _) => ExecuteInsertList(d, cmd, l, index)
    case MoveItemCommand(l, nodeId, up) => Executed(Move(d, l, nodeId, up), cmd)
    case ReplaceNodeCommand(oldNode, f, _) =>
      var source := CurrentChild(d, oldNode.parent, oldNode.id).GetOr(oldNode);
      var built := Build(f, source, oldNode.parent, d.nextId);
      Executed(ReplaceAt(d, oldNode.parent, oldNode.id, built.node).(nextId := built.next),
               ReplaceNodeCommand(oldNode, f, Some(Replacement(built.node, source))))
  }

  /** `AddItemCommand.execute`: a list gets a default node appended; a map gets
      an entry under a fresh key holding a default node; either is expanded. */
  function ExecuteAddItem(d: Document, cmd: Command, p: nat, t: NodeType): Executed {
    match FindNode(d, p)
    case Some(x) =>
      if x.EditableList? then
        var n := Create(t, InList(p), d.nextId);
        Executed(PutNode(d, p, x.(items := x.items + [n], isExpanded := true)).(nextId := d.nextId + 1),
                 AddItemCommand(p, t, Some(d.nextId)))
      else if x.EditableMap? then
        var key := GenerateKey(x.entries, "key");
        var entry := EditableMapEntry(d.nextId, p, key, Create(t, InEntry(d.nextId, p), d.nextId + 1));
        Executed(PutNode(d, p, x.(entries := x.entries + [entry], isExpanded := true)).(nextId := d.nextId + 2),
                 AddItemCommand(p, t, Some(d.nextId)))
      else Executed(d, cmd)
    case None => Executed(d, cmd)
  }

  /** The container a parent link names is in the document and is of the
      kind the link expects: a list for `InList`, a map for `InEntry`. */
  predicate HoldsContainer(d: Document, p: ParentRef) {
    match p
    case InList(l) => FindNode(d, l).Some? && FindNode(d, l).value.EditableList?
    case InEntry(_, m) => FindNode(d, m).Some? && FindNode(d, m).value.EditableMap?
    case _ => false
  }

  /** The container holds the child the link points from: the node itself in
      a list, the entry `entryId` in a map. */
  predicate HoldsChild(d: Document, node: EditableNode)
    requires HoldsContainer(d, node.parent)
  {
    match node.parent
    case InList(l) => node.id in IdsOf(FindNode(d, l).value.items)
    case InEntry(e, m) => e in EntryIdsOf(FindNode(d, m).value.entries)
  }

  /** Where `RemoveNodeCommand.execute` finds `node`: its index among its
      list's items, or the index of the entry holding it among its map's entries. */
  function RemoveFrom(d: Document, node: EditableNode): (r: Removal)
    ensures r.NoContainer? <==> !HoldsContainer(d, node.parent)
    ensures r.Missing? <==> HoldsContainer(d, node.parent) && !HoldsChild(d, node)
    ensures r.FromList? ==> (node.parent == InList(r.listId) && FindNode(d, r.listId).Some?
      && FindNode(d, r.listId).value.EditableList? && r.index < |FindNode(d, r.listId).value.items|
      && r.item == FindNode(d, r.listId).value.items[r.index]
      && r.item.id == node.id && r.index == Seqs.IndexOf(IdsOf(FindNode(d, r.listId).value.items), node.id))
    ensures r.FromMap? ==> (node.parent == InEntry(r.entry.id, r.mapId) && FindNode(d, r.mapId).Some?
      && FindNode(d, r.mapId).value.EditableMap? && r.index < |FindNode(d, r.mapId).value.entries|
      && r.entry == FindNode(d, r.mapId).value.entries[r.index]
      && r.index == Seqs.IndexOf(EntryIdsOf(FindNode(d, r.mapId).value.entries), r.entry.id))
  {
    match node.parent
    case InList(l) =>
      (match FindNode(d, l)
       case Some(x) =>
         if !x.EditableList? then NoContainer
         else if node.id !in IdsOf(x.items) then Missing
         else
           var i := Seqs.IndexOf(IdsOf(x.items), node.id);
           FromList(l, i, x.items[i])
       case None => NoContainer)
    case InEntry(e, m) =>
      (match FindNode(d, m)
       case Some(x) =>
         if !x.EditableMap? then NoContainer
         else if e !in EntryIdsOf(x.entries) then Missing
         else
           var i := Seqs.IndexOf(EntryIdsOf(x.entries), e);
           FromMap(m, i, x.entries[i])
       case None => NoContainer)
    case _ => NoContainer
  }

  /** Takes out the child a removal names. */
  function Detach(d: Document, removal: Removal): Document
    requires removal.FromList? ==> (FindNode(d, removal.listId).Some?
      && FindNode(d, removal.listId).value.EditableList? && removal.index < |FindNode(d, removal.listId).value.items|)
    requires removal.FromMap? ==> (FindNode(d, removal.mapId).Some?
      && FindNode(d, removal.mapId).value.EditableMap? && removal.index < |FindNode(d, removal.mapId).value.entries|)
  {
    match removal
    case FromList(l, i, _) =>
      var x := FindNode(d, l).value;
      PutNode(d, l, x.(items := Seqs.RemoveAt(x.items, i)))
    case FromMap(m, i, _) =>
      var x := FindNode(d, m).value;
      PutNode(d, m, x.(entries := Seqs.RemoveAt(x.entries, i)))
    case _ => d
  }

  /** `InsertListCommand.execute`: an empty string scalar at the index clamped
      to the list's bounds. */
  function ExecuteInsertList(d: Document, cmd: Command, l: nat, index: int): Executed {
    match FindNode(d, l)
    case Some(x) =>
      if x.EditableList? then
        var n := NewScalar(d.nextId, InList(l), "", ScalarType.String);
        var at := Seqs.Clamp(index, 0, |x.items|);
        Executed(PutNode(d, l, x.(items := Seqs.InsertAt(x.items, at, n))).(nextId := d.nextId + 1),
                 InsertListCommand(l, index, Some(d.nextId)))
      else Executed(d, cmd)
    case None => Executed(d, cmd)
  }

  /** `move(directionUp)` on the list `l`. */
  function Move(d: Document, l: nat, nodeId: nat, up: bool): Document {
    match FindNode(d, l)
    case Some(x) =>
      if x.EditableList? then PutNode(d, l, x.(items := MoveInList(x.items, nodeId, up))) else d
    case None => d
  }

  /** `Command.undo`; re-inserting at an index the container no longer has
      fails as Kotlin's `add(index, x)` does. */
  function UndoCommand(d: Document, cmd: Command): Result<Document, UndoError> {
    match cmd
    case AddItemCommand(p, _, added) => Success(RemoveAdded(d, p, added))
    case RemoveNodeCommand(_, removal) => Reattach(d, removal)
    case InsertListCommand(l, _, inserted) => Success(RemoveFromList(d, l, inserted))
    case MoveItemCommand(l, nodeId, up) => Success(Move(d, l, nodeId, !up))
    case ReplaceNodeCommand(oldNode, _, replaced) =>
      (match replaced
       case Some(Replacement(newNode, displaced)) =>
         Success(ReplaceAt(d, oldNode.parent, newNode.id, displaced))
       case None => Success(d))
  }

  /** `items.remove(added)` / `entries.remove(added)` on the container `p`. */
  function RemoveAdded(d: Document, p: nat, added: Option<nat>): Document {
    match (FindNode(d, p), added)
    case (Some(x), Some(a)) =>
      if x.EditableList? then PutNode(d, p, x.(items := RemoveItem(x.items, a)))
      else if x.EditableMap? then PutNode(d, p, x.(entries := RemoveEntry(x.entries, a)))
      else d
    case _ => d
  }

  /** `InsertListCommand.undo`: `list.items.remove(inserted)`; the command's
      container is always a list. */
  function RemoveFromList(d: Document, l: nat, inserted: Option<nat>): Document {
    match (FindNode(d, l), inserted)
    case (Some(x), Some(a)) =>
      if x.EditableList? then PutNode(d, l, x.(items := RemoveItem(x.items, a))) else d
    case _ => d
  }

  /** `RemoveNodeCommand.undo`: `add(index, node)` on the recorded container. */
  function Reattach(d: Document, removal: Removal): Result<Document, UndoError> {
    match removal
    case NoContainer => Success(d)
    case Missing => Failure(IndexOutOfBounds(-1))
    case FromList(l, i, item) =>
      (match FindNode(d, l)
       case Some(x) =>
         if !x.EditableList? then Success(d)
         else if i > |x.items| then Failure(IndexOutOfBounds(i))
         else Success(PutNode(d, l, x.(items := Seqs.InsertAt(x.items, i, item))))
       case None => Success(d))
    case FromMap(m, i, entry) =>
      (match FindNode(d, m)
       case Some(x) =>
         if !x.EditableMap? then Success(d)
         else if i > |x.entries| then Failure(IndexOutOfBounds(i))
         else Success(PutNode(d, m, x.(entries := Seqs.InsertAt(x.entries, i, entry))))
       case None => Success(d))
  }

  /** A container with its expansion flag set. */
  function Expand(n: EditableNode): (r: EditableNode)
    ensures r.id == n.id
  {
    match n
    case EditableList(id, p, items, _) => EditableList(id, p, items, true)
    case EditableMap(id, p, entries, _) => EditableMap(id, p, entries, true)
    case _ => n
  }
}
