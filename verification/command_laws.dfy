/** What executing and then undoing each command does to a document. The
    laws assume the document's ids are below its counter (`IdsBelow`), which
    is what keeps a freshly drawn id from clashing with an existing node. */
module CommandLaws {
  import opened Wrappers
  import Seqs
  import opened EditorModels
  import opened TreeEdits
  import opened EditorLogic

  // --- Put and Find at the document level ---

  lemma PutThenFind(d: Document, c: nat, v: EditableNode, w: EditableNode)
    requires FindNode(d, c).Some? && v.id == c
    ensures FindNode(PutNode(d, c, v), c) == Some(v)
    ensures PutNode(PutNode(d, c, v), c, w) == PutNode(d, c, w)
  {
    FindPut(d.root.rootNode, c, v);
    PutPut(d.root.rootNode, c, v, w);
  }

  lemma PutBack(d: Document, c: nat)
    requires FindNode(d, c).Some?
    ensures PutNode(d, c, FindNode(d, c).value) == d
  {
    PutFound(d.root.rootNode, c);
  }

  // --- AddItemCommand ---

  /** Adding to a list appends one default node of the requested type with a
      fresh id and expands the list; undoing removes exactly that node, so the
      list is back as it was except that it stays expanded. */
  lemma AddItemToList(d: Document, p: nat, t: NodeType, added: Option<nat>)
    requires IdsBelow(d) && FindNode(d, p).Some? && FindNode(d, p).value.EditableList?
    ensures var x := FindNode(d, p).value;
      var e := ExecuteCommand(d, AddItemCommand(p, t, added));
      && e.command == AddItemCommand(p, t, Some(d.nextId))
      && d.nextId !in IdsOf(x.items)
      && FindNode(e.doc, p) == Some(x.(items := x.items + [Create(t, InList(p), d.nextId)], isExpanded := true))
      && UndoCommand(e.doc, e.command) == Success(PutNode(d, p, Expand(x)).(nextId := e.doc.nextId))
      && (x.isExpanded ==> UndoCommand(e.doc, e.command) == Success(d.(nextId := e.doc.nextId)))
  {
    var x := FindNode(d, p).value;
    FoundChildrenBelow(d, p);
    var n := Create(t, InList(p), d.nextId);
    var x1 := x.(items := x.items + [n], isExpanded := true);
    PutThenFind(d, p, x1, Expand(x));
    RemoveAppendedItem(x.items, n);
    if x.isExpanded {
      PutBack(d, p);
    }
  }

  /** Adding to a map appends one entry whose key no entry had (so the set of
      duplicated keys is unchanged) and whose value is a default node of the
      requested type; undoing removes exactly that entry. */
  lemma AddItemToMap(d: Document, m: nat, t: NodeType, added: Option<nat>)
    requires IdsBelow(d) && FindNode(d, m).Some? && FindNode(d, m).value.EditableMap?
    ensures var x := FindNode(d, m).value;
      var key := GenerateKey(x.entries, "key");
      var entry := EditableMapEntry(d.nextId, m, key, Create(t, InEntry(d.nextId, m), d.nextId + 1));
      var e := ExecuteCommand(d, AddItemCommand(m, t, added));
      && e.command == AddItemCommand(m, t, Some(d.nextId))
      && key !in KeysOf(x.entries)
      && DuplicateKeys(x.entries + [entry]) == DuplicateKeys(x.entries)
      && FindNode(e.doc, m) == Some(x.(entries := x.entries + [entry], isExpanded := true))
      && UndoCommand(e.doc, e.command) == Success(PutNode(d, m, Expand(x)).(nextId := e.doc.nextId))
      && (x.isExpanded ==> UndoCommand(e.doc, e.command) == Success(d.(nextId := e.doc.nextId)))
  {
    var x := FindNode(d, m).value;
    var key := GenerateKey(x.entries, "key");
    var entry := EditableMapEntry(d.nextId, m, key, Create(t, InEntry(d.nextId, m), d.nextId + 1));
    AddToMapUndo(d, m, t, added);
    AppendFreshKey(x.entries, entry);
    if x.isExpanded {
      assert Expand(x) == x;
      PutBack(d, m);
    }
  }

  /** Adding to a map appends the new entry and expands the map; undoing it
      takes the entry out again and leaves the map expanded. */
  lemma AddToMapUndo(d: Document, m: nat, t: NodeType, added: Option<nat>)
    requires IdsBelow(d) && FindNode(d, m).Some? && FindNode(d, m).value.EditableMap?
    ensures var x := FindNode(d, m).value;
      var entry := EditableMapEntry(d.nextId, m, GenerateKey(x.entries, "key"), Create(t, InEntry(d.nextId, m), d.nextId + 1));
      var e := ExecuteCommand(d, AddItemCommand(m, t, added));
      && e.command == AddItemCommand(m, t, Some(d.nextId))
      && e.doc.nextId == d.nextId + 2
      && FindNode(e.doc, m) == Some(x.(entries := x.entries + [entry], isExpanded := true))
      && UndoCommand(e.doc, e.command) == Success(PutNode(d, m, Expand(x)).(nextId := d.nextId + 2))
  {
    var x := FindNode(d, m).value;
    FoundChildrenBelow(d, m);
    var key := GenerateKey(x.entries, "key");
    var entry := EditableMapEntry(d.nextId, m, key, Create(t, InEntry(d.nextId, m), d.nextId + 1));
    var x1 := x.(entries := x.entries + [entry], isExpanded := true);
    var cmd := AddItemCommand(m, t, added);
    var e := ExecuteCommand(d, cmd);
    assert e == ExecuteAddItem(d, cmd, m, t);
    assert e.doc == PutNode(d, m, x1).(nextId := d.nextId + 2);
    PutThenFind(d, m, x1, Expand(x));
    assert FindNode(e.doc, m) == Some(x1);
    RemoveAppendedEntry(x.entries, entry);
    assert UndoCommand(e.doc, e.command) == Success(PutNode(e.doc, m, Expand(x)));
  }

  /** An entry whose key no entry has adds no duplicated key. */
  lemma AppendFreshKey(entries: seq<EditableMapEntry>, entry: EditableMapEntry)
    requires entry.key !in KeysOf(entries)
    ensures DuplicateKeys(entries + [entry]) == DuplicateKeys(entries)
  {
    forall k
      ensures k in DuplicateKeys(entries + [entry]) <==> k in DuplicateKeys(entries)
    {
      AppendFreshKeyAt(entries, entry, k);
    }
  }

  lemma AppendFreshKeyAt(entries: seq<EditableMapEntry>, entry: EditableMapEntry, k: string)
    requires entry.key !in KeysOf(entries)
    ensures k in DuplicateKeys(entries + [entry]) <==> k in DuplicateKeys(entries)
  {
    var s := entries + [entry];
    if k in DuplicateKeys(s) {
      var i, j :| 0 <= i < j < |s| && s[i].key == k && s[j].key == k;
      assert KeysOf(entries)[i] == k;
      assert j < |entries|;
      assert entries[i].key == k && entries[j].key == k;
    }
    if k in DuplicateKeys(entries) {
      var i, j :| 0 <= i < j < |entries| && entries[i].key == k && entries[j].key == k;
      assert s[i].key == k && s[j].key == k;
    }
  }

  // --- RemoveNodeCommand ---

  /** The node is among the children of the container its parent link names. */
  predicate Present(d: Document, node: EditableNode) {
    HoldsContainer(d, node.parent) && HoldsChild(d, node)
  }

  /** Taking out child `i` of a list and putting it back at `i` restores the document. */
  lemma ReattachDetachedItem(d: Document, l: nat, i: nat)
    requires FindNode(d, l).Some? && FindNode(d, l).value.EditableList?
    requires i < |FindNode(d, l).value.items|
    ensures var x := FindNode(d, l).value;
      var removal := FromList(l, i, x.items[i]);
      var d1 := Detach(d, removal);
      && FindNode(d1, l) == Some(x.(items := Seqs.RemoveAt(x.items, i)))
      && Reattach(d1, removal) == Success(d)
  {
    var x := FindNode(d, l).value;
    PutThenFind(d, l, x.(items := Seqs.RemoveAt(x.items, i)), x);
    Seqs.InsertRemoved(x.items, i);
    PutBack(d, l);
  }

  /** Taking out entry `i` of a map and putting it back at `i` restores the document. */
  lemma ReattachDetachedEntry(d: Document, m: nat, i: nat)
    requires FindNode(d, m).Some? && FindNode(d, m).value.EditableMap?
    requires i < |FindNode(d, m).value.entries|
    ensures var x := FindNode(d, m).value;
      var removal := FromMap(m, i, x.entries[i]);
      var d1 := Detach(d, removal);
      && FindNode(d1, m) == Some(x.(entries := Seqs.RemoveAt(x.entries, i)))
      && Reattach(d1, removal) == Success(d)
  {
    var x := FindNode(d, m).value;
    PutThenFind(d, m, x.(entries := Seqs.RemoveAt(x.entries, i)), x);
    Seqs.InsertRemoved(x.entries, i);
    PutBack(d, m);
  }

  /** Removing a present node takes out exactly one child of its container
      (the first item with the node's id, or the map entry holding it) and
      draws no id; undoing puts that child back where it was, giving back the
      document unchanged. */
  lemma RemoveNodeUndo(d: Document, node: EditableNode, removal: Removal)
    requires Present(d, node)
    ensures var e := ExecuteCommand(d, RemoveNodeCommand(node, removal));
      && e.doc.nextId == d.nextId
      && (e.command.removal.FromList? || e.command.removal.FromMap?)
      && (node.parent.InList? ==>
            var x := FindNode(d, node.parent.listId).value;
            FindNode(e.doc, node.parent.listId) == Some(x.(items := RemoveItem(x.items, node.id))))
      && (node.parent.InEntry? ==>
            var x := FindNode(d, node.parent.mapId).value;
            FindNode(e.doc, node.parent.mapId) == Some(x.(entries := RemoveEntry(x.entries, node.parent.entryId))))
      && UndoCommand(e.doc, e.command) == Success(d)
  {
    var r := RemoveFrom(d, node);
    match r
    case FromList(l, i, _) => ReattachDetachedItem(d, l, i);
    case FromMap(m, i, _) => ReattachDetachedEntry(d, m, i);
  }

  /** When the node is not among its list's children, executing changes
      nothing and undoing fails: Kotlin's `add(-1, node)` throws. */
  lemma RemoveMissingFails(d: Document, node: EditableNode, removal: Removal)
    requires node.parent.InList? && HoldsContainer(d, node.parent) && !HoldsChild(d, node)
    ensures var e := ExecuteCommand(d, RemoveNodeCommand(node, removal));
      e.doc == d && UndoCommand(e.doc, e.command) == Failure(IndexOutOfBounds(-1))
  {
  }

  // --- InsertListCommand ---

  /** Inserting puts an empty string scalar with a fresh id at the clamped
      index and leaves the other items in order; undoing removes exactly it. */
  lemma InsertListUndo(d: Document, l: nat, index: int, inserted: Option<nat>)
    requires IdsBelow(d) && FindNode(d, l).Some? && FindNode(d, l).value.EditableList?
    ensures var x := FindNode(d, l).value;
      var e := ExecuteCommand(d, InsertListCommand(l, index, inserted));
      var at := Seqs.Clamp(index, 0, |x.items|);
      && FindNode(e.doc, l).Some? && FindNode(e.doc, l).value.EditableList?
      && var items := FindNode(e.doc, l).value.items;
      && |items| == |x.items| + 1
      && items[at] == NewScalar(d.nextId, InList(l), "", ScalarType.String)
      && items[..at] == x.items[..at] && items[at + 1..] == x.items[at..]
      && UndoCommand(e.doc, e.command) == Success(d.(nextId := e.doc.nextId))
  {
    var x := FindNode(d, l).value;
    FoundChildrenBelow(d, l);
    var cmd := InsertListCommand(l, index, inserted);
    var at := Seqs.Clamp(index, 0, |x.items|);
    var n := NewScalar(d.nextId, InList(l), "", ScalarType.String);
    var s := Seqs.InsertAt(x.items, at, n);
    var x1 := x.(items := s);
    var e := ExecuteCommand(d, cmd);
    assert e == ExecuteInsertList(d, cmd, l, index);
    assert e.doc == PutNode(d, l, x1).(nextId := d.nextId + 1);
    assert e.command == InsertListCommand(l, index, Some(d.nextId));
    PutThenFind(d, l, x1, x);
    assert FindNode(e.doc, l) == Some(x1);
    assert s[..at] == x.items[..at] && s[at + 1..] == x.items[at..];
    RemoveInsertedItem(x.items, at, n);
    assert UndoCommand(e.doc, e.command) == Success(PutNode(e.doc, l, x));
    PutBack(d, l);
  }

  /** A node whose id is new to a list, inserted anywhere, is the one
      `remove` takes out again. */
  lemma RemoveInsertedItem(items: seq<EditableNode>, at: nat, n: EditableNode)
    requires at <= |items| && n.id !in IdsOf(items)
    ensures RemoveItem(Seqs.InsertAt(items, at, n), n.id) == items
  {
    var s := Seqs.InsertAt(items, at, n);
    assert IdsOf(s)[..at] == IdsOf(items)[..at];
    assert IdsOf(s)[at] == n.id;
    assert Seqs.IndexOf(IdsOf(s), n.id) == at;
    Seqs.RemoveInserted(items, at, n);
  }

  // --- MoveItemCommand ---

  /** On a list with distinct ids, a move that happens is undone by the move
      in the other direction. */
  lemma MoveInListBack(items: seq<EditableNode>, nodeId: nat, up: bool)
    requires Seqs.Distinct(IdsOf(items))
    requires var i := Seqs.IndexOf(IdsOf(items), nodeId);
      i >= 0 && 0 <= (if up then i - 1 else i + 1) < |items|
    ensures var i := Seqs.IndexOf(IdsOf(items), nodeId);
      var r := MoveInList(items, nodeId, up);
      && Seqs.IndexOf(IdsOf(r), nodeId) == (if up then i - 1 else i + 1)
      && MoveInList(r, nodeId, !up) == items
  {
    MovedIndex(items, nodeId, up);
    MoveBackSwaps(items, nodeId, up);
  }

  /** After a move that happens, the item is first found at its new index. */
  lemma MovedIndex(items: seq<EditableNode>, nodeId: nat, up: bool)
    requires Seqs.Distinct(IdsOf(items))
    requires var i := Seqs.IndexOf(IdsOf(items), nodeId);
      i >= 0 && 0 <= (if up then i - 1 else i + 1) < |items|
    ensures var i := Seqs.IndexOf(IdsOf(items), nodeId);
      Seqs.IndexOf(IdsOf(MoveInList(items, nodeId, up)), nodeId) == (if up then i - 1 else i + 1)
  {
    var ids := IdsOf(items);
    var i := Seqs.IndexOf(ids, nodeId);
    var t := if up then i - 1 else i + 1;
    var r := MoveInList(items, nodeId, up);
    var rids := IdsOf(r);
    assert rids[t] == nodeId;
    forall k | 0 <= k < t
      ensures rids[k] != nodeId
    {
      if k == i {
        assert r[k] == items[t] && ids[t] != ids[i];
      } else {
        assert r[k] == items[k] && ids[k] != ids[i];
      }
    }
    Seqs.IndexOfAt(rids, nodeId, t);
  }

  /** Once the moved item is first found at its new index, the opposite
      move swaps the same two positions back. */
  lemma MoveBackSwaps(items: seq<EditableNode>, nodeId: nat, up: bool)
    requires var i := Seqs.IndexOf(IdsOf(items), nodeId);
      && i >= 0 && 0 <= (if up then i - 1 else i + 1) < |items|
      && Seqs.IndexOf(IdsOf(MoveInList(items, nodeId, up)), nodeId) == (if up then i - 1 else i + 1)
    ensures MoveInList(MoveInList(items, nodeId, up), nodeId, !up) == items
  {
    var i := Seqs.IndexOf(IdsOf(items), nodeId);
    var t := if up then i - 1 else i + 1;
    var r := MoveInList(items, nodeId, up);
    SwapAt(items, nodeId, up, i, t);
    SwapAt(r, nodeId, !up, t, i);
    SwapTwice(items, r, MoveInList(r, nodeId, !up), i, t);
  }

  /** A move that happens swaps positions `i` and `t` and keeps the rest. */
  lemma SwapAt(items: seq<EditableNode>, nodeId: nat, up: bool, i: nat, t: nat)
    requires i == Seqs.IndexOf(IdsOf(items), nodeId) && t == (if up then i - 1 else i + 1) && t < |items|
    ensures var r := MoveInList(items, nodeId, up);
      && |r| == |items| && r[t] == items[i] && r[i] == items[t]
      && forall k :: 0 <= k < |items| && k != i && k != t ==> r[k] == items[k]
  {
  }

  /** Swapping the same two positions twice gives back the sequence. */
  lemma SwapTwice(a: seq<EditableNode>, b: seq<EditableNode>, c: seq<EditableNode>, i: nat, t: nat)
    requires |b| == |a| && |c| == |a| && i < |a| && t < |a|
    requires b[t] == a[i] && b[i] == a[t] && forall k :: 0 <= k < |a| && k != i && k != t ==> b[k] == a[k]
    requires c[i] == b[t] && c[t] == b[i] && forall k :: 0 <= k < |a| && k != i && k != t ==> c[k] == b[k]
    ensures c == a
  {
    forall k | 0 <= k < |a|
      ensures c[k] == a[k]
    {
      if k != i && k != t {
        assert c[k] == b[k];
      }
    }
  }

  /** Putting new items into list `l` and then putting the old list back
      restores the document. */
  lemma ItemsRestore(d: Document, l: nat, s: seq<EditableNode>)
    requires FindNode(d, l).Some? && FindNode(d, l).value.EditableList?
    ensures var x := FindNode(d, l).value;
      var d1 := PutNode(d, l, x.(items := s));
      && FindNode(d1, l) == Some(x.(items := s))
      && PutNode(d1, l, x) == d
  {
    var x := FindNode(d, l).value;
    PutThenFind(d, l, x.(items := s), x);
    PutBack(d, l);
  }

  /** A move on list `l` whose reverse restores its items is undone exactly. */
  lemma MoveRestores(d: Document, l: nat, nodeId: nat, up: bool)
    requires FindNode(d, l).Some? && FindNode(d, l).value.EditableList?
    requires var items := FindNode(d, l).value.items;
      MoveInList(MoveInList(items, nodeId, up), nodeId, !up) == items
    ensures var d1 := Move(d, l, nodeId, up);
      && FindNode(d1, l) == Some(FindNode(d, l).value.(items := MoveInList(FindNode(d, l).value.items, nodeId, up)))
      && Move(d1, l, nodeId, !up) == d
  {
    var x := FindNode(d, l).value;
    var s := MoveInList(x.items, nodeId, up);
    var x1 := x.(items := s);
    var d1 := PutNode(d, l, x1);
    assert Move(d, l, nodeId, up) == d1;
    ItemsRestore(d, l, s);
    assert x1.items == s;
    assert MoveInList(s, nodeId, !up) == x.items;
    assert x1.(items := MoveInList(x1.items, nodeId, !up)) == x;
  }

  /** When the move happens, the node lands on the neighbouring index and
      undoing moves it back, restoring the document; this needs the list's
      item ids to be distinct. */
  lemma MoveUndo(d: Document, l: nat, nodeId: nat, up: bool)
    requires FindNode(d, l).Some? && FindNode(d, l).value.EditableList?
    requires Seqs.Distinct(IdsOf(FindNode(d, l).value.items))
    requires var items := FindNode(d, l).value.items;
      var i := Seqs.IndexOf(IdsOf(items), nodeId);
      i >= 0 && 0 <= (if up then i - 1 else i + 1) < |items|
    ensures var x := FindNode(d, l).value;
      var i := Seqs.IndexOf(IdsOf(x.items), nodeId);
      var e := ExecuteCommand(d, MoveItemCommand(l, nodeId, up));
      && FindNode(e.doc, l).Some? && FindNode(e.doc, l).value.EditableList?
      && Seqs.IndexOf(IdsOf(FindNode(e.doc, l).value.items), nodeId) == (if up then i - 1 else i + 1)
      && UndoCommand(e.doc, e.command) == Success(d)
  {
    var x := FindNode(d, l).value;
    var cmd := MoveItemCommand(l, nodeId, up);
    var d1 := Move(d, l, nodeId, up);
    assert ExecuteCommand(d, cmd) == Executed(d1, cmd);
    assert UndoCommand(d1, cmd) == Success(Move(d1, l, nodeId, !up));
    MoveInListBack(x.items, nodeId, up);
    MoveRestores(d, l, nodeId, up);
    assert FindNode(d1, l) == Some(x.(items := MoveInList(x.items, nodeId, up)));
    assert Move(d1, l, nodeId, !up) == d;
  }

  /** Moving the first item up changes nothing, yet undoing that no-op moves
      the item down: `undo` runs `move(!up)` whether or not the move happened. */
  lemma MoveUpAtTopUndoMovesDown(d: Document, l: nat)
    requires FindNode(d, l).Some? && FindNode(d, l).value.EditableList?
    requires |FindNode(d, l).value.items| >= 2
    requires Seqs.Distinct(IdsOf(FindNode(d, l).value.items))
    ensures var x := FindNode(d, l).value;
      var e := ExecuteCommand(d, MoveItemCommand(l, x.items[0].id, true));
      && e.doc == d
      && UndoCommand(e.doc, e.command).Success?
      && var after := FindNode(UndoCommand(e.doc, e.command).value, l);
      && after.Some? && after.value.EditableList? && |after.value.items| == |x.items|
      && after.value.items[1] == x.items[0] && after.value.items[0] == x.items[1]
  {
    var x := FindNode(d, l).value;
    var nodeId := x.items[0].id;
    assert Seqs.IndexOf(IdsOf(x.items), nodeId) == 0;
    PutBack(d, l);
    PutThenFind(d, l, x.(items := MoveInList(x.items, nodeId, false)), x);
  }

  // --- ReplaceNodeCommand ---

  /** Replacing a list item and then replacing its replacement by it restores
      the document. */
  lemma ReplaceInListBack(d: Document, l: nat, oldId: nat, nn: EditableNode)
    requires IdsBelow(d) && nn.id == d.nextId
    requires CurrentChild(d, InList(l), oldId).Some?
    ensures var d1 := ReplaceAt(d, InList(l), oldId, nn);
      && CurrentChild(d1, InList(l), nn.id) == Some(nn)
      && ReplaceAt(d1, InList(l), nn.id, CurrentChild(d, InList(l), oldId).value) == d
  {
    var x := FindNode(d, l).value;
    FoundChildrenBelow(d, l);
    var i := Seqs.IndexOf(IdsOf(x.items), oldId);
    var s := ListReplaceChild(x.items, oldId, nn);
    var d1 := PutNode(d, l, x.(items := s));
    assert ReplaceAt(d, InList(l), oldId, nn) == d1;
    PutThenFind(d, l, x.(items := s), x);
    assert FindNode(d1, l) == Some(x.(items := s));
    ReplacedFirst(x.items, i, nn);
    assert CurrentChild(d1, InList(l), nn.id) == Some(nn);
    ListReplaceChildUndo(x.items, i, nn);
    assert ReplaceAt(d1, InList(l), nn.id, x.items[i]) == PutNode(d1, l, x);
    PutBack(d, l);
  }

  /** The replacement of the first item with a given id, when its own id is
      new to the list, is itself the first item with its id. */
  lemma ReplacedFirst(items: seq<EditableNode>, i: nat, nn: EditableNode)
    requires i < |items| && Seqs.IndexOf(IdsOf(items), items[i].id) == i
    requires nn.id !in IdsOf(items)
    ensures var s := ListReplaceChild(items, items[i].id, nn);
      nn.id in IdsOf(s) && Seqs.IndexOf(IdsOf(s), nn.id) == i && s[i] == nn
  {
    var s := ListReplaceChild(items, items[i].id, nn);
    assert IdsOf(s)[..i] == IdsOf(items)[..i];
    assert IdsOf(s)[i] == nn.id;
  }

  /** Replacing the value of a map entry and then replacing its replacement by
      it restores the document. */
  lemma ReplaceInEntryBack(d: Document, en: nat, m: nat, oldId: nat, nn: EditableNode)
    requires CurrentChild(d, InEntry(en, m), oldId).Some?
    ensures var d1 := ReplaceAt(d, InEntry(en, m), oldId, nn);
      && CurrentChild(d1, InEntry(en, m), nn.id) == Some(nn)
      && ReplaceAt(d1, InEntry(en, m), nn.id, CurrentChild(d, InEntry(en, m), oldId).value) == d
  {
    var x := FindNode(d, m).value;
    var k := Seqs.IndexOf(EntryIdsOf(x.entries), en);
    var s := x.entries[k := EntryReplaceChild(x.entries[k], oldId, nn)];
    PutThenFind(d, m, x.(entries := s), x);
    assert EntryIdsOf(s) == EntryIdsOf(x.entries);
    assert s[k := EntryReplaceChild(s[k], nn.id, x.entries[k].value)] == x.entries;
    PutBack(d, m);
  }

  /** Replacing a node that is where its parent link says puts the factory's
      node (a wrapper around a copy of the displaced node) in its place, and
      undoing puts the displaced node back, restoring the tree. */
  lemma ReplaceNodeUndo(d: Document, oldNode: EditableNode, f: Factory, replaced: Option<Replacement>)
    requires IdsBelow(d) && CurrentChild(d, oldNode.parent, oldNode.id).Some?
    ensures var prior := CurrentChild(d, oldNode.parent, oldNode.id).value;
      var e := ExecuteCommand(d, ReplaceNodeCommand(oldNode, f, replaced));
      && e.command.replaced.Some?
      && var nn := e.command.replaced.value.newNode;
      && CurrentChild(e.doc, oldNode.parent, nn.id) == Some(nn)
      && (f == WrapInList ==> Shape(nn) == VList([Shape(prior)]))
      && (f == WrapInMap ==> Shape(nn) == VMap([VMember("change_key", Shape(prior))]))
      && UndoCommand(e.doc, e.command) == Success(d.(nextId := e.doc.nextId))
  {
    var prior := CurrentChild(d, oldNode.parent, oldNode.id).value;
    var built := Build(f, prior, oldNode.parent, d.nextId);
    var nn := built.node;
    var d1 := ReplaceAt(d, oldNode.parent, oldNode.id, nn);
    var e := ExecuteCommand(d, ReplaceNodeCommand(oldNode, f, replaced));
    assert e.doc == d1.(nextId := built.next);
    assert e.command == ReplaceNodeCommand(oldNode, f, Some(Replacement(nn, prior)));
    CounterIrrelevant(d1, built.next, oldNode.parent, nn.id, prior);
    assert UndoCommand(e.doc, e.command) == Success(ReplaceAt(d1, oldNode.parent, nn.id, prior).(nextId := built.next));
    match oldNode.parent
    case InList(l) => ReplaceInListBack(d, l, oldNode.id, nn);
    case InEntry(en, m) => ReplaceInEntryBack(d, en, m, oldNode.id, nn);
    case InRoot =>
  }

  /** The id counter plays no part in finding or replacing a child. */
  lemma CounterIrrelevant(d: Document, k: nat, parent: ParentRef, id: nat, v: EditableNode)
    ensures CurrentChild(d.(nextId := k), parent, id) == CurrentChild(d, parent, id)
    ensures ReplaceAt(d.(nextId := k), parent, id, v) == ReplaceAt(d, parent, id, v).(nextId := k)
  {
    assert forall c :: FindNode(d.(nextId := k), c) == FindNode(d, c);
  }
}
