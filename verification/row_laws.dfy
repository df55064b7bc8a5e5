/** What the rows of the flattened tree point at. Every node row below the
    root's shows a child its container really holds, and every add row names
    an expanded list or map of the document; so the delete and add actions the
    screens attach to the rows act on what the user sees. */
module RowLaws {
  import opened Wrappers
  import Seqs
  import opened EditorModels
  import opened TreeEdits
  import opened EditorLogic
  import opened CommandLaws
  import opened UiNodes

  /** `node` is one of the children of the container its parent link names,
      looked up in the tree `r`. */
  predicate HeldIn(r: EditableNode, node: EditableNode) {
    match node.parent
    case InList(l) =>
      Find(r, l).Some? && Find(r, l).value.EditableList? && node in Find(r, l).value.items
    case InEntry(e, m) =>
      Find(r, m).Some? && Find(r, m).value.EditableMap?
      && exists k :: 0 <= k < |Find(r, m).value.entries| && Find(r, m).value.entries[k] == EditableMapEntry(e, m, Find(r, m).value.entries[k].key, node)
    case _ => false
  }

  /** A node row shows a held child; an add row names an expanded container. */
  predicate RowHeld(r: EditableNode, row: NodeUiItem) {
    match row
    case UiNode(_, node, _, _, _) => HeldIn(r, node)
    case UiAddAction(c, _) =>
      Find(r, c).Some? && (Find(r, c).value.EditableList? || Find(r, c).value.EditableMap?)
      && Find(r, c).value.isExpanded
  }

  predicate RowsHeld(r: EditableNode, rows: seq<NodeUiItem>) {
    forall k :: 0 <= k < |rows| ==> RowHeld(r, rows[k])
  }

  lemma RowsHeldConcat(r: EditableNode, a: seq<NodeUiItem>, b: seq<NodeUiItem>)
    requires RowsHeld(r, a) && RowsHeld(r, b)
    ensures RowsHeld(r, a + b)
  {
    assert forall k :: |a| <= k < |a| + |b| ==> (a + b)[k] == b[k - |a|];
  }

  /** Below its own row, every row of a subtree that sits in `r` is held in `r`. */
  lemma {:induction false} FlattenHeld(r: EditableNode, n: EditableNode, keyInfo: Option<KeyInfo>, level: int)
    requires Wired(n) && Seqs.Distinct(Ids(n)) && Embedded(n, r)
    ensures RowsHeld(r, Flatten(n, keyInfo, level)[1..])
    decreases n, 1
  {
    var rows := Flatten(n, keyInfo, level);
    if ExpandedContainer(n) {
      assert Find(n, n.id) == Some(n);
      var add := UiAddAction(n.id, level + 1);
      assert RowHeld(r, add);
      if n.EditableList? {
        var mid := FlattenItems(n.items, 0, level + 1);
        assert rows[1..] == mid + [add];
        FlattenItemsHeld(r, n, 0, level + 1);
        RowsHeldConcat(r, mid, [add]);
      } else {
        var mid := FlattenEntries(n.entries, level + 1);
        assert rows[1..] == mid + [add];
        FlattenEntriesHeld(r, n, 0, level + 1);
        RowsHeldConcat(r, mid, [add]);
      }
    }
  }

  /** The rows of the items of list `x` from index `i` on are held in `r`. */
  lemma {:induction false} FlattenItemsHeld(r: EditableNode, x: EditableNode, i: nat, level: int)
    requires x.EditableList? && Wired(x) && Seqs.Distinct(Ids(x)) && Embedded(x, r) && i <= |x.items|
    ensures RowsHeld(r, FlattenItems(x.items[i..], i, level))
    decreases x, 0, |x.items| - i
  {
    if i < |x.items| {
      var s := x.items[i..];
      var h := x.items[i];
      assert s[0] == h && s[1..] == x.items[i + 1..];
      ChildrenEmbedded(x);
      assert Embedded(h, r) by {
        assert Find(x, x.id) == Some(x);
      }
      var rows := Flatten(h, Some(ListIndex(i)), level);
      FlattenHeld(r, h, Some(ListIndex(i)), level);
      assert Find(x, x.id) == Some(x);
      assert RowHeld(r, rows[0]);
      assert rows == [rows[0]] + rows[1..];
      RowsHeldConcat(r, [rows[0]], rows[1..]);
      FlattenItemsHeld(r, x, i + 1, level);
      RowsHeldConcat(r, rows, FlattenItems(x.items[i + 1..], i + 1, level));
    }
  }

  /** The rows of the values of map `x` from entry `i` on are held in `r`. */
  lemma {:induction false} FlattenEntriesHeld(r: EditableNode, x: EditableNode, i: nat, level: int)
    requires x.EditableMap? && Wired(x) && Seqs.Distinct(Ids(x)) && Embedded(x, r) && i <= |x.entries|
    ensures RowsHeld(r, FlattenEntries(x.entries[i..], level))
    decreases x, 0, |x.entries| - i
  {
    if i < |x.entries| {
      var s := x.entries[i..];
      var en := x.entries[i];
      assert s[0] == en && s[1..] == x.entries[i + 1..];
      ChildrenEmbedded(x);
      var h := en.value;
      assert Embedded(h, r) by {
        assert Find(x, x.id) == Some(x);
      }
      var rows := Flatten(h, Some(MapKey(en.key, en.id)), level);
      FlattenHeld(r, h, Some(MapKey(en.key, en.id)), level);
      assert Find(x, x.id) == Some(x);
      assert EntryWired(en, x.id);
      assert x.entries[i] == EditableMapEntry(en.id, x.id, en.key, h);
      assert RowHeld(r, rows[0]);
      assert rows == [rows[0]] + rows[1..];
      RowsHeldConcat(r, [rows[0]], rows[1..]);
      FlattenEntriesHeld(r, x, i + 1, level);
      RowsHeldConcat(r, rows, FlattenEntries(x.entries[i + 1..], level));
    }
  }

  // --- The rows of a consistent document ---

  /** The rows of a consistent document: below the root's row, each node row
      shows a node present in its container, and each add row names an
      expanded list or map of the document. */
  lemma RowsPresent(d: Document)
    requires Consistent(d)
    ensures var rows := Flatten(d.root.rootNode, None, 0);
      forall k :: 1 <= k < |rows| ==>
        && (rows[k].UiNode? ==> Present(d, rows[k].node))
        && (rows[k].UiAddAction? ==>
              && FindNode(d, rows[k].containerId).Some?
              && (FindNode(d, rows[k].containerId).value.EditableList? || FindNode(d, rows[k].containerId).value.EditableMap?)
              && FindNode(d, rows[k].containerId).value.isExpanded)
  {
    var root := d.root.rootNode;
    var rows := Flatten(root, None, 0);
    FlattenHeld(root, root, None, 0);
    forall k | 1 <= k < |rows|
      ensures rows[k].UiNode? ==> Present(d, rows[k].node)
    {
      assert rows[1..][k - 1] == rows[k];
      if rows[k].UiNode? {
        HeldPresent(d, rows[k].node);
      }
    }
  }

  lemma HeldPresent(d: Document, node: EditableNode)
    requires HeldIn(d.root.rootNode, node)
    ensures Present(d, node)
  {
    match node.parent
    case InList(l) =>
      var x := FindNode(d, l).value;
      var i :| 0 <= i < |x.items| && x.items[i] == node;
      assert IdsOf(x.items)[i] == node.id;
    case InEntry(e, m) =>
      var x := FindNode(d, m).value;
      var i :| 0 <= i < |x.entries| && x.entries[i] == EditableMapEntry(e, m, x.entries[i].key, node);
      assert EntryIdsOf(x.entries)[i] == e;
  }

  /** Deleting the node of a row below the root's takes that node out of its
      container, and undoing puts the document back as it was. */
  lemma DeleteRowUndo(d: Document, k: nat)
    requires Consistent(d)
    requires var rows := Flatten(d.root.rootNode, None, 0); 1 <= k < |rows| && rows[k].UiNode?
    ensures var node := Flatten(d.root.rootNode, None, 0)[k].node;
      var e := ExecuteCommand(d, OnDelete(Flatten(d.root.rootNode, None, 0)[k]));
      && Present(d, node)
      && (node.parent.InList? ==>
            var x := FindNode(d, node.parent.listId).value;
            FindNode(e.doc, node.parent.listId) == Some(x.(items := RemoveItem(x.items, node.id))))
      && (node.parent.InEntry? ==>
            var x := FindNode(d, node.parent.mapId).value;
            FindNode(e.doc, node.parent.mapId) == Some(x.(entries := RemoveEntry(x.entries, node.parent.entryId))))
      && UndoCommand(e.doc, e.command) == Success(d)
  {
    var rows := Flatten(d.root.rootNode, None, 0);
    RowsPresent(d);
    RemoveNodeUndo(d, rows[k].node, NoContainer);
  }

  /** Adding through an add row appends one child to the expanded container
      it names (a default node for a list, an entry holding one for a map),
      and undoing gives back the document with only the counter advanced. */
  lemma AddRowAdds(d: Document, k: nat, t: NodeType)
    requires Consistent(d)
    requires var rows := Flatten(d.root.rootNode, None, 0); 0 <= k < |rows| && rows[k].UiAddAction?
    ensures var c := Flatten(d.root.rootNode, None, 0)[k].containerId;
      var e := ExecuteCommand(d, OnAdd(Flatten(d.root.rootNode, None, 0)[k], t));
      && FindNode(d, c).Some?
      && var x := FindNode(d, c).value;
      && (x.EditableList? ==> FindNode(e.doc, c) == Some(x.(items := x.items + [Create(t, InList(c), d.nextId)])))
      && (x.EditableMap? ==>
            && FindNode(e.doc, c).Some? && FindNode(e.doc, c).value.EditableMap?
            && FindNode(e.doc, c).value.entries
                 == x.entries + [EditableMapEntry(d.nextId, c, GenerateKey(x.entries, "key"), Create(t, InEntry(d.nextId, c), d.nextId + 1))])
      && UndoCommand(e.doc, e.command) == Success(d.(nextId := e.doc.nextId))
  {
    var rows := Flatten(d.root.rootNode, None, 0);
    var c := rows[k].containerId;
    assert k != 0 by {
      assert rows[0].UiNode?;
    }
    RowsPresent(d);
    var x := FindNode(d, c).value;
    if x.EditableList? {
      AddItemToList(d, c, t, None);
    } else {
      AddItemToMap(d, c, t, None);
    }
  }
}
