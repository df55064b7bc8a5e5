/** Redo right after undo. Redo executes the undone command again on the
    document undo gave back. Removing and moving come back exactly; adding,
    inserting and wrapping draw new ids the second time, so what comes back
    is the same tree up to ids: it has the same shape. */
module RedoLaws {
  import opened Wrappers
  import Seqs
  import opened EditorModels
  import opened TreeEdits
  import opened EditorLogic
  import opened CommandLaws
  import opened ConsistentUndo

  /** On a consistent document, executing a command, undoing it and executing
      the recorded command again gives a tree of the same shape as the first
      execution did, whenever the undo succeeds. */
  lemma RedoAgainShape(d: Document, cmd: Command)
    requires Consistent(d)
    ensures var e := ExecuteCommand(d, cmd);
      var u := UndoCommand(e.doc, e.command);
      u.Success? ==> Shape(ExecuteCommand(u.value, e.command).doc.root.rootNode) == Shape(e.doc.root.rootNode)
  {
    match cmd
    case AddItemCommand(p, t, added) =>
      if FindNode(d, p).Some? && FindNode(d, p).value.EditableList? {
        AddRedoList(d, p, t, added);
      } else if FindNode(d, p).Some? && FindNode(d, p).value.EditableMap? {
        AddRedoMap(d, p, t, added);
      }
    case RemoveNodeCommand(node, removal) =>
      if Present(d, node) {
        RemoveNodeUndo(d, node, removal);
      }
    case InsertListCommand(l, index, inserted) =>
      if FindNode(d, l).Some? && FindNode(d, l).value.EditableList? {
        InsertRedo(d, l, index, inserted);
      }
    case MoveItemCommand(l, nodeId, up) => MoveRedo(d, l, nodeId, up);
    case ReplaceNodeCommand(oldNode, f, replaced) => ReplaceRedo(d, oldNode, f, replaced);
  }

  /** A default node says the same whatever its id and parent. */
  lemma CreateShape(t: NodeType, p1: ParentRef, i1: nat, p2: ParentRef, i2: nat)
    ensures Shape(Create(t, p1, i1)) == Shape(Create(t, p2, i2))
  {
    match t
    case String =>
    case Number =>
    case Boolean =>
    case Null =>
    case List =>
      assert Shape(Create(t, p1, i1)).elements == [] == Shape(Create(t, p2, i2)).elements;
    case Map =>
      assert Shape(Create(t, p1, i1)).members == [] == Shape(Create(t, p2, i2)).members;
  }

  /** Lists whose items agree in shape one by one say the same. */
  lemma ListShape(x: EditableNode, a: seq<EditableNode>, b: seq<EditableNode>)
    requires x.EditableList? && |a| == |b|
    requires forall k :: 0 <= k < |a| ==> Shape(a[k]) == Shape(b[k])
    ensures Shape(x.(items := a, isExpanded := true)) == Shape(x.(items := b, isExpanded := true))
    ensures Shape(x.(items := a)) == Shape(x.(items := b))
  {
    assert Shape(x.(items := a)).elements == Shape(x.(items := b)).elements;
    assert Shape(x.(items := a, isExpanded := true)).elements == Shape(x.(items := b, isExpanded := true)).elements;
  }

  /** Maps whose entries agree in shape one by one say the same. */
  lemma MapShape(x: EditableNode, a: seq<EditableMapEntry>, b: seq<EditableMapEntry>)
    requires x.EditableMap? && |a| == |b|
    requires forall k :: 0 <= k < |a| ==> EntryShape(a[k]) == EntryShape(b[k])
    ensures Shape(x.(entries := a, isExpanded := true)) == Shape(x.(entries := b, isExpanded := true))
    ensures Shape(x.(entries := a)) == Shape(x.(entries := b))
  {
    assert Shape(x.(entries := a)).members == Shape(x.(entries := b)).members;
    assert Shape(x.(entries := a, isExpanded := true)).members == Shape(x.(entries := b, isExpanded := true)).members;
  }

  lemma AddRedoList(d: Document, p: nat, t: NodeType, added: Option<nat>)
    requires Consistent(d) && FindNode(d, p).Some? && FindNode(d, p).value.EditableList?
    ensures var e := ExecuteCommand(d, AddItemCommand(p, t, added));
      var u := UndoCommand(e.doc, e.command);
      u.Success? && Shape(ExecuteCommand(u.value, e.command).doc.root.rootNode) == Shape(e.doc.root.rootNode)
  {
    var x := FindNode(d, p).value;
    var cmd := AddItemCommand(p, t, added);
    var e := ExecuteCommand(d, cmd);
    AddItemToList(d, p, t, added);
    var u := PutNode(d, p, Expand(x)).(nextId := e.doc.nextId);
    var n1 := Create(t, InList(p), d.nextId);
    var n2 := Create(t, InList(p), e.doc.nextId);
    var x1 := x.(items := x.items + [n1], isExpanded := true);
    var x2 := x.(items := x.items + [n2], isExpanded := true);
    PutThenFind(d, p, Expand(x), x2);
    assert FindNode(u, p) == Some(Expand(x));
    assert ExecuteCommand(u, e.command).doc.root.rootNode == Put(d.root.rootNode, p, x2);
    assert e.doc.root.rootNode == Put(d.root.rootNode, p, x1);
    CreateShape(t, InList(p), d.nextId, InList(p), e.doc.nextId);
    ListShape(x, x.items + [n1], x.items + [n2]);
    ShapePut(d.root.rootNode, p, x1, x2);
  }

  /** What adding to a map does, read off the command once. */
  lemma AddToMapDoc(u: Document, m: nat, t: NodeType, added: Option<nat>)
    requires FindNode(u, m).Some? && FindNode(u, m).value.EditableMap?
    ensures var y := FindNode(u, m).value;
      var entry := EditableMapEntry(u.nextId, m, GenerateKey(y.entries, "key"), Create(t, InEntry(u.nextId, m), u.nextId + 1));
      ExecuteCommand(u, AddItemCommand(m, t, added)).doc.root
        == PutNode(u, m, y.(entries := y.entries + [entry], isExpanded := true)).root
  {
  }

  lemma AddRedoMap(d: Document, m: nat, t: NodeType, added: Option<nat>)
    requires Consistent(d) && FindNode(d, m).Some? && FindNode(d, m).value.EditableMap?
    ensures var e := ExecuteCommand(d, AddItemCommand(m, t, added));
      var u := UndoCommand(e.doc, e.command);
      u.Success? && Shape(ExecuteCommand(u.value, e.command).doc.root.rootNode) == Shape(e.doc.root.rootNode)
  {
    var x := FindNode(d, m).value;
    var e := ExecuteCommand(d, AddItemCommand(m, t, added));
    AddToMapUndo(d, m, t, added);
    var y := Expand(x);
    var u := PutNode(d, m, y).(nextId := e.doc.nextId);
    var k := e.doc.nextId;
    var key := GenerateKey(x.entries, "key");
    var en1 := EditableMapEntry(d.nextId, m, key, Create(t, InEntry(d.nextId, m), d.nextId + 1));
    var en2 := EditableMapEntry(k, m, key, Create(t, InEntry(k, m), k + 1));
    var x1 := x.(entries := x.entries + [en1], isExpanded := true);
    var x2 := x.(entries := x.entries + [en2], isExpanded := true);
    AddToMapDoc(d, m, t, added);
    PutThenFind(d, m, y, x2);
    AddToMapDoc(u, m, t, e.command.added);
    assert y.(entries := y.entries + [en2], isExpanded := true) == x2;
    CreateShape(t, InEntry(d.nextId, m), d.nextId + 1, InEntry(k, m), k + 1);
    MapShape(x, x.entries + [en1], x.entries + [en2]);
    ShapePut(d.root.rootNode, m, x1, x2);
  }

  lemma InsertRedo(d: Document, l: nat, index: int, inserted: Option<nat>)
    requires Consistent(d) && FindNode(d, l).Some? && FindNode(d, l).value.EditableList?
    ensures var e := ExecuteCommand(d, InsertListCommand(l, index, inserted));
      var u := UndoCommand(e.doc, e.command);
      u.Success? && Shape(ExecuteCommand(u.value, e.command).doc.root.rootNode) == Shape(e.doc.root.rootNode)
  {
    var x := FindNode(d, l).value;
    var e := ExecuteCommand(d, InsertListCommand(l, index, inserted));
    InsertListUndo(d, l, index, inserted);
    var u := d.(nextId := e.doc.nextId);
    var at := Seqs.Clamp(index, 0, |x.items|);
    var n1 := NewScalar(d.nextId, InList(l), "", ScalarType.String);
    var n2 := NewScalar(u.nextId, InList(l), "", ScalarType.String);
    var s1 := Seqs.InsertAt(x.items, at, n1);
    var s2 := Seqs.InsertAt(x.items, at, n2);
    assert FindNode(u, l) == Some(x);
    assert ExecuteCommand(u, e.command).doc.root.rootNode == Put(d.root.rootNode, l, x.(items := s2));
    assert e.doc.root.rootNode == Put(d.root.rootNode, l, x.(items := s1));
    ListShape(x, s1, s2);
    ShapePut(d.root.rootNode, l, x.(items := s1), x.(items := s2));
  }

  /** A move that does not happen changes nothing. */
  lemma MoveStays(d: Document, l: nat, nodeId: nat, up: bool)
    requires FindNode(d, l).Some? ==>
      !FindNode(d, l).value.EditableList?
      || var items := FindNode(d, l).value.items;
         var i := Seqs.IndexOf(IdsOf(items), nodeId);
         !(i >= 0 && 0 <= (if up then i - 1 else i + 1) < |items|)
    ensures Move(d, l, nodeId, up) == d
  {
    if FindNode(d, l).Some? && FindNode(d, l).value.EditableList? {
      PutBack(d, l);
    }
  }

  /** In a consistent document a list's items carry distinct ids. */
  lemma ListHeadsDistinct(d: Document, l: nat)
    requires Consistent(d) && FindNode(d, l).Some? && FindNode(d, l).value.EditableList?
    ensures Seqs.Distinct(IdsOf(FindNode(d, l).value.items))
  {
    var items := FindNode(d, l).value.items;
    FindDistinct(d.root.rootNode, l);
    Seqs.DistinctConcat([l], ItemIds(items));
    ItemHeadsDistinct(items);
  }

  /** Moving, moving back and moving again gives the first move's document:
      redo after undo of a move is exact. */
  lemma MoveRedo(d: Document, l: nat, nodeId: nat, up: bool)
    requires Consistent(d)
    ensures Move(Move(Move(d, l, nodeId, up), l, nodeId, !up), l, nodeId, up) == Move(d, l, nodeId, up)
  {
    if FindNode(d, l).Some? && FindNode(d, l).value.EditableList? {
      ListHeadsDistinct(d, l);
      MoveRedoInList(d, l, nodeId, up);
    } else {
      MoveStays(d, l, nodeId, up);
      MoveStays(d, l, nodeId, !up);
    }
  }

  lemma MoveRedoInList(d: Document, l: nat, nodeId: nat, up: bool)
    requires FindNode(d, l).Some? && FindNode(d, l).value.EditableList?
    requires Seqs.Distinct(IdsOf(FindNode(d, l).value.items))
    ensures Move(Move(Move(d, l, nodeId, up), l, nodeId, !up), l, nodeId, up) == Move(d, l, nodeId, up)
  {
    var items := FindNode(d, l).value.items;
    var i := Seqs.IndexOf(IdsOf(items), nodeId);
    if i >= 0 && 0 <= (if up then i - 1 else i + 1) < |items| {
      MoveInListBack(items, nodeId, up);
      MoveRestores(d, l, nodeId, up);
    } else {
      MoveBlocked(d, l, nodeId, up);
    }
  }

  /** When the first move cannot happen, the document after it is the start,
      and the move back either cannot happen either or is undone by the redo. */
  lemma MoveBlocked(d: Document, l: nat, nodeId: nat, up: bool)
    requires FindNode(d, l).Some? && FindNode(d, l).value.EditableList?
    requires Seqs.Distinct(IdsOf(FindNode(d, l).value.items))
    requires var items := FindNode(d, l).value.items;
      var i := Seqs.IndexOf(IdsOf(items), nodeId);
      !(i >= 0 && 0 <= (if up then i - 1 else i + 1) < |items|)
    ensures Move(Move(Move(d, l, nodeId, up), l, nodeId, !up), l, nodeId, up) == Move(d, l, nodeId, up)
  {
    var items := FindNode(d, l).value.items;
    var i := Seqs.IndexOf(IdsOf(items), nodeId);
    MoveStays(d, l, nodeId, up);
    if i >= 0 && 0 <= (if !up then i - 1 else i + 1) < |items| {
      MoveInListBack(items, nodeId, !up);
      MoveRestores(d, l, nodeId, !up);
    } else {
      MoveStays(d, l, nodeId, !up);
    }
  }

  /** Replacing a child by either of two nodes that say the same gives trees
      that say the same. */
  lemma ShapeReplaceAt(d: Document, parent: ParentRef, oldId: nat, v: EditableNode, w: EditableNode)
    requires Shape(v) == Shape(w)
    ensures Shape(ReplaceAt(d, parent, oldId, v).root.rootNode) == Shape(ReplaceAt(d, parent, oldId, w).root.rootNode)
  {
    match parent
    case InList(l) =>
      if FindNode(d, l).Some? && FindNode(d, l).value.EditableList? {
        var x := FindNode(d, l).value;
        var a := ListReplaceChild(x.items, oldId, v);
        var b := ListReplaceChild(x.items, oldId, w);
        ListShape(x, a, b);
        ShapePut(d.root.rootNode, l, x.(items := a), x.(items := b));
      }
    case InEntry(e, m) =>
      if FindNode(d, m).Some? && FindNode(d, m).value.EditableMap? && e in EntryIdsOf(FindNode(d, m).value.entries) {
        var x := FindNode(d, m).value;
        var k := Seqs.IndexOf(EntryIdsOf(x.entries), e);
        var a := x.entries[k := EntryReplaceChild(x.entries[k], oldId, v)];
        var b := x.entries[k := EntryReplaceChild(x.entries[k], oldId, w)];
        MapShape(x, a, b);
        ShapePut(d.root.rootNode, m, x.(entries := a), x.(entries := b));
      }
    case _ =>
  }

  lemma ReplaceRedo(d: Document, oldNode: EditableNode, f: Factory, replaced: Option<Replacement>)
    requires Consistent(d)
    ensures var e := ExecuteCommand(d, ReplaceNodeCommand(oldNode, f, replaced));
      var u := UndoCommand(e.doc, e.command);
      u.Success? && Shape(ExecuteCommand(u.value, e.command).doc.root.rootNode) == Shape(e.doc.root.rootNode)
  {
    var parent := oldNode.parent;
    var e := ExecuteCommand(d, ReplaceNodeCommand(oldNode, f, replaced));
    if CurrentChild(d, parent, oldNode.id).Some? {
      var prior := CurrentChild(d, parent, oldNode.id).value;
      ReplaceNodeUndo(d, oldNode, f, replaced);
      var k := e.doc.nextId;
      var u := d.(nextId := k);
      var nn1 := Build(f, prior, parent, d.nextId).node;
      var nn2 := Build(f, prior, parent, k).node;
      CounterIrrelevant(d, k, parent, oldNode.id, nn2);
      assert ExecuteCommand(u, e.command).doc.root == ReplaceAt(d, parent, oldNode.id, nn2).root;
      ShapeReplaceAt(d, parent, oldNode.id, nn1, nn2);
    } else {
      var built := Build(f, oldNode, parent, d.nextId);
      var k := built.next;
      ReplaceAbsent(d, parent, oldNode.id, built.node);
      assert e.doc == d.(nextId := k);
      FreshAbsent(d, parent);
      CounterIrrelevant(d, k, parent, built.node.id, oldNode);
      ReplaceAbsent(d, parent, built.node.id, oldNode);
      var u := d.(nextId := k);
      var nn2 := Build(f, oldNode, parent, k).node;
      CounterIrrelevant(d, k, parent, oldNode.id, nn2);
      ReplaceAbsent(d, parent, oldNode.id, nn2);
    }
  }
}
