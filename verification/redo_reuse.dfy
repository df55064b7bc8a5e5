/** Redo that puts back the nodes the first execution created. The command
    manager's `redo` calls `execute` again, and adding, inserting and wrapping
    then create new node objects; a command run after them that recorded one
    of the first objects (removing an added item, say) no longer finds it
    when it is redone in turn. Keeping the first objects is, with identity
    modelled by ids, re-creating the nodes under the ids the first execution
    drew: that is what `ExecuteAgain` does, and with it redo right after undo
    reproduces the execution exactly, record included. */
module RedoReuse {
  import opened Wrappers
  import opened EditorModels
  import opened EditorLogic
  import opened CommandLaws
  import opened ConsistentUndo
  import RedoLaws

  /** The first id the command's record says its execution drew. */
  function FirstDrawn(cmd: Command): (r: Option<nat>)
    ensures r.Some? <==>
      || (cmd.AddItemCommand? && cmd.added.Some?)
      || (cmd.InsertListCommand? && cmd.inserted.Some?)
      || (cmd.ReplaceNodeCommand? && cmd.replaced.Some?)
  {
    match cmd
    case AddItemCommand(_, _, added) => added
    case InsertListCommand(_, _, inserted) => inserted
    case ReplaceNodeCommand(_, _, replaced) =>
      if replaced.Some? then Some(replaced.value.newNode.id) else None
    case _ => None
  }

  /** Executes a recorded command again, drawing the ids it drew the first
      time; the counter is never wound back. */
  function ExecuteAgain(d: Document, cmd: Command): (r: Executed)
    ensures d.nextId <= r.doc.nextId
    ensures FirstDrawn(cmd).Some? ==> r.doc.nextId == d.nextId
  {
    match FirstDrawn(cmd)
    case Some(a) =>
      var e := ExecuteCommand(d.(nextId := a), cmd);
      Executed(e.doc.(nextId := d.nextId), e.command)
    case None => ExecuteCommand(d, cmd)
  }

  /** On a consistent document, executing a command, undoing it and executing
      the record again with its own ids gives back exactly what the first
      execution gave, document and record, whenever the undo succeeds. */
  lemma RedoExact(d: Document, cmd: Command)
    requires Consistent(d)
    ensures var e := ExecuteCommand(d, cmd);
      var u := UndoCommand(e.doc, e.command);
      u.Success? ==> ExecuteAgain(u.value, e.command) == e
  {
    match cmd
    case AddItemCommand(p, t, added) =>
      if FindNode(d, p).Some? && FindNode(d, p).value.EditableList? {
        AddAgainList(d, p, t, added);
      } else if FindNode(d, p).Some? && FindNode(d, p).value.EditableMap? {
        AddAgainMap(d, p, t, added);
      }
    case RemoveNodeCommand(node, removal) =>
      if Present(d, node) {
        RemoveNodeUndo(d, node, removal);
      }
    case InsertListCommand(l, index, inserted) =>
      if FindNode(d, l).Some? && FindNode(d, l).value.EditableList? {
        InsertListUndo(d, l, index, inserted);
      }
    case MoveItemCommand(l, nodeId, up) =>
      RedoLaws.MoveRedo(d, l, nodeId, up);
    case ReplaceNodeCommand(oldNode, f, replaced) =>
      ReplaceAgain(d, oldNode, f, replaced);
  }

  lemma AddAgainList(d: Document, p: nat, t: NodeType, added: Option<nat>)
    requires Consistent(d) && FindNode(d, p).Some? && FindNode(d, p).value.EditableList?
    ensures var e := ExecuteCommand(d, AddItemCommand(p, t, added));
      var u := UndoCommand(e.doc, e.command);
      u.Success? && ExecuteAgain(u.value, e.command) == e
  {
    var x := FindNode(d, p).value;
    var e := ExecuteCommand(d, AddItemCommand(p, t, added));
    AddItemToList(d, p, t, added);
    var n := Create(t, InList(p), d.nextId);
    var x1 := x.(items := x.items + [n], isExpanded := true);
    var y := Expand(x);
    var u := PutNode(d, p, y).(nextId := e.doc.nextId);
    PutThenFind(d, p, y, x1);
    assert FindNode(u.(nextId := d.nextId), p) == Some(y);
    assert y.(items := y.items + [n], isExpanded := true) == x1;
    assert ExecuteCommand(u.(nextId := d.nextId), e.command).doc == PutNode(d, p, x1).(nextId := d.nextId + 1);
  }

  lemma AddAgainMap(d: Document, m: nat, t: NodeType, added: Option<nat>)
    requires Consistent(d) && FindNode(d, m).Some? && FindNode(d, m).value.EditableMap?
    ensures var e := ExecuteCommand(d, AddItemCommand(m, t, added));
      var u := UndoCommand(e.doc, e.command);
      u.Success? && ExecuteAgain(u.value, e.command) == e
  {
    var x := FindNode(d, m).value;
    var e := ExecuteCommand(d, AddItemCommand(m, t, added));
    AddToMapUndo(d, m, t, added);
    var y := Expand(x);
    var key := GenerateKey(x.entries, "key");
    var entry := EditableMapEntry(d.nextId, m, key, Create(t, InEntry(d.nextId, m), d.nextId + 1));
    var x1 := x.(entries := x.entries + [entry], isExpanded := true);
    var u := PutNode(d, m, y).(nextId := e.doc.nextId);
    RedoLaws.AddToMapDoc(d, m, t, added);
    PutThenFind(d, m, y, x1);
    RedoLaws.AddToMapDoc(u.(nextId := d.nextId), m, t, e.command.added);
    assert y.(entries := y.entries + [entry], isExpanded := true) == x1;
  }

  lemma ReplaceAgain(d: Document, oldNode: EditableNode, f: Factory, replaced: Option<Replacement>)
    requires Consistent(d)
    ensures var e := ExecuteCommand(d, ReplaceNodeCommand(oldNode, f, replaced));
      var u := UndoCommand(e.doc, e.command);
      u.Success? && ExecuteAgain(u.value, e.command) == e
  {
    var parent := oldNode.parent;
    var e := ExecuteCommand(d, ReplaceNodeCommand(oldNode, f, replaced));
    if CurrentChild(d, parent, oldNode.id).Some? {
      ReplaceNodeUndo(d, oldNode, f, replaced);
    } else {
      var built := Build(f, oldNode, parent, d.nextId);
      var k := built.next;
      ReplaceAbsent(d, parent, oldNode.id, built.node);
      assert e.doc == d.(nextId := k);
      FreshAbsent(d, parent);
      CounterIrrelevant(d, k, parent, built.node.id, oldNode);
      ReplaceAbsent(d, parent, built.node.id, oldNode);
    }
    assert ExecuteCommand(d, e.command) == e;
  }
}
