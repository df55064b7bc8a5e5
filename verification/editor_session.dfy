/** The editor as the screens drive it: a document together with the
    `CommandManager` history of the commands run on it. Running a command
    executes it and records it; undo and redo replay the recorded command. */
module EditorSession {
  import opened Wrappers
  import Seqs
  import opened EditorModels
  import opened EditorLogic
  import opened CommandManager
  import CommandLaws
  import RedoLaws
  import RedoReuse

  datatype Editor = Editor(doc: Document, history: History<Command>)

  /** An editor over `doc` with an empty history bounded as the screens bound it. */
  function Open(doc: Document): (ed: Editor)
    ensures ed.doc == doc && Valid(ed.history) && !ed.history.canUndo && !ed.history.canRedo
    ensures ed.history.maxHistory == DefaultMaxHistory
  {
    Editor(doc, NewHistory(DefaultMaxHistory))
  }

  /** `cmdManager.execute(command)`. */
  function Run(ed: Editor, cmd: Command): (r: Editor)
    ensures r.doc == ExecuteCommand(ed.doc, cmd).doc
    ensures r.history.redoStack == []
    ensures Valid(ed.history) ==> Valid(r.history)
    ensures Valid(ed.history) && ed.history.maxHistory > 0 ==>
      r.history.canUndo && r.history.undoStack[|r.history.undoStack| - 1] == ExecuteCommand(ed.doc, cmd).command
  {
    var e := ExecuteCommand(ed.doc, cmd);
    Editor(e.doc, Execute(ed.history, e.command))
  }

  /** `cmdManager.undo()`. The command leaves the undo stack before it is
      undone; when undoing throws, the exception escapes and the command is
      in neither stack. */
  function UndoLast(ed: Editor): (r: Result<Editor, UndoError>)
    ensures !ed.history.canUndo && Valid(ed.history) ==> r == Success(ed)
    ensures Valid(ed.history) && r.Success? ==> Valid(r.value.history)
  {
    var h := ed.history;
    if |h.undoStack| == 0 then Success(ed)
    else
      match UndoCommand(ed.doc, h.undoStack[|h.undoStack| - 1])
      case Success(d) => Success(Editor(d, Undo(h)))
      case Failure(err) => Failure(err)
  }

  /** `cmdManager.redo()`: the most recently undone command is executed again
      and goes back on the undo stack with its new record. */
  function RedoLast(ed: Editor): (r: Editor)
    ensures !ed.history.canRedo && Valid(ed.history) ==> r == ed
    ensures Valid(ed.history) ==> Valid(r.history)
  {
    var h := ed.history;
    if |h.redoStack| == 0 then ed
    else
      var e := ExecuteCommand(ed.doc, NextRedo(h));
      Editor(e.doc, Redo(h, e.command))
  }

  /** `cmdManager.clear()`: the document stays, the history goes. */
  function ClearHistory(ed: Editor): (r: Editor)
    ensures r.doc == ed.doc && Valid(r.history) && !r.history.canUndo && !r.history.canRedo
  {
    Editor(ed.doc, Clear(ed.history))
  }

  /** Undo right after running a command undoes that very command and leaves
      it ready to redo, as long as the history keeps at least one command. */
  lemma UndoUndoesRun(ed: Editor, cmd: Command)
    requires Valid(ed.history) && ed.history.maxHistory > 0
    ensures var e := ExecuteCommand(ed.doc, cmd);
      && UndoLast(Run(ed, cmd)) == (match UndoCommand(e.doc, e.command)
           case Success(d) => Success(Editor(d, Undo(Execute(ed.history, e.command))))
           case Failure(err) => Failure(err))
      && (UndoLast(Run(ed, cmd)).Success? ==>
            NextRedo(UndoLast(Run(ed, cmd)).value.history) == e.command)
  {
  }

  /** When undoing the command just run succeeds with `d`, the editor's undo
      gives `d`. */
  lemma UndoAfterRun(ed: Editor, cmd: Command, d: Document)
    requires Valid(ed.history) && ed.history.maxHistory > 0
    requires var e := ExecuteCommand(ed.doc, cmd); UndoCommand(e.doc, e.command) == Success(d)
    ensures UndoLast(Run(ed, cmd)).Success? && UndoLast(Run(ed, cmd)).value.doc == d
  {
    var e := ExecuteCommand(ed.doc, cmd);
    var h1 := Execute(ed.history, e.command);
    assert Run(ed, cmd) == Editor(e.doc, h1);
    assert h1.undoStack[|h1.undoStack| - 1] == e.command;
  }

  /** With a history bound of zero nothing can be undone: the command is
      dropped from the undo stack as soon as it is recorded. */
  lemma NoUndoWithoutHistory(ed: Editor, cmd: Command)
    requires Valid(ed.history) && ed.history.maxHistory <= 0
    ensures UndoLast(Run(ed, cmd)) == Success(Run(ed, cmd))
  {
  }

  /** Running `RemoveNodeCommand` on a node present in its container and then
      undoing gives back the document. */
  lemma RemoveThenUndo(ed: Editor, node: EditableNode, removal: Removal)
    requires Valid(ed.history) && ed.history.maxHistory > 0
    requires CommandLaws.Present(ed.doc, node)
    ensures UndoLast(Run(ed, RemoveNodeCommand(node, removal))).Success?
    ensures UndoLast(Run(ed, RemoveNodeCommand(node, removal))).value.doc == ed.doc
  {
    var cmd := RemoveNodeCommand(node, removal);
    var e := ExecuteCommand(ed.doc, cmd);
    CommandLaws.RemoveNodeUndo(ed.doc, node, removal);
    UndoAfterRun(ed, cmd, ed.doc);
  }

  /** Running a wrap and then undoing gives back the tree; only the id counter
      has moved on. */
  lemma ReplaceThenUndo(ed: Editor, oldNode: EditableNode, f: Factory)
    requires Valid(ed.history) && ed.history.maxHistory > 0
    requires IdsBelow(ed.doc) && CurrentChild(ed.doc, oldNode.parent, oldNode.id).Some?
    ensures UndoLast(Run(ed, ReplaceNodeCommand(oldNode, f, None))).Success?
    ensures UndoLast(Run(ed, ReplaceNodeCommand(oldNode, f, None))).value.doc.root == ed.doc.root
  {
    var cmd := ReplaceNodeCommand(oldNode, f, None);
    var e := ExecuteCommand(ed.doc, cmd);
    CommandLaws.ReplaceNodeUndo(ed.doc, oldNode, f, None);
    UndoAfterRun(ed, cmd, ed.doc.(nextId := e.doc.nextId));
  }

  /** Run, undo, redo on a consistent document: the tree redo gives says the
      same as the tree the run gave, ids aside; adding, inserting and wrapping
      draw fresh ids the second time, the other commands come back exactly. */
  lemma RedoAfterUndoShape(ed: Editor, cmd: Command)
    requires Valid(ed.history) && ed.history.maxHistory > 0
    requires Consistent(ed.doc)
    ensures UndoLast(Run(ed, cmd)).Success? ==>
      Shape(RedoLast(UndoLast(Run(ed, cmd)).value).doc.root.rootNode)
        == Shape(Run(ed, cmd).doc.root.rootNode)
  {
    var e := ExecuteCommand(ed.doc, cmd);
    UndoUndoesRun(ed, cmd);
    if UndoLast(Run(ed, cmd)).Success? {
      var u := UndoLast(Run(ed, cmd)).value;
      assert UndoCommand(e.doc, e.command) == Success(u.doc);
      assert u.history.redoStack != [];
      assert RedoLast(u).doc == ExecuteCommand(u.doc, e.command).doc;
      RedoLaws.RedoAgainShape(ed.doc, cmd);
    }
  }

  /** `redo()` as it is evidently meant: the most recently undone command goes
      back with the nodes it created the first time (`RedoReuse.ExecuteAgain`)
      instead of new ones. */
  function RedoReusing(ed: Editor): (r: Editor)
    ensures !ed.history.canRedo && Valid(ed.history) ==> r == ed
    ensures Valid(ed.history) ==> Valid(r.history)
    ensures ed.history.redoStack != [] ==>
      r.history.undoStack == ed.history.undoStack + [RedoReuse.ExecuteAgain(ed.doc, NextRedo(ed.history)).command]
  {
    var h := ed.history;
    if |h.redoStack| == 0 then ed
    else
      var e := RedoReuse.ExecuteAgain(ed.doc, NextRedo(h));
      Editor(e.doc, Redo(h, e.command))
  }

  /** With the corrected redo, run, undo and redo on a consistent document
      give back the editor the run gave: document, counter and history. */
  lemma RedoReusingAfterUndo(ed: Editor, cmd: Command)
    requires Valid(ed.history) && ed.history.maxHistory > 0
    requires Consistent(ed.doc)
    ensures UndoLast(Run(ed, cmd)).Success? ==> RedoReusing(UndoLast(Run(ed, cmd)).value) == Run(ed, cmd)
  {
    var e := ExecuteCommand(ed.doc, cmd);
    UndoUndoesRun(ed, cmd);
    if UndoLast(Run(ed, cmd)).Success? {
      var h := Execute(ed.history, e.command);
      var u := UndoLast(Run(ed, cmd)).value;
      assert UndoCommand(e.doc, e.command) == Success(u.doc);
      RedoReuse.RedoExact(ed.doc, cmd);
      CommandManager.RedoAfterUndo(h);
      assert u.history == Undo(h) && NextRedo(Undo(h)) == e.command;
    }
  }

  /** The chain below: an empty, collapsed list at the root; a string added
      to it and removed again. `AddedFirst` and `RemovedFirst` are the records
      the two runs keep. */
  const EmptyList := Document(EditableRoot(EditableList(0, InRoot, [], false)), 1)
  const FirstAdded := NewScalar(1, InList(0), "", ScalarType.String)
  const AddFirst := AddItemCommand(0, NodeType.String, None)
  const RemoveFirst := RemoveNodeCommand(FirstAdded, NoContainer)
  const AddedFirst := AddItemCommand(0, NodeType.String, Some(1))
  const RemovedFirst := RemoveNodeCommand(FirstAdded, FromList(0, 0, FirstAdded))
  /** The document after the add, and after the remove. */
  const WithFirst := Document(EditableRoot(EditableList(0, InRoot, [FirstAdded], true)), 2)
  const Emptied := Document(EditableRoot(EditableList(0, InRoot, [], true)), 2)

  lemma ChainAdd()
    ensures ExecuteCommand(EmptyList, AddFirst) == Executed(WithFirst, AddedFirst)
  {
    var l0 := EmptyList.root.rootNode;
    var l1 := WithFirst.root.rootNode;
    assert FindNode(EmptyList, 0) == Some(l0);
    assert Create(NodeType.String, InList(0), 1) == FirstAdded;
    assert l0.(items := l0.items + [FirstAdded], isExpanded := true) == l1;
    assert PutNode(EmptyList, 0, l1) == EmptyList.(root := EditableRoot(l1));
    assert ExecuteAddItem(EmptyList, AddFirst, 0, NodeType.String) == Executed(WithFirst, AddedFirst);
  }

  lemma ChainRemove()
    ensures ExecuteCommand(WithFirst, RemoveFirst) == Executed(Emptied, RemovedFirst)
    ensures RedoReuse.ExecuteAgain(WithFirst, RemovedFirst) == Executed(Emptied, RemovedFirst)
  {
    var l1 := WithFirst.root.rootNode;
    assert FindNode(WithFirst, 0) == Some(l1);
    assert IdsOf(l1.items) == [1];
    assert RemoveFrom(WithFirst, FirstAdded) == FromList(0, 0, FirstAdded);
    assert Seqs.RemoveAt(l1.items, 0) == [];
    assert PutNode(WithFirst, 0, l1.(items := [])) == Emptied;
    assert ExecuteCommand(WithFirst, RemovedFirst) == ExecuteCommand(WithFirst, RemoveFirst);
  }

  lemma ChainUndoSteps()
    ensures UndoCommand(Emptied, RemovedFirst) == Success(WithFirst)
    ensures UndoCommand(WithFirst, AddedFirst) == Success(Emptied)
  {
    var l1 := WithFirst.root.rootNode;
    var l2 := Emptied.root.rootNode;
    assert FindNode(Emptied, 0) == Some(l2);
    assert Seqs.InsertAt(l2.items, 0, FirstAdded) == [FirstAdded];
    assert PutNode(Emptied, 0, l2.(items := [FirstAdded])) == WithFirst;
    assert FindNode(WithFirst, 0) == Some(l1);
    assert RemoveItem(l1.items, 1) == [];
    assert PutNode(WithFirst, 0, l1.(items := [])) == Emptied;
  }

  /** The editor after the two runs, after one undo and after two. */
  const Ran := Editor(Emptied, History([AddedFirst, RemovedFirst], [], true, false, DefaultMaxHistory))
  const UndoneOnce := Editor(WithFirst, History([AddedFirst], [RemovedFirst], true, true, DefaultMaxHistory))
  const UndoneTwice := Editor(Emptied, History([], [RemovedFirst, AddedFirst], false, true, DefaultMaxHistory))

  lemma ChainRuns()
    ensures Run(Run(Open(EmptyList), AddFirst), RemoveFirst) == Ran
  {
    var ed1 := Editor(WithFirst, History([AddedFirst], [], true, false, DefaultMaxHistory));
    ChainFirstRun(ed1);
    ChainRemove();
    ChainSecondPush(ed1.history);
  }

  lemma ChainSecondPush(h: History<Command>)
    requires h == History([AddedFirst], [], true, false, DefaultMaxHistory)
    ensures Execute(h, RemovedFirst) == Ran.history
  {
    assert h.undoStack + [RemovedFirst] == [AddedFirst, RemovedFirst];
  }

  lemma ChainFirstRun(ed1: Editor)
    requires ed1 == Editor(WithFirst, History([AddedFirst], [], true, false, DefaultMaxHistory))
    ensures Run(Open(EmptyList), AddFirst) == ed1
  {
    ChainAdd();
    assert [] + [AddedFirst] == [AddedFirst];
    assert Execute(NewHistory(DefaultMaxHistory), AddedFirst) == ed1.history;
  }

  lemma ChainUndone()
    ensures UndoLast(Ran) == Success(UndoneOnce)
    ensures UndoLast(UndoneOnce) == Success(UndoneTwice)
  {
    ChainUndoSteps();
    assert Ran.history.undoStack[..1] == [AddedFirst];
    assert Undo(Ran.history) == UndoneOnce.history;
    assert UndoneOnce.history.undoStack[..0] == [];
    assert Undo(UndoneOnce.history) == UndoneTwice.history;
  }

  /** Two undos followed by two redos need not give back what the two runs
      gave. Add a string to an empty list and remove it again; undo both and
      redo both. The redone add creates a new string, and the redone remove,
      which still names the first one, finds nothing to remove: the list keeps
      one item where the runs left it empty. */
  lemma ChainRedoKeepsItem()
    ensures var ed2 := Run(Run(Open(EmptyList), AddFirst), RemoveFirst);
      && ed2.doc.root.rootNode.EditableList? && ed2.doc.root.rootNode.items == []
      && UndoLast(ed2).Success? && UndoLast(UndoLast(ed2).value).Success?
      && var r := RedoLast(RedoLast(UndoLast(UndoLast(ed2).value).value));
      && r.doc.root.rootNode.EditableList?
      && r.doc.root.rootNode.items == [NewScalar(2, InList(0), "", ScalarType.String)]
  {
    ChainRuns();
    ChainUndone();
    var second := NewScalar(2, InList(0), "", ScalarType.String);
    var readded := AddItemCommand(0, NodeType.String, Some(2));
    var d3 := Document(EditableRoot(EditableList(0, InRoot, [second], true)), 3);
    ChainReadd(second, readded, d3);
    var h4 := UndoneTwice.history;
    assert h4.redoStack[..1] == [RemovedFirst];
    var h5 := Redo(h4, readded);
    assert h5 == History([readded], [RemovedFirst], true, true, DefaultMaxHistory);
    assert RedoLast(UndoneTwice) == Editor(d3, h5);
    assert RedoLast(Editor(d3, h5)).doc == d3;
  }

  /** The redone add of the chain draws the new id 2. */
  lemma ChainReadd(second: EditableNode, readded: Command, d3: Document)
    requires second == NewScalar(2, InList(0), "", ScalarType.String)
    requires readded == AddItemCommand(0, NodeType.String, Some(2))
    requires d3 == Document(EditableRoot(EditableList(0, InRoot, [second], true)), 3)
    ensures ExecuteCommand(Emptied, AddedFirst) == Executed(d3, readded)
    ensures ExecuteCommand(d3, RemovedFirst).doc == d3
  {
    var l2 := Emptied.root.rootNode;
    var l3 := d3.root.rootNode;
    assert FindNode(Emptied, 0) == Some(l2);
    assert Create(NodeType.String, InList(0), 2) == second;
    assert l2.(items := l2.items + [second], isExpanded := true) == l3;
    assert PutNode(Emptied, 0, l3) == d3.(nextId := 2);
    assert ExecuteAddItem(Emptied, AddedFirst, 0, NodeType.String) == Executed(d3, readded);
    assert FindNode(d3, 0) == Some(l3);
    assert IdsOf(l3.items) == [2];
    assert RemoveFrom(d3, FirstAdded) == Missing;
  }

  /** The same chain with the corrected redo gives back the editor the two
      runs gave. */
  lemma ChainRedoReusingRestores()
    ensures var ed2 := Run(Run(Open(EmptyList), AddFirst), RemoveFirst);
      && UndoLast(ed2).Success? && UndoLast(UndoLast(ed2).value).Success?
      && RedoReusing(RedoReusing(UndoLast(UndoLast(ed2).value).value)) == ed2
  {
    ChainRuns();
    ChainUndone();
    ChainReaddReusing();
    ChainRemove();
    var h4 := UndoneTwice.history;
    assert h4.redoStack[..1] == [RemovedFirst];
    assert Redo(h4, AddedFirst) == UndoneOnce.history;
    assert RedoReusing(UndoneTwice) == UndoneOnce;
    assert UndoneOnce.history.redoStack[..0] == [];
    assert Redo(UndoneOnce.history, RemovedFirst) == Ran.history;
  }

  /** The corrected redo of the chain's add puts back the first string. */
  lemma ChainReaddReusing()
    ensures RedoReuse.ExecuteAgain(Emptied, AddedFirst) == Executed(WithFirst, AddedFirst)
  {
    var l2 := Emptied.root.rootNode;
    var l1 := WithFirst.root.rootNode;
    assert FindNode(Emptied.(nextId := 1), 0) == Some(l2);
    assert Create(NodeType.String, InList(0), 1) == FirstAdded;
    assert l2.(items := l2.items + [FirstAdded], isExpanded := true) == l1;
    assert PutNode(Emptied.(nextId := 1), 0, l1) == WithFirst.(nextId := 1);
    assert ExecuteAddItem(Emptied.(nextId := 1), AddedFirst, 0, NodeType.String) == Executed(WithFirst, AddedFirst);
  }
}
