/** `CommandManager`: a bounded undo history and a redo stack over commands
    of any type `C`. Running, undoing and redoing the commands themselves is
    the editor's business (module EditorSession); this module keeps the
    stacks and the two availability flags. */
module CommandManager {

  /** The bound the editor constructs its manager with. */
  const DefaultMaxHistory: int := 25

  /** Both stacks have their most recent command last. */
  datatype History<C> = History(
    undoStack: seq<C>,
    redoStack: seq<C>,
    canUndo: bool,
    canRedo: bool,
    maxHistory: int)

  /** The number of commands the undo stack can keep: `maxHistory`, or none
      when it is negative. */
  function Capacity(maxHistory: int): nat {
    if maxHistory < 0 then 0 else maxHistory
  }

  /** The flags say whether each stack is non-empty, and the two stacks
      together never hold more than the capacity. */
  predicate Valid<C>(h: History<C>) {
    && h.canUndo == (|h.undoStack| > 0)
    && h.canRedo == (|h.redoStack| > 0)
    && |h.undoStack| + |h.redoStack| <= Capacity(h.maxHistory)
  }

  /** A fresh manager. */
  function NewHistory<C>(maxHistory: int): (h: History<C>)
    ensures Valid(h) && h.undoStack == [] && h.redoStack == [] && h.maxHistory == maxHistory
  {
    History([], [], false, false, maxHistory)
  }

  /** `updateState`. */
  function UpdateState<C>(h: History<C>): History<C> {
    h.(canUndo := |h.undoStack| > 0, canRedo := |h.redoStack| > 0)
  }

  /** The last `k` elements of `s` (all of them when there are fewer). */
  function Window<C>(s: seq<C>, k: nat): (r: seq<C>)
    ensures |r| == if |s| <= k then |s| else k
    ensures forall i :: 0 <= i < |r| ==> r[i] == s[|s| - |r| + i]
  {
    if |s| <= k then s else s[|s| - k..]
  }

  /** `execute(command)` once the command has run: push it, drop the oldest
      entry when the stack outgrows `maxHistory`, and forget every redo. */
  function Execute<C>(h: History<C>, c: C): (r: History<C>)
    ensures r.redoStack == [] && r.maxHistory == h.maxHistory
    ensures |h.undoStack| <= Capacity(h.maxHistory) ==>
      r.undoStack == Window(h.undoStack + [c], Capacity(h.maxHistory))
    ensures Valid(h) ==> Valid(r)
    ensures Valid(h) && h.maxHistory > 0 ==> r.canUndo && r.undoStack[|r.undoStack| - 1] == c
  {
    var pushed := h.undoStack + [c];
    var trimmed := if |pushed| > h.maxHistory then pushed[1..] else pushed;
    UpdateState(h.(undoStack := trimmed, redoStack := []))
  }

  /** `undo()` on the stacks: the most recent command moves to the redo stack;
      nothing happens when there is none. */
  function Undo<C>(h: History<C>): (r: History<C>)
    ensures |h.undoStack| == 0 ==> r == h
    ensures |h.undoStack| > 0 ==>
      && r.undoStack + [h.undoStack[|h.undoStack| - 1]] == h.undoStack
      && r.redoStack == h.redoStack + [h.undoStack[|h.undoStack| - 1]]
    ensures r.maxHistory == h.maxHistory
    ensures Valid(h) ==> Valid(r)
  {
    if |h.undoStack| > 0 then
      var n := |h.undoStack|;
      UpdateState(h.(undoStack := h.undoStack[..n - 1], redoStack := h.redoStack + [h.undoStack[n - 1]]))
    else h
  }

  /** `redo()` on the stacks: the most recently undone command `c'` (the
      command after its re-execution) goes back on the undo stack, with no
      capacity check; nothing happens when the redo stack is empty. */
  function Redo<C>(h: History<C>, c': C): (r: History<C>)
    ensures |h.redoStack| == 0 ==> r == h
    ensures |h.redoStack| > 0 ==>
      && r.redoStack + [h.redoStack[|h.redoStack| - 1]] == h.redoStack
      && r.undoStack == h.undoStack + [c']
    ensures r.maxHistory == h.maxHistory
    ensures Valid(h) ==> Valid(r)
  {
    if |h.redoStack| > 0 then
      var n := |h.redoStack|;
      UpdateState(h.(undoStack := h.undoStack + [c'], redoStack := h.redoStack[..n - 1]))
    else h
  }

  /** `clear()`: both stacks emptied. */
  function Clear<C>(h: History<C>): (r: History<C>)
    ensures Valid(r) && !r.canUndo && !r.canRedo && r.maxHistory == h.maxHistory
  {
    UpdateState(h.(undoStack := [], redoStack := []))
  }

  /** The command `redo()` would re-execute. */
  function NextRedo<C>(h: History<C>): C
    requires |h.redoStack| > 0
  {
    h.redoStack[|h.redoStack| - 1]
  }

  /** Executing several commands in turn. */
  function ExecuteAll<C>(h: History<C>, cs: seq<C>): History<C>
    decreases |cs|
  {
    if |cs| == 0 then h else ExecuteAll(Execute(h, cs[0]), cs[1..])
  }

  /** However many commands run, the undo stack holds the most recent
      `maxHistory` of them (with what it held before), oldest first, and the
      redo stack is empty once any has run. */
  lemma {:induction false} ExecuteAllKeepsWindow<C>(h: History<C>, cs: seq<C>)
    requires Valid(h)
    ensures Valid(ExecuteAll(h, cs))
    ensures ExecuteAll(h, cs).undoStack == Window(h.undoStack + cs, Capacity(h.maxHistory))
    ensures |cs| > 0 ==> ExecuteAll(h, cs).redoStack == []
    decreases |cs|
  {
    if |cs| == 0 {
      assert h.undoStack + cs == h.undoStack;
    } else {
      var k := Capacity(h.maxHistory);
      var h1 := Execute(h, cs[0]);
      assert Valid(h1) && h1.maxHistory == h.maxHistory && h1.redoStack == [];
      assert h1.undoStack == Window(h.undoStack + [cs[0]], k);
      ExecuteAllKeepsWindow(h1, cs[1..]);
      var r := ExecuteAll(h1, cs[1..]);
      assert ExecuteAll(h, cs) == r;
      WindowConcat(h.undoStack + [cs[0]], cs[1..], k);
      AppendSplit(h.undoStack, cs);
      assert r.undoStack == Window(h.undoStack + cs, k);
      if |cs| == 1 {
        assert r == h1;
      }
    }
  }

  lemma AppendSplit<C>(a: seq<C>, cs: seq<C>)
    requires |cs| > 0
    ensures a + [cs[0]] + cs[1..] == a + cs
  {
    assert cs == [cs[0]] + cs[1..];
  }

  /** The last `k` elements of a suffix that still has `k` of them are the
      last `k` elements of the whole sequence. */
  lemma WindowSuffix<C>(s: seq<C>, j: nat, k: nat)
    requires j <= |s| && k <= |s| - j
    ensures Window(s[j..], k) == Window(s, k)
  {
    assert s[j..][|s| - j - k..] == s[|s| - k..];
  }

  lemma WindowConcat<C>(s: seq<C>, t: seq<C>, k: nat)
    ensures Window(Window(s, k) + t, k) == Window(s + t, k)
  {
    if |s| > k {
      assert Window(s, k) + t == (s + t)[|s| - k..];
      WindowSuffix(s + t, |s| - k, k);
    }
  }

  /** Undoing and then redoing the same command gives back the history. */
  lemma RedoAfterUndo<C>(h: History<C>)
    requires Valid(h) && |h.undoStack| > 0
    ensures Redo(Undo(h), NextRedo(Undo(h))) == h
  {
    var n := |h.undoStack|;
    assert h.undoStack[..n - 1] + [h.undoStack[n - 1]] == h.undoStack;
  }

  /** Redoing and then undoing gives back the history, when the re-executed
      command is recorded as it was. */
  lemma UndoAfterRedo<C>(h: History<C>)
    requires Valid(h) && |h.redoStack| > 0
    ensures Undo(Redo(h, NextRedo(h))) == h
  {
    var n := |h.redoStack|;
    assert h.redoStack[..n - 1] + [h.redoStack[n - 1]] == h.redoStack;
  }

  /** A command run after an undo makes the undone command unreachable. */
  lemma ExecuteForgetsRedo<C>(h: History<C>, c: C)
    requires Valid(h) && |h.undoStack| > 0
    ensures |Undo(h).redoStack| > 0
    ensures Execute(Undo(h), c).redoStack == [] && !Execute(Undo(h), c).canRedo
  {
  }

  /** Once the undo stack is full, running one more command loses the oldest. */
  lemma ExecuteWhenFull<C>(h: History<C>, c: C)
    requires Valid(h) && |h.undoStack| == h.maxHistory && h.maxHistory > 0
    ensures Execute(h, c).undoStack == h.undoStack[1..] + [c]
    ensures Undo(Execute(h, c)).undoStack == h.undoStack[1..]
  {
  }

  /** Below capacity, running a command and undoing it gives back the undo stack. */
  lemma ExecuteThenUndo<C>(h: History<C>, c: C)
    requires Valid(h) && |h.undoStack| < h.maxHistory
    ensures Undo(Execute(h, c)).undoStack == h.undoStack
    ensures Undo(Execute(h, c)).redoStack == [c]
  {
    assert (h.undoStack + [c])[..|h.undoStack|] == h.undoStack;
  }
}
