# kwebconverter editor core in Dafny

This project models the editable-tree engine of kwebconverter, a Kotlin web
editor for YAML and JSON configuration files. It proves what the engine
promises. The modelled parts are:

- **The node model.** An editable document is a tree of scalars (text plus a
  String, Number or Boolean tag), nulls, lists and maps. A map owns entry
  slots that carry a key and a value. Every node points back to its owner.
  The model covers `replaceChild` on each container, deep `clone` and
  `duplicateKeys`.
- **The command engine.** `CommandManager` is a bounded undo/redo history.
  The five reversible commands are add, remove, insert, move and replace. The
  helpers are the node factory, the unique key generator and
  `setAllExpanded`.
- **The tree flattener.** It turns the tree into the rows the screen shows.
  The search predicate filters those rows.
- **The library-tree mappers.** They map between the editable tree and the
  YAML and JSON trees of the parsing libraries. This includes scalar type
  inference on reading, type coercion on writing, and the format dispatch of
  `parseFile` and `serialize`.
- **File formats.** Formats are chosen from file extensions. The dashboard's
  file list supports append and remove.

Kotlin object identity is modelled by natural-number ids. A counter stands in
for the UUIDs the program draws. A parent link names its owner by id. The
model is functional: a command maps a document to a new document, together
with the record its Kotlin object keeps for `undo`.

The library text parsers and encoders are parameters. So are the runtime's
double parsing and printing. `String.toLongOrNull` is modelled for ASCII
digits, as listed under "Left out".

Modules, one per file except the two consistency modules, which share one:

| module | contents |
|---|---|
| `Wrappers`, `Seqs`, `Text` | `Option` and `Result`; list operations (`indexOf`, `add(i, x)`, `removeAt`, `coerceIn`); the Kotlin string rules used |
| `EditorModels` | node datatypes, `replaceChild`, `clone`, `duplicateKeys` |
| `TreeEdits` | finding a node by id and replacing it in the tree |
| `EditorLogic` | factory, key generator, `setAllExpanded`, the commands' `execute` and `undo` |
| `CommandLaws` | what each command does and that `undo` reverts it |
| `CommandManager` | the undo and redo stacks |
| `EditorSession` | a document and a history driven together |
| `Consistency`, `ConsistentUndo` | the document invariant (ids below the counter, children linked to their owners, no id twice) and that execute and undo keep it |
| `RedoLaws` | redo right after undo gives back the first execution's tree, up to fresh ids |
| `RedoReuse` | the corrected redo, which puts back the nodes the first execution created (see "Findings") |
| `UiNodes` | `flattenTree`, `matches`, the screen's row filter and row actions |
| `RowLaws` | what the rows' delete and add actions do to the document |
| `LibraryTrees` | the YAML and JSON library trees and Kotlin's `associate` |
| `NodeMappers` | library tree to editable tree, in both applications |
| `NodeSerializer` | editable tree to library tree, `serialize`, the round trips |
| `FileParser` | `parseFile` |
| `FileFormats` | extension to format, the dashboard's file list |

The JSON mappers, as the code is written:

- The web converter's JSON mapper gives every non-string primitive that is
  not the literal `true` or `false` the Number type.
- For a non-string primitive, the scalar's text is `toString()`, which is
  the primitive's content. The model uses the content for both branches.
- The config editor's mapper reads booleans with the serialization library's
  case-insensitive `booleanOrNull`.

## Model

| member | source | states |
|---|---|---|
| EditorModels.ListReplaceChild | composeApp/src/webMain/kotlin/cc/worldmandia/kwebconverter/model/EditorModels.kt:58-61 | the first item with the old id is overwritten in place; the length and every other item are unchanged; nothing changes when the old id is absent |
| EditorModels.ListReplaceChildUndo | composeApp/src/webMain/kotlin/cc/worldmandia/kwebconverter/model/EditorModels.kt:58-61 | replacing an item and then replacing the replacement by the original gives back the list, when the replacement's id is new to the list |
| EditorModels.EntryReplaceChild | composeApp/src/webMain/kotlin/cc/worldmandia/kwebconverter/model/EditorModels.kt:82-84 | the entry's value is swapped only when it is the old node; the entry's id, key and map stay |
| EditorModels.RootReplaceChild | composeApp/src/webMain/kotlin/cc/worldmandia/kwebconverter/model/EditorModels.kt:120-122 | the root node is swapped only when it is the old node |
| EditorModels.Clone | composeApp/src/webMain/kotlin/cc/worldmandia/kwebconverter/model/EditorModels.kt:37-67 | the copy has the same content (texts, tags, keys, order), fresh ids in pre-order, the given parent, every child linked to its new owner, containers expanded and multi-line flags taken from the text |
| EditorModels.CloneEntry | composeApp/src/webMain/kotlin/cc/worldmandia/kwebconverter/model/EditorModels.kt:86-90 | a copied entry keeps its key, gets a fresh id and owns a copy of the value linked to the new entry and map |
| EditorModels.CloneEntries | composeApp/src/webMain/kotlin/cc/worldmandia/kwebconverter/model/EditorModels.kt:111-115 | a map's entries are copied in order, each linked to the new map, with consecutive fresh ids |
| EditorModels.DuplicateKeys | composeApp/src/webMain/kotlin/cc/worldmandia/kwebconverter/model/EditorModels.kt:102-107 | a key is reported exactly when two different entries carry it; the set is empty exactly when the keys are distinct |
| EditorLogic.Create | composeApp/src/webMain/kotlin/cc/worldmandia/kwebconverter/logic/EditorLogic.kt:195-206 | a node of the requested type with the given id and parent, no children, and expanded when it is a container |
| EditorLogic.GenerateKey | composeApp/src/webMain/kotlin/cc/worldmandia/kwebconverter/logic/EditorLogic.kt:208-219 | the result is no existing key; it is the base when the base is free, otherwise base_n for the least n >= 1 not taken |
| EditorLogic.GenerateFrom | composeApp/src/webMain/kotlin/cc/worldmandia/kwebconverter/logic/EditorLogic.kt:213-216 | the probe loop stops at the first counter n, from the starting one on, whose probe base_n is free; every earlier probe is taken |
| EditorLogic.ReplaceAt | composeApp/src/webMain/kotlin/cc/worldmandia/kwebconverter/model/EditorModels.kt:109 | a node owned directly by a map is never replaced, because the map's `replaceChild` does nothing; no replacement draws an id |
| EditorLogic.SetAllExpanded | composeApp/src/webMain/kotlin/cc/worldmandia/kwebconverter/logic/EditorLogic.kt:221-235 | every list and map in the tree gets the flag; content, ids, types and parent links are unchanged |
| EditorLogic.MoveInList | composeApp/src/webMain/kotlin/cc/worldmandia/kwebconverter/logic/EditorLogic.kt:165-175 | the item swaps with the neighbour above or below when that index exists; otherwise, or when the item is absent, nothing changes |
| EditorLogic.RemoveFrom | composeApp/src/webMain/kotlin/cc/worldmandia/kwebconverter/logic/EditorLogic.kt:109-128 | a list child is recorded as the node itself at the first index of its id among the items; a map value is recorded through the entry holding it, at that entry's first index; no container of the right kind gives no removal, and a container without the child gives the missing case |
| EditorLogic.RemoveAppendedItem | composeApp/src/webMain/kotlin/cc/worldmandia/kwebconverter/logic/EditorLogic.kt:95-97 | removing the node just appended to a list gives back the items |
| EditorLogic.RemoveAppendedEntry | composeApp/src/webMain/kotlin/cc/worldmandia/kwebconverter/logic/EditorLogic.kt:95-98 | removing the entry just appended to a map gives back the entries |
| EditorLogic.Build | config-editor/src/commonMain/kotlin/cc/worldmandia/kwebutils/presentation/feature/editor/components/EditorComponents.kt:627-655 | the factory's node wraps a copy of the displaced node in a new list, or in a new map under the key "change_key", with fresh ids, linked children and the given parent |
| CommandLaws.AddItemToList | composeApp/src/webMain/kotlin/cc/worldmandia/kwebconverter/logic/EditorLogic.kt:69-76 | adding to a list appends one default node with a fresh id and expands the list; undo removes exactly that node and leaves the list expanded, so the document is back whenever the list was already expanded |
| CommandLaws.AddItemToMap | composeApp/src/webMain/kotlin/cc/worldmandia/kwebconverter/logic/EditorLogic.kt:78-89 | adding to a map appends one entry under a key no other entry has, so the duplicate keys do not change; undo removes exactly that entry and leaves the map expanded |
| CommandLaws.AddToMapUndo | composeApp/src/webMain/kotlin/cc/worldmandia/kwebconverter/logic/EditorLogic.kt:78-100 | adding to a map appends the new entry under a generated key and expands the map, drawing two ids; undo takes the entry out and leaves the map expanded |
| CommandLaws.AppendFreshKey | composeApp/src/webMain/kotlin/cc/worldmandia/kwebconverter/logic/EditorLogic.kt:79-86 | appending an entry under a new key leaves the duplicate-key set as it was |
| CommandLaws.RemoveNodeUndo | composeApp/src/webMain/kotlin/cc/worldmandia/kwebconverter/logic/EditorLogic.kt:104-136 | removing a node that is among its container's children takes exactly that node out of its list, or exactly its entry out of its map, draws no id, and undoing gives back the document |
| CommandLaws.ReattachDetachedItem | composeApp/src/webMain/kotlin/cc/worldmandia/kwebconverter/logic/EditorLogic.kt:111-115 | taking the item at an index out of a list and adding it back at that index restores the document |
| CommandLaws.ReattachDetachedEntry | composeApp/src/webMain/kotlin/cc/worldmandia/kwebconverter/logic/EditorLogic.kt:117-133 | taking the entry at an index out of a map and adding it back at that index restores the document |
| CommandLaws.RemoveMissingFails | composeApp/src/webMain/kotlin/cc/worldmandia/kwebconverter/logic/EditorLogic.kt:111-132 | a node missing from its list leaves the document unchanged, and undo fails adding at index -1 |
| CommandLaws.InsertListUndo | composeApp/src/webMain/kotlin/cc/worldmandia/kwebconverter/logic/EditorLogic.kt:139-154 | an empty String scalar with a fresh id lands at the index clamped to 0..size, the other items keep their order around it, and undo removes exactly it |
| CommandLaws.MoveInListBack | composeApp/src/webMain/kotlin/cc/worldmandia/kwebconverter/logic/EditorLogic.kt:165-175 | in a list with distinct ids, a move that happens puts the item on the neighbouring index, and the opposite move restores the list |
| CommandLaws.MoveUndo | composeApp/src/webMain/kotlin/cc/worldmandia/kwebconverter/logic/EditorLogic.kt:156-176 | when the move happens, undoing it restores the document |
| CommandLaws.MoveUpAtTopUndoMovesDown | composeApp/src/webMain/kotlin/cc/worldmandia/kwebconverter/logic/EditorLogic.kt:161-175 | moving the first item up changes nothing, yet undoing that no-op swaps the first two items |
| CommandLaws.ReplaceInListBack | composeApp/src/webMain/kotlin/cc/worldmandia/kwebconverter/model/EditorModels.kt:58-61 | replacing a list item, then replacing its replacement by it, restores the document |
| CommandLaws.ReplaceInEntryBack | composeApp/src/webMain/kotlin/cc/worldmandia/kwebconverter/model/EditorModels.kt:82-84 | replacing a map value, then replacing its replacement by it, restores the document |
| CommandLaws.ReplaceNodeUndo | composeApp/src/webMain/kotlin/cc/worldmandia/kwebconverter/logic/EditorLogic.kt:178-191 | the new node sits where the old node was and wraps a copy of it; undo puts the old node back and restores the tree |
| CommandManager.NewHistory | composeApp/src/webMain/kotlin/cc/worldmandia/kwebconverter/logic/EditorLogic.kt:14-20 | a fresh manager has empty stacks and both flags false |
| CommandManager.Execute | composeApp/src/webMain/kotlin/cc/worldmandia/kwebconverter/logic/EditorLogic.kt:22-28 | the command is pushed and the oldest one is dropped beyond maxHistory; the redo stack is emptied; flags match the stacks |
| CommandManager.Undo | composeApp/src/webMain/kotlin/cc/worldmandia/kwebconverter/logic/EditorLogic.kt:30-37 | on an empty undo stack nothing changes; otherwise the top command moves to the redo stack |
| CommandManager.Redo | composeApp/src/webMain/kotlin/cc/worldmandia/kwebconverter/logic/EditorLogic.kt:45-52 | on an empty redo stack nothing changes; otherwise the top command goes back on the undo stack, with no capacity check |
| CommandManager.Clear | composeApp/src/webMain/kotlin/cc/worldmandia/kwebconverter/logic/EditorLogic.kt:39-43 | both stacks are emptied and both flags are false |
| CommandManager.ExecuteAllKeepsWindow | composeApp/src/webMain/kotlin/cc/worldmandia/kwebconverter/logic/EditorLogic.kt:22-28 | after any number of commands the undo stack holds the most recent maxHistory of them, oldest first, and never more |
| CommandManager.RedoAfterUndo | composeApp/src/webMain/kotlin/cc/worldmandia/kwebconverter/logic/EditorLogic.kt:30-52 | undo followed by redo gives back the history |
| CommandManager.UndoAfterRedo | composeApp/src/webMain/kotlin/cc/worldmandia/kwebconverter/logic/EditorLogic.kt:30-52 | redo followed by undo gives back the history |
| CommandManager.ExecuteForgetsRedo | composeApp/src/webMain/kotlin/cc/worldmandia/kwebconverter/logic/EditorLogic.kt:26-27 | a command run after an undo leaves nothing to redo |
| CommandManager.ExecuteWhenFull | composeApp/src/webMain/kotlin/cc/worldmandia/kwebconverter/logic/EditorLogic.kt:24-25 | with a full undo stack, one more command drops the oldest |
| CommandManager.ExecuteThenUndo | composeApp/src/webMain/kotlin/cc/worldmandia/kwebconverter/logic/EditorLogic.kt:22-37 | below capacity, running a command and undoing it gives back the undo stack and leaves that command to redo |
| EditorSession.UndoUndoesRun | composeApp/src/webMain/kotlin/cc/worldmandia/kwebconverter/logic/EditorLogic.kt:22-37 | undo right after running a command undoes that command and leaves it ready to redo |
| EditorSession.NoUndoWithoutHistory | composeApp/src/webMain/kotlin/cc/worldmandia/kwebconverter/logic/EditorLogic.kt:24-25 | with maxHistory 0 the command is dropped at once and undo does nothing |
| EditorSession.RemoveThenUndo | composeApp/src/webMain/kotlin/cc/worldmandia/kwebconverter/logic/EditorLogic.kt:104-136 | through the manager, removing a present node and undoing gives back the document |
| EditorSession.ReplaceThenUndo | composeApp/src/webMain/kotlin/cc/worldmandia/kwebconverter/logic/EditorLogic.kt:178-191 | through the manager, wrapping a node and undoing gives back the tree |
| EditorSession.RedoAfterUndoShape | composeApp/src/webMain/kotlin/cc/worldmandia/kwebconverter/logic/EditorLogic.kt:30-52 | on a consistent document, run, undo and redo through the manager give a tree with the same content as the run gave, whatever the command |
| RedoLaws.RedoAgainShape | composeApp/src/webMain/kotlin/cc/worldmandia/kwebconverter/logic/EditorLogic.kt:62-191 | executing a command, undoing it and executing the recorded command again gives a tree with the same content as the first execution, for each of the five commands |
| EditorSession.ChainRedoKeepsItem | composeApp/src/webMain/kotlin/cc/worldmandia/kwebconverter/logic/EditorLogic.kt:45-114 | adding a string to an empty list, removing it, undoing both and redoing both leaves the list holding a new string, where the two runs left it empty |
| RedoReuse.RedoExact | composeApp/src/webMain/kotlin/cc/worldmandia/kwebconverter/logic/EditorLogic.kt:45-52 | with the corrected redo, executing, undoing and redoing any command on a consistent document gives back exactly the first execution's document and record |
| EditorSession.RedoReusingAfterUndo | composeApp/src/webMain/kotlin/cc/worldmandia/kwebconverter/logic/EditorLogic.kt:30-52 | with the corrected redo, run, undo and redo through the manager give back the whole editor the run gave |
| EditorSession.ChainRedoReusingRestores | composeApp/src/webMain/kotlin/cc/worldmandia/kwebconverter/logic/EditorLogic.kt:30-52 | with the corrected redo, the add-and-remove chain above comes back to the editor the two runs gave |
| RedoLaws.AddRedoList | composeApp/src/webMain/kotlin/cc/worldmandia/kwebconverter/logic/EditorLogic.kt:68-100 | redoing an add to a list appends a default node of the same type again; the tree differs from the first add only in that node's id |
| RedoLaws.AddRedoMap | composeApp/src/webMain/kotlin/cc/worldmandia/kwebconverter/logic/EditorLogic.kt:78-100 | redoing an add to a map appends an entry under the same generated key again, since undo leaves the keys as they were |
| RedoLaws.InsertRedo | composeApp/src/webMain/kotlin/cc/worldmandia/kwebconverter/logic/EditorLogic.kt:139-154 | redoing an insert puts an empty String scalar at the same clamped index again |
| RedoLaws.MoveRedo | composeApp/src/webMain/kotlin/cc/worldmandia/kwebconverter/logic/EditorLogic.kt:156-176 | move, opposite move, move gives exactly the document of the first move, also when the first move is blocked at an end of the list |
| RedoLaws.ReplaceRedo | composeApp/src/webMain/kotlin/cc/worldmandia/kwebconverter/logic/EditorLogic.kt:178-191 | redoing a wrap builds the same wrapper around the same node again, with new ids; when the node was gone nothing changes at all |
| RedoLaws.ShapeReplaceAt | composeApp/src/webMain/kotlin/cc/worldmandia/kwebconverter/model/EditorModels.kt:58-61 | putting either of two nodes with the same content in place of a child gives trees with the same content |
| RedoLaws.CreateShape | composeApp/src/webMain/kotlin/cc/worldmandia/kwebconverter/logic/EditorLogic.kt:195-206 | the factory's default node has the same content whatever its id and parent |
| Consistency.ExecuteConsistent | composeApp/src/webMain/kotlin/cc/worldmandia/kwebconverter/logic/EditorLogic.kt:62-191 | every command's execute keeps the document consistent: ids below the counter, every child linked to its owner, no id twice |
| ConsistentUndo.UndoConsistent | composeApp/src/webMain/kotlin/cc/worldmandia/kwebconverter/logic/EditorLogic.kt:95-191 | undo right after execute, when it succeeds, gives a consistent document again |
| Consistency.PutConsistent | composeApp/src/webMain/kotlin/cc/worldmandia/kwebconverter/model/EditorModels.kt:58-61 | writing a node in place of another keeps the document consistent when it is linked like the old one and brings no id twice except ids fresh from the counter |
| ConsistentUndo.ReplaceAbsent | composeApp/src/webMain/kotlin/cc/worldmandia/kwebconverter/model/EditorModels.kt:58-61 | replacing a child its container does not hold changes nothing |
| ConsistentUndo.FreshAbsent | composeApp/src/webMain/kotlin/cc/worldmandia/kwebconverter/model/EditorModels.kt:58-61 | no container of a consistent document holds a child with the next id the counter will draw |
| UiNodes.HeadRow | config-editor/src/commonMain/kotlin/cc/worldmandia/kwebutils/presentation/feature/editor/model/UiNode.kt:48-60 | a node's row has the node, its key info and level; its id is the entry's id and it names the map when the node is a map value, otherwise it has the node's own id |
| UiNodes.Flatten | config-editor/src/commonMain/kotlin/cc/worldmandia/kwebutils/presentation/feature/editor/model/UiNode.kt:41-78 | the node's own row comes first, all later rows are deeper, a non-container or collapsed container yields one row, and an expanded container ends with its add row one level deeper |
| UiNodes.ExpandedChildrenTagged | config-editor/src/commonMain/kotlin/cc/worldmandia/kwebutils/presentation/feature/editor/model/UiNode.kt:62-75 | each list item's row is tagged with its index, and each map value's row with its entry's key and id, one level deeper |
| UiNodes.FlattenExpandedShowsAll | config-editor/src/commonMain/kotlin/cc/worldmandia/kwebutils/presentation/feature/editor/model/UiNode.kt:41-78 | in a fully expanded tree every node has exactly one row, in pre-order, plus one add row per container |
| UiNodes.FlattenShowsVisible | config-editor/src/commonMain/kotlin/cc/worldmandia/kwebutils/presentation/feature/editor/model/UiNode.kt:41-78 | whatever is expanded, the node rows show the visible nodes in pre-order, descending only into expanded containers, with one add row per expanded container shown, and nothing else |
| UiNodes.ToggleExpanded | composeApp/src/webMain/kotlin/cc/worldmandia/kwebconverter/ui/EditorComponents.kt:193-194 | the arrow flips a list's or a map's expanded flag and changes nothing else; other nodes are left as they are |
| UiNodes.PutVisible | config-editor/src/commonMain/kotlin/cc/worldmandia/kwebutils/presentation/feature/editor/model/UiNode.kt:62-76 | writing a node in place of another changes the visible nodes only in the old node's block, which gives way to the new node's block, or not at all when the old node was hidden |
| UiNodes.CollapseHidesSubtree | config-editor/src/commonMain/kotlin/cc/worldmandia/kwebutils/presentation/feature/editor/model/UiNode.kt:62-76 | collapsing an expanded container removes the rows of exactly the nodes below it: its block of visible nodes shrinks to its own id, and the rows shown are the visible nodes |
| UiNodes.ExpandShowsSubtree | config-editor/src/commonMain/kotlin/cc/worldmandia/kwebutils/presentation/feature/editor/model/UiNode.kt:62-76 | expanding a collapsed container brings back its whole block of visible nodes in place of its own id |
| UiNodes.ExpandCollapseRows | composeApp/src/webMain/kotlin/cc/worldmandia/kwebconverter/logic/EditorLogic.kt:221-235 | after collapsing everything the tree shows one row; after expanding everything it shows all nodes plus one add row per container |
| UiNodes.MatchesIgnoresQueryCase | config-editor/src/commonMain/kotlin/cc/worldmandia/kwebutils/presentation/feature/editor/model/UiNode.kt:27-32 | two queries equal up to case match the same rows |
| UiNodes.MatchesOccurrence | config-editor/src/commonMain/kotlin/cc/worldmandia/kwebutils/presentation/feature/editor/model/UiNode.kt:27-32 | a row whose scalar text or map key holds the query literally at some position matches it |
| UiNodes.KeylessNonScalarNeverMatches | config-editor/src/commonMain/kotlin/cc/worldmandia/kwebutils/presentation/feature/editor/model/UiNode.kt:27-32 | a list, map or null row with no map key matches only a blank query |
| UiNodes.DisplayItems | composeApp/src/webMain/kotlin/cc/worldmandia/kwebconverter/compose/FileEditorScreen.kt:73-86 | the empty query shows every row; otherwise exactly the node rows that match are shown, add rows never |
| UiNodes.MatchingRowsFilter | composeApp/src/webMain/kotlin/cc/worldmandia/kwebconverter/compose/FileEditorScreen.kt:73-86 | the search goes row by row: the rows shown for two parts are those of each part, in order, and one row is shown exactly when it is a matching node row; so the result is the subsequence of matching node rows |
| UiNodes.BlankQueryHidesAddRows | composeApp/src/webMain/kotlin/cc/worldmandia/kwebconverter/compose/FileEditorScreen.kt:73-86 | a query of spaces hides the add rows and keeps every node row |
| RowLaws.RowsPresent | config-editor/src/commonMain/kotlin/cc/worldmandia/kwebutils/presentation/feature/editor/model/UiNode.kt:41-78 | in a consistent document, every node row below the root shows a node its container holds, and every add row names an expanded list or map of the document |
| RowLaws.FlattenHeld | config-editor/src/commonMain/kotlin/cc/worldmandia/kwebutils/presentation/feature/editor/model/UiNode.kt:41-78 | each row below a node's own row shows a child held by its container, or the add row of an expanded list or map, inside that node |
| RowLaws.DeleteRowUndo | config-editor/src/commonMain/kotlin/cc/worldmandia/kwebutils/presentation/feature/editor/model/UiNode.kt:51-60 | a node row's delete takes exactly that node out of its list, or its entry out of its map, and undo gives back the document |
| RowLaws.AddRowAdds | config-editor/src/commonMain/kotlin/cc/worldmandia/kwebutils/presentation/feature/editor/model/UiNode.kt:62-76 | an add row's add appends a default node to the list, or an entry under a generated key to the map, the row names, and undo gives back the document with only the counter moved |
| LibraryTrees.Associate | composeApp/src/webMain/kotlin/cc/worldmandia/kwebconverter/EditorUtils.kt:155-157 | one pair per key survives, the key set is unchanged, each survivor is the last pair with its key, the survivors come in the order of their keys' first occurrences, and distinct keys pass through unchanged |
| NodeMappers.FromYaml | composeApp/src/webMain/kotlin/cc/worldmandia/kwebconverter/EditorUtils.kt:34-64 | the mapped tree has fresh ids in pre-order, the given parent, every child linked to its list or entry, and fresh display state |
| NodeMappers.YamlScalarType | composeApp/src/webMain/kotlin/cc/worldmandia/kwebconverter/EditorUtils.kt:37-41 | Boolean exactly when the lower-cased text is "true" or "false"; Number exactly when it is not and the text reads as a double; String otherwise |
| NodeMappers.FromYamlLeaves | composeApp/src/webMain/kotlin/cc/worldmandia/kwebconverter/EditorUtils.kt:36-62 | a YAML scalar keeps its text verbatim under the inferred type, YAML null becomes a null node with the given parent, and a tag wrapper maps as the node inside it |
| NodeMappers.FromYamlMembers | composeApp/src/webMain/kotlin/cc/worldmandia/kwebconverter/EditorUtils.kt:51-58 | map entries keep their keys and order, each linked to the new map |
| NodeMappers.FromJson | composeApp/src/webMain/kotlin/cc/worldmandia/kwebconverter/EditorUtils.kt:66-96 | the same structural guarantees for JSON trees |
| NodeMappers.FromJsonLeaves | composeApp/src/webMain/kotlin/cc/worldmandia/kwebconverter/EditorUtils.kt:66-96 | a primitive becomes a scalar with its content under the rule's type, JSON null a null node, an array a list of its elements mapped one by one in order, an object a map of its members mapped one by one with their keys |
| NodeMappers.FromJsonItemsElementwise | composeApp/src/webMain/kotlin/cc/worldmandia/kwebconverter/EditorUtils.kt:80-84 | each array element is mapped on its own, in order, under the new list |
| NodeMappers.FromJsonMembersElementwise | composeApp/src/webMain/kotlin/cc/worldmandia/kwebconverter/EditorUtils.kt:86-94 | each object member's value is mapped on its own, in order, under its new entry |
| NodeMappers.FromJsonMembers | composeApp/src/webMain/kotlin/cc/worldmandia/kwebconverter/EditorUtils.kt:86-94 | object members keep their keys and order, each linked to the new map |
| NodeMappers.JsonScalarType | config-editor/src/commonMain/kotlin/cc/worldmandia/kwebutils/presentation/feature/editor/mapper/NodeMappers.kt:52-57 | a string primitive is a String; Boolean exactly when the lower-cased content is "true" or "false"; otherwise Number exactly when it reads as a double or a 64-bit integer, and String when it reads as neither; under the web converter's rule only the exact texts "true" and "false" are Boolean and no non-string is a String |
| NodeMappers.FromAny | config-editor/src/commonMain/kotlin/cc/worldmandia/kwebutils/presentation/feature/editor/mapper/NodeMappers.kt:7-13 | whatever the value, the mapped tree has fresh ids in pre-order, the given parent and linked children; a value that is neither a YAML nor a JSON tree becomes a null node |
| NodeSerializer.ScalarToJson | composeApp/src/webMain/kotlin/cc/worldmandia/kwebconverter/EditorUtils.kt:165-176 | a Boolean is true exactly for the text "true" and false otherwise; a Number that reads as a 64-bit integer keeps that value; a String is a string primitive with the text |
| NodeSerializer.DefaultValues | composeApp/src/webMain/kotlin/cc/worldmandia/kwebconverter/logic/EditorLogic.kt:195-206 | the factory's defaults are written as the empty string, the integer 0, the boolean true, null, an empty list and an empty map, so each default scalar reads back as a value of its tag |
| NodeSerializer.ToJsonElement | composeApp/src/webMain/kotlin/cc/worldmandia/kwebconverter/EditorUtils.kt:163-186 | lists become arrays of the same length; maps become objects with distinct keys and the map's key set; nulls become JSON null |
| NodeSerializer.Serialize | composeApp/src/webMain/kotlin/cc/worldmandia/kwebconverter/EditorUtils.kt:124-144 | "Unknown" exactly for unsupported types; YAML goes to the YAML encoder, JSON5 and JSON to a JSON encoder |
| NodeSerializer.SerializeForClipboard | composeApp/src/webMain/kotlin/cc/worldmandia/kwebconverter/EditorUtils.kt:146-148 | the clipboard always gets the JSON5 output |
| NodeSerializer.YamlRoundTrip | composeApp/src/webMain/kotlin/cc/worldmandia/kwebconverter/EditorUtils.kt:34-64 | reading a YAML tree with distinct keys and writing it back gives the tree without tags |
| NodeSerializer.JsonRoundTrip | composeApp/src/webMain/kotlin/cc/worldmandia/kwebconverter/EditorUtils.kt:66-96 | reading a canonical JSON tree and writing it back gives the same tree |
| NodeSerializer.PrimitiveRulesAgree | config-editor/src/commonMain/kotlin/cc/worldmandia/kwebutils/presentation/feature/editor/mapper/NodeMappers.kt:49-58 | on a canonical primitive both applications infer the same type |
| NodeSerializer.JsonRulesAgree | config-editor/src/commonMain/kotlin/cc/worldmandia/kwebutils/presentation/feature/editor/mapper/NodeMappers.kt:47-77 | on canonical JSON the config editor's mapper builds the same tree as the web converter's |
| NodeSerializer.LenientQuotesUnreadable | config-editor/src/commonMain/kotlin/cc/worldmandia/kwebutils/presentation/feature/editor/mapper/NodeMappers.kt:52-57 | a non-string primitive that is neither boolean-like nor a number is read as a String and written back as a string |
| NodeSerializer.CaseVariantTrueBecomesFalse | composeApp/src/webMain/kotlin/cc/worldmandia/kwebconverter/EditorUtils.kt:36-42 | a YAML scalar such as "True" is typed Boolean but written to JSON as false |
| NodeSerializer.UnreadableNumberBecomesZero | composeApp/src/webMain/kotlin/cc/worldmandia/kwebconverter/EditorUtils.kt:169-173 | a Number whose text is neither an integer nor a double is written as 0.0 |
| NodeSerializer.DuplicateKeyLastWins | composeApp/src/webMain/kotlin/cc/worldmandia/kwebconverter/EditorUtils.kt:155-157 | of two entries with one key, the later one's value reaches the YAML map, and the earlier one's appears there only when it is the same |
| FileParser.ParseFile | composeApp/src/webMain/kotlin/cc/worldmandia/kwebconverter/EditorUtils.kt:16-29 | no content gives "File not found or cant read"; a type other than YAML or JSON5 gives "Cant parse file"; a parsed root has no parent and the document is consistent: links right, ids below the counter, no id twice |
| FileParser.ParseFailureMessage | composeApp/src/webMain/kotlin/cc/worldmandia/kwebconverter/EditorUtils.kt:26-27 | a parser failure is reported as "Failed to parse <type>: <message>" |
| FileParser.YamlOpenSave | composeApp/src/webMain/kotlin/cc/worldmandia/kwebconverter/EditorUtils.kt:15-30 | opening a YAML file with distinct keys and saving it as YAML gives back the parsed tree without tags |
| FileParser.Json5OpenSave | composeApp/src/webMain/kotlin/cc/worldmandia/kwebconverter/EditorUtils.kt:15-30 | opening a canonical JSON5 file and saving it as JSON5 gives back the parsed tree |
| FileFormats.ParserTypeOf | composeApp/src/webMain/kotlin/cc/worldmandia/kwebconverter/Utils.kt:7-11 | JSON5 exactly for "json", YAML exactly for "yaml" and "yml", never JSON, all else unsupported, with no case folding |
| FileFormats.FormatOf | composeApp/src/webMain/kotlin/cc/worldmandia/kwebconverter/presentation/feature/dashboard/DashboardViewModel.kt:29-33 | JSON5 exactly for "json", YAML exactly for "yaml" and "yml", never JSON |
| FileFormats.FormatAgreesWithParserType | composeApp/src/webMain/kotlin/cc/worldmandia/kwebconverter/presentation/feature/dashboard/DashboardViewModel.kt:28-33 | on a lower-cased extension the dashboard's format and the editor's parser type agree, and lower-casing twice changes nothing |
| FileFormats.UpperCaseExtensionDiffers | composeApp/src/webMain/kotlin/cc/worldmandia/kwebconverter/Utils.kt:7-10 | "JSON" is JSON5 on the dashboard but unsupported in the editor |
| FileFormats.Imported | composeApp/src/webMain/kotlin/cc/worldmandia/kwebconverter/presentation/feature/dashboard/DashboardViewModel.kt:25-45 | each readable file becomes a project file with a lower-cased extension, its format and its id; unreadable files are dropped |
| FileFormats.ImportedConcat | composeApp/src/webMain/kotlin/cc/worldmandia/kwebconverter/presentation/feature/dashboard/DashboardViewModel.kt:25-45 | the import goes file by file: the files made of two parts are those of each part, in order |
| FileFormats.ImportOneFile | composeApp/src/webMain/kotlin/cc/worldmandia/kwebconverter/presentation/feature/dashboard/DashboardViewModel.kt:25-45 | a readable file becomes exactly one project file, an unreadable one none |
| FileFormats.OnFilesSelected | composeApp/src/webMain/kotlin/cc/worldmandia/kwebconverter/presentation/feature/dashboard/DashboardViewModel.kt:23-48 | the new files come after the existing ones, which are unchanged |
| FileFormats.OnProjectFileSelected | composeApp/src/webMain/kotlin/cc/worldmandia/kwebconverter/presentation/feature/dashboard/DashboardViewModel.kt:51-66 | the given file is appended after the unchanged list, with only its format changed, to the one its lower-cased extension names |
| FileFormats.RemoveFile | composeApp/src/webMain/kotlin/cc/worldmandia/kwebconverter/presentation/feature/dashboard/DashboardViewModel.kt:68-70 | exactly the files with that id are gone; a list without it is unchanged |
| FileFormats.RemoveFileConcat | composeApp/src/webMain/kotlin/cc/worldmandia/kwebconverter/presentation/feature/dashboard/DashboardViewModel.kt:68-70 | removal goes file by file: removing from two parts removes from each, keeping the order |
| FileFormats.RemoveOneFile | composeApp/src/webMain/kotlin/cc/worldmandia/kwebconverter/presentation/feature/dashboard/DashboardViewModel.kt:68-70 | a single file is kept exactly when its id differs |
| FileFormats.RemoveFileIdempotent | composeApp/src/webMain/kotlin/cc/worldmandia/kwebconverter/presentation/feature/dashboard/DashboardViewModel.kt:68-70 | removing the same id twice is removing it once |
| FileFormats.RemoveAppended | composeApp/src/webMain/kotlin/cc/worldmandia/kwebconverter/presentation/feature/dashboard/DashboardViewModel.kt:61-70 | removing a freshly appended file by its id gives back the list |

## Left out

- Text rendering and encoding by kaml, Json5 and kotlinx-serialization are left out. A serialised document is modelled as the library tree handed to the encoder.
- Library parse errors are left out. The parsers are parameters that return a tree or an exception message. A null exception message is not modelled.
- Floating-point parsing and printing (`toDoubleOrNull`, the printed form of a double and of 0.0) are a parameter, `Text.DoubleSyntax`.
- `toLongOrNull` is modelled for ASCII digits only. Case folding (`equals(ignoreCase)`, `contains(ignoreCase)`, `lowercase`) is modelled for ASCII only.
- UUIDv7 ids are drawn from a counter. Kotlin first fills a new map entry with a placeholder `EditableNull` and then overwrites it with the real value. This happens in `AddItemCommand` (EditorLogic.kt:80-83), in the entry's `clone` (EditorModels.kt:86-87), in both library mappers (EditorUtils.kt:54 and 89) and in the wrap-in-map factory (config-editor EditorComponents.kt:647). None of these placeholders is modelled: each would only use up an id from the counter, and nothing can observe it. Ids inside strings are not modelled either, such as the add row's "<id>_add", which is a container id here.
- Focus and selection hints (`requestFocus`, `requestKeyFocus`, key text selection) are left out: they are transient view state.
- Compose snapshot state, coroutines, debounced autosave, drafts, downloads and the ViewModels are left out. The dashboard's file reading is a parameter: a picked file carries its content or nothing.
- The reorder commands and the Compose UI files are left out. The screen's row filter is modelled as `UiNodes.DisplayItems`, and the two wrap factories the menus pass as `EditorLogic.Factory`.
- `getNodePath` is left out: it only builds a display string for the UI.
- A command whose container is not in the document does nothing in this model. In Kotlin it would edit a detached object.
- CommandLaws.RemoveNodeUndo: it requires the node to be among its container's children. When it is not, the recorded index is -1 and Kotlin's undo throws; `CommandLaws.RemoveMissingFails` states that case for lists.
- CommandLaws.MoveUndo: it requires the item ids of the list to be distinct, as ids from the counter are.
- NodeSerializer.JsonRoundTrip: it holds for canonical trees only, meaning every non-string primitive is a boolean literal or a number in its printed form, and object keys are distinct.
- NodeSerializer.JsonRulesAgree: it additionally requires that no text read as a double is "true" or "false" in any case.
- UiNodes.ExpandedChildrenTagged: it states that each child's row is present with its tag, not the order of the rows; the order is stated by `UiNodes.FlattenExpandedShowsAll` through the ids in pre-order.
- EditorSession.UndoLast: when undoing throws, the model returns the failure and keeps no editor. Kotlin has by then popped the command from the undo stack, does not push it onto the redo stack, and leaves `canUndo` and `canRedo` as they were; that state is not modelled.
- EditorSession.RedoAfterUndoShape: it states that redo gives a tree with the same content, not the same document, because adding, inserting and wrapping draw new ids on redo. It covers one run, one undo and one redo. The law for several undos followed by as many redos does not hold as written: `EditorSession.ChainRedoKeepsItem` gives a two-command chain that breaks it (see "Findings").
- RedoReuse.RedoExact: the corrected redo is proved exact for one run, undo and redo, and for the two-command chain of `EditorSession.ChainRedoReusingRestores`; a chain of any length is not stated.
- RedoLaws.RedoAgainShape: it requires a consistent document, which `Consistency.ExecuteConsistent`, `ConsistentUndo.UndoConsistent` and `FileParser.ParseFile` provide.
- UiNodes.ToggleExpanded: Kotlin flips the flag on the node object in place; the model writes the flipped node back into the tree by id.
- The config editor's copy of the node model is not part of this model. Its flattener is modelled over the web converter's node model, which has the same fields.

## Findings

| source | as written | input that shows it | evidently intended | confidence | as-written member | corrected member |
|---|---|---|---|---|---|---|
| composeApp/src/webMain/kotlin/cc/worldmandia/kwebconverter/logic/EditorLogic.kt:45-52 | `redo()` calls `execute()` again, so `AddItemCommand`, `InsertListCommand` and `ReplaceNodeCommand` create new nodes. A `RemoveNodeCommand` redone later still holds the first node; `indexOf` gives -1 and nothing is removed (lines 106-114). | An empty list at the root. Add a String item, then remove that item. Undo twice, then redo twice. The list holds one new String item, but after the two runs it was empty. | Several undos followed by as many redos reproduce the tree the runs gave. Redo re-adds the very nodes the first execution created. | not executed | EditorSession.ChainRedoKeepsItem | RedoReuse.RedoExact |
