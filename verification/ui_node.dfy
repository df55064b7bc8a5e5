/** The flattened view of the tree the editor screens render: one row per
    visible node, plus an "add" row closing every expanded container, with the
    text search that filters the rows. */
module UiNodes {
  import opened Wrappers
  import Text
  import opened EditorModels
  import opened TreeEdits
  import opened EditorLogic

  /** `NodeKeyInfo`: the key text and entry of a map value, or the index of a list item. */
  datatype KeyInfo = MapKey(key: string, entryId: nat) | ListIndex(index: int)

  /** `NodeUiItem`. A node row's id is that of the entry holding the node when
      it is a map value, otherwise the node's own; an add row's id is
      `"<container id>_add"`, which `containerId` stands for. */
  datatype NodeUiItem =
    | UiNode(rowId: nat, node: EditableNode, keyInfo: Option<KeyInfo>, level: int, mapId: Option<nat>)
    | UiAddAction(containerId: nat, level: int)
  {
    function Level(): int {
      match this
      case UiNode(_, _, _, level, _) => level
      case UiAddAction(_, level) => level
    }
  }

  predicate ExpandedContainer(n: EditableNode) {
    (n.EditableList? || n.EditableMap?) && n.isExpanded
  }

  /** The row `flattenTree` emits for the node itself. */
  function HeadRow(n: EditableNode, keyInfo: Option<KeyInfo>, level: int): (r: NodeUiItem)
    ensures r.UiNode? && r.node == n && r.keyInfo == keyInfo && r.Level() == level
    ensures n.parent.InEntry? ==> r.rowId == n.parent.entryId && r.mapId == Some(n.parent.mapId)
    ensures !n.parent.InEntry? ==> r.rowId == n.id && r.mapId == None
  {
    match n.parent
    case InEntry(e, m) => UiNode(e, n, keyInfo, level, Some(m))
    case _ => UiNode(n.id, n, keyInfo, level, None)
  }

  /** `flattenTree(node, keyInfo, level)`: the node's row, then, for an
      expanded container, its children's rows one level deeper and an add
      row. */
  function Flatten(n: EditableNode, keyInfo: Option<KeyInfo>, level: int): (r: seq<NodeUiItem>)
    ensures |r| >= 1 && r[0] == HeadRow(n, keyInfo, level)
    ensures forall k :: 1 <= k < |r| ==> r[k].Level() > level
    ensures !ExpandedContainer(n) ==> |r| == 1
    ensures ExpandedContainer(n) ==> |r| >= 2 && r[|r| - 1] == UiAddAction(n.id, level + 1)
    decreases n
  {
    var head := HeadRow(n, keyInfo, level);
    match n
    case EditableList(id, _, items, expanded) =>
      if expanded then [head] + FlattenItems(items, 0, level + 1) + [UiAddAction(id, level + 1)] else [head]
    case EditableMap(id, _, entries, expanded) =>
      if expanded then [head] + FlattenEntries(entries, level + 1) + [UiAddAction(id, level + 1)] else [head]
    case _ => [head]
  }

  /** The rows of list items `s`, the first of which has index `offset`. */
  function FlattenItems(s: seq<EditableNode>, offset: nat, level: int): (r: seq<NodeUiItem>)
    ensures forall k :: 0 <= k < |r| ==> r[k].Level() >= level
    decreases s
  {
    if |s| == 0 then []
    else Flatten(s[0], Some(ListIndex(offset)), level) + FlattenItems(s[1..], offset + 1, level)
  }

  /** The rows of the values of map entries `s`, each keyed by its entry. */
  function FlattenEntries(s: seq<EditableMapEntry>, level: int): (r: seq<NodeUiItem>)
    ensures forall k :: 0 <= k < |r| ==> r[k].Level() >= level
    decreases s
  {
    if |s| == 0 then []
    else FlattenEntry(s[0], level) + FlattenEntries(s[1..], level)
  }

  function FlattenEntry(e: EditableMapEntry, level: int): (r: seq<NodeUiItem>)
    ensures forall k :: 0 <= k < |r| ==> r[k].Level() >= level
    decreases e
  {
    Flatten(e.value, Some(MapKey(e.key, e.id)), level)
  }

  /** Every child of an expanded container has its row one level deeper:
      a list item tagged with its index, a map value with its entry's key
      and id. */
  lemma ExpandedChildrenTagged(n: EditableNode, keyInfo: Option<KeyInfo>, level: int)
    requires ExpandedContainer(n)
    ensures n.EditableList? ==> forall k :: 0 <= k < |n.items| ==>
      HeadRow(n.items[k], Some(ListIndex(k)), level + 1) in Flatten(n, keyInfo, level)
    ensures n.EditableMap? ==> forall k :: 0 <= k < |n.entries| ==>
      HeadRow(n.entries[k].value, Some(MapKey(n.entries[k].key, n.entries[k].id)), level + 1) in Flatten(n, keyInfo, level)
  {
    if n.EditableList? {
      ItemHeadsShown(n.items, 0, level + 1);
    } else {
      EntryHeadsShown(n.entries, level + 1);
    }
  }

  lemma {:induction false} ItemHeadsShown(s: seq<EditableNode>, offset: nat, level: int)
    ensures forall k :: 0 <= k < |s| ==> HeadRow(s[k], Some(ListIndex(offset + k)), level) in FlattenItems(s, offset, level)
    decreases s
  {
    if |s| > 0 {
      ItemHeadsShown(s[1..], offset + 1, level);
      var first := Flatten(s[0], Some(ListIndex(offset)), level);
      var rest := FlattenItems(s[1..], offset + 1, level);
      forall k | 0 <= k < |s|
        ensures HeadRow(s[k], Some(ListIndex(offset + k)), level) in FlattenItems(s, offset, level)
      {
        if k == 0 {
          assert first[0] in first + rest;
        } else {
          assert s[1..][k - 1] == s[k];
          assert HeadRow(s[k], Some(ListIndex(offset + 1 + (k - 1))), level) in rest;
        }
      }
    }
  }

  lemma {:induction false} EntryHeadsShown(s: seq<EditableMapEntry>, level: int)
    ensures forall k :: 0 <= k < |s| ==>
      HeadRow(s[k].value, Some(MapKey(s[k].key, s[k].id)), level) in FlattenEntries(s, level)
    decreases s
  {
    if |s| > 0 {
      EntryHeadsShown(s[1..], level);
      var first := FlattenEntry(s[0], level);
      var rest := FlattenEntries(s[1..], level);
      forall k | 0 <= k < |s|
        ensures HeadRow(s[k].value, Some(MapKey(s[k].key, s[k].id)), level) in FlattenEntries(s, level)
      {
        if k == 0 {
          assert first[0] in first + rest;
        } else {
          assert s[1..][k - 1] == s[k];
        }
      }
    }
  }

  // --- Which nodes the rows show ---

  /** The ids of the nodes of a tree in pre-order, map entries left out. */
  function NodeIds(n: EditableNode): seq<nat>
    decreases n
  {
    match n
    case EditableList(id, _, items, _) => [id] + ItemNodeIds(items)
    case EditableMap(id, _, entries, _) => [id] + EntryNodeIds(entries)
    case _ => [n.id]
  }

  function ItemNodeIds(s: seq<EditableNode>): seq<nat>
    decreases s
  {
    if |s| == 0 then [] else NodeIds(s[0]) + ItemNodeIds(s[1..])
  }

  function EntryNodeIds(s: seq<EditableMapEntry>): seq<nat>
    decreases s
  {
    if |s| == 0 then [] else EntryValueIds(s[0]) + EntryNodeIds(s[1..])
  }

  function EntryValueIds(e: EditableMapEntry): seq<nat>
    decreases e
  {
    NodeIds(e.value)
  }

  /** The number of lists and maps in a tree. */
  function ContainerCount(n: EditableNode): nat
    decreases n
  {
    match n
    case EditableList(_, _, items, _) => 1 + ItemContainerCount(items)
    case EditableMap(_, _, entries, _) => 1 + EntryContainerCount(entries)
    case _ => 0
  }

  function ItemContainerCount(s: seq<EditableNode>): nat
    decreases s
  {
    if |s| == 0 then 0 else ContainerCount(s[0]) + ItemContainerCount(s[1..])
  }

  function EntryContainerCount(s: seq<EditableMapEntry>): nat
    decreases s
  {
    if |s| == 0 then 0 else EntryValueContainerCount(s[0]) + EntryContainerCount(s[1..])
  }

  function EntryValueContainerCount(e: EditableMapEntry): nat
    decreases e
  {
    ContainerCount(e.value)
  }

  /** The ids of the nodes the node rows show, in row order. */
  function ShownIds(rows: seq<NodeUiItem>): seq<nat> {
    if |rows| == 0 then []
    else (if rows[0].UiNode? then [rows[0].node.id] else []) + ShownIds(rows[1..])
  }

  /** The number of add rows. */
  function AddRows(rows: seq<NodeUiItem>): nat {
    if |rows| == 0 then 0
    else (if rows[0].UiAddAction? then 1 else 0) + AddRows(rows[1..])
  }

  lemma {:induction false} RowsConcat(a: seq<NodeUiItem>, b: seq<NodeUiItem>)
    ensures ShownIds(a + b) == ShownIds(a) + ShownIds(b)
    ensures AddRows(a + b) == AddRows(a) + AddRows(b)
    decreases |a|
  {
    if |a| > 0 {
      RowsConcat(a[1..], b);
      assert (a + b)[1..] == a[1..] + b;
    } else {
      assert a + b == b;
    }
  }

  /** Every row is a node row or an add row. */
  lemma {:induction false} RowsPartition(rows: seq<NodeUiItem>)
    ensures |rows| == |ShownIds(rows)| + AddRows(rows)
    decreases |rows|
  {
    if |rows| > 0 {
      RowsPartition(rows[1..]);
    }
  }

  /** With every container expanded, the node rows show every node of the
      tree exactly once and in document order, and there is one add row per
      container. */
  lemma {:induction false} FlattenExpandedShowsAll(n: EditableNode, keyInfo: Option<KeyInfo>, level: int)
    requires AllExpandedAs(n, true)
    ensures ShownIds(Flatten(n, keyInfo, level)) == NodeIds(n)
    ensures AddRows(Flatten(n, keyInfo, level)) == ContainerCount(n)
    ensures |Flatten(n, keyInfo, level)| == |NodeIds(n)| + ContainerCount(n)
    decreases n
  {
    var r := Flatten(n, keyInfo, level);
    var head := HeadRow(n, keyInfo, level);
    RowsPartition(r);
    match n
    case EditableList(id, _, items, _) =>
      var mid := FlattenItems(items, 0, level + 1);
      FlattenItemsExpanded(items, 0, level + 1);
      RowsConcat([head], mid);
      RowsConcat([head] + mid, [UiAddAction(id, level + 1)]);
    case EditableMap(id, _, entries, _) =>
      var mid := FlattenEntries(entries, level + 1);
      FlattenEntriesExpanded(entries, level + 1);
      RowsConcat([head], mid);
      RowsConcat([head] + mid, [UiAddAction(id, level + 1)]);
    case _ =>
  }

  lemma {:induction false} FlattenItemsExpanded(s: seq<EditableNode>, offset: nat, level: int)
    requires forall k :: 0 <= k < |s| ==> AllExpandedAs(s[k], true)
    ensures ShownIds(FlattenItems(s, offset, level)) == ItemNodeIds(s)
    ensures AddRows(FlattenItems(s, offset, level)) == ItemContainerCount(s)
    decreases s
  {
    if |s| > 0 {
      FlattenExpandedShowsAll(s[0], Some(ListIndex(offset)), level);
      FlattenItemsExpanded(s[1..], offset + 1, level);
      RowsConcat(Flatten(s[0], Some(ListIndex(offset)), level), FlattenItems(s[1..], offset + 1, level));
    }
  }

  lemma {:induction false} FlattenEntriesExpanded(s: seq<EditableMapEntry>, level: int)
    requires forall k :: 0 <= k < |s| ==> EntryAllExpandedAs(s[k], true)
    ensures ShownIds(FlattenEntries(s, level)) == EntryNodeIds(s)
    ensures AddRows(FlattenEntries(s, level)) == EntryContainerCount(s)
    decreases s
  {
    if |s| > 0 {
      FlattenExpandedShowsAll(s[0].value, Some(MapKey(s[0].key, s[0].id)), level);
      FlattenEntriesExpanded(s[1..], level);
      RowsConcat(FlattenEntry(s[0], level), FlattenEntries(s[1..], level));
    }
  }

  /** Collapsing everything (`setAllExpanded(root, false)`) leaves the root's
      row alone; expanding everything shows every node and one add row per
      container. */
  lemma ExpandCollapseRows(n: EditableNode)
    ensures Flatten(SetAllExpanded(n, false), None, 0) == [HeadRow(SetAllExpanded(n, false), None, 0)]
    ensures |Flatten(SetAllExpanded(n, true), None, 0)| == |NodeIds(SetAllExpanded(n, true))| + ContainerCount(SetAllExpanded(n, true))
  {
    FlattenExpandedShowsAll(SetAllExpanded(n, true), None, 0);
  }

  // --- Rows of a partly expanded tree ---

  /** The ids of the nodes that have a row: a node, then, when it is an
      expanded container, the visible nodes of its children in order; the
      children of a collapsed container are hidden. */
  function VisibleIds(n: EditableNode): seq<nat>
    decreases n
  {
    match n
    case EditableList(id, _, items, ex) => [id] + (if ex then ItemVisibleIds(items) else [])
    case EditableMap(id, _, entries, ex) => [id] + (if ex then EntryVisibleIds(entries) else [])
    case _ => [n.id]
  }

  function ItemVisibleIds(s: seq<EditableNode>): seq<nat>
    decreases s
  {
    if |s| == 0 then [] else VisibleIds(s[0]) + ItemVisibleIds(s[1..])
  }

  function EntryVisibleIds(s: seq<EditableMapEntry>): seq<nat>
    decreases s
  {
    if |s| == 0 then [] else EntryValueVisibleIds(s[0]) + EntryVisibleIds(s[1..])
  }

  function EntryValueVisibleIds(e: EditableMapEntry): seq<nat>
    decreases e
  {
    VisibleIds(e.value)
  }

  /** The number of expanded containers that have a row. */
  function OpenContainers(n: EditableNode): nat
    decreases n
  {
    match n
    case EditableList(_, _, items, ex) => if ex then 1 + ItemOpenContainers(items) else 0
    case EditableMap(_, _, entries, ex) => if ex then 1 + EntryOpenContainers(entries) else 0
    case _ => 0
  }

  function ItemOpenContainers(s: seq<EditableNode>): nat
    decreases s
  {
    if |s| == 0 then 0 else OpenContainers(s[0]) + ItemOpenContainers(s[1..])
  }

  function EntryOpenContainers(s: seq<EditableMapEntry>): nat
    decreases s
  {
    if |s| == 0 then 0 else EntryValueOpenContainers(s[0]) + EntryOpenContainers(s[1..])
  }

  function EntryValueOpenContainers(e: EditableMapEntry): nat
    decreases e
  {
    OpenContainers(e.value)
  }

  /** Whatever is expanded, the node rows show exactly the visible nodes, in
      pre-order, and there is one add row per expanded container that has a
      row. */
  lemma {:induction false} FlattenShowsVisible(n: EditableNode, keyInfo: Option<KeyInfo>, level: int)
    ensures ShownIds(Flatten(n, keyInfo, level)) == VisibleIds(n)
    ensures AddRows(Flatten(n, keyInfo, level)) == OpenContainers(n)
    ensures |Flatten(n, keyInfo, level)| == |VisibleIds(n)| + OpenContainers(n)
    decreases n
  {
    var r := Flatten(n, keyInfo, level);
    var head := HeadRow(n, keyInfo, level);
    RowsPartition(r);
    match n
    case EditableList(id, _, items, ex) =>
      if ex {
        var mid := FlattenItems(items, 0, level + 1);
        FlattenItemsVisible(items, 0, level + 1);
        RowsConcat([head], mid);
        RowsConcat([head] + mid, [UiAddAction(id, level + 1)]);
      }
    case EditableMap(id, _, entries, ex) =>
      if ex {
        var mid := FlattenEntries(entries, level + 1);
        FlattenEntriesVisible(entries, level + 1);
        RowsConcat([head], mid);
        RowsConcat([head] + mid, [UiAddAction(id, level + 1)]);
      }
    case _ =>
  }

  lemma {:induction false} FlattenItemsVisible(s: seq<EditableNode>, offset: nat, level: int)
    ensures ShownIds(FlattenItems(s, offset, level)) == ItemVisibleIds(s)
    ensures AddRows(FlattenItems(s, offset, level)) == ItemOpenContainers(s)
    decreases s
  {
    if |s| > 0 {
      FlattenShowsVisible(s[0], Some(ListIndex(offset)), level);
      FlattenItemsVisible(s[1..], offset + 1, level);
      RowsConcat(Flatten(s[0], Some(ListIndex(offset)), level), FlattenItems(s[1..], offset + 1, level));
    }
  }

  lemma {:induction false} FlattenEntriesVisible(s: seq<EditableMapEntry>, level: int)
    ensures ShownIds(FlattenEntries(s, level)) == EntryVisibleIds(s)
    ensures AddRows(FlattenEntries(s, level)) == EntryOpenContainers(s)
    decreases s
  {
    if |s| > 0 {
      FlattenShowsVisible(s[0].value, Some(MapKey(s[0].key, s[0].id)), level);
      FlattenEntriesVisible(s[1..], level);
      RowsConcat(FlattenEntry(s[0], level), FlattenEntries(s[1..], level));
    }
  }

  // --- Expanding and collapsing ---

  /** The arrow of a container's row: flips whether a list or map is expanded. */
  function ToggleExpanded(n: EditableNode): (r: EditableNode)
    ensures r.id == n.id && r.parent == n.parent && Ids(r) == Ids(n)
    ensures (n.EditableList? || n.EditableMap?) ==> ExpandedContainer(r) == !ExpandedContainer(n)
    ensures !(n.EditableList? || n.EditableMap?) ==> r == n
  {
    match n
    case EditableList(id, p, items, ex) => EditableList(id, p, items, !ex)
    case EditableMap(id, p, entries, ex) => EditableMap(id, p, entries, !ex)
    case _ => n
  }

  /** `q` is `p` with the block `x` at position `i` replaced by the block `y`. */
  predicate SplitAt(p: seq<nat>, q: seq<nat>, x: seq<nat>, y: seq<nat>, i: nat) {
    && i + |x| <= |p| && i + |y| <= |q|
    && p[..i] == q[..i] && p[i..i + |x|] == x && q[i..i + |y|] == y
    && p[i + |x|..] == q[i + |y|..]
  }

  ghost predicate Spliced(p: seq<nat>, q: seq<nat>, x: seq<nat>, y: seq<nat>) {
    exists i: nat :: SplitAt(p, q, x, y, i)
  }

  lemma SplicedWhole(x: seq<nat>, y: seq<nat>)
    ensures Spliced(x, y, x, y)
  {
    assert SplitAt(x, y, x, y, 0);
  }

  lemma SplicedCons(h: seq<nat>, p: seq<nat>, q: seq<nat>, x: seq<nat>, y: seq<nat>)
    requires Spliced(p, q, x, y)
    ensures Spliced(h + p, h + q, x, y)
  {
    var i: nat :| SplitAt(p, q, x, y, i);
    var j := |h| + i;
    assert (h + p)[..j] == h + p[..i] && (h + q)[..j] == h + q[..i];
    assert (h + p)[j..j + |x|] == p[i..i + |x|] && (h + q)[j..j + |y|] == q[i..i + |y|];
    assert (h + p)[j + |x|..] == p[i + |x|..] && (h + q)[j + |y|..] == q[i + |y|..];
    assert SplitAt(h + p, h + q, x, y, j);
  }

  lemma SplicedSnoc(p: seq<nat>, q: seq<nat>, x: seq<nat>, y: seq<nat>, t: seq<nat>)
    requires Spliced(p, q, x, y)
    ensures Spliced(p + t, q + t, x, y)
  {
    var i: nat :| SplitAt(p, q, x, y, i);
    assert (p + t)[..i] == p[..i] && (q + t)[..i] == q[..i];
    assert (p + t)[i..i + |x|] == p[i..i + |x|] && (q + t)[i..i + |y|] == q[i..i + |y|];
    assert (p + t)[i + |x|..] == p[i + |x|..] + t && (q + t)[i + |y|..] == q[i + |y|..] + t;
    assert SplitAt(p + t, q + t, x, y, i);
  }

  /** Writing a node in place of the one `Find` names changes the visible
      nodes only there: either that node is hidden and nothing visible
      changes, or its block of visible nodes gives way to the new node's. */
  lemma {:induction false} PutVisible(n: EditableNode, c: nat, v: EditableNode)
    requires Find(n, c).Some? && v.id == c
    ensures || VisibleIds(Put(n, c, v)) == VisibleIds(n)
            || Spliced(VisibleIds(n), VisibleIds(Put(n, c, v)), VisibleIds(Find(n, c).value), VisibleIds(v))
    decreases n, 1
  {
    if n.id == c {
      SplicedWhole(VisibleIds(n), VisibleIds(v));
    } else {
      PutVisibleBelow(n, c, v);
    }
  }

  lemma {:induction false} PutVisibleBelow(n: EditableNode, c: nat, v: EditableNode)
    requires Find(n, c).Some? && v.id == c && n.id != c
    ensures || VisibleIds(Put(n, c, v)) == VisibleIds(n)
            || Spliced(VisibleIds(n), VisibleIds(Put(n, c, v)), VisibleIds(Find(n, c).value), VisibleIds(v))
    decreases n, 0
  {
    var m := Put(n, c, v);
    var x := Find(n, c).value;
    if n.EditableList? && n.isExpanded {
      var a := ItemVisibleIds(n.items);
      var b := ItemVisibleIds(PutItems(n.items, c, v));
      assert x == FindItems(n.items, c).value;
      assert VisibleIds(n) == [n.id] + a && VisibleIds(m) == [n.id] + b;
      PutItemsVisible(n.items, c, v);
      if a != b {
        SplicedCons([n.id], a, b, VisibleIds(x), VisibleIds(v));
      }
    } else if n.EditableMap? && n.isExpanded {
      var a := EntryVisibleIds(n.entries);
      var b := EntryVisibleIds(PutEntries(n.entries, c, v));
      assert x == FindEntries(n.entries, c).value;
      assert VisibleIds(n) == [n.id] + a && VisibleIds(m) == [n.id] + b;
      PutEntriesVisible(n.entries, c, v);
      if a != b {
        SplicedCons([n.id], a, b, VisibleIds(x), VisibleIds(v));
      }
    }
  }

  lemma {:induction false} PutItemsVisible(s: seq<EditableNode>, c: nat, v: EditableNode)
    requires FindItems(s, c).Some? && v.id == c
    ensures || ItemVisibleIds(PutItems(s, c, v)) == ItemVisibleIds(s)
            || Spliced(ItemVisibleIds(s), ItemVisibleIds(PutItems(s, c, v)), VisibleIds(FindItems(s, c).value), VisibleIds(v))
    decreases s
  {
    var r := PutItems(s, c, v);
    var x := VisibleIds(FindItems(s, c).value);
    if Find(s[0], c).Some? {
      var a := VisibleIds(s[0]);
      var b := VisibleIds(Put(s[0], c, v));
      var t := ItemVisibleIds(s[1..]);
      assert r == [Put(s[0], c, v)] + s[1..];
      assert r[0] == Put(s[0], c, v) && r[1..] == s[1..];
      assert ItemVisibleIds(s) == a + t;
      assert ItemVisibleIds(r) == b + t;
      PutVisible(s[0], c, v);
      if a != b {
        SplicedSnoc(a, b, x, VisibleIds(v), t);
      }
    } else {
      var h := VisibleIds(s[0]);
      var a := ItemVisibleIds(s[1..]);
      var b := ItemVisibleIds(PutItems(s[1..], c, v));
      assert r == [s[0]] + PutItems(s[1..], c, v);
      assert r[0] == s[0] && r[1..] == PutItems(s[1..], c, v);
      assert ItemVisibleIds(s) == h + a;
      assert ItemVisibleIds(r) == h + b;
      PutItemsVisible(s[1..], c, v);
      if a != b {
        SplicedCons(h, a, b, x, VisibleIds(v));
      }
    }
  }

  lemma {:induction false} PutEntriesVisible(s: seq<EditableMapEntry>, c: nat, v: EditableNode)
    requires FindEntries(s, c).Some? && v.id == c
    ensures || EntryVisibleIds(PutEntries(s, c, v)) == EntryVisibleIds(s)
            || Spliced(EntryVisibleIds(s), EntryVisibleIds(PutEntries(s, c, v)), VisibleIds(FindEntries(s, c).value), VisibleIds(v))
    decreases s
  {
    var r := PutEntries(s, c, v);
    var x := VisibleIds(FindEntries(s, c).value);
    if FindEntry(s[0], c).Some? {
      var a := VisibleIds(s[0].value);
      var b := VisibleIds(Put(s[0].value, c, v));
      var t := EntryVisibleIds(s[1..]);
      assert r == [PutEntry(s[0], c, v)] + s[1..];
      assert r[0].value == Put(s[0].value, c, v) && r[1..] == s[1..];
      assert EntryValueVisibleIds(r[0]) == b;
      assert EntryVisibleIds(s) == a + t;
      assert EntryVisibleIds(r) == b + t;
      PutVisible(s[0].value, c, v);
      if a != b {
        SplicedSnoc(a, b, x, VisibleIds(v), t);
      }
    } else {
      var h := VisibleIds(s[0].value);
      var a := EntryVisibleIds(s[1..]);
      var b := EntryVisibleIds(PutEntries(s[1..], c, v));
      assert r == [s[0]] + PutEntries(s[1..], c, v);
      assert r[0] == s[0] && r[1..] == PutEntries(s[1..], c, v);
      assert EntryVisibleIds(s) == h + a;
      assert EntryVisibleIds(r) == h + b;
      PutEntriesVisible(s[1..], c, v);
      if a != b {
        SplicedCons(h, a, b, x, VisibleIds(v));
      }
    }
  }

  /** Collapsing an expanded container takes the rows of everything below it
      off the screen and nothing else: its block of visible nodes shrinks to
      its own id, or, when it was hidden anyway, nothing visible changes. */
  lemma CollapseHidesSubtree(n: EditableNode, c: nat)
    requires Find(n, c).Some? && ExpandedContainer(Find(n, c).value)
    ensures var x := Find(n, c).value;
      var m := Put(n, c, ToggleExpanded(x));
      && ShownIds(Flatten(m, None, 0)) == VisibleIds(m)
      && (VisibleIds(m) == VisibleIds(n) || Spliced(VisibleIds(n), VisibleIds(m), VisibleIds(x), [c]))
  {
    var x := Find(n, c).value;
    FindIds(n, c);
    assert VisibleIds(ToggleExpanded(x)) == [c];
    FlattenShowsVisible(Put(n, c, ToggleExpanded(x)), None, 0);
    PutVisible(n, c, ToggleExpanded(x));
  }

  /** Expanding a collapsed container brings back the rows below it: its own
      id gives way to its whole block of visible nodes, unless it is hidden. */
  lemma ExpandShowsSubtree(n: EditableNode, c: nat)
    requires Find(n, c).Some? && (Find(n, c).value.EditableList? || Find(n, c).value.EditableMap?)
    requires !Find(n, c).value.isExpanded
    ensures var x := Find(n, c).value;
      var m := Put(n, c, ToggleExpanded(x));
      VisibleIds(m) == VisibleIds(n) || Spliced(VisibleIds(n), VisibleIds(m), [c], VisibleIds(ToggleExpanded(x)))
  {
    var x := Find(n, c).value;
    FindIds(n, c);
    assert VisibleIds(x) == [c];
    PutVisible(n, c, ToggleExpanded(x));
  }

  // --- Search ---

  /** `UiNode.matches(query)`: a blank query matches every node row; otherwise
      the row's map key or its scalar text must contain the query, ignoring
      case. */
  predicate Matches(item: NodeUiItem, query: string)
    requires item.UiNode?
  {
    || Text.IsBlank(query)
    || (item.keyInfo.Some? && item.keyInfo.value.MapKey? && Text.ContainsIgnoreCase(item.keyInfo.value.key, query))
    || (item.node.EditableScalar? && Text.ContainsIgnoreCase(item.node.text, query))
  }

  /** The search does not care about the query's case. */
  lemma MatchesIgnoresQueryCase(item: NodeUiItem, q1: string, q2: string)
    requires item.UiNode? && Text.EqualsIgnoreCase(q1, q2)
    ensures Matches(item, q1) <==> Matches(item, q2)
  {
    Text.BlankIgnoresCase(q1, q2);
    if item.keyInfo.Some? && item.keyInfo.value.MapKey? {
      Text.ContainsIgnoresQueryCase(item.keyInfo.value.key, q1, q2);
    }
    if item.node.EditableScalar? {
      Text.ContainsIgnoresQueryCase(item.node.text, q1, q2);
    }
  }

  /** A row whose scalar text or map key holds the query literally, at some
      position, matches it. */
  lemma MatchesOccurrence(item: NodeUiItem, query: string, at: nat)
    requires item.UiNode?
    requires || (item.node.EditableScalar? && at + |query| <= |item.node.text|
                 && item.node.text[at..at + |query|] == query)
             || (item.keyInfo.Some? && item.keyInfo.value.MapKey? && at + |query| <= |item.keyInfo.value.key|
                 && item.keyInfo.value.key[at..at + |query|] == query)
    ensures Matches(item, query)
  {
    if item.node.EditableScalar? && at + |query| <= |item.node.text| && item.node.text[at..at + |query|] == query {
      assert Text.RegionMatches(item.node.text, at, query);
    } else {
      assert Text.RegionMatches(item.keyInfo.value.key, at, query);
    }
  }

  /** A list, map or null row without a map key never matches a query that
      is not blank: only keys and scalar texts are searched. */
  lemma KeylessNonScalarNeverMatches(item: NodeUiItem, query: string)
    requires item.UiNode? && !item.node.EditableScalar?
    requires item.keyInfo.None? || item.keyInfo.value.ListIndex?
    ensures Matches(item, query) <==> Text.IsBlank(query)
  {
  }

  /** The rows the editor displays for `query`: all of them for the empty
      query, otherwise the node rows that match (add rows are never shown
      while searching). */
  function DisplayItems(rows: seq<NodeUiItem>, query: string): (r: seq<NodeUiItem>)
    ensures |query| == 0 ==> r == rows
    ensures |query| > 0 ==> forall x :: x in r <==> x in rows && x.UiNode? && Matches(x, query)
    ensures |r| <= |rows|
  {
    if |query| == 0 then rows else MatchingRows(rows, query)
  }

  function MatchingRows(rows: seq<NodeUiItem>, query: string): (r: seq<NodeUiItem>)
    ensures forall x :: x in r <==> x in rows && x.UiNode? && Matches(x, query)
    ensures |r| <= |rows|
  {
    if |rows| == 0 then []
    else
      var rest := MatchingRows(rows[1..], query);
      assert forall x :: x in rows <==> x == rows[0] || x in rows[1..];
      if rows[0].UiNode? && Matches(rows[0], query) then [rows[0]] + rest else rest
  }

  /** The search filters row by row: the rows shown for a concatenation are
      the rows shown for each part, in order, and a single row is shown
      exactly when it is a node row that matches. Together these say the
      result is the subsequence of matching node rows. */
  lemma {:induction false} MatchingRowsFilter(a: seq<NodeUiItem>, b: seq<NodeUiItem>, query: string)
    ensures MatchingRows(a + b, query) == MatchingRows(a, query) + MatchingRows(b, query)
    ensures forall x :: MatchingRows([x], query) == if x.UiNode? && Matches(x, query) then [x] else []
    decreases |a|
  {
    if |a| == 0 {
      assert a + b == b;
    } else {
      assert (a + b)[1..] == a[1..] + b;
      MatchingRowsFilter(a[1..], b, query);
    }
    forall x
      ensures MatchingRows([x], query) == if x.UiNode? && Matches(x, query) then [x] else []
    {
      assert [x][1..] == [];
    }
  }

  /** A query of spaces hides the add rows but keeps every node row: `matches`
      treats it as blank while the screen only skips filtering for the empty
      query. */
  lemma {:induction false} BlankQueryHidesAddRows(rows: seq<NodeUiItem>, query: string)
    requires |query| > 0 && Text.IsBlank(query)
    ensures DisplayItems(rows, query) == NodeRows(rows)
    decreases |rows|
  {
    if |rows| > 0 {
      BlankQueryHidesAddRows(rows[1..], query);
    }
  }

  /** The node rows, in order. */
  function NodeRows(rows: seq<NodeUiItem>): (r: seq<NodeUiItem>)
    ensures forall x :: x in r ==> x.UiNode?
  {
    if |rows| == 0 then []
    else (if rows[0].UiNode? then [rows[0]] else []) + NodeRows(rows[1..])
  }

  // --- Row actions ---

  /** The `onDelete` of a node row. */
  function OnDelete(item: NodeUiItem): (c: Command)
    requires item.UiNode?
    ensures c.RemoveNodeCommand? && c.node == item.node
  {
    RemoveNodeCommand(item.node, NoContainer)
  }

  /** The `onAdd(type)` of an add row. */
  function OnAdd(item: NodeUiItem, t: NodeType): (c: Command)
    requires item.UiAddAction?
    ensures c.AddItemCommand? && c.parentId == item.containerId && c.nodeType == t
  {
    AddItemCommand(item.containerId, t, None)
  }
}
