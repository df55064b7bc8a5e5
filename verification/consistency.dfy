/** The document invariant `Consistent` under the editor's commands: every
    command keeps it, and so does undoing the command just executed. The
    proofs count ids with multiplicity: a command's write trades the ids of the
    container it rewrites for those of the new version, and the new version
    may add only ids drawn fresh from the counter. */
module Consistency {
  import opened Wrappers
  import Seqs
  import opened EditorModels
  import opened TreeEdits
  import opened EditorLogic
  import opened CommandLaws

  // --- Ids of children under sequence edits ---

  lemma {:induction false} ItemIdsConcat(a: seq<EditableNode>, b: seq<EditableNode>)
    ensures ItemIds(a + b) == ItemIds(a) + ItemIds(b)
    decreases |a|
  {
    if |a| == 0 {
      assert a + b == b;
    } else {
      ItemIdsConcat(a[1..], b);
      assert (a + b)[0] == a[0] && (a + b)[1..] == a[1..] + b;
    }
  }

  lemma {:induction false} EntryIdsConcat(a: seq<EditableMapEntry>, b: seq<EditableMapEntry>)
    ensures EntryIds(a + b) == EntryIds(a) + EntryIds(b)
    decreases |a|
  {
    if |a| == 0 {
      assert a + b == b;
    } else {
      EntryIdsConcat(a[1..], b);
      assert (a + b)[0] == a[0] && (a + b)[1..] == a[1..] + b;
    }
  }

  lemma ItemIdsOne(x: EditableNode)
    ensures ItemIds([x]) == Ids(x)
  {
    assert [x][1..] == [];
  }

  lemma EntryIdsOne(e: EditableMapEntry)
    ensures EntryIds([e]) == EntryOwnIds(e)
  {
    assert [e][1..] == [];
  }

  /** Ids of `s[..i] + [x] + s[j..]`, piece by piece. */
  lemma ItemIdsSplice(s: seq<EditableNode>, i: nat, x: EditableNode, j: nat)
    requires i <= j <= |s|
    ensures ItemIds(s[..i] + [x] + s[j..]) == ItemIds(s[..i]) + Ids(x) + ItemIds(s[j..])
  {
    ItemIdsConcat(s[..i] + [x], s[j..]);
    ItemIdsConcat(s[..i], [x]);
    ItemIdsOne(x);
  }

  lemma EntryIdsSplice(s: seq<EditableMapEntry>, i: nat, x: EditableMapEntry, j: nat)
    requires i <= j <= |s|
    ensures EntryIds(s[..i] + [x] + s[j..]) == EntryIds(s[..i]) + EntryOwnIds(x) + EntryIds(s[j..])
  {
    EntryIdsConcat(s[..i] + [x], s[j..]);
    EntryIdsConcat(s[..i], [x]);
    EntryIdsOne(x);
  }

  /** Appending an item adds its ids. */
  lemma ItemsAppendCounts(s: seq<EditableNode>, x: EditableNode)
    ensures forall y :: multiset(ItemIds(s + [x]))[y] == multiset(ItemIds(s))[y] + multiset(Ids(x))[y]
  {
    ItemIdsConcat(s, [x]);
    ItemIdsOne(x);
  }

  lemma EntriesAppendCounts(s: seq<EditableMapEntry>, x: EditableMapEntry)
    ensures forall y :: multiset(EntryIds(s + [x]))[y] == multiset(EntryIds(s))[y] + multiset(EntryOwnIds(x))[y]
  {
    EntryIdsConcat(s, [x]);
    EntryIdsOne(x);
  }

  /** Replacing item `i` by `x` trades the ids of the one for those of the other. */
  lemma ItemsUpdateCounts(s: seq<EditableNode>, i: nat, x: EditableNode)
    requires i < |s|
    ensures forall y ::
      multiset(ItemIds(s[i := x]))[y] + multiset(Ids(s[i]))[y] == multiset(ItemIds(s))[y] + multiset(Ids(x))[y]
  {
    assert s[i := x] == s[..i] + [x] + s[i + 1..];
    assert s == s[..i] + [s[i]] + s[i + 1..];
    ItemIdsSplice(s, i, x, i + 1);
    ItemIdsSplice(s, i, s[i], i + 1);
  }

  lemma EntriesUpdateCounts(s: seq<EditableMapEntry>, i: nat, x: EditableMapEntry)
    requires i < |s|
    ensures forall y ::
      multiset(EntryIds(s[i := x]))[y] + multiset(EntryOwnIds(s[i]))[y]
        == multiset(EntryIds(s))[y] + multiset(EntryOwnIds(x))[y]
  {
    assert s[i := x] == s[..i] + [x] + s[i + 1..];
    assert s == s[..i] + [s[i]] + s[i + 1..];
    EntryIdsSplice(s, i, x, i + 1);
    EntryIdsSplice(s, i, s[i], i + 1);
  }

  /** Removing item `i` takes away exactly its ids. */
  lemma ItemsRemoveCounts(s: seq<EditableNode>, i: nat)
    requires i < |s|
    ensures forall y :: multiset(ItemIds(Seqs.RemoveAt(s, i)))[y] + multiset(Ids(s[i]))[y] == multiset(ItemIds(s))[y]
  {
    assert s == s[..i] + [s[i]] + s[i + 1..];
    ItemIdsSplice(s, i, s[i], i + 1);
    ItemIdsConcat(s[..i], s[i + 1..]);
  }

  lemma EntriesRemoveCounts(s: seq<EditableMapEntry>, i: nat)
    requires i < |s|
    ensures forall y ::
      multiset(EntryIds(Seqs.RemoveAt(s, i)))[y] + multiset(EntryOwnIds(s[i]))[y] == multiset(EntryIds(s))[y]
  {
    assert s == s[..i] + [s[i]] + s[i + 1..];
    EntryIdsSplice(s, i, s[i], i + 1);
    EntryIdsConcat(s[..i], s[i + 1..]);
  }

  /** Inserting `x` at `i` adds exactly its ids. */
  lemma ItemsInsertCounts(s: seq<EditableNode>, i: nat, x: EditableNode)
    requires i <= |s|
    ensures forall y :: multiset(ItemIds(Seqs.InsertAt(s, i, x)))[y] == multiset(ItemIds(s))[y] + multiset(Ids(x))[y]
  {
    assert s == s[..i] + s[i..];
    ItemIdsSplice(s, i, x, i);
    ItemIdsConcat(s[..i], s[i..]);
  }

  // --- Edits of a container's children ---

  /** Every item points to list `l` and is correctly linked inside. */
  predicate ItemsLinked(s: seq<EditableNode>, l: nat) {
    forall j :: 0 <= j < |s| ==> s[j].parent == InList(l) && Wired(s[j])
  }

  /** Every entry points to map `m` and is correctly linked inside. */
  predicate EntriesLinked(s: seq<EditableMapEntry>, m: nat) {
    forall j :: 0 <= j < |s| ==> EntryWired(s[j], m)
  }

  /** `a` carries no id more often than `b` does, except the ids in
      `lo .. hi - 1`, each at most once more. */
  ghost predicate FreshBound(a: seq<nat>, b: seq<nat>, lo: nat, hi: nat) {
    forall y :: multiset(a)[y] <= multiset(b)[y] + (if lo <= y < hi then 1 else 0)
  }

  /** A node with fresh ids `lo .. hi - 1`, each once, linked inside. */
  ghost predicate FreshNode(n: EditableNode, lo: nat, hi: nat) {
    && lo <= hi && Wired(n)
    && forall y :: multiset(Ids(n))[y] == if lo <= y < hi then 1 else 0
  }

  lemma AppendItemKeeps(s: seq<EditableNode>, n: EditableNode, l: nat, lo: nat)
    requires ItemsLinked(s, l) && n.parent == InList(l) && Wired(n) && Ids(n) == [lo]
    ensures ItemsLinked(s + [n], l) && FreshBound(ItemIds(s + [n]), ItemIds(s), lo, lo + 1)
  {
    var r := s + [n];
    forall j | 0 <= j < |r|
      ensures r[j].parent == InList(l) && Wired(r[j])
    {
      if j < |s| {
        assert r[j] == s[j];
      }
    }
    ItemsAppendCounts(s, n);
    forall y
      ensures multiset(ItemIds(r))[y] <= multiset(ItemIds(s))[y] + (if lo <= y < lo + 1 then 1 else 0)
    {
      assert multiset(Ids(n))[y] == if y == lo then 1 else 0;
    }
  }

  lemma AppendEntryKeeps(s: seq<EditableMapEntry>, e: EditableMapEntry, m: nat, lo: nat)
    requires EntriesLinked(s, m) && EntryWired(e, m) && EntryOwnIds(e) == [lo, lo + 1]
    ensures EntriesLinked(s + [e], m) && FreshBound(EntryIds(s + [e]), EntryIds(s), lo, lo + 2)
  {
    EntriesAppendCounts(s, e);
    assert forall j :: 0 <= j < |s| ==> (s + [e])[j] == s[j];
  }

  lemma RemoveItemKeeps(s: seq<EditableNode>, i: nat, l: nat, lo: nat)
    requires ItemsLinked(s, l) && i < |s|
    ensures ItemsLinked(Seqs.RemoveAt(s, i), l) && FreshBound(ItemIds(Seqs.RemoveAt(s, i)), ItemIds(s), lo, lo)
  {
    ItemsRemoveCounts(s, i);
  }

  lemma RemoveEntryKeeps(s: seq<EditableMapEntry>, i: nat, m: nat, lo: nat)
    requires EntriesLinked(s, m) && i < |s|
    ensures EntriesLinked(Seqs.RemoveAt(s, i), m) && FreshBound(EntryIds(Seqs.RemoveAt(s, i)), EntryIds(s), lo, lo)
  {
    EntriesRemoveCounts(s, i);
  }

  lemma InsertItemKeeps(s: seq<EditableNode>, i: nat, n: EditableNode, l: nat, lo: nat)
    requires ItemsLinked(s, l) && i <= |s| && n.parent == InList(l) && Wired(n) && Ids(n) == [lo]
    ensures ItemsLinked(Seqs.InsertAt(s, i, n), l) && FreshBound(ItemIds(Seqs.InsertAt(s, i, n)), ItemIds(s), lo, lo + 1)
  {
    var r := Seqs.InsertAt(s, i, n);
    forall j | 0 <= j < |r|
      ensures r[j].parent == InList(l) && Wired(r[j])
    {
      if j < i {
        assert r[j] == s[j];
      } else if j > i {
        assert r[j] == s[j - 1];
      }
    }
    ItemsInsertCounts(s, i, n);
    forall y
      ensures multiset(ItemIds(r))[y] <= multiset(ItemIds(s))[y] + (if lo <= y < lo + 1 then 1 else 0)
    {
      assert multiset(Ids(n))[y] == if y == lo then 1 else 0;
    }
  }

  lemma MoveItemKeeps(s: seq<EditableNode>, nodeId: nat, up: bool, l: nat, lo: nat)
    requires ItemsLinked(s, l)
    ensures ItemsLinked(MoveInList(s, nodeId, up), l) && FreshBound(ItemIds(MoveInList(s, nodeId, up)), ItemIds(s), lo, lo)
  {
    var r := MoveInList(s, nodeId, up);
    var i := Seqs.IndexOf(IdsOf(s), nodeId);
    var t := if up then i - 1 else i + 1;
    if i >= 0 && 0 <= t < |s| {
      var u := Seqs.RemoveAt(s, i);
      assert r == Seqs.InsertAt(u, t, s[i]);
      forall j | 0 <= j < |r|
        ensures r[j].parent == InList(l) && Wired(r[j])
      {
        if j == t {
          assert r[j] == s[i];
        } else if j == i {
          assert r[j] == s[t];
        } else {
          assert r[j] == s[j];
        }
      }
      ItemsRemoveCounts(s, i);
      ItemsInsertCounts(u, t, s[i]);
      forall y
        ensures multiset(ItemIds(r))[y] <= multiset(ItemIds(s))[y] + (if lo <= y < lo then 1 else 0)
      {
        assert multiset(ItemIds(r))[y] == multiset(ItemIds(u))[y] + multiset(Ids(s[i]))[y];
      }
    }
  }

  lemma ReplaceItemKeeps(s: seq<EditableNode>, oldId: nat, nn: EditableNode, l: nat, lo: nat, hi: nat)
    requires ItemsLinked(s, l) && nn.parent == InList(l) && FreshNode(nn, lo, hi)
    ensures ItemsLinked(ListReplaceChild(s, oldId, nn), l)
    ensures FreshBound(ItemIds(ListReplaceChild(s, oldId, nn)), ItemIds(s), lo, hi)
  {
    if oldId in IdsOf(s) {
      var i := Seqs.IndexOf(IdsOf(s), oldId);
      var r := s[i := nn];
      assert ListReplaceChild(s, oldId, nn) == r;
      forall j | 0 <= j < |r|
        ensures r[j].parent == InList(l) && Wired(r[j])
      {
        if j != i {
          assert r[j] == s[j];
        }
      }
      ItemsUpdateCounts(s, i, nn);
      forall y
        ensures multiset(ItemIds(r))[y] <= multiset(ItemIds(s))[y] + (if lo <= y < hi then 1 else 0)
      {
        assert multiset(Ids(nn))[y] == if lo <= y < hi then 1 else 0;
      }
    }
  }

  lemma ReplaceEntryKeeps(s: seq<EditableMapEntry>, k: nat, oldId: nat, nn: EditableNode, m: nat, lo: nat, hi: nat)
    requires EntriesLinked(s, m) && k < |s| && nn.parent == InEntry(s[k].id, m) && FreshNode(nn, lo, hi)
    ensures EntriesLinked(s[k := EntryReplaceChild(s[k], oldId, nn)], m)
    ensures FreshBound(EntryIds(s[k := EntryReplaceChild(s[k], oldId, nn)]), EntryIds(s), lo, hi)
  {
    var ne := EntryReplaceChild(s[k], oldId, nn);
    EntriesUpdateCounts(s, k, ne);
    assert EntryOwnIds(ne) == [ne.id] + Ids(ne.value);
    assert EntryOwnIds(s[k]) == [s[k].id] + Ids(s[k].value);
  }

  // --- A write that keeps the document consistent ---

  /** Writing `v` in place of the node with id `c` keeps the document
      consistent, with the counter raised to `k`, when `v` is linked like the
      node it replaces and correctly linked inside, and carries no id more
      often than that node did except ids drawn fresh from the counter, once. */
  lemma PutConsistent(d: Document, c: nat, v: EditableNode, k: nat)
    requires Consistent(d) && FindNode(d, c).Some?
    requires v.id == c && v.parent == FindNode(d, c).value.parent && Wired(v) && d.nextId <= k
    requires FreshBound(Ids(v), Ids(FindNode(d, c).value), d.nextId, k)
    ensures Consistent(PutNode(d, c, v).(nextId := k))
  {
    var n := d.root.rootNode;
    var n1 := Put(n, c, v);
    PutIdCounts(n, c, v);
    PutWired(n, c, v);
    Seqs.DistinctCounts(Ids(n));
    Seqs.DistinctCounts(Ids(n1));
    forall y
      ensures multiset(Ids(n1))[y] <= 1 && (y in Ids(n1) ==> y < k)
    {
      if y in Ids(n) {
        assert y < d.nextId;
      } else {
        assert multiset(Ids(n))[y] == 0;
      }
    }
  }

  /** Giving list `l` new items keeps the document consistent when the new
      items are linked to it and bounded in their ids. */
  lemma ListEditConsistent(d: Document, l: nat, s: seq<EditableNode>, expanded: bool, k: nat)
    requires Consistent(d) && FindNode(d, l).Some? && FindNode(d, l).value.EditableList? && d.nextId <= k
    requires ItemsLinked(s, l) && FreshBound(ItemIds(s), ItemIds(FindNode(d, l).value.items), d.nextId, k)
    ensures Consistent(PutNode(d, l, FindNode(d, l).value.(items := s, isExpanded := expanded)).(nextId := k))
  {
    var x := FindNode(d, l).value;
    var v := x.(items := s, isExpanded := expanded);
    assert Ids(v) == [l] + ItemIds(s);
    assert Ids(x) == [l] + ItemIds(x.items);
    PutConsistent(d, l, v, k);
  }

  lemma MapEditConsistent(d: Document, m: nat, s: seq<EditableMapEntry>, expanded: bool, k: nat)
    requires Consistent(d) && FindNode(d, m).Some? && FindNode(d, m).value.EditableMap? && d.nextId <= k
    requires EntriesLinked(s, m) && FreshBound(EntryIds(s), EntryIds(FindNode(d, m).value.entries), d.nextId, k)
    ensures Consistent(PutNode(d, m, FindNode(d, m).value.(entries := s, isExpanded := expanded)).(nextId := k))
  {
    var x := FindNode(d, m).value;
    var v := x.(entries := s, isExpanded := expanded);
    assert Ids(v) == [m] + EntryIds(s);
    assert Ids(x) == [m] + EntryIds(x.entries);
    PutConsistent(d, m, v, k);
  }

  /** The children of a list or map found in a consistent document are linked to it. */
  lemma FoundChildrenLinked(d: Document, c: nat)
    requires Consistent(d) && FindNode(d, c).Some?
    ensures var x := FindNode(d, c).value;
      && (x.EditableList? ==> ItemsLinked(x.items, c))
      && (x.EditableMap? ==> EntriesLinked(x.entries, c))
  {
    FindWired(d.root.rootNode, c);
  }

  // --- Every command keeps the document consistent ---

  /** `execute` of any command keeps the document consistent. */
  lemma ExecuteConsistent(d: Document, cmd: Command)
    requires Consistent(d)
    ensures Consistent(ExecuteCommand(d, cmd).doc)
  {
    match cmd
    case AddItemCommand(p, t, added) => AddItemConsistent(d, p, t, added);
    case RemoveNodeCommand(node, removal) => RemoveNodeConsistent(d, node, removal);
    case InsertListCommand(l, index, inserted) => InsertListConsistent(d, l, index, inserted);
    case MoveItemCommand(l, nodeId, up) => MoveConsistent(d, l, nodeId, up);
    case ReplaceNodeCommand(oldNode, f, replaced) => ReplaceNodeConsistent(d, oldNode, f, replaced);
  }

  lemma AddItemConsistent(d: Document, p: nat, t: NodeType, added: Option<nat>)
    requires Consistent(d)
    ensures Consistent(ExecuteCommand(d, AddItemCommand(p, t, added)).doc)
  {
    if FindNode(d, p).Some? {
      var x := FindNode(d, p).value;
      if x.EditableList? {
        AddToListConsistent(d, p, t);
      } else if x.EditableMap? {
        AddToMapConsistent(d, p, t);
      }
    }
  }

  lemma AddToListConsistent(d: Document, p: nat, t: NodeType)
    requires Consistent(d) && FindNode(d, p).Some? && FindNode(d, p).value.EditableList?
    ensures var x := FindNode(d, p).value;
      Consistent(PutNode(d, p, x.(items := x.items + [Create(t, InList(p), d.nextId)], isExpanded := true)).(nextId := d.nextId + 1))
  {
    var x := FindNode(d, p).value;
    var n := Create(t, InList(p), d.nextId);
    FoundChildrenLinked(d, p);
    AppendItemKeeps(x.items, n, p, d.nextId);
    ListEditConsistent(d, p, x.items + [n], true, d.nextId + 1);
  }

  lemma AddToMapConsistent(d: Document, p: nat, t: NodeType)
    requires Consistent(d) && FindNode(d, p).Some? && FindNode(d, p).value.EditableMap?
    ensures var x := FindNode(d, p).value;
      var entry := EditableMapEntry(d.nextId, p, GenerateKey(x.entries, "key"), Create(t, InEntry(d.nextId, p), d.nextId + 1));
      Consistent(PutNode(d, p, x.(entries := x.entries + [entry], isExpanded := true)).(nextId := d.nextId + 2))
  {
    var x := FindNode(d, p).value;
    var entry := EditableMapEntry(d.nextId, p, GenerateKey(x.entries, "key"), Create(t, InEntry(d.nextId, p), d.nextId + 1));
    assert EntryOwnIds(entry) == [d.nextId, d.nextId + 1];
    FoundChildrenLinked(d, p);
    AppendEntryKeeps(x.entries, entry, p, d.nextId);
    MapEditConsistent(d, p, x.entries + [entry], true, d.nextId + 2);
  }

  lemma RemoveNodeConsistent(d: Document, node: EditableNode, removal: Removal)
    requires Consistent(d)
    ensures Consistent(ExecuteCommand(d, RemoveNodeCommand(node, removal)).doc)
  {
    match RemoveFrom(d, node)
    case FromList(l, i, _) =>
      var x := FindNode(d, l).value;
      FoundChildrenLinked(d, l);
      RemoveItemKeeps(x.items, i, l, d.nextId);
      ListEditConsistent(d, l, Seqs.RemoveAt(x.items, i), x.isExpanded, d.nextId);
    case FromMap(m, i, _) =>
      var x := FindNode(d, m).value;
      FoundChildrenLinked(d, m);
      RemoveEntryKeeps(x.entries, i, m, d.nextId);
      MapEditConsistent(d, m, Seqs.RemoveAt(x.entries, i), x.isExpanded, d.nextId);
    case _ =>
  }

  lemma InsertListConsistent(d: Document, l: nat, index: int, inserted: Option<nat>)
    requires Consistent(d)
    ensures Consistent(ExecuteCommand(d, InsertListCommand(l, index, inserted)).doc)
  {
    if FindNode(d, l).Some? && FindNode(d, l).value.EditableList? {
      var x := FindNode(d, l).value;
      var n := NewScalar(d.nextId, InList(l), "", ScalarType.String);
      var at := Seqs.Clamp(index, 0, |x.items|);
      FoundChildrenLinked(d, l);
      InsertItemKeeps(x.items, at, n, l, d.nextId);
      ListEditConsistent(d, l, Seqs.InsertAt(x.items, at, n), x.isExpanded, d.nextId + 1);
    }
  }

  lemma MoveConsistent(d: Document, l: nat, nodeId: nat, up: bool)
    requires Consistent(d)
    ensures Consistent(Move(d, l, nodeId, up))
  {
    if FindNode(d, l).Some? && FindNode(d, l).value.EditableList? {
      var x := FindNode(d, l).value;
      FoundChildrenLinked(d, l);
      MoveItemKeeps(x.items, nodeId, up, l, d.nextId);
      ListEditConsistent(d, l, MoveInList(x.items, nodeId, up), x.isExpanded, d.nextId);
    }
  }

  lemma ReplaceNodeConsistent(d: Document, oldNode: EditableNode, f: Factory, replaced: Option<Replacement>)
    requires Consistent(d)
    ensures Consistent(ExecuteCommand(d, ReplaceNodeCommand(oldNode, f, replaced)).doc)
  {
    var source := CurrentChild(d, oldNode.parent, oldNode.id).GetOr(oldNode);
    var built := Build(f, source, oldNode.parent, d.nextId);
    BuiltFresh(f, source, oldNode.parent, d.nextId);
    match oldNode.parent
    case InList(l) => ReplaceInListConsistent(d, l, oldNode.id, built);
    case InEntry(e, m) => ReplaceInEntryConsistent(d, e, m, oldNode.id, built);
    case InRoot => ReplaceRootConsistent(d, oldNode.id, built);
    case _ =>
  }

  lemma ReplaceRootConsistent(d: Document, oldId: nat, built: Cloned)
    requires Consistent(d) && FreshNode(built.node, d.nextId, built.next) && built.node.parent == InRoot
    ensures Consistent(ReplaceAt(d, InRoot, oldId, built.node).(nextId := built.next))
  {
    if d.root.rootNode.id == oldId {
      Seqs.DistinctCounts(Ids(built.node));
      forall y | y in Ids(built.node)
        ensures y < built.next
      {
        assert multiset(Ids(built.node))[y] > 0;
      }
    }
  }

  /** A node built by a factory carries fresh ids, each once. */
  lemma BuiltFresh(f: Factory, source: EditableNode, parent: ParentRef, next: nat)
    ensures FreshNode(Build(f, source, parent, next).node, next, Build(f, source, parent, next).next)
  {
    Seqs.RangeCounts(next, Build(f, source, parent, next).next);
  }

  lemma ReplaceInListConsistent(d: Document, l: nat, oldId: nat, built: Cloned)
    requires Consistent(d) && FreshNode(built.node, d.nextId, built.next) && built.node.parent == InList(l)
    ensures Consistent(ReplaceAt(d, InList(l), oldId, built.node).(nextId := built.next))
  {
    if FindNode(d, l).Some? && FindNode(d, l).value.EditableList? {
      var x := FindNode(d, l).value;
      FoundChildrenLinked(d, l);
      ReplaceItemKeeps(x.items, oldId, built.node, l, d.nextId, built.next);
      ListEditConsistent(d, l, ListReplaceChild(x.items, oldId, built.node), x.isExpanded, built.next);
    }
  }

  lemma ReplaceInEntryConsistent(d: Document, e: nat, m: nat, oldId: nat, built: Cloned)
    requires Consistent(d) && FreshNode(built.node, d.nextId, built.next) && built.node.parent == InEntry(e, m)
    ensures Consistent(ReplaceAt(d, InEntry(e, m), oldId, built.node).(nextId := built.next))
  {
    if FindNode(d, m).Some? && FindNode(d, m).value.EditableMap? && e in EntryIdsOf(FindNode(d, m).value.entries) {
      var x := FindNode(d, m).value;
      var k := Seqs.IndexOf(EntryIdsOf(x.entries), e);
      FoundChildrenLinked(d, m);
      ReplaceEntryKeeps(x.entries, k, oldId, built.node, m, d.nextId, built.next);
      MapEditConsistent(d, m, x.entries[k := EntryReplaceChild(x.entries[k], oldId, built.node)], x.isExpanded, built.next);
    }
  }
}

module ConsistentUndo {
  import opened Wrappers
  import Seqs
  import opened EditorModels
  import opened TreeEdits
  import opened EditorLogic
  import opened CommandLaws
  import opened Consistency

  /** `undo` right after `execute`, when it succeeds, leaves a consistent
      document: ids below the counter, links right, no id twice. */
  lemma UndoConsistent(d: Document, cmd: Command)
    requires Consistent(d)
    ensures var e := ExecuteCommand(d, cmd);
      UndoCommand(e.doc, e.command).Success? ==> Consistent(UndoCommand(e.doc, e.command).value)
  {
    match cmd
    case AddItemCommand(p, t, added) => UndoAddConsistent(d, p, t, added);
    case RemoveNodeCommand(node, removal) =>
      if Present(d, node) {
        RemoveNodeUndo(d, node, removal);
      }
    case InsertListCommand(l, index, inserted) =>
      if FindNode(d, l).Some? && FindNode(d, l).value.EditableList? {
        InsertListUndo(d, l, index, inserted);
        RaiseCounter(d, ExecuteCommand(d, cmd).doc.nextId);
      }
    case MoveItemCommand(l, nodeId, up) =>
      MoveConsistent(d, l, nodeId, up);
      MoveConsistent(Move(d, l, nodeId, up), l, nodeId, !up);
    case ReplaceNodeCommand(oldNode, f, replaced) => UndoReplaceConsistent(d, oldNode, f, replaced);
  }

  /** Raising the counter keeps a document consistent. */
  lemma RaiseCounter(d: Document, k: nat)
    requires Consistent(d) && d.nextId <= k
    ensures Consistent(d.(nextId := k))
  {
  }

  lemma UndoAddConsistent(d: Document, p: nat, t: NodeType, added: Option<nat>)
    requires Consistent(d)
    ensures var e := ExecuteCommand(d, AddItemCommand(p, t, added));
      UndoCommand(e.doc, e.command).Success? ==> Consistent(UndoCommand(e.doc, e.command).value)
  {
    if FindNode(d, p).Some? {
      var x := FindNode(d, p).value;
      var k := ExecuteCommand(d, AddItemCommand(p, t, added)).doc.nextId;
      if x.EditableList? {
        AddItemToList(d, p, t, added);
        ExpandConsistent(d, p, k);
      } else if x.EditableMap? {
        AddItemToMap(d, p, t, added);
        ExpandConsistent(d, p, k);
      }
    }
  }

  /** Expanding a container found in a consistent document keeps it consistent. */
  lemma ExpandConsistent(d: Document, c: nat, k: nat)
    requires Consistent(d) && FindNode(d, c).Some? && d.nextId <= k
    ensures Consistent(PutNode(d, c, Expand(FindNode(d, c).value)).(nextId := k))
  {
    var x := FindNode(d, c).value;
    FoundChildrenBelow(d, c);
    FindWired(d.root.rootNode, c);
    assert Ids(Expand(x)) == Ids(x);
    PutConsistent(d, c, Expand(x), k);
  }

  lemma UndoReplaceConsistent(d: Document, oldNode: EditableNode, f: Factory, replaced: Option<Replacement>)
    requires Consistent(d)
    ensures var e := ExecuteCommand(d, ReplaceNodeCommand(oldNode, f, replaced));
      UndoCommand(e.doc, e.command).Success? ==> Consistent(UndoCommand(e.doc, e.command).value)
  {
    var e := ExecuteCommand(d, ReplaceNodeCommand(oldNode, f, replaced));
    var parent := oldNode.parent;
    if CurrentChild(d, parent, oldNode.id).Some? {
      ReplaceNodeUndo(d, oldNode, f, replaced);
      RaiseCounter(d, e.doc.nextId);
    } else {
      var built := Build(f, oldNode, parent, d.nextId);
      ReplaceAbsent(d, parent, oldNode.id, built.node);
      assert e.doc == d.(nextId := built.next);
      FreshAbsent(d, parent);
      CounterIrrelevant(d, built.next, parent, built.node.id, oldNode);
      ReplaceAbsent(d, parent, built.node.id, oldNode);
      RaiseCounter(d, built.next);
    }
  }

  /** Replacing a child the container does not have changes nothing. */
  lemma ReplaceAbsent(d: Document, parent: ParentRef, id: nat, v: EditableNode)
    requires CurrentChild(d, parent, id).None?
    ensures ReplaceAt(d, parent, id, v) == d
  {
    match parent
    case InList(l) =>
      if FindNode(d, l).Some? && FindNode(d, l).value.EditableList? {
        PutBack(d, l);
      }
    case InEntry(e, m) =>
      if FindNode(d, m).Some? && FindNode(d, m).value.EditableMap? && e in EntryIdsOf(FindNode(d, m).value.entries) {
        var x := FindNode(d, m).value;
        var k := Seqs.IndexOf(EntryIdsOf(x.entries), e);
        assert x.entries[k := EntryReplaceChild(x.entries[k], id, v)] == x.entries;
        PutBack(d, m);
      }
    case _ =>
  }

  /** No container of a consistent document holds a child with the id the
      counter hands out next. */
  lemma FreshAbsent(d: Document, parent: ParentRef)
    requires IdsBelow(d)
    ensures CurrentChild(d, parent, d.nextId).None?
  {
    match parent
    case InList(l) =>
      if FindNode(d, l).Some? {
        FoundChildrenBelow(d, l);
      }
    case InEntry(e, m) =>
      if FindNode(d, m).Some? {
        FoundChildrenBelow(d, m);
      }
    case InRoot =>
      assert d.root.rootNode.id in Ids(d.root.rootNode);
    case _ =>
  }
}
