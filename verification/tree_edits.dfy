/** Addressing a node of the document by identity. Kotlin commands hold direct
    references to the containers they change; here a command names the
    container's id, `Find` resolves it to the first node carrying that id in
    pre-order, and `Put` writes a new version of that node back in place,
    leaving every other part of the tree untouched. */
module TreeEdits {
  import opened Wrappers
  import Seqs
  import opened EditorModels

  /** The first node in pre-order whose id is `c`. */
  function Find(n: EditableNode, c: nat): Option<EditableNode>
    decreases n
  {
    if n.id == c then Some(n)
    else
      match n
      case EditableList(_, _, items, _) => FindItems(items, c)
      case EditableMap(_, _, entries, _) => FindEntries(entries, c)
      case _ => None
  }

  function FindItems(s: seq<EditableNode>, c: nat): Option<EditableNode>
    decreases s
  {
    if |s| == 0 then None
    else if Find(s[0], c).Some? then Find(s[0], c)
    else FindItems(s[1..], c)
  }

  function FindEntries(s: seq<EditableMapEntry>, c: nat): Option<EditableNode>
    decreases s
  {
    if |s| == 0 then None
    else if FindEntry(s[0], c).Some? then FindEntry(s[0], c)
    else FindEntries(s[1..], c)
  }

  function FindEntry(e: EditableMapEntry, c: nat): Option<EditableNode>
    decreases e
  {
    Find(e.value, c)
  }

  /** The tree with the node `Find(n, c)` replaced by `v`; `n` itself when no
      node carries `c`. */
  function Put(n: EditableNode, c: nat, v: EditableNode): EditableNode
    decreases n
  {
    if n.id == c then v
    else
      match n
      case EditableList(id, p, items, ex) => EditableList(id, p, PutItems(items, c, v), ex)
      case EditableMap(id, p, entries, ex) => EditableMap(id, p, PutEntries(entries, c, v), ex)
      case _ => n
  }

  function PutItems(s: seq<EditableNode>, c: nat, v: EditableNode): seq<EditableNode>
    decreases s
  {
    if |s| == 0 then s
    else if Find(s[0], c).Some? then [Put(s[0], c, v)] + s[1..]
    else [s[0]] + PutItems(s[1..], c, v)
  }

  function PutEntries(s: seq<EditableMapEntry>, c: nat, v: EditableNode): seq<EditableMapEntry>
    decreases s
  {
    if |s| == 0 then s
    else if FindEntry(s[0], c).Some? then [PutEntry(s[0], c, v)] + s[1..]
    else [s[0]] + PutEntries(s[1..], c, v)
  }

  function PutEntry(e: EditableMapEntry, c: nat, v: EditableNode): EditableMapEntry
    decreases e
  {
    e.(value := Put(e.value, c, v))
  }

  // --- Find after Put ---

  /** Once `v` (carrying the id `c`) is written in place, looking `c` up finds `v`. */
  lemma {:induction false} FindPut(n: EditableNode, c: nat, v: EditableNode)
    requires Find(n, c).Some? && v.id == c
    ensures Find(Put(n, c, v), c) == Some(v)
    decreases n
  {
    if n.id != c {
      match n
      case EditableList(_, _, items, _) => FindPutItems(items, c, v);
      case EditableMap(_, _, entries, _) => FindPutEntries(entries, c, v);
    }
  }

  lemma {:induction false} FindPutItems(s: seq<EditableNode>, c: nat, v: EditableNode)
    requires FindItems(s, c).Some? && v.id == c
    ensures FindItems(PutItems(s, c, v), c) == Some(v)
    decreases s
  {
    var r := PutItems(s, c, v);
    if Find(s[0], c).Some? {
      FindPut(s[0], c, v);
      assert r[0] == Put(s[0], c, v);
    } else {
      FindPutItems(s[1..], c, v);
      assert r[0] == s[0] && r[1..] == PutItems(s[1..], c, v);
    }
  }

  lemma {:induction false} FindPutEntries(s: seq<EditableMapEntry>, c: nat, v: EditableNode)
    requires FindEntries(s, c).Some? && v.id == c
    ensures FindEntries(PutEntries(s, c, v), c) == Some(v)
    decreases s
  {
    var r := PutEntries(s, c, v);
    if FindEntry(s[0], c).Some? {
      FindPut(s[0].value, c, v);
      assert r[0] == PutEntry(s[0], c, v);
    } else {
      FindPutEntries(s[1..], c, v);
      assert r[0] == s[0] && r[1..] == PutEntries(s[1..], c, v);
    }
  }

  // --- Put over Put ---

  /** A second write at the same id overrides the first. */
  lemma {:induction false} PutPut(n: EditableNode, c: nat, v: EditableNode, w: EditableNode)
    requires Find(n, c).Some? && v.id == c
    ensures Put(Put(n, c, v), c, w) == Put(n, c, w)
    decreases n
  {
    if n.id != c {
      match n
      case EditableList(_, _, items, _) => PutPutItems(items, c, v, w);
      case EditableMap(_, _, entries, _) => PutPutEntries(entries, c, v, w);
    }
  }

  lemma {:induction false} PutPutItems(s: seq<EditableNode>, c: nat, v: EditableNode, w: EditableNode)
    requires FindItems(s, c).Some? && v.id == c
    ensures PutItems(PutItems(s, c, v), c, w) == PutItems(s, c, w)
    decreases s
  {
    var r := PutItems(s, c, v);
    if Find(s[0], c).Some? {
      FindPut(s[0], c, v);
      PutPut(s[0], c, v, w);
      assert r[0] == Put(s[0], c, v) && r[1..] == s[1..];
    } else {
      PutPutItems(s[1..], c, v, w);
      assert r[0] == s[0] && r[1..] == PutItems(s[1..], c, v);
    }
  }

  lemma {:induction false} PutPutEntries(s: seq<EditableMapEntry>, c: nat, v: EditableNode, w: EditableNode)
    requires FindEntries(s, c).Some? && v.id == c
    ensures PutEntries(PutEntries(s, c, v), c, w) == PutEntries(s, c, w)
    decreases s
  {
    var r := PutEntries(s, c, v);
    if FindEntry(s[0], c).Some? {
      FindPut(s[0].value, c, v);
      PutPut(s[0].value, c, v, w);
      assert r[0] == PutEntry(s[0], c, v) && r[1..] == s[1..];
    } else {
      PutPutEntries(s[1..], c, v, w);
      assert r[0] == s[0] && r[1..] == PutEntries(s[1..], c, v);
    }
  }

  // --- Writing back what is there ---

  /** Writing back the node that is found changes nothing. */
  lemma {:induction false} PutFound(n: EditableNode, c: nat)
    requires Find(n, c).Some?
    ensures Put(n, c, Find(n, c).value) == n
    decreases n
  {
    if n.id != c {
      match n
      case EditableList(_, _, items, _) => PutFoundItems(items, c);
      case EditableMap(_, _, entries, _) => PutFoundEntries(entries, c);
    }
  }

  lemma {:induction false} PutFoundItems(s: seq<EditableNode>, c: nat)
    requires FindItems(s, c).Some?
    ensures PutItems(s, c, FindItems(s, c).value) == s
    decreases s
  {
    if Find(s[0], c).Some? {
      PutFound(s[0], c);
    } else {
      PutFoundItems(s[1..], c);
    }
  }

  lemma {:induction false} PutFoundEntries(s: seq<EditableMapEntry>, c: nat)
    requires FindEntries(s, c).Some?
    ensures PutEntries(s, c, FindEntries(s, c).value) == s
    decreases s
  {
    if FindEntry(s[0], c).Some? {
      PutFound(s[0].value, c);
    } else {
      PutFoundEntries(s[1..], c);
    }
  }

  /** Writing a node in place and then writing back the node that was there
      restores the tree exactly. */
  lemma PutRestore(n: EditableNode, c: nat, v: EditableNode)
    requires Find(n, c).Some? && v.id == c
    ensures Put(Put(n, c, v), c, Find(n, c).value) == n
  {
    PutPut(n, c, v, Find(n, c).value);
    PutFound(n, c);
  }

  // --- Identities under Find and Put ---

  /** The node found carries the id asked for, and every id it owns is an id of the tree. */
  lemma {:induction false} FindIds(n: EditableNode, c: nat)
    requires Find(n, c).Some?
    ensures Find(n, c).value.id == c
    ensures forall y :: y in Ids(Find(n, c).value) ==> y in Ids(n)
    decreases n
  {
    if n.id != c {
      match n
      case EditableList(_, _, items, _) => FindIdsItems(items, c);
      case EditableMap(_, _, entries, _) => FindIdsEntries(entries, c);
    }
  }

  lemma {:induction false} FindIdsItems(s: seq<EditableNode>, c: nat)
    requires FindItems(s, c).Some?
    ensures FindItems(s, c).value.id == c
    ensures forall y :: y in Ids(FindItems(s, c).value) ==> y in ItemIds(s)
    decreases s
  {
    if Find(s[0], c).Some? {
      FindIds(s[0], c);
    } else {
      FindIdsItems(s[1..], c);
    }
  }

  lemma {:induction false} FindIdsEntries(s: seq<EditableMapEntry>, c: nat)
    requires FindEntries(s, c).Some?
    ensures FindEntries(s, c).value.id == c
    ensures forall y :: y in Ids(FindEntries(s, c).value) ==> y in EntryIds(s)
    decreases s
  {
    if FindEntry(s[0], c).Some? {
      FindIds(s[0].value, c);
    } else {
      FindIdsEntries(s[1..], c);
    }
  }

  /** After a write, every id of the tree was an id before or belongs to the written node. */
  lemma {:induction false} PutIds(n: EditableNode, c: nat, v: EditableNode)
    ensures forall y :: y in Ids(Put(n, c, v)) ==> y in Ids(n) || y in Ids(v)
    decreases n
  {
    if n.id != c {
      match n
      case EditableList(_, _, items, _) => PutIdsItems(items, c, v);
      case EditableMap(_, _, entries, _) => PutIdsEntries(entries, c, v);
      case _ =>
    }
  }

  lemma {:induction false} PutIdsItems(s: seq<EditableNode>, c: nat, v: EditableNode)
    ensures forall y :: y in ItemIds(PutItems(s, c, v)) ==> y in ItemIds(s) || y in Ids(v)
    decreases s
  {
    if |s| > 0 {
      var r := PutItems(s, c, v);
      if Find(s[0], c).Some? {
        PutIds(s[0], c, v);
        assert r[0] == Put(s[0], c, v) && r[1..] == s[1..];
      } else {
        PutIdsItems(s[1..], c, v);
        assert r[0] == s[0] && r[1..] == PutItems(s[1..], c, v);
      }
    }
  }

  lemma {:induction false} PutIdsEntries(s: seq<EditableMapEntry>, c: nat, v: EditableNode)
    ensures forall y :: y in EntryIds(PutEntries(s, c, v)) ==> y in EntryIds(s) || y in Ids(v)
    decreases s
  {
    if |s| > 0 {
      var r := PutEntries(s, c, v);
      if FindEntry(s[0], c).Some? {
        PutIds(s[0].value, c, v);
        assert r[0] == PutEntry(s[0], c, v) && r[1..] == s[1..];
      } else {
        PutIdsEntries(s[1..], c, v);
        assert r[0] == s[0] && r[1..] == PutEntries(s[1..], c, v);
      }
    }
  }

  /** Every id a list item owns is an id of the list. */
  lemma {:induction false} ItemIdsContain(s: seq<EditableNode>, k: nat)
    requires k < |s|
    ensures forall y :: y in Ids(s[k]) ==> y in ItemIds(s)
    decreases k
  {
    if k > 0 {
      ItemIdsContain(s[1..], k - 1);
    }
  }

  /** Every id a map entry owns is an id of the map. */
  lemma {:induction false} EntryIdsContain(s: seq<EditableMapEntry>, k: nat)
    requires k < |s|
    ensures s[k].id in EntryIds(s)
    ensures forall y :: y in Ids(s[k].value) ==> y in EntryIds(s)
    decreases k
  {
    if k > 0 {
      EntryIdsContain(s[1..], k - 1);
    }
  }

  // --- Parent links under Put ---

  /** Writing a correctly linked node in place of one with the same link keeps
      every parent link of the tree correct. */
  lemma {:induction false} PutWired(n: EditableNode, c: nat, v: EditableNode)
    requires Wired(n) && Wired(v)
    requires Find(n, c).Some? && v.parent == Find(n, c).value.parent && v.id == c
    ensures Wired(Put(n, c, v))
    decreases n
  {
    if n.id != c {
      match n
      case EditableList(id, _, items, _) =>
        PutWiredItems(items, c, v, id);
      case EditableMap(id, _, entries, _) =>
        PutWiredEntries(entries, c, v, id);
    }
  }

  lemma {:induction false} PutWiredItems(s: seq<EditableNode>, c: nat, v: EditableNode, listId: nat)
    requires forall k :: 0 <= k < |s| ==> s[k].parent == InList(listId) && Wired(s[k])
    requires Wired(v) && FindItems(s, c).Some? && v.parent == FindItems(s, c).value.parent && v.id == c
    ensures var r := PutItems(s, c, v);
      |r| == |s| && forall k :: 0 <= k < |r| ==> r[k].parent == InList(listId) && Wired(r[k])
    decreases s
  {
    var r := PutItems(s, c, v);
    if Find(s[0], c).Some? {
      PutWired(s[0], c, v);
      if s[0].id != c {
        assert Put(s[0], c, v).parent == s[0].parent;
      }
      assert r[0] == Put(s[0], c, v) && r[1..] == s[1..];
    } else {
      PutWiredItems(s[1..], c, v, listId);
      assert r[0] == s[0] && r[1..] == PutItems(s[1..], c, v);
    }
  }

  lemma {:induction false} PutWiredEntries(s: seq<EditableMapEntry>, c: nat, v: EditableNode, mapId: nat)
    requires forall k :: 0 <= k < |s| ==> EntryWired(s[k], mapId)
    requires Wired(v) && FindEntries(s, c).Some? && v.parent == FindEntries(s, c).value.parent && v.id == c
    ensures var r := PutEntries(s, c, v);
      |r| == |s| && forall k :: 0 <= k < |r| ==> EntryWired(r[k], mapId)
    decreases s
  {
    var r := PutEntries(s, c, v);
    if FindEntry(s[0], c).Some? {
      PutWired(s[0].value, c, v);
      if s[0].value.id != c {
        assert Put(s[0].value, c, v).parent == s[0].value.parent;
      }
      assert r[0] == PutEntry(s[0], c, v) && r[1..] == s[1..];
    } else {
      PutWiredEntries(s[1..], c, v, mapId);
      assert r[0] == s[0] && r[1..] == PutEntries(s[1..], c, v);
    }
  }

  // --- Id counts under Put ---

  /** A write trades the ids of the node found for those of the node written:
      counted with multiplicity, the tree after together with the node found
      holds exactly the ids of the tree before together with the node written. */
  lemma {:induction false} PutIdCounts(n: EditableNode, c: nat, v: EditableNode)
    requires Find(n, c).Some?
    ensures forall y ::
      multiset(Ids(Put(n, c, v)))[y] + multiset(Ids(Find(n, c).value))[y]
        == multiset(Ids(n))[y] + multiset(Ids(v))[y]
    decreases n, 1
  {
    if n.id != c {
      PutIdCountsBelow(n, c, v);
    }
  }

  /** The step of `PutIdCounts` for a node other than the one written. */
  lemma {:induction false} PutIdCountsBelow(n: EditableNode, c: nat, v: EditableNode)
    requires Find(n, c).Some? && n.id != c
    ensures forall y ::
      multiset(Ids(Put(n, c, v)))[y] + multiset(Ids(Find(n, c).value))[y]
        == multiset(Ids(n))[y] + multiset(Ids(v))[y]
    decreases n, 0
  {
    var m := Put(n, c, v);
    var f := Find(n, c).value;
    if n.EditableList? {
      var a := ItemIds(n.items);
      var b := ItemIds(PutItems(n.items, c, v));
      PutIdCountsItems(n.items, c, v);
      assert f == FindItems(n.items, c).value;
      assert Ids(n) == [n.id] + a;
      assert Ids(m) == [n.id] + b;
    } else {
      var a := EntryIds(n.entries);
      var b := EntryIds(PutEntries(n.entries, c, v));
      PutIdCountsEntries(n.entries, c, v);
      assert f == FindEntries(n.entries, c).value;
      assert Ids(n) == [n.id] + a;
      assert Ids(m) == [n.id] + b;
    }
  }

  lemma {:induction false} PutIdCountsItems(s: seq<EditableNode>, c: nat, v: EditableNode)
    requires FindItems(s, c).Some?
    ensures forall y ::
      multiset(ItemIds(PutItems(s, c, v)))[y] + multiset(Ids(FindItems(s, c).value))[y]
        == multiset(ItemIds(s))[y] + multiset(Ids(v))[y]
    decreases s
  {
    var r := PutItems(s, c, v);
    if Find(s[0], c).Some? {
      PutIdCounts(s[0], c, v);
      assert r[0] == Put(s[0], c, v) && r[1..] == s[1..];
      assert ItemIds(r) == Ids(r[0]) + ItemIds(s[1..]);
    } else {
      PutIdCountsItems(s[1..], c, v);
      assert r[0] == s[0] && r[1..] == PutItems(s[1..], c, v);
      assert ItemIds(r) == Ids(s[0]) + ItemIds(r[1..]);
    }
  }

  lemma {:induction false} PutIdCountsEntries(s: seq<EditableMapEntry>, c: nat, v: EditableNode)
    requires FindEntries(s, c).Some?
    ensures forall y ::
      multiset(EntryIds(PutEntries(s, c, v)))[y] + multiset(Ids(FindEntries(s, c).value))[y]
        == multiset(EntryIds(s))[y] + multiset(Ids(v))[y]
    decreases s
  {
    var r := PutEntries(s, c, v);
    if FindEntry(s[0], c).Some? {
      PutIdCounts(s[0].value, c, v);
      assert r[0] == PutEntry(s[0], c, v) && r[1..] == s[1..];
      assert EntryIds(r) == [s[0].id] + Ids(r[0].value) + EntryIds(s[1..]);
      assert EntryIds(s) == [s[0].id] + Ids(s[0].value) + EntryIds(s[1..]);
    } else {
      PutIdCountsEntries(s[1..], c, v);
      assert r[0] == s[0] && r[1..] == PutEntries(s[1..], c, v);
      assert EntryIds(r) == EntryOwnIds(s[0]) + EntryIds(r[1..]);
    }
  }

  /** A node found in a correctly linked tree is itself correctly linked. */
  lemma {:induction false} FindWired(n: EditableNode, c: nat)
    requires Wired(n) && Find(n, c).Some?
    ensures Wired(Find(n, c).value)
    decreases n
  {
    if n.id != c {
      match n
      case EditableList(_, _, items, _) => FindWiredItems(items, c);
      case EditableMap(id, _, entries, _) => FindWiredEntries(entries, c, id);
    }
  }

  lemma {:induction false} FindWiredItems(s: seq<EditableNode>, c: nat)
    requires forall k :: 0 <= k < |s| ==> Wired(s[k])
    requires FindItems(s, c).Some?
    ensures Wired(FindItems(s, c).value)
    decreases s
  {
    if Find(s[0], c).Some? {
      FindWired(s[0], c);
    } else {
      assert forall k :: 0 <= k < |s[1..]| ==> s[1..][k] == s[k + 1];
      FindWiredItems(s[1..], c);
    }
  }

  lemma {:induction false} FindWiredEntries(s: seq<EditableMapEntry>, c: nat, mapId: nat)
    requires forall k :: 0 <= k < |s| ==> EntryWired(s[k], mapId)
    requires FindEntries(s, c).Some?
    ensures Wired(FindEntries(s, c).value)
    decreases s
  {
    if FindEntry(s[0], c).Some? {
      FindWired(s[0].value, c);
    } else {
      assert forall k :: 0 <= k < |s[1..]| ==> s[1..][k] == s[k + 1];
      FindWiredEntries(s[1..], c, mapId);
    }
  }

  // --- Finding inside a part of a tree with distinct ids ---

  /** Whatever a part of the tree finds, the whole tree finds too: the part
      sits in `whole`, and no node outside it carries the ids it holds. */
  ghost predicate Embedded(part: EditableNode, whole: EditableNode) {
    forall c :: Find(part, c).Some? ==> Find(whole, c) == Find(part, c)
  }

  /** A node found inside a tree carries one of the tree's ids. */
  lemma FoundIdIn(n: EditableNode, c: nat)
    requires Find(n, c).Some?
    ensures c in Ids(n)
  {
    var v := Find(n, c).value;
    FindIds(n, c);
    assert Ids(v)[0] == v.id;
  }

  /** In a list whose item ids are distinct, a node found inside an item is
      the one the list finds. */
  lemma {:induction false} FindInItem(s: seq<EditableNode>, j: nat, c: nat)
    requires Seqs.Distinct(ItemIds(s)) && j < |s| && Find(s[j], c).Some?
    ensures FindItems(s, c) == Find(s[j], c)
    decreases j
  {
    if j > 0 {
      var t := s[1..];
      assert ItemIds(s) == Ids(s[0]) + ItemIds(t);
      Seqs.DistinctConcat(Ids(s[0]), ItemIds(t));
      assert t[j - 1] == s[j];
      FoundIdIn(s[j], c);
      ItemIdsContain(t, j - 1);
      if Find(s[0], c).Some? {
        FoundIdIn(s[0], c);
      }
      FindInItem(t, j - 1, c);
    }
  }

  /** In a map whose ids are distinct, a node found inside an entry's value
      is the one the map finds. */
  lemma {:induction false} FindInEntry(s: seq<EditableMapEntry>, j: nat, c: nat)
    requires Seqs.Distinct(EntryIds(s)) && j < |s| && Find(s[j].value, c).Some?
    ensures FindEntries(s, c) == Find(s[j].value, c)
    decreases j
  {
    if j > 0 {
      var t := s[1..];
      assert EntryIds(s) == EntryOwnIds(s[0]) + EntryIds(t);
      Seqs.DistinctConcat(EntryOwnIds(s[0]), EntryIds(t));
      assert t[j - 1] == s[j];
      FoundIdIn(s[j].value, c);
      EntryIdsContain(t, j - 1);
      assert EntryOwnIds(s[0]) == [s[0].id] + Ids(s[0].value);
      if FindEntry(s[0], c).Some? {
        FoundIdIn(s[0].value, c);
      }
      FindInEntry(t, j - 1, c);
    }
  }

  /** The ids of a list item are distinct when the list's are. */
  lemma {:induction false} ItemDistinct(s: seq<EditableNode>, j: nat)
    requires Seqs.Distinct(ItemIds(s)) && j < |s|
    ensures Seqs.Distinct(Ids(s[j]))
    decreases j
  {
    var t := s[1..];
    assert ItemIds(s) == Ids(s[0]) + ItemIds(t);
    Seqs.DistinctConcat(Ids(s[0]), ItemIds(t));
    if j > 0 {
      assert t[j - 1] == s[j];
      ItemDistinct(t, j - 1);
    }
  }

  lemma {:induction false} EntryDistinct(s: seq<EditableMapEntry>, j: nat)
    requires Seqs.Distinct(EntryIds(s)) && j < |s|
    ensures Seqs.Distinct(Ids(s[j].value))
    decreases j
  {
    var t := s[1..];
    assert EntryIds(s) == EntryOwnIds(s[0]) + EntryIds(t);
    Seqs.DistinctConcat(EntryOwnIds(s[0]), EntryIds(t));
    if j > 0 {
      assert t[j - 1] == s[j];
      EntryDistinct(t, j - 1);
    } else {
      Seqs.DistinctConcat([s[0].id], Ids(s[0].value));
    }
  }

  /** In a tree without repeated ids every child of a container is embedded
      in the container and has distinct ids itself. */
  lemma ChildrenEmbedded(n: EditableNode)
    requires Seqs.Distinct(Ids(n))
    ensures n.EditableList? ==> forall j :: 0 <= j < |n.items| ==>
      Embedded(n.items[j], n) && Seqs.Distinct(Ids(n.items[j]))
    ensures n.EditableMap? ==> forall j :: 0 <= j < |n.entries| ==>
      Embedded(n.entries[j].value, n) && Seqs.Distinct(Ids(n.entries[j].value))
  {
    match n
    case EditableList(id, _, items, _) =>
      Seqs.DistinctConcat([id], ItemIds(items));
      forall j, c | 0 <= j < |items| && Find(items[j], c).Some?
        ensures Find(n, c) == Find(items[j], c)
      {
        FoundIdIn(items[j], c);
        ItemIdsContain(items, j);
        FindInItem(items, j, c);
      }
      forall j | 0 <= j < |items|
        ensures Seqs.Distinct(Ids(items[j]))
      {
        ItemDistinct(items, j);
      }
    case EditableMap(id, _, entries, _) =>
      Seqs.DistinctConcat([id], EntryIds(entries));
      forall j, c | 0 <= j < |entries| && Find(entries[j].value, c).Some?
        ensures Find(n, c) == Find(entries[j].value, c)
      {
        FoundIdIn(entries[j].value, c);
        EntryIdsContain(entries, j);
        FindInEntry(entries, j, c);
      }
      forall j | 0 <= j < |entries|
        ensures Seqs.Distinct(Ids(entries[j].value))
      {
        EntryDistinct(entries, j);
      }
    case _ =>
  }

  // --- What a tree says under a write ---

  /** Writing nodes that say the same thing gives trees that say the same thing. */
  lemma {:induction false} ShapePut(n: EditableNode, c: nat, v: EditableNode, w: EditableNode)
    requires Shape(v) == Shape(w)
    ensures Shape(Put(n, c, v)) == Shape(Put(n, c, w))
    decreases n, 1
  {
    if n.id != c {
      ShapePutBelow(n, c, v, w);
    }
  }

  lemma {:induction false} ShapePutBelow(n: EditableNode, c: nat, v: EditableNode, w: EditableNode)
    requires Shape(v) == Shape(w) && n.id != c
    ensures Shape(Put(n, c, v)) == Shape(Put(n, c, w))
    decreases n, 0
  {
    match n
    case EditableList(id, p, items, ex) =>
      var a := PutItems(items, c, v);
      var b := PutItems(items, c, w);
      ShapePutItems(items, c, v, w);
      assert Shape(EditableList(id, p, a, ex)).elements == Shape(EditableList(id, p, b, ex)).elements;
    case EditableMap(id, p, entries, ex) =>
      var a := PutEntries(entries, c, v);
      var b := PutEntries(entries, c, w);
      ShapePutEntries(entries, c, v, w);
      assert Shape(EditableMap(id, p, a, ex)).members == Shape(EditableMap(id, p, b, ex)).members;
    case _ =>
  }

  lemma {:induction false} ShapePutItems(s: seq<EditableNode>, c: nat, v: EditableNode, w: EditableNode)
    requires Shape(v) == Shape(w)
    ensures |PutItems(s, c, v)| == |s| == |PutItems(s, c, w)|
    ensures forall k :: 0 <= k < |s| ==> Shape(PutItems(s, c, v)[k]) == Shape(PutItems(s, c, w)[k])
    decreases s
  {
    if |s| > 0 {
      var t := s[1..];
      if Find(s[0], c).Some? {
        ShapePut(s[0], c, v, w);
        ShapeCons(Put(s[0], c, v), Put(s[0], c, w), t, t);
      } else {
        ShapePutItems(t, c, v, w);
        ShapeCons(s[0], s[0], PutItems(t, c, v), PutItems(t, c, w));
      }
    }
  }

  /** Lists that agree in shape at their heads and elementwise in their tails agree elementwise. */
  lemma ShapeCons(h: EditableNode, g: EditableNode, a: seq<EditableNode>, b: seq<EditableNode>)
    requires Shape(h) == Shape(g) && |a| == |b|
    requires forall k :: 0 <= k < |a| ==> Shape(a[k]) == Shape(b[k])
    ensures forall k :: 0 <= k < |a| + 1 ==> Shape(([h] + a)[k]) == Shape(([g] + b)[k])
  {
  }

  lemma {:induction false} ShapePutEntries(s: seq<EditableMapEntry>, c: nat, v: EditableNode, w: EditableNode)
    requires Shape(v) == Shape(w)
    ensures |PutEntries(s, c, v)| == |s| == |PutEntries(s, c, w)|
    ensures forall k :: 0 <= k < |s| ==> EntryShape(PutEntries(s, c, v)[k]) == EntryShape(PutEntries(s, c, w)[k])
    decreases s
  {
    if |s| > 0 {
      var t := s[1..];
      if FindEntry(s[0], c).Some? {
        ShapePut(s[0].value, c, v, w);
        EntryShapeCons(PutEntry(s[0], c, v), PutEntry(s[0], c, w), t, t);
      } else {
        ShapePutEntries(t, c, v, w);
        EntryShapeCons(s[0], s[0], PutEntries(t, c, v), PutEntries(t, c, w));
      }
    }
  }

  lemma EntryShapeCons(h: EditableMapEntry, g: EditableMapEntry, a: seq<EditableMapEntry>, b: seq<EditableMapEntry>)
    requires EntryShape(h) == EntryShape(g) && |a| == |b|
    requires forall k :: 0 <= k < |a| ==> EntryShape(a[k]) == EntryShape(b[k])
    ensures forall k :: 0 <= k < |a| + 1 ==> EntryShape(([h] + a)[k]) == EntryShape(([g] + b)[k])
  {
  }

  // --- Distinct ids inside a tree with distinct ids ---

  /** A node found in a tree without repeated ids has none either. */
  lemma {:induction false} FindDistinct(n: EditableNode, c: nat)
    requires Seqs.Distinct(Ids(n)) && Find(n, c).Some?
    ensures Seqs.Distinct(Ids(Find(n, c).value))
    decreases n, 1
  {
    if n.id != c {
      match n
      case EditableList(id, _, items, _) =>
        Seqs.DistinctConcat([id], ItemIds(items));
        FindDistinctItems(items, c);
      case EditableMap(id, _, entries, _) =>
        Seqs.DistinctConcat([id], EntryIds(entries));
        FindDistinctEntries(entries, c);
    }
  }

  lemma {:induction false} FindDistinctItems(s: seq<EditableNode>, c: nat)
    requires Seqs.Distinct(ItemIds(s)) && FindItems(s, c).Some?
    ensures Seqs.Distinct(Ids(FindItems(s, c).value))
    decreases s
  {
    if Find(s[0], c).Some? {
      ItemDistinct(s, 0);
      FindDistinct(s[0], c);
    } else {
      assert ItemIds(s) == Ids(s[0]) + ItemIds(s[1..]);
      Seqs.DistinctConcat(Ids(s[0]), ItemIds(s[1..]));
      FindDistinctItems(s[1..], c);
    }
  }

  lemma {:induction false} FindDistinctEntries(s: seq<EditableMapEntry>, c: nat)
    requires Seqs.Distinct(EntryIds(s)) && FindEntries(s, c).Some?
    ensures Seqs.Distinct(Ids(FindEntries(s, c).value))
    decreases s
  {
    if FindEntry(s[0], c).Some? {
      EntryDistinct(s, 0);
      FindDistinct(s[0].value, c);
    } else {
      assert EntryIds(s) == EntryOwnIds(s[0]) + EntryIds(s[1..]);
      Seqs.DistinctConcat(EntryOwnIds(s[0]), EntryIds(s[1..]));
      FindDistinctEntries(s[1..], c);
    }
  }

  /** Items whose ids, with all they hold, are distinct have distinct ids. */
  lemma {:induction false} ItemHeadsDistinct(s: seq<EditableNode>)
    requires Seqs.Distinct(ItemIds(s))
    ensures Seqs.Distinct(IdsOf(s))
    decreases s
  {
    if |s| > 0 {
      var t := s[1..];
      assert ItemIds(s) == Ids(s[0]) + ItemIds(t);
      Seqs.DistinctConcat(Ids(s[0]), ItemIds(t));
      ItemHeadsDistinct(t);
      assert Ids(s[0])[0] == s[0].id;
      assert s[0].id in Ids(s[0]);
      forall k | 0 <= k < |t|
        ensures t[k].id != s[0].id
      {
        ItemIdsContain(t, k);
        assert Ids(t[k])[0] == t[k].id;
        assert t[k].id in ItemIds(t);
      }
      assert IdsOf(s) == [s[0].id] + IdsOf(t);
    }
  }
}
