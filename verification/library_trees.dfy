/** The trees the parsing libraries hand over and take back (kaml's
    `YamlNode`, kotlinx-serialization's `JsonElement`), and Kotlin's
    `associate`, which turns a list of key/value pairs into an insertion
    ordered map. Text parsing and printing by the libraries are not part of
    this model; only these trees are. */
module LibraryTrees {
  import Seqs

  /** A key/value pair of a YAML map or a JSON object. */
  datatype Member<V> = Member(key: string, value: V)

  datatype YamlNode =
    | YamlScalar(content: string)
    | YamlList(items: seq<YamlNode>)
    | YamlMap(entries: seq<Member<YamlNode>>)
    | YamlNull
    | YamlTaggedNode(tag: string, innerNode: YamlNode)

  datatype JsonElement =
    | JsonNull
    | JsonPrimitive(content: string, isString: bool)
    | JsonArray(elements: seq<JsonElement>)
    | JsonObject(members: seq<Member<JsonElement>>)

  function MemberKeys<V>(ms: seq<Member<V>>): (r: seq<string>)
    ensures |r| == |ms| && forall k :: 0 <= k < |ms| ==> r[k] == ms[k].key
  {
    seq(|ms|, k requires 0 <= k < |ms| => ms[k].key)
  }

  /** `LinkedHashMap.put`: a new key goes last, a known key keeps its place
      and takes the new value. */
  function PutMember<V>(acc: seq<Member<V>>, m: Member<V>): (r: seq<Member<V>>) {
    var i := Seqs.IndexOf(MemberKeys(acc), m.key);
    if i == -1 then acc + [m] else acc[i := m]
  }

  /** The pair at `i` is the last one with its key. */
  predicate LastOfKey<V>(ms: seq<Member<V>>, i: nat)
    requires i < |ms|
  {
    forall l :: i < l < |ms| ==> ms[l].key != ms[i].key
  }

  /** `x` is the last pair of `ms` with its key. */
  ghost predicate IsWinner<V>(ms: seq<Member<V>>, x: Member<V>) {
    exists i :: 0 <= i < |ms| && ms[i] == x && LastOfKey(ms, i)
  }

  /** Kotlin's `associate`: one pair per key, the value of the key's last
      pair winning, at the place of the key's first pair; pairs with distinct
      keys pass through unchanged. */
  function Associate<V>(ms: seq<Member<V>>): (r: seq<Member<V>>)
    ensures Seqs.Distinct(MemberKeys(r))
    ensures forall k :: k in MemberKeys(r) <==> k in MemberKeys(ms)
    ensures forall j :: 0 <= j < |r| ==> IsWinner(ms, r[j])
    ensures forall i, j :: 0 <= i < j < |r| ==>
      Seqs.IndexOf(MemberKeys(ms), r[i].key) < Seqs.IndexOf(MemberKeys(ms), r[j].key)
    ensures Seqs.Distinct(MemberKeys(ms)) ==> r == ms
    decreases |ms|, 1
  {
    if |ms| == 0 then []
    else
      AssociateStepKeys(ms);
      AssociateStepValues(ms);
      AssociateStepOrder(ms);
      AssociateStepIdentity(ms);
      PutMember(Associate(ms[..|ms| - 1]), ms[|ms| - 1])
  }

  /** Putting the last pair into the association of the others gives the
      association of all of them: keys distinct and those of `ms`, ... */
  lemma AssociateStepKeys<V>(ms: seq<Member<V>>)
    requires |ms| > 0
    ensures var r := PutMember(Associate(ms[..|ms| - 1]), ms[|ms| - 1]);
      && Seqs.Distinct(MemberKeys(r))
      && (forall k :: k in MemberKeys(r) <==> k in MemberKeys(ms))
    decreases |ms|, 0
  {
    var pre, m := ms[..|ms| - 1], ms[|ms| - 1];
    assert ms == pre + [m];
    var a := Associate(pre);
    PutMemberKeys(pre, m, a, ms);
  }

  /** ... each pair the last of its key, ... */
  lemma AssociateStepValues<V>(ms: seq<Member<V>>)
    requires |ms| > 0
    ensures var r := PutMember(Associate(ms[..|ms| - 1]), ms[|ms| - 1]);
      forall j :: 0 <= j < |r| ==> IsWinner(ms, r[j])
    decreases |ms|, 0
  {
    var pre, m := ms[..|ms| - 1], ms[|ms| - 1];
    assert ms == pre + [m];
    var a := Associate(pre);
    PutMemberValues(pre, m, a, ms);
  }

  /** ... in the order of the keys' first occurrences, ... */
  lemma AssociateStepOrder<V>(ms: seq<Member<V>>)
    requires |ms| > 0
    ensures var r := PutMember(Associate(ms[..|ms| - 1]), ms[|ms| - 1]);
      forall i, j :: 0 <= i < j < |r| ==>
        Seqs.IndexOf(MemberKeys(ms), r[i].key) < Seqs.IndexOf(MemberKeys(ms), r[j].key)
    decreases |ms|, 0
  {
    var pre, m := ms[..|ms| - 1], ms[|ms| - 1];
    assert ms == pre + [m];
    var a := Associate(pre);
    PutMemberOrder(pre, m, a, ms);
  }

  /** ... and `ms` itself when its keys are distinct. */
  lemma AssociateStepIdentity<V>(ms: seq<Member<V>>)
    requires |ms| > 0
    ensures var r := PutMember(Associate(ms[..|ms| - 1]), ms[|ms| - 1]);
      Seqs.Distinct(MemberKeys(ms)) ==> r == ms
    decreases |ms|, 0
  {
    var pre, m := ms[..|ms| - 1], ms[|ms| - 1];
    assert ms == pre + [m];
    var a := Associate(pre);
    PutMemberIdentity(pre, m, a, ms);
  }

  /** The pairs of `a` keep the order of their keys' first occurrences in
      `pre`; putting the next pair keeps that order for `pre + [m]`. */
  lemma PutMemberOrder<V>(pre: seq<Member<V>>, m: Member<V>, a: seq<Member<V>>, ms: seq<Member<V>>)
    requires ms == pre + [m]
    requires forall k :: k in MemberKeys(a) <==> k in MemberKeys(pre)
    requires forall i, j :: 0 <= i < j < |a| ==>
      Seqs.IndexOf(MemberKeys(pre), a[i].key) < Seqs.IndexOf(MemberKeys(pre), a[j].key)
    ensures var r := PutMember(a, m);
      forall i, j :: 0 <= i < j < |r| ==>
        Seqs.IndexOf(MemberKeys(ms), r[i].key) < Seqs.IndexOf(MemberKeys(ms), r[j].key)
  {
    var r := PutMember(a, m);
    var idx := Seqs.IndexOf(MemberKeys(a), m.key);
    var ks := MemberKeys(ms);
    AppendedKeyIndices(pre, m, a, ms);
    if idx == -1 {
      assert r == a + [m];
      forall i, j | 0 <= i < j < |r|
        ensures Seqs.IndexOf(ks, r[i].key) < Seqs.IndexOf(ks, r[j].key)
      {
        assert MemberKeys(a)[i] == a[i].key;
        if j == |a| {
          assert Seqs.IndexOf(MemberKeys(pre), a[i].key) < |pre|;
        }
      }
    } else {
      forall i, j | 0 <= i < j < |r|
        ensures Seqs.IndexOf(ks, r[i].key) < Seqs.IndexOf(ks, r[j].key)
      {
        assert r[i].key == a[i].key && r[j].key == a[j].key;
      }
    }
  }

  /** Appending a pair moves no key's first index; a key new to `pre` is
      first found at the end. */
  lemma AppendedKeyIndices<V>(pre: seq<Member<V>>, m: Member<V>, a: seq<Member<V>>, ms: seq<Member<V>>)
    requires ms == pre + [m]
    requires forall k :: k in MemberKeys(a) <==> k in MemberKeys(pre)
    ensures forall i :: 0 <= i < |a| ==>
      Seqs.IndexOf(MemberKeys(ms), a[i].key) == Seqs.IndexOf(MemberKeys(pre), a[i].key)
    ensures m.key !in MemberKeys(a) ==> Seqs.IndexOf(MemberKeys(ms), m.key) == |pre|
  {
    var ks := MemberKeys(pre);
    assert MemberKeys(ms) == ks + [m.key];
    forall i | 0 <= i < |a|
      ensures Seqs.IndexOf(ks + [m.key], a[i].key) == Seqs.IndexOf(ks, a[i].key)
    {
      assert MemberKeys(a)[i] == a[i].key;
      Seqs.IndexOfAppend(ks, m.key, a[i].key);
    }
    Seqs.IndexOfAppend(ks, m.key, m.key);
  }

  lemma PutMemberKeys<V>(pre: seq<Member<V>>, m: Member<V>, a: seq<Member<V>>, ms: seq<Member<V>>)
    requires ms == pre + [m]
    requires Seqs.Distinct(MemberKeys(a))
    requires forall k :: k in MemberKeys(a) <==> k in MemberKeys(pre)
    ensures Seqs.Distinct(MemberKeys(PutMember(a, m)))
    ensures forall k :: k in MemberKeys(PutMember(a, m)) <==> k in MemberKeys(ms)
  {
    var r := PutMember(a, m);
    var idx := Seqs.IndexOf(MemberKeys(a), m.key);
    assert MemberKeys(pre + [m]) == MemberKeys(pre) + [m.key];
    if idx == -1 {
      assert MemberKeys(r) == MemberKeys(a) + [m.key];
    } else {
      assert MemberKeys(r) == MemberKeys(a)[idx := m.key];
      forall k
        ensures k in MemberKeys(r) <==> k in MemberKeys(pre + [m])
      {
        if k in MemberKeys(a) && k != m.key {
          var j :| 0 <= j < |a| && MemberKeys(a)[j] == k;
          assert MemberKeys(r)[j] == k;
        }
        if k == m.key {
          assert MemberKeys(r)[idx] == k;
        }
      }
    }
  }

  lemma PutMemberValues<V>(pre: seq<Member<V>>, m: Member<V>, a: seq<Member<V>>, ms: seq<Member<V>>)
    requires ms == pre + [m]
    requires Seqs.Distinct(MemberKeys(a))
    requires forall j :: 0 <= j < |a| ==> IsWinner(pre, a[j])
    ensures forall j :: 0 <= j < |PutMember(a, m)| ==> IsWinner(ms, PutMember(a, m)[j])
  {
    var r := PutMember(a, m);
    var idx := Seqs.IndexOf(MemberKeys(a), m.key);
    forall j | 0 <= j < |r|
      ensures IsWinner(ms, r[j])
    {
      if j < |a| && j != idx {
        assert r[j] == a[j];
        assert MemberKeys(a)[j] == a[j].key;
        assert IsWinner(pre, a[j]);
        var i :| 0 <= i < |pre| && pre[i] == a[j] && LastOfKey(pre, i);
        assert ms[i] == pre[i];
        assert LastOfKey(ms, i);
      } else {
        assert r[j] == m;
        assert r[j] == ms[|ms| - 1] && LastOfKey(ms, |ms| - 1);
      }
    }
  }

  lemma PutMemberIdentity<V>(pre: seq<Member<V>>, m: Member<V>, a: seq<Member<V>>, ms: seq<Member<V>>)
    requires ms == pre + [m]
    requires Seqs.Distinct(MemberKeys(pre)) ==> a == pre
    ensures Seqs.Distinct(MemberKeys(ms)) ==> PutMember(a, m) == ms
  {
    if Seqs.Distinct(MemberKeys(ms)) {
      assert Seqs.Distinct(MemberKeys(pre)) by {
        forall i, j | 0 <= i < j < |pre|
          ensures MemberKeys(pre)[i] != MemberKeys(pre)[j]
        {
          assert MemberKeys(ms)[i] == MemberKeys(pre)[i] && MemberKeys(ms)[j] == MemberKeys(pre)[j];
        }
      }
      assert m.key !in MemberKeys(pre) by {
        forall i | 0 <= i < |pre|
          ensures MemberKeys(pre)[i] != m.key
        {
          assert MemberKeys(ms)[i] == MemberKeys(pre)[i] && MemberKeys(ms)[|pre|] == m.key;
        }
      }
    }
  }
}
