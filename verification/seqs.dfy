/** Sequence helpers shared by the node model: Kotlin's `indexOf`,
    `add(index, x)`, `removeAt`, counting and a range of consecutive ids. */
module Seqs {

  /** Index of the first occurrence of `x` in `s`, or -1 (Kotlin's `indexOf`). */
  function IndexOf<T(==)>(s: seq<T>, x: T): (r: int)
    ensures -1 <= r < |s|
    ensures r == -1 <==> x !in s
    ensures r >= 0 ==> s[r] == x && x !in s[..r]
  {
    if |s| == 0 then -1
    else if s[0] == x then 0
    else
      var k := IndexOf(s[1..], x);
      assert s[1..][..if k < 0 then 0 else k] == s[1..if k < 0 then 1 else k + 1];
      if k < 0 then -1 else k + 1
  }

  /** The first position holding `x` is `t` when `s[t]` is `x` and no earlier one is. */
  lemma IndexOfAt<T>(s: seq<T>, x: T, t: nat)
    requires t < |s| && s[t] == x
    requires forall k :: 0 <= k < t ==> s[k] != x
    ensures IndexOf(s, x) == t
  {
    assert x in s;
    assert forall m :: t < m <= |s| ==> s[..m][t] == x;
  }

  /** Appending an element moves no first occurrence; a new element is
      first found at the end. */
  lemma IndexOfAppend<T>(s: seq<T>, x: T, y: T)
    ensures y in s ==> IndexOf(s + [x], y) == IndexOf(s, y)
    ensures y !in s && y == x ==> IndexOf(s + [x], y) == |s|
  {
    var t := s + [x];
    if y in s {
      var i := IndexOf(s, y);
      assert forall k :: 0 <= k < i ==> t[k] == s[k] && s[k] == s[..i][k];
      IndexOfAt(t, y, i);
    } else if y == x {
      assert forall k :: 0 <= k < |s| ==> t[k] == s[k];
      IndexOfAt(t, y, |s|);
    }
  }

  /** The head and tail of a concatenation whose first part is not empty. */
  lemma ConcatTail<T>(a: seq<T>, b: seq<T>)
    requires |a| > 0
    ensures (a + b)[0] == a[0] && (a + b)[1..] == a[1..] + b
  {
    assert (a + b)[1..] == a[1..] + b;
  }

  /** A sequence that is `h` before `x + y` is `h + x` before `y`. */
  lemma PrependAssoc<T>(a: seq<T>, b: seq<T>, h: seq<T>, x: seq<T>, y: seq<T>)
    requires a == h + (x + y) && b == h + x
    ensures a == b + y
  {
  }

  /** `s` with `x` inserted before position `i` (Kotlin's `add(i, x)`). */
  function InsertAt<T>(s: seq<T>, i: nat, x: T): (r: seq<T>)
    requires i <= |s|
    ensures |r| == |s| + 1 && r[i] == x
    ensures forall j :: 0 <= j < i ==> r[j] == s[j]
    ensures forall j :: i < j < |r| ==> r[j] == s[j - 1]
  {
    s[..i] + [x] + s[i..]
  }

  /** `s` without its element at position `i` (Kotlin's `removeAt(i)`). */
  function RemoveAt<T>(s: seq<T>, i: nat): (r: seq<T>)
    requires i < |s|
    ensures |r| == |s| - 1
    ensures forall j :: 0 <= j < i ==> r[j] == s[j]
    ensures forall j :: i <= j < |r| ==> r[j] == s[j + 1]
  {
    s[..i] + s[i + 1..]
  }

  /** Inserting at `i` and then removing position `i` gives back the sequence. */
  lemma RemoveInserted<T>(s: seq<T>, i: nat, x: T)
    requires i <= |s|
    ensures RemoveAt(InsertAt(s, i, x), i) == s
  {
    assert RemoveAt(InsertAt(s, i, x), i) == s[..i] + s[i..];
  }

  /** Removing position `i` and re-inserting the removed element there gives back the sequence. */
  lemma InsertRemoved<T>(s: seq<T>, i: nat)
    requires i < |s|
    ensures InsertAt(RemoveAt(s, i), i, s[i]) == s
  {
    var r := InsertAt(RemoveAt(s, i), i, s[i]);
    assert forall j :: 0 <= j < |s| ==> r[j] == s[j];
  }

  /** `x` clamped to the interval [lo, hi] (Kotlin's `coerceIn`). */
  function Clamp(x: int, lo: int, hi: int): (r: int)
    requires lo <= hi
    ensures lo <= r <= hi
    ensures lo <= x <= hi ==> r == x
    ensures x < lo ==> r == lo
    ensures x > hi ==> r == hi
  {
    if x < lo then lo else if x > hi then hi else x
  }

  /** Number of occurrences of `x` in `s`. */
  function Count<T(==)>(s: seq<T>, x: T): nat
  {
    if |s| == 0 then 0 else (if s[0] == x then 1 else 0) + Count(s[1..], x)
  }

  /** `x` occurs at least twice exactly when two different positions hold it. */
  lemma {:induction false} CountAtLeastTwo<T>(s: seq<T>, x: T)
    ensures Count(s, x) > 1 <==> exists i, j :: 0 <= i < j < |s| && s[i] == x && s[j] == x
  {
    if |s| == 0 {
    } else {
      CountAtLeastTwo(s[1..], x);
      CountPositive(s[1..], x);
      if Count(s, x) > 1 {
        if s[0] == x {
          assert Count(s[1..], x) > 0;
          var k :| 0 <= k < |s[1..]| && s[1..][k] == x;
          assert s[0] == x && s[k + 1] == x;
        } else {
          var i, j :| 0 <= i < j < |s[1..]| && s[1..][i] == x && s[1..][j] == x;
          assert s[i + 1] == x && s[j + 1] == x;
        }
      }
      if exists i, j :: 0 <= i < j < |s| && s[i] == x && s[j] == x {
        var i, j :| 0 <= i < j < |s| && s[i] == x && s[j] == x;
        if i == 0 {
          assert s[1..][j - 1] == x;
        } else {
          assert s[1..][i - 1] == x && s[1..][j - 1] == x;
        }
      }
    }
  }

  /** `x` occurs at all exactly when its count is positive. */
  lemma {:induction false} CountPositive<T>(s: seq<T>, x: T)
    ensures Count(s, x) > 0 <==> exists k :: 0 <= k < |s| && s[k] == x
  {
    if |s| > 0 {
      CountPositive(s[1..], x);
      if exists k :: 0 <= k < |s| && s[k] == x {
        var k :| 0 <= k < |s| && s[k] == x;
        if k > 0 {
          assert s[1..][k - 1] == x;
        }
      }
    }
  }

  /** No element occurs twice. */
  predicate Distinct<T(==)>(s: seq<T>) {
    forall i, j :: 0 <= i < j < |s| ==> s[i] != s[j]
  }

  /** No element occurs twice exactly when every value is counted at most once. */
  lemma DistinctCounts<T>(s: seq<T>)
    ensures Distinct(s) <==> forall y :: multiset(s)[y] <= 1
  {
    if Distinct(s) {
      DistinctAtMostOnce(s);
    }
    if forall y :: multiset(s)[y] <= 1 {
      forall i, j | 0 <= i < j < |s|
        ensures s[i] != s[j]
      {
        assert s == s[..j] + s[j..];
        assert s[..j][i] == s[i] && s[j..][0] == s[j];
        assert multiset(s)[s[j]] == multiset(s[..j])[s[j]] + multiset(s[j..])[s[j]];
      }
    }
  }

  lemma {:induction false} DistinctAtMostOnce<T>(s: seq<T>)
    requires Distinct(s)
    ensures forall y :: multiset(s)[y] <= 1
  {
    if |s| > 0 {
      var t := s[1..];
      assert forall i :: 0 <= i < |t| ==> t[i] == s[i + 1];
      DistinctAtMostOnce(t);
      assert s == [s[0]] + t;
      assert s[0] !in t;
    }
  }

  /** The parts of a sequence without repetitions have none, and share no element. */
  lemma DistinctConcat<T>(a: seq<T>, b: seq<T>)
    requires Distinct(a + b)
    ensures Distinct(a) && Distinct(b)
    ensures forall x :: x in a ==> x !in b
  {
    assert forall i :: 0 <= i < |a| ==> (a + b)[i] == a[i];
    assert forall i :: 0 <= i < |b| ==> (a + b)[|a| + i] == b[i];
  }

  /** The consecutive naturals lo, lo+1, ..., hi-1. */
  function Range(lo: nat, hi: nat): (r: seq<nat>)
    requires lo <= hi
    ensures |r| == hi - lo
    ensures forall k :: 0 <= k < |r| ==> r[k] == lo + k
  {
    seq(hi - lo, k requires 0 <= k < hi - lo => lo + k)
  }

  /** A range holds each of its values once and nothing else. */
  lemma RangeCounts(lo: nat, hi: nat)
    requires lo <= hi
    ensures forall y :: multiset(Range(lo, hi))[y] == if lo <= y < hi then 1 else 0
  {
    var r := Range(lo, hi);
    assert Distinct(r);
    DistinctCounts(r);
    forall y
      ensures multiset(r)[y] == if lo <= y < hi then 1 else 0
    {
      if lo <= y < hi {
        assert r[y - lo] == y;
      } else {
        assert y !in r;
      }
    }
  }

  lemma RangeConcat(a: nat, b: nat, c: nat)
    requires a <= b <= c
    ensures Range(a, b) + Range(b, c) == Range(a, c)
  {
  }

  lemma RangeCons(a: nat, b: nat)
    requires a < b
    ensures [a] + Range(a + 1, b) == Range(a, b)
  {
  }
}
