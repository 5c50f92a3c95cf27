/** Circular doubly linked lists over address-indexed pointer fields. */
module Rings {

  ghost predicate Distinct(s: seq<int>) {
    forall i, j :: 0 <= i < j < |s| ==> s[i] != s[j]
  }

  /** Positions around the ring. */
  function Successor(n: nat, i: int): int {
    if i + 1 < n then i + 1 else 0
  }

  function Predecessor(n: nat, i: int): int {
    if i > 0 then i - 1 else n - 1
  }

  /** The nodes s, in this order, form a ring: next leads along s and back to its start, and prev
      is the inverse of next. */
  ghost predicate IsRing(s: seq<int>, next: map<int, int>, prev: map<int, int>) {
    |s| > 0 && Distinct(s) && forall i :: 0 <= i < |s| ==> Linked(s, next, prev, i)
  }

  ghost predicate Linked(s: seq<int>, next: map<int, int>, prev: map<int, int>, i: int)
    requires 0 <= i < |s|
  {
    s[i] in next && next[s[i]] == s[Successor(|s|, i)] &&
    s[i] in prev && prev[s[i]] == s[Predecessor(|s|, i)]
  }

  lemma SameNode(s: seq<int>, i: int, j: int)
    requires Distinct(s) && 0 <= i < |s| && 0 <= j < |s|
    ensures s[i] == s[j] <==> i == j
  {
  }

  lemma DistinctTail(s: seq<int>)
    requires Distinct(s) && s != []
    ensures Distinct(s[1..]) && s[0] !in s[1..]
  {
    forall i, j | 0 <= i < j < |s| - 1
      ensures s[1..][i] != s[1..][j]
    {
      SameNode(s, i + 1, j + 1);
    }
    forall i | 0 <= i < |s| - 1
      ensures s[1..][i] != s[0]
    {
      SameNode(s, i + 1, 0);
    }
  }

  function Inserted(s: seq<int>, i: int, a: int): seq<int>
    requires 0 <= i < |s|
  {
    s[..i + 1] + [a] + s[i + 1..]
  }

  lemma InsertedAt(s: seq<int>, i: int, a: int, k: int)
    requires 0 <= i < |s| && 0 <= k <= |s|
    ensures |Inserted(s, i, a)| == |s| + 1
    ensures Inserted(s, i, a)[k] == if k <= i then s[k] else if k == i + 1 then a else s[k - 1]
  {
  }

  lemma InsertedDistinct(s: seq<int>, i: int, a: int)
    requires Distinct(s) && 0 <= i < |s| && a !in s
    ensures Distinct(Inserted(s, i, a))
  {
  }

  /** The four pointer writes that put a after s[i]. */
  lemma InsertAfter(s: seq<int>, next: map<int, int>, prev: map<int, int>, i: int, a: int)
    requires IsRing(s, next, prev) && 0 <= i < |s| && a !in s
    requires s[i] in next
    ensures var n := next[s[i]];
            IsRing(Inserted(s, i, a), next[a := n][s[i] := a], prev[a := s[i]][n := a])
  {
    hide Distinct, Inserted;
    var n := next[s[i]];
    assert Linked(s, next, prev, i);
    var r := Inserted(s, i, a);
    InsertedDistinct(s, i, a);
    InsertedAt(s, i, a, 0);
    InsertedAt(s, i, a, |s|);
    var next', prev' := next[a := n][s[i] := a], prev[a := s[i]][n := a];
    forall k | 0 <= k < |r|
      ensures Linked(r, next', prev', k)
    {
      InsertedAt(s, i, a, k);
      InsertedAt(s, i, a, Successor(|r|, k));
      InsertedAt(s, i, a, Predecessor(|r|, k));
      if k != i + 1 {
        var o := if k <= i then k else k - 1;
        assert Linked(s, next, prev, o);
        SameNode(s, o, i);
        SameNode(s, o, Successor(|s|, i));
      }
    }
  }

  function Dropped(s: seq<int>, i: int): seq<int>
    requires 0 <= i < |s|
  {
    s[..i] + s[i + 1..]
  }

  lemma DroppedAt(s: seq<int>, i: int, k: int)
    requires 0 <= i < |s| && 0 <= k < |s| - 1
    ensures |Dropped(s, i)| == |s| - 1
    ensures Dropped(s, i)[k] == if k < i then s[k] else s[k + 1]
  {
  }

  /** The two pointer writes that take s[i] out. */
  lemma Remove(s: seq<int>, next: map<int, int>, prev: map<int, int>, i: int)
    requires IsRing(s, next, prev) && 0 < i < |s|
    requires s[i] in next && s[i] in prev
    ensures var x := s[i];
            IsRing(Dropped(s, i), next[prev[x] := next[x]], prev[next[x] := prev[x]])
  {
    var x := s[i];
    assert Linked(s, next, prev, i);
    var r := Dropped(s, i);
    var next', prev' := next[prev[x] := next[x]], prev[next[x] := prev[x]];
    assert forall k :: 0 <= k < |r| ==> r[k] == if k < i then s[k] else s[k + 1];
    forall k | 0 <= k < |r|
      ensures Linked(r, next', prev', k)
    {
      var o := if k < i then k else k + 1;
      assert Linked(s, next, prev, o);
      SameNode(s, o, i - 1);
      SameNode(s, o, Successor(|s|, i));
    }
  }

  /** Writes to nodes outside the ring do not matter. */
  lemma Unaffected(s: seq<int>, next: map<int, int>, prev: map<int, int>, next': map<int, int>, prev': map<int, int>)
    requires IsRing(s, next, prev)
    requires forall i {:trigger s[i]} :: 0 <= i < |s| && s[i] in next ==> s[i] in next' && next'[s[i]] == next[s[i]]
    requires forall i {:trigger s[i]} :: 0 <= i < |s| && s[i] in prev ==> s[i] in prev' && prev'[s[i]] == prev[s[i]]
    ensures IsRing(s, next', prev')
  {
    forall i | 0 <= i < |s|
      ensures Linked(s, next', prev', i)
    {
      assert Linked(s, next, prev, i);
    }
  }
}
