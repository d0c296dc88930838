// Circular doubly linked lists: the links are two maps from a node to its
// neighbours, the list they form is the order in which the links visit the nodes.
module Rings {
  import opened Sequences

  function Succ(o: seq<int>, i: nat): int
    requires i < |o|
  {
    if i + 1 < |o| then o[i + 1] else o[0]
  }

  predicate Linked(next: map<int, int>, prev: map<int, int>, x: int, y: int) {
    x in next && next[x] == y && y in prev && prev[y] == x
  }

  ghost predicate IsRing(next: map<int, int>, prev: map<int, int>, o: seq<int>) {
    && |o| > 0 && Distinct(o)
    && forall i :: 0 <= i < |o| ==> Linked(next, prev, o[i], Succ(o, i))
  }

  function Insert(o: seq<int>, i: nat, x: int): seq<int>
    requires i < |o|
  {
    o[..i + 1] + [x] + o[i + 1..]
  }

  function Cut(o: seq<int>, i: nat): seq<int>
    requires i < |o|
  {
    o[..i] + o[i + 1..]
  }

  lemma InsertAt(o: seq<int>, i: nat, x: int, k: nat)
    requires i < |o| && k <= |o|
    ensures var r := Insert(o, i, x);
      && |r| == |o| + 1 && r[k] == (if k <= i then o[k] else if k == i + 1 then x else o[k - 1])
      && Succ(r, k) == if k < i then o[k + 1] else if k == i then x else if k == i + 1 then Succ(o, i) else Succ(o, k - 1)
  {
  }

  lemma InsertDistinct(o: seq<int>, i: nat, x: int)
    requires i < |o| && Distinct(o) && x !in o
    ensures Distinct(Insert(o, i, x))
  {
  }

  // A new node between node i and its successor.
  lemma InsertOk(next: map<int, int>, prev: map<int, int>, o: seq<int>, i: nat, x: int)
    requires IsRing(next, prev, o) && i < |o| && x !in o
    ensures IsRing(next[x := Succ(o, i)][o[i] := x], prev[x := o[i]][Succ(o, i) := x], Insert(o, i, x))
  {
    hide Insert;
    var r := Insert(o, i, x);
    var (n', p') := (next[x := Succ(o, i)][o[i] := x], prev[x := o[i]][Succ(o, i) := x]);
    InsertDistinct(o, i, x);
    InsertAt(o, i, x, 0);
    forall k | 0 <= k < |r| ensures Linked(n', p', r[k], Succ(r, k)) {
      InsertAt(o, i, x, k);
      if k < i {
        assert Linked(next, prev, o[k], Succ(o, k));
        assert i + 1 < |o| ==> o[k + 1] != o[i + 1];
      } else if k > i + 1 {
        assert Linked(next, prev, o[k - 1], Succ(o, k - 1));
      }
    }
  }

  // Taking out a node that is not the first.
  lemma RemoveOk(next: map<int, int>, prev: map<int, int>, o: seq<int>, i: nat)
    requires IsRing(next, prev, o) && 0 < i < |o|
    ensures Linked(next, prev, o[i - 1], o[i]) && Linked(next, prev, o[i], Succ(o, i))
    ensures IsRing(next[o[i - 1] := Succ(o, i)], prev[Succ(o, i) := o[i - 1]], Cut(o, i))
  {
    var r := Cut(o, i);
    var (n', p') := (next[o[i - 1] := Succ(o, i)], prev[Succ(o, i) := o[i - 1]]);
    assert Linked(next, prev, o[i], Succ(o, i));
    assert Linked(next, prev, o[i - 1], Succ(o, i - 1));
    forall k | 0 <= k < |r| ensures Linked(n', p', r[k], Succ(r, k)) {
      if k < i - 1 {
        assert Linked(next, prev, o[k], Succ(o, k));
        assert r[k] == o[k] && Succ(r, k) == o[k + 1];
      } else if k >= i {
        assert Linked(next, prev, o[k + 1], Succ(o, k + 1));
        assert r[k] == o[k + 1] && Succ(r, k) == Succ(o, k + 1);
      }
    }
  }

  // Links of nodes outside the ring do not matter.
  lemma OutsideOk(next: map<int, int>, prev: map<int, int>, o: seq<int>, x: int, y: int, z: int)
    requires IsRing(next, prev, o) && x !in o
    ensures IsRing(next[x := y], prev[x := z], o)
  {
    forall k | 0 <= k < |o| ensures Linked(next[x := y], prev[x := z], o[k], Succ(o, k)) {
      assert Linked(next, prev, o[k], Succ(o, k));
    }
  }

  lemma {:induction false} WithoutAt(o: seq<int>, j: nat)
    requires Distinct(o) && j < |o|
    ensures Without(o, o[j]) == Cut(o, j)
  {
    assert o == [o[0]] + o[1..];
    if j == 0 {
      assert forall i :: 0 <= i < |o[1..]| ==> o[1..][i] == o[i + 1];
      WithoutIn(o[1..], o[0]);
    } else {
      WithoutAt(o[1..], j - 1);
      assert Cut(o, j) == [o[0]] + Cut(o[1..], j - 1);
    }
  }
}
