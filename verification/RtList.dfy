// The doubly linked lists of rtservice.h: one pair of link fields per node, any
// number of circular lists over them.
module RtList {
  import opened Sequences
  import opened Rings

  // No node of o is one of r.
  ghost predicate Apart(o: seq<int>, r: seq<int>) { forall x :: x in o ==> x !in r }

  // Every ring that shares no node with o stays one.
  ghost predicate OthersStay(n: map<int, int>, p: map<int, int>, n': map<int, int>, p': map<int, int>, o: seq<int>) {
    forall r: seq<int> :: IsRing(n, p, r) && Apart(r, o) ==> IsRing(n', p', r)
  }

  ghost predicate SameBut(m: map<int, int>, m': map<int, int>, o: seq<int>) {
    forall x :: x !in o && x in m ==> x in m' && m'[x] == m[x]
  }

  lemma Elsewhere(n: map<int, int>, p: map<int, int>, n': map<int, int>, p': map<int, int>, o: seq<int>)
    requires SameBut(n, n', o) && SameBut(p, p', o)
    ensures OthersStay(n, p, n', p', o)
  {
    forall r: seq<int> | IsRing(n, p, r) && Apart(r, o) ensures IsRing(n', p', r) {
      forall i | 0 <= i < |r| ensures Linked(n', p', r[i], Succ(r, i)) {
        assert Linked(n, p, r[i], Succ(r, i));
        assert Succ(r, i) in r && r[i] in r;
      }
    }
  }

  // The node before node i.
  function Pred(o: seq<int>, i: nat): int
    requires i < |o|
  {
    if i > 0 then o[i - 1] else o[|o| - 1]
  }

  lemma Backwards(n: map<int, int>, p: map<int, int>, o: seq<int>, i: nat)
    requires IsRing(n, p, o) && i < |o|
    ensures o[i] in p && p[o[i]] == Pred(o, i) && o[i] in n && n[o[i]] == Succ(o, i)
    ensures var j := if i > 0 then i - 1 else |o| - 1; Pred(o, i) == o[j] && Succ(o, j) == o[i]
  {
    var j := if i > 0 then i - 1 else |o| - 1;
    assert Linked(n, p, o[j], Succ(o, j));
    assert Linked(n, p, o[i], Succ(o, i));
  }

  // A ring may be read from any of its nodes on.
  function Turn(o: seq<int>, i: nat): seq<int>
    requires i < |o|
  {
    o[i..] + o[..i]
  }

  lemma TurnOk(n: map<int, int>, p: map<int, int>, o: seq<int>, i: nat)
    requires IsRing(n, p, o) && i < |o|
    ensures IsRing(n, p, Turn(o, i)) && Turn(o, i)[0] == o[i] && |Turn(o, i)| == |o|
    ensures forall x :: x in Turn(o, i) <==> x in o
  {
    var r := Turn(o, i);
    forall k | 0 <= k < |r| ensures Linked(n, p, r[k], Succ(r, k)) {
      var j := if k + i < |o| then k + i else k + i - |o|;
      assert r[k] == o[j] && Succ(r, k) == Succ(o, j);
      assert Linked(n, p, o[j], Succ(o, j));
    }
    assert o == o[..i] + o[i..];
  }

  // Two readings of the links from one node give one list.
  lemma {:induction false} RingIsUnique(n: map<int, int>, p: map<int, int>, o: seq<int>, r: seq<int>, k: nat)
    requires IsRing(n, p, o) && IsRing(n, p, r) && o[0] == r[0] && k < |o|
    ensures k < |r| && o[k] == r[k]
  {
    if k > 0 {
      RingIsUnique(n, p, o, r, k - 1);
      assert Linked(n, p, o[k - 1], Succ(o, k - 1)) && Linked(n, p, r[k - 1], Succ(r, k - 1));
    }
  }

  // The links determine the list.
  lemma LinksDetermine(n: map<int, int>, p: map<int, int>, o: seq<int>, r: seq<int>)
    requires IsRing(n, p, o) && IsRing(n, p, r) && o[0] == r[0]
    ensures o == r
  {
    forall k | 0 <= k < |o| ensures k < |r| && o[k] == r[k] { RingIsUnique(n, p, o, r, k); }
    forall k | 0 <= k < |r| ensures k < |o| && o[k] == r[k] { RingIsUnique(n, p, r, o, k); }
    RingIsUnique(n, p, o, r, |o| - 1);
    RingIsUnique(n, p, r, o, |r| - 1);
  }

  class Links {
    var next: map<int, int>
    var prev: map<int, int>

    constructor ()
      ensures next == map[] && prev == map[]
    {
      next, prev := map[], map[];
    }

    // rt_list_init.
    method Init(l: int)
      modifies this
      ensures IsRing(next, prev, [l]) && OthersStay(old(next), old(prev), next, prev, [l])
    {
      prev := prev[l := l];
      next := next[l := l];
      Elsewhere(old(next), old(prev), next, prev, [l]);
      assert Linked(next, prev, [l][0], Succ([l], 0));
    }

    // rt_list_insert_after, where l is node i of the list o.
    method InsertAfter(l: int, n: int, ghost o: seq<int>, ghost i: nat)
      requires IsRing(next, prev, o) && i < |o| && o[i] == l && n !in o
      modifies this
      ensures IsRing(next, prev, Insert(o, i, n))
      ensures OthersStay(old(next), old(prev), next, prev, o + [n])
    {
      hide IsRing, Insert;
      Backwards(next, prev, o, i);
      ghost var s := Succ(o, i);
      assert s in o;
      prev := prev[next[l] := n];
      next := next[n := next[l]];
      next := next[l := n];
      prev := prev[n := l];
      InsertOk(old(next), old(prev), o, i, n);
      assert prev == old(prev)[n := l][s := n];
      Elsewhere(old(next), old(prev), next, prev, o + [n]);
    }

    // rt_list_insert_before, where l is node i of the list o; before the head is the
    // last place.
    method InsertBefore(l: int, n: int, ghost o: seq<int>, ghost i: nat)
      requires IsRing(next, prev, o) && i < |o| && o[i] == l && n !in o
      modifies this
      ensures IsRing(next, prev, if i == 0 then o + [n] else o[..i] + [n] + o[i..])
      ensures OthersStay(old(next), old(prev), next, prev, o + [n])
    {
      hide IsRing, Insert;
      ghost var j: nat := Before(next, prev, o, i, n);
      Backwards(next, prev, o, i);
      assert o[j] in o;
      next := next[prev[l] := n];
      prev := prev[n := prev[l]];
      prev := prev[l := n];
      next := next[n := l];
      InsertOk(old(next), old(prev), o, j, n);
      assert next == old(next)[n := l][o[j] := n];
      Elsewhere(old(next), old(prev), next, prev, o + [n]);
    }

    // rt_list_remove of node i of the list o; a list of one node is its own list again.
    method Remove(n: int, ghost o: seq<int>, ghost i: nat)
      requires IsRing(next, prev, o) && i < |o| && o[i] == n
      modifies this
      ensures IsRing(next, prev, [n]) && (1 < |o| ==> IsRing(next, prev, Cut(o, i)))
      ensures OthersStay(old(next), old(prev), next, prev, o)
    {
      hide Cut, Turn;
      ghost var r, k := NotFirst(next, prev, o, i);
      Backwards(next, prev, r, k);
      if 0 < k {
        assert Succ(r, k) in r && n !in Cut(r, k) by { NotInCut(r, k); }
        RemoveOk(next, prev, r, k);
      }
      prev := prev[next[n] := prev[n]];
      next := next[prev[n] := next[n]];
      if 0 < k { OutsideOk(next, prev, Cut(r, k), n, n, n); }
      next := next[n := n];
      prev := prev[n := n];
      assert Linked(next, prev, [n][0], Succ([n], 0));
      Elsewhere(old(next), old(prev), next, prev, o);
    }

    // rt_list_isempty.
    method IsEmpty(l: int, ghost o: seq<int>) returns (r: bool)
      requires IsRing(next, prev, o) && o[0] == l
      ensures r <==> o == [l]
    {
      Backwards(next, prev, o, 0);
      r := next[l] == l;
    }

    // rt_list_len: the nodes apart from the head.
    method Len(l: int, ghost o: seq<int>) returns (len: nat)
      requires IsRing(next, prev, o) && o[0] == l
      ensures len == |o| - 1
    {
      len := 0;
      var p := l;
      Backwards(next, prev, o, 0);
      while next[p] != l
        invariant len < |o| && p == o[len] && p in next
        decreases |o| - len
      {
        Backwards(next, prev, o, len);
        p := next[p];
        len := len + 1;
        Backwards(next, prev, o, len);
      }
      Backwards(next, prev, o, len);
    }
  }

  // The node behind which a node comes that is inserted before node i.
  lemma Before(n: map<int, int>, p: map<int, int>, o: seq<int>, i: nat, x: int) returns (j: nat)
    requires IsRing(n, p, o) && i < |o|
    ensures j < |o| && Succ(o, j) == o[i] && Pred(o, i) == o[j]
    ensures Insert(o, j, x) == if i == 0 then o + [x] else o[..i] + [x] + o[i..]
  {
    j := if i > 0 then i - 1 else |o| - 1;
    assert o[..|o|] == o;
  }

  // The list read so that node i is not its head, unless it is alone.
  lemma NotFirst(n: map<int, int>, p: map<int, int>, o: seq<int>, i: nat) returns (r: seq<int>, k: nat)
    requires IsRing(n, p, o) && i < |o|
    ensures IsRing(n, p, r) && k < |r| == |o| && r[k] == o[i] && (k == 0 <==> |o| == 1) && Cut(r, k) == Cut(o, i)
    ensures forall x :: x in r <==> x in o
  {
    if i == 0 && 1 < |o| {
      r, k := Turn(o, 1), |o| - 1;
      TurnOk(n, p, o, 1);
    } else {
      r, k := o, i;
    }
  }

  lemma NotInCut(o: seq<int>, i: nat)
    requires Distinct(o) && i < |o|
    ensures o[i] !in Cut(o, i)
  {
  }
}
