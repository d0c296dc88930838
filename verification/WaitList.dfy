// The lists of suspended threads of ipc.c: first come first served, or by priority.
module WaitList {
  import opened Sequences

  // A thread in a wait list, by number, with the priority it has; 0 is the best.
  function Position(prios: seq<nat>, p: nat): (i: nat)
    ensures i <= |prios|
  {
    if prios == [] || p < prios[0] then 0 else 1 + Position(prios[1..], p)
  }

  ghost predicate Sorted(prios: seq<nat>) { forall i, j :: 0 <= i < j < |prios| ==> prios[i] <= prios[j] }

  function Put<T>(s: seq<T>, i: nat, x: T): seq<T>
    requires i <= |s|
  {
    s[..i] + [x] + s[i..]
  }

  lemma {:induction false} PositionIs(prios: seq<nat>, p: nat)
    ensures var i := Position(prios, p);
      && (forall j :: 0 <= j < i ==> prios[j] <= p) && (i < |prios| ==> p < prios[i])
  {
    if prios != [] && !(p < prios[0]) {
      PositionIs(prios[1..], p);
      var i := Position(prios[1..], p);
      forall j | 0 <= j < 1 + i ensures prios[j] <= p {
        if j > 0 { assert prios[j] == prios[1..][j - 1]; }
      }
      assert i < |prios[1..]| ==> prios[1..][i] == prios[i + 1];
    }
  }

  // The list stays in the order of priority, threads of one priority in the order
  // in which they came.
  lemma {:induction false} PutIsStable(prios: seq<nat>, p: nat)
    requires Sorted(prios)
    ensures var i := Position(prios, p);
      && Sorted(Put(prios, i, p)) && (forall j :: 0 <= j < i ==> prios[j] <= p) && forall j :: i <= j < |prios| ==> p < prios[j]
  {
    PositionIs(prios, p);
    var i := Position(prios, p);
    assert forall j :: i <= j < |prios| ==> prios[i] <= prios[j];
  }

  lemma {:induction false} PositionFound(prios: seq<nat>, p: nat, i: nat)
    requires i <= |prios| && (forall k :: 0 <= k < i ==> prios[k] <= p) && (i < |prios| ==> p < prios[i])
    ensures Position(prios, p) == i
  {
    if i > 0 {
      PositionFound(prios[1..], p, i - 1);
    }
  }

  lemma PutIn(s: seq<nat>, i: nat, x: nat)
    requires i <= |s|
    ensures forall y :: y in Put(s, i, x) <==> y in s || y == x
    ensures Distinct(s) && x !in s ==> Distinct(Put(s, i, x))
  {
    assert s == s[..i] + s[i..];
  }
}
