// The search of kconfiglib.py for dependency loops, over symbols without choices:
// depth first along the dependents, with a mark on every symbol.
module KconfigLoops {
  type Sym = nat

  // What a visit returns: no loop, the part of a loop found so far, or the loop it
  // raises an error with.
  datatype Found = Nothing | Part(loop: seq<Sym>) | Raised(loop: seq<Sym>)

  predicate Closed(deps: seq<set<Sym>>) { forall s, d :: 0 <= s < |deps| && d in deps[s] ==> d < |deps| }

  // Each symbol of c is among the dependents of the next.
  ghost predicate Backwards(deps: seq<set<Sym>>, c: seq<Sym>) {
    && |c| > 0 && (forall i :: 0 <= i < |c| ==> c[i] < |deps|)
    && forall i :: 0 < i < |c| ==> c[i - 1] in deps[c[i]]
  }

  // And the last among those of the first.
  ghost predicate IsLoop(deps: seq<set<Sym>>, c: seq<Sym>) { Backwards(deps, c) && c[|c| - 1] in deps[c[0]] }

  // Every dependent of a finished symbol was finished before it.
  ghost predicate Finished(deps: seq<set<Sym>>, done: seq<Sym>) {
    forall i :: 0 <= i < |done| ==> done[i] < |deps| && deps[done[i]] <= (set j | 0 <= j < i :: done[j])
  }

  lemma FinishOne(deps: seq<set<Sym>>, done: seq<Sym>, s: Sym)
    requires Finished(deps, done) && s < |deps| && forall d :: d in deps[s] ==> d in done
    ensures Finished(deps, done + [s])
  {
    var r := done + [s];
    forall i | 0 <= i < |r| ensures r[i] < |deps| && deps[r[i]] <= (set j | 0 <= j < i :: r[j]) {
      forall d | d in deps[r[i]] ensures d in (set j | 0 <= j < i :: r[j]) {
        if i < |done| {
          assert d in (set j | 0 <= j < i :: done[j]);
          var j :| 0 <= j < i && done[j] == d;
          assert r[j] == d;
        } else {
          var j :| 0 <= j < |done| && done[j] == d;
          assert r[j] == d;
        }
      }
    }
  }

  // The position at which a symbol was finished.
  lemma EarlierInOrder(deps: seq<set<Sym>>, done: seq<Sym>, i: nat, d: Sym) returns (j: nat)
    requires Finished(deps, done) && i < |done| && d in deps[done[i]]
    ensures j < i && done[j] == d
  {
    assert d in (set j | 0 <= j < i :: done[j]);
    j :| 0 <= j < i && done[j] == d;
  }

  // If all symbols are finished there is no loop: along a loop the positions would
  // fall for ever.
  lemma FinishedHasNoLoop(deps: seq<set<Sym>>, done: seq<Sym>, c: seq<Sym>)
    requires Finished(deps, done) && (forall s: Sym :: s < |deps| ==> s in done)
    ensures !IsLoop(deps, c)
  {
    if IsLoop(deps, c) {
      assert c[0] in done;
      var i: nat :| i < |done| && done[i] == c[0];
      var j := EarlierInOrder(deps, done, i, c[|c| - 1]);
      var k := Descend(deps, done, c, |c| - 1, j);
      FallForEver(deps, done, c, k);
    }
  }

  // From the position of c[m] down to one of c[0].
  lemma Descend(deps: seq<set<Sym>>, done: seq<Sym>, c: seq<Sym>, m: nat, i: nat) returns (k: nat)
    requires Finished(deps, done) && Backwards(deps, c) && m < |c| && i < |done| && done[i] == c[m]
    ensures k <= i && done[k] == c[0]
    decreases m
  {
    if m == 0 {
      k := i;
    } else {
      var j := EarlierInOrder(deps, done, i, c[m - 1]);
      k := Descend(deps, done, c, m - 1, j);
    }
  }

  lemma FallForEver(deps: seq<set<Sym>>, done: seq<Sym>, c: seq<Sym>, i: nat)
    requires Finished(deps, done) && IsLoop(deps, c) && i < |done| && done[i] == c[0]
    ensures false
    decreases i
  {
    var j := EarlierInOrder(deps, done, i, c[|c| - 1]);
    var k := Descend(deps, done, c, |c| - 1, j);
    FallForEver(deps, done, c, k);
  }

  // Different numbers, such that every symbol has a lower one than its dependents.
  ghost predicate Numbering(deps: seq<set<Sym>>, rank: seq<nat>) {
    && |rank| == |deps| && Closed(deps)
    && (forall s, t :: 0 <= s < t < |rank| ==> rank[s] != rank[t])
    && forall s, d :: 0 <= s < |rank| && d in deps[s] && d < |rank| ==> rank[s] < rank[d]
  }

  // How long before the end of the list s comes first.
  function Rank(done: seq<Sym>, s: Sym): nat {
    if done == [] then 0 else if done[0] == s then |done| - 1 else Rank(done[1..], s)
  }

  lemma {:induction false} RankIs(done: seq<Sym>, s: Sym) returns (i: nat)
    requires s in done
    ensures i < |done| && done[i] == s && Rank(done, s) == |done| - 1 - i && s !in done[..i]
  {
    if done[0] == s {
      i := 0;
    } else {
      var j := RankIs(done[1..], s);
      i := j + 1;
      assert done[..i] == [done[0]] + done[1..][..j];
    }
  }

  function Ranks(deps: seq<set<Sym>>, done: seq<Sym>): (r: seq<nat>)
    ensures |r| == |deps| && forall s :: 0 <= s < |r| ==> r[s] == Rank(done, s)
  {
    seq(|deps|, s requires 0 <= s < |deps| => Rank(done, s))
  }

  // The reverse of the order in which all symbols were finished is such a numbering.
  lemma FinishedIsNumbered(deps: seq<set<Sym>>, done: seq<Sym>)
    requires Closed(deps) && Finished(deps, done) && (forall s: Sym :: s < |deps| ==> s in done)
    ensures Numbering(deps, Ranks(deps, done))
  {
    var rank := Ranks(deps, done);
    forall s, t | 0 <= s < t < |rank| ensures rank[s] != rank[t] {
      var i := RankIs(done, s);
      var j := RankIs(done, t);
    }
    forall s, d | 0 <= s < |rank| && d in deps[s] && d < |rank| ensures rank[s] < rank[d] {
      var i := RankIs(done, s);
      var j := EarlierInOrder(deps, done, i, d);
      var k := RankIs(done, d);
    }
  }

  // And a graph that has one has no loop: the numbers would rise for ever.
  lemma NumberedHasNoLoop(deps: seq<set<Sym>>, rank: seq<nat>, c: seq<Sym>)
    requires Numbering(deps, rank)
    ensures !IsLoop(deps, c)
  {
    if IsLoop(deps, c) { RanksFall(deps, rank, c, |c| - 1); }
  }

  lemma {:induction false} RanksFall(deps: seq<set<Sym>>, rank: seq<nat>, c: seq<Sym>, m: nat)
    requires Numbering(deps, rank) && Backwards(deps, c) && m < |c|
    ensures rank[c[m]] <= rank[c[0]]
  {
    if m > 0 {
      RanksFall(deps, rank, c, m - 1);
      assert c[m - 1] in deps[c[m]];
    }
  }

  // Symbol m depends on s, over any number of others, or is s.
  ghost predicate Feeds(deps: seq<set<Sym>>, s: Sym, m: Sym) {
    exists c :: Backwards(deps, c) && c[|c| - 1] == s && c[0] == m
  }

  ghost predicate IsFirst(rank: seq<nat>, m: Sym, ts: set<Sym>) {
    m < |rank| && forall t :: t in ts ==> t < |rank| && rank[m] < rank[t]
  }

  // The type of every tristate depends on MODULES, which the search does not follow.
  // What it accepts can be numbered with MODULES before them exactly if MODULES does not
  // depend on any tristate.
  lemma ModulesFirstIff(deps: seq<set<Sym>>, rank: seq<nat>, m: Sym, ts: set<Sym>)
    requires Numbering(deps, rank) && m < |deps| && forall t :: t in ts ==> t < |deps|
    ensures (exists r: seq<nat> :: Numbering(deps, r) && IsFirst(r, m, ts)) <==> forall t :: t in ts ==> !Feeds(deps, t, m)
  {
    hide Feeds, Numbering;
    if forall t :: t in ts ==> !Feeds(deps, t, m) {
      FeedersAreFirst(deps, rank, m, ts);
    }
    forall r: seq<nat>, t | Numbering(deps, r) && IsFirst(r, m, ts) && t in ts ensures !Feeds(deps, t, m) {
      if Feeds(deps, t, m) { FeedsIsLower(deps, r, t, m); }
    }
  }

  // What m depends on keeps its numbers; all else comes behind m.
  ghost function MovedUp(deps: seq<set<Sym>>, rank: seq<nat>, m: Sym): (r: seq<nat>)
    requires m < |rank|
    ensures |r| == |rank| && forall s :: 0 <= s < |r| ==> r[s] == if Feeds(deps, s, m) then rank[s] else rank[s] + rank[m] + 1
  {
    seq(|rank|, s requires 0 <= s < |rank| => if Feeds(deps, s, m) then rank[s] else rank[s] + rank[m] + 1)
  }

  lemma FeedersAreFirst(deps: seq<set<Sym>>, rank: seq<nat>, m: Sym, ts: set<Sym>)
    requires Numbering(deps, rank) && m < |deps| && forall t :: t in ts ==> t < |deps| && !Feeds(deps, t, m)
    ensures Numbering(deps, MovedUp(deps, rank, m)) && IsFirst(MovedUp(deps, rank, m), m, ts)
  {
    hide Feeds, MovedUp, IsFirst;
    MovedUpIsNumbering(deps, rank, m);
    MovedUpIsFirst(deps, rank, m, ts);
  }

  lemma MovedUpIsFirst(deps: seq<set<Sym>>, rank: seq<nat>, m: Sym, ts: set<Sym>)
    requires |rank| == |deps| && m < |deps| && forall t :: t in ts ==> t < |deps| && !Feeds(deps, t, m)
    ensures IsFirst(MovedUp(deps, rank, m), m, ts)
  {
    hide Feeds;
    FeedsItself(deps, m);
    var r := MovedUp(deps, rank, m);
    forall t | t in ts ensures t < |r| && r[m] < r[t] {}
  }

  lemma MovedUpIsNumbering(deps: seq<set<Sym>>, rank: seq<nat>, m: Sym)
    requires Numbering(deps, rank) && m < |deps|
    ensures Numbering(deps, MovedUp(deps, rank, m))
  {
    hide MovedUp, Feeds;
    var r := MovedUp(deps, rank, m);
    forall s, d | 0 <= s < |r| && d in deps[s] && d < |r| ensures r[s] < r[d] {
      Rises(deps, rank, s, d);
      MovedUpRises(deps, rank, m, s, d);
    }
    forall s, t | 0 <= s < t < |r| ensures r[s] != r[t] { MovedUpDiffers(deps, rank, m, s, t); }
  }

  lemma Rises(deps: seq<set<Sym>>, rank: seq<nat>, s: Sym, d: Sym)
    requires Numbering(deps, rank) && s < |rank| && d in deps[s]
    ensures d < |rank| && rank[s] < rank[d]
  {
  }

  lemma MovedUpRises(deps: seq<set<Sym>>, rank: seq<nat>, m: Sym, s: Sym, d: Sym)
    requires |rank| == |deps| && m < |deps| && s < |rank| && d < |rank| && d in deps[s] && rank[s] < rank[d]
    ensures MovedUp(deps, rank, m)[s] < MovedUp(deps, rank, m)[d]
  {
    hide Feeds;
    if Feeds(deps, d, m) { FeedsBefore(deps, s, d, m); }
  }

  lemma MovedUpDiffers(deps: seq<set<Sym>>, rank: seq<nat>, m: Sym, s: Sym, t: Sym)
    requires Numbering(deps, rank) && m < |deps| && s < t < |rank|
    ensures MovedUp(deps, rank, m)[s] != MovedUp(deps, rank, m)[t]
  {
    hide Feeds;
    assert rank[s] != rank[t];
    if Feeds(deps, s, m) { FeedsIsLower(deps, rank, s, m); }
    if Feeds(deps, t, m) { FeedsIsLower(deps, rank, t, m); }
  }

  lemma FeedsItself(deps: seq<set<Sym>>, m: Sym)
    requires m < |deps|
    ensures Feeds(deps, m, m)
  {
    assert Backwards(deps, [m]);
  }

  lemma FeedsIsLower(deps: seq<set<Sym>>, rank: seq<nat>, s: Sym, m: Sym)
    requires Numbering(deps, rank) && Feeds(deps, s, m)
    ensures s < |rank| && m < |rank| && rank[s] <= rank[m]
  {
    var c :| Backwards(deps, c) && c[|c| - 1] == s && c[0] == m;
    RanksFall(deps, rank, c, |c| - 1);
  }

  lemma FeedsBefore(deps: seq<set<Sym>>, s: Sym, d: Sym, m: Sym)
    requires s < |deps| && d in deps[s] && Feeds(deps, d, m)
    ensures Feeds(deps, s, m)
  {
    var c :| Backwards(deps, c) && c[|c| - 1] == d && c[0] == m;
    assert Backwards(deps, c + [s]);
  }

  // So MODULES depending on tristate 0 passes the search, and no numbering serves.
  lemma FedModulesPass(rank: seq<nat>)
    ensures var deps := [{1}, {}];
      && Numbering(deps, [0, 1]) && (forall c :: !IsLoop(deps, c)) && !(Numbering(deps, rank) && IsFirst(rank, 1, {0}))
  {
    var deps: seq<set<Sym>> := [{1}, {}];
    assert Numbering(deps, [0, 1]);
    forall c ensures !IsLoop(deps, c) { NumberedHasNoLoop(deps, [0, 1], c); }
    assert 1 in deps[0];
  }

  class Search {
    const deps: seq<set<Sym>>
    var visited: seq<nat>    // 0: not yet, 1: on the way, 2: without loop
    ghost var done: seq<Sym>

    // path: the symbols whose visits are under way, outermost first.
    ghost predicate Valid(path: seq<Sym>)
      reads this
    {
      && Closed(deps) && |visited| == |deps| && Finished(deps, done)
      && (forall s: Sym :: s < |visited| ==> visited[s] <= 2)
      && (forall s: Sym :: s < |visited| ==> (visited[s] == 1 <==> s in path))
      && (forall s: Sym :: s < |visited| ==> (visited[s] == 2 <==> s in done))
      && (forall s :: s in path ==> s < |visited|)
    }

    ghost function Unvisited(): (r: set<Sym>)
      reads this
    {
      set s: Sym | s < |visited| && visited[s] == 0
    }

    constructor (deps: seq<set<Sym>>)
      requires Closed(deps)
      ensures Valid([]) && this.deps == deps
    {
      this.deps := deps;
      visited := seq(|deps|, _ => 0);
      done := [];
    }

    // _check_dep_loop_sym.
    method CheckSym(s: Sym, ghost path: seq<Sym>) returns (r: Found)
      requires Valid(path) && s < |deps|
      modifies this
      ensures r.Nothing? ==> Valid(path) && visited[s] == 2
      ensures r.Nothing? ==> Unvisited() <= old(Unvisited()) && forall x :: x in old(done) ==> x in done
      ensures r.Part? ==> Backwards(deps, r.loop) && r.loop[0] in path && r.loop[|r.loop| - 1] == s
      ensures r.Raised? ==> IsLoop(deps, r.loop)
      decreases Unvisited()
    {
      if visited[s] == 0 {
        visited := visited[s := 1];
        ghost var inner := path + [s];
        var rest := deps[s];
        while rest != {}
          invariant Valid(inner) && rest <= deps[s] && s !in old(Unvisited()) - {s}
          invariant Unvisited() <= old(Unvisited()) - {s} && forall x :: x in old(done) ==> x in done
          invariant forall d :: d in deps[s] - rest ==> d in done
        {
          var dep :| dep in rest;
          rest := rest - {dep};
          r := CheckSym(dep, inner);
          match r {
            case Nothing =>
            case Part(loop) =>
              r := FoundLoop(loop, s);
              return;
            case Raised(_) =>
              return;
          }
        }
        visited := visited[s := 2];
        FinishOne(deps, done, s);
        done := done + [s];
        r := Nothing;
      } else if visited[s] == 2 {
        r := Nothing;
      } else {
        r := Part([s]);
      }
    }

    // _found_dep_loop: cur extends the loop, or it is where the loop started.
    method FoundLoop(loop: seq<Sym>, cur: Sym) returns (r: Found)
      requires Backwards(deps, loop) && cur < |deps| && loop[|loop| - 1] in deps[cur]
      ensures r == if cur != loop[0] then Part(loop + [cur]) else Raised(loop)
      ensures r.Part? ==> Backwards(deps, r.loop)
      ensures r.Raised? ==> IsLoop(deps, r.loop)
    {
      r := if cur != loop[0] then Part(loop + [cur]) else Raised(loop);
    }

    // The check of every symbol raises an error exactly if there is a loop, and with
    // a genuine loop; otherwise it has found a numbering.
    method CheckAll() returns (r: Found)
      requires Valid([]) && done == []
      modifies this
      ensures !r.Part?
      ensures r.Raised? ==> IsLoop(deps, r.loop)
      ensures r.Raised? <==> exists c :: IsLoop(deps, c)
      ensures r.Nothing? ==> Numbering(deps, Ranks(deps, done))
      ensures r.Raised? ==> forall rank: seq<nat> :: !Numbering(deps, rank)
    {
      var s := 0;
      while s < |deps|
        invariant s <= |deps| && Valid([])
        invariant forall x: Sym :: x < s ==> x in done
      {
        r := CheckSym(s, []);
        if !r.Nothing? {
          forall rank: seq<nat> ensures !Numbering(deps, rank) {
            if Numbering(deps, rank) { NumberedHasNoLoop(deps, rank, r.loop); }
          }
          return;
        }
        s := s + 1;
      }
      r := Nothing;
      FinishedIsNumbered(deps, done);
      forall c ensures !IsLoop(deps, c) {
        FinishedHasNoLoop(deps, done, c);
      }
    }
  }
}
