// What every run of the scheduler keeps, and whom it makes current.
module SchedulerTheorems {
  import opened Common
  import opened Sequences
  import opened BitSets
  import opened ReadyGroup
  import opened WaitList
  import opened SchedulerSpec

  // ----- ready lists -----

  lemma InsertOk(s: State, t: Tid)
    requires Listed(s.table, s.threads) && Grouped(s.table, s.group) && t in s.threads
    requires !s.threads[t].stat.Ready? && s.threads[t].mask == Mask(s.threads[t].priority)
    ensures var r := InsertThread(s, t); Listed(r.table, r.threads) && Grouped(r.table, r.group)
  {
    hide Mask, Bit, Join, Minus;
    var p := s.threads[t].priority;
    assert t !in s.table[p];
    AppendDistinct(s.table[p], t);
    BitsAreIndependent(s.group, p);
    var r := InsertThread(s, t);
    forall q, u | 0 <= q < PRIORITIES && u in r.table[q] ensures u in r.threads && r.threads[u].stat.Ready? && r.threads[u].priority == q {
      if u != t { assert u in s.table[q]; }
    }
  }

  lemma AppendDistinct(s: seq<Tid>, t: Tid)
    requires Distinct(s) && t !in s
    ensures Distinct(s + [t]) && forall u :: u in s + [t] <==> u in s || u == t
  {
  }

  // The lists without t, whatever becomes of t, if it is not READY afterwards.
  lemma RemoveOk(s: State, t: Tid, th: Thread)
    requires Listed(s.table, s.threads) && Grouped(s.table, s.group) && t in s.threads && s.threads[t].mask == Mask(s.threads[t].priority)
    requires ThreadOk(th) && !th.stat.Ready?
    ensures var r := RemoveThread(s, t); Listed(r.table, r.threads[t := th]) && Grouped(r.table, r.group)
  {
    hide Mask, Bit, Join, Minus;
    var p := s.threads[t].priority;
    WithoutIn(s.table[p], t);
    BitsAreIndependent(s.group, p);
    var r := RemoveThread(s, t);
    forall q, u | 0 <= q < PRIORITIES && u in r.table[q]
      ensures u in r.threads && r.threads[u].stat.Ready? && r.threads[u].priority == q && u != t {
      assert u in s.table[q];
    }
    forall u | u in r.threads && u != t && r.threads[u].stat.Ready? ensures u in r.table[r.threads[u].priority] {
      assert u in s.table[s.threads[u].priority];
    }
  }

  // ----- rt_schedule -----

  lemma BusyGroup(s: State)
    requires Invariant(s)
    ensures Busy(s) <==> s.group != 0
  {
    hide Ffs, Mask, Meet;
    if Busy(s) {
      var t :| t in s.threads && s.threads[t].stat.Ready?;
      assert t in s.table[s.threads[t].priority];
      EmptyGroup(s.threads[t].priority);
    }
    if s.group != 0 {
      FfsIsLowest(s.group);
      var p: nat := Ffs(s.group) - 1;
      assert s.table[p][0] in s.table[p];
      assert s.threads[s.table[p][0]].stat.Ready?;
    }
  }

  // The list that the search for the lowest bit leads to.
  lemma LowestList(s: State)
    requires Invariant(s) && s.group != 0
    ensures 0 < Ffs(s.group) <= |s.table| == PRIORITIES && s.table[Ffs(s.group) - 1] != []
    ensures forall p :: 0 <= p < Ffs(s.group) - 1 ==> s.table[p] == []
  {
    hide Ffs, Bit, Listed;
    FfsIsLowest(s.group);
  }

  lemma HeadIsBest(s: State, p: nat)
    requires Listed(s.table, s.threads) && p < PRIORITIES && s.table[p] != [] && forall q :: 0 <= q < p ==> s.table[q] == []
    ensures Best(s, s.table[p][0]) && s.threads[s.table[p][0]].priority == p
  {
    assert s.table[p][0] in s.table[p];
    forall u | u in s.threads && s.threads[u].stat.Ready? ensures p <= s.threads[u].priority {
      assert u in s.table[s.threads[u].priority];
    }
  }

  // An unlocked rt_schedule makes a ready thread current that no ready thread beats:
  // the first in the list of the best priority that has one.
  lemma SchedulePicksBest(s: State)
    requires Invariant(s) && Busy(s) && s.nest == 0
    ensures 0 < Ffs(s.group) <= |s.table| && s.table[Ffs(s.group) - 1] != []
    ensures var r := Schedule(s);
      && r.current.Some? && Best(s, r.current.value) && Invariant(r)
      && s.threads[r.current.value].priority == Ffs(s.group) - 1
      && r.current.value == s.table[s.threads[r.current.value].priority][0]
      && r.table == s.table && r.threads == s.threads && r.group == s.group
  {
    hide Ffs, Listed, Grouped, ThreadOk, Bit;
    BusyGroup(s);
    LowestList(s);
    HeadIsBest(s, Ffs(s.group) - 1);
  }

  // ----- what every operation does -----

  ghost predicate OthersAre(s: State, r: State, t: Tid) {
    r.threads.Keys == s.threads.Keys && forall u :: u in s.threads && u != t ==> r.threads[u] == s.threads[u]
  }

  // Thread t has come into the state, at the priority; the others are as they were, and
  // so is who runs.
  ghost predicate Becomes(s: State, r: State, t: Tid, stat: Stat, priority: nat) {
    && OthersAre(s, r, t) && t in r.threads && r.threads[t].stat == stat && r.threads[t].priority == priority
    && r.current == s.current && r.currentPriority == s.currentPriority && r.nest == s.nest
  }

  // ----- every operation keeps the invariant -----

  lemma ResumeOk(s: State, t: Tid)
    requires Invariant(s) && t in s.threads
    ensures s.threads[t].priority < |s.table| && Invariant(Resume(s, t).0)
    ensures var (r, ok) := Resume(s, t);
      ok == s.threads[t].stat.Suspended? && if ok then Becomes(s, r, t, Ready, s.threads[t].priority) else r == s
  {
    hide Grouped, Mask;
    if s.threads[t].stat.Suspended? { InsertOk(s, t); }
  }

  lemma StartupBecomes(s: State, t: Tid)
    requires t in s.threads && s.threads[t].initPriority < |s.table|
    ensures Becomes(s, Startup(s, t), t, Ready, s.threads[t].initPriority)
  {
    hide Mask, Join;
  }

  lemma StartupOk(s: State, t: Tid)
    requires Invariant(s) && t in s.threads && s.threads[t].stat.Init?
    ensures s.threads[t].initPriority < |s.table| && Invariant(Startup(s, t))
    ensures Becomes(s, Startup(s, t), t, Ready, s.threads[t].initPriority)
  {
    hide Grouped, Mask, Becomes;
    var p := s.threads[t].initPriority;
    StartupBecomes(s, t);
    var m := s.(threads := s.threads[t := s.threads[t].(priority := p, mask := Mask(p), stat := Suspended)]);
    assert forall q :: 0 <= q < PRIORITIES ==> t !in s.table[q];
    assert Listed(m.table, m.threads);
    InsertOk(m, t);
  }

  lemma SuspendOk(s: State, t: Tid)
    requires Invariant(s) && t in s.threads
    ensures s.threads[t].priority < |s.table| && Invariant(Suspend(s, t).0)
    ensures var (r, ok) := Suspend(s, t);
      ok == s.threads[t].stat.Ready? && if ok then Becomes(s, r, t, Suspended, s.threads[t].priority) else r == s
  {
    hide Grouped, Mask;
    if s.threads[t].stat.Ready? { RemoveOk(s, t, s.threads[t].(stat := Suspended)); }
  }

  lemma ChangePriorityOk(s: State, t: Tid, p: nat)
    requires Invariant(s) && t in s.threads && p < PRIORITIES
    ensures s.threads[t].priority < |s.table| == PRIORITIES && Invariant(ChangePriority(s, t, p))
    ensures Becomes(s, ChangePriority(s, t, p), t, s.threads[t].stat, p)
  {
    hide Grouped, Mask;
    if s.threads[t].stat.Ready? {
      MoveOk(s, t, p);
      MoveBecomes(s, t, p);
    } else {
      assert forall q :: 0 <= q < PRIORITIES ==> t !in s.table[q];
    }
  }

  lemma MoveBecomes(s: State, t: Tid, p: nat)
    requires t in s.threads && s.threads[t].priority < |s.table| && p < |s.table| && s.threads[t].stat.Ready?
    ensures Becomes(s, ChangePriority(s, t, p), t, Ready, p)
  {
    hide Mask, Join, Minus, Without;
  }

  lemma MoveOk(s: State, t: Tid, p: nat)
    requires Invariant(s) && t in s.threads && p < PRIORITIES && s.threads[t].stat.Ready?
    ensures s.threads[t].priority < |s.table| == PRIORITIES && Invariant(ChangePriority(s, t, p))
  {
    hide Grouped, Listed, ThreadOk, Mask, Join, Minus, Without;
    ReadyFacts(s, t, p);
    var th := s.threads[t].(priority := p, mask := Mask(p));
    var waiting := th.(stat := Suspended);
    RemoveOk(s, t, waiting);
    var r := RemoveThread(s, t);
    var m := r.(threads := r.threads[t := waiting]);
    InsertOk(m, t);
    InsertForgets(r, t, th, waiting);
  }

  // Whatever state the thread was in, inserting it makes it READY.
  lemma InsertForgets(r: State, t: Tid, a: Thread, b: Thread)
    requires a.priority == b.priority < |r.table| && a.(stat := Ready) == b.(stat := Ready)
    ensures InsertThread(r.(threads := r.threads[t := a]), t) == InsertThread(r.(threads := r.threads[t := b]), t)
  {
    hide Join;
    assert r.threads[t := a][t := a.(stat := Ready)] == r.threads[t := b][t := b.(stat := Ready)];
  }

  lemma ReadyFacts(s: State, t: Tid, p: nat)
    requires Invariant(s) && t in s.threads && s.threads[t].stat.Ready? && p < PRIORITIES
    ensures |s.table| == PRIORITIES && s.threads[t].priority < |s.table| && s.threads[t].mask == Mask(s.threads[t].priority)
    ensures ThreadOk(s.threads[t].(priority := p, mask := Mask(p), stat := Suspended))
  {
    hide Grouped, Mask;
  }

  lemma YieldOk(s: State)
    requires Invariant(s) && s.current.Some?
    ensures s.threads[s.current.value].priority < |s.table| && Invariant(Yield(s).0)
    ensures Yield(s).1 == (s.threads[s.current.value].stat.Ready? && |s.table[s.threads[s.current.value].priority]| > 1)
    ensures !Yield(s).1 ==> Yield(s).0 == s
  {
    hide Mask, Bit;
    var t := s.current.value;
    var p := s.threads[t].priority;
    if s.threads[t].stat.Ready? && |s.table[p]| > 1 {
      WithoutIn(s.table[p], t);
      AppendDistinct(Without(s.table[p], t), t);
      var r := Yield(s).0;
      assert t in s.table[p];
      forall q, u | 0 <= q < PRIORITIES && u in r.table[q] ensures u in s.table[q] {}
    }
  }

  lemma CloseBecomes(s: State, t: Tid)
    requires t in s.threads && s.threads[t].priority < |s.table|
    ensures Becomes(s, Close(s, t), t, Closed, s.threads[t].priority)
  {
    hide Minus, Without;
  }

  lemma CloseOk(s: State, t: Tid)
    requires Invariant(s) && t in s.threads && !s.threads[t].stat.Closed?
    ensures s.threads[t].priority < |s.table| && Invariant(Close(s, t))
    ensures Becomes(s, Close(s, t), t, Closed, s.threads[t].priority)
  {
    hide Grouped, Mask, Becomes;
    CloseBecomes(s, t);
    if s.threads[t].stat.Init? {
      assert forall q :: 0 <= q < PRIORITIES ==> t !in s.table[q];
    } else {
      RemoveOk(s, t, s.threads[t].(stat := Closed));
    }
  }

  lemma SliceOk(s: State)
    requires Invariant(s) && s.current.Some?
    ensures s.threads[s.current.value].priority < |s.table| && Invariant(Slice(s).0)
  {
    hide Grouped, Mask;
    var t := s.current.value;
    var th := s.threads[t];
    var m := s.(threads := s.threads[t := th.(remaining := if th.remaining == 1 then th.initTick else th.remaining - 1)]);
    assert ThreadOk(th);
    assert Listed(m.table, m.threads);
    if th.remaining == 1 { YieldOk(m); }
  }

  // ----- taking turns -----

  function Rotated(list: seq<Tid>, k: nat): seq<Tid>
    requires k <= |list|
  {
    list[k..] + list[..k]
  }

  // The head of a list goes to its end.
  lemma RotateOne(list: seq<Tid>)
    requires list != [] && Distinct(list)
    ensures Without(list, list[0]) + [list[0]] == Rotated(list, 1)
  {
    RestDistinct(list);
    WithoutIn(list[1..], list[0]);
  }

  // Yielding hands over to the next thread of the same priority; the one that yields
  // comes last.
  lemma YieldHandsOver(s: State, t: Tid)
    requires Invariant(s) && Busy(s) && s.nest == 0 && s.current == Some(t) && Best(s, t)
    requires s.threads[t].priority < |s.table| && |s.table[s.threads[t].priority]| > 1 && s.table[s.threads[t].priority][0] == t
    ensures var list := s.table[s.threads[t].priority];
      var y := Yield(s).0;
      && Invariant(y) && Busy(y) && Schedulable(y)
      && Yield(s).1 && y.table[s.threads[t].priority] == Rotated(list, 1) && Schedule(y).current == Some(list[1])
  {
    hide Ffs, Listed, Grouped, ThreadOk, Bit, Without;
    var p := s.threads[t].priority;
    var list := s.table[p];
    YieldOk(s);
    assert Distinct(list) by { ListIsDistinct(s.table, s.threads, p); }
    RotateOne(list);
    var y := Yield(s).0;
    assert Busy(y);
    SchedulePicksBest(y);
    BestIsHere(s, y, t, Schedule(y).current.value);
  }

  // t runs, and is the first of several threads of the best priority p.
  ghost predicate HasTurn(s: State, t: Tid, p: nat) {
    && Invariant(s) && Busy(s) && s.nest == 0 && s.current == Some(t) && Best(s, t)
    && s.threads[t].priority == p < |s.table| && |s.table[p]| > 1 && s.table[p][0] == t
  }

  ghost predicate TakesTurns(s: State, p: nat) { s.current.Some? && HasTurn(s, s.current.value, p) }

  function Left(s: State): nat
    requires s.current.Some? && s.current.value in s.threads
  {
    s.threads[s.current.value].remaining
  }

  // rt_tick_increase as far as time slices go.
  ghost function Ticked(s: State, p: nat): (r: State)
    requires TakesTurns(s, p)
    ensures TakesTurns(r, p)
  {
    var t := s.current.value;
    if Slice(s).1 then
      SliceEnds(s, t, p);
      Schedule(Slice(s).0)
    else
      SliceGoesOn(s, t, p);
      Slice(s).0
  }

  ghost function TicksOn(s: State, p: nat, k: nat): (r: State)
    requires TakesTurns(s, p)
    ensures TakesTurns(r, p)
    decreases k
  {
    if k == 0 then s else TicksOn(Ticked(s, p), p, k - 1)
  }

  lemma {:induction false} TicksAdd(s: State, p: nat, j: nat, k: nat)
    requires TakesTurns(s, p)
    ensures TicksOn(s, p, j + k) == TicksOn(TicksOn(s, p, j), p, k)
    decreases j
  {
    hide TakesTurns, Ticked;
    if j > 0 { TicksAdd(Ticked(s, p), p, j - 1, k); }
  }

  // Until the slice is used up the thread goes on running, with one tick less each time.
  lemma {:induction false} CountsDown(s: State, p: nat, k: nat)
    requires TakesTurns(s, p) && k < Left(s)
    ensures TicksOn(s, p, k) == WithTicks(s, s.current.value, Left(s) - k)
    decreases k
  {
    hide HasTurn, Ticked, Slice;
    TurnFacts(s, p);
    var (t, n) := (s.current.value, Left(s));
    if k > 0 {
      FirstTick(s, p);
      CountsDown(Ticked(s, p), p, k - 1);
    }
    WithTicksTwice(s, t, n - 1, n - k);
  }

  lemma FirstTick(s: State, p: nat)
    requires TakesTurns(s, p) && 1 < Left(s)
    ensures Ticked(s, p) == WithTicks(s, s.current.value, Left(s) - 1)
  {
    hide HasTurn, Slice, Schedule, Ffs;
    SliceGoesOn(s, s.current.value, p);
  }

  lemma WithTicksTwice(s: State, t: Tid, n: nat, m: nat)
    requires t in s.threads
    ensures WithTicks(WithTicks(s, t, n), t, m) == WithTicks(s, t, m)
    ensures WithTicks(s, t, s.threads[t].remaining) == s
  {
    assert s.threads[t := s.threads[t]] == s.threads;
  }

  function WithTicks(s: State, t: Tid, n: nat): State
    requires t in s.threads
  {
    s.(threads := s.threads[t := s.threads[t].(remaining := n)])
  }

  // The tick that uses it up renews it and hands over to the next thread of the list.
  lemma TurnEnds(s: State, p: nat)
    requires TakesTurns(s, p)
    ensures var (r, t) := (TicksOn(s, p, Left(s)), s.current.value);
      && r.current == Some(s.table[p][1]) && r.table[p] == Rotated(s.table[p], 1)
      && r.threads == s.threads[t := s.threads[t].(remaining := s.threads[t].initTick)]
  {
    hide HasTurn, TakesTurns, Ticked, Slice, Schedule, Ffs, TicksOn, Rotated;
    TurnFacts(s, p);
    var t := s.current.value;
    UpToLastTick(s, p);
    LastTick(WithTicks(s, t, 1), t, p);
    WithTicksTwice(s, t, 1, s.threads[t].initTick);
  }

  lemma UpToLastTick(s: State, p: nat)
    requires TakesTurns(s, p)
    ensures s.current.Some? && s.current.value in s.threads
    ensures var m := WithTicks(s, s.current.value, 1); TakesTurns(m, p) && TicksOn(s, p, Left(s)) == TicksOn(m, p, 1)
  {
    hide HasTurn, TakesTurns, Ticked, TicksOn, Rotated;
    TurnFacts(s, p);
    CountsDown(s, p, Left(s) - 1);
    TicksAdd(s, p, Left(s) - 1, 1);
  }

  lemma LastTick(s: State, t: Tid, p: nat)
    requires TakesTurns(s, p) && s.current == Some(t) && t in s.threads && p < |s.table| && |s.table[p]| > 1 && s.threads[t].remaining == 1
    ensures var r := TicksOn(s, p, 1);
      r.current == Some(s.table[p][1]) && r.table[p] == Rotated(s.table[p], 1) && r.threads == WithTicks(s, t, s.threads[t].initTick).threads
  {
    SliceEnds(s, t, p);
    hide HasTurn, Slice, Schedule, Ffs;
    assert TicksOn(s, p, 1) == TicksOn(Ticked(s, p), p, 0) == Ticked(s, p);
  }

  function Slices(threads: map<Tid, Thread>, list: seq<Tid>): nat
    requires forall t :: t in list ==> t in threads
  {
    if list == [] then 0 else threads[list[0]].remaining + Slices(threads, list[1..])
  }

  lemma {:induction false} SlicesSame(a: map<Tid, Thread>, b: map<Tid, Thread>, list: seq<Tid>)
    requires forall t :: t in list ==> t in a && t in b && a[t].remaining == b[t].remaining
    ensures Slices(a, list) == Slices(b, list)
  {
    if list != [] { SlicesSame(a, b, list[1..]); }
  }

  lemma RotateOn(list: seq<Tid>, j: nat)
    requires 0 < j <= |list|
    ensures |Rotated(list, 1)| == |list|
    ensures Rotated(Rotated(list, 1), j - 1) == Rotated(list, j) && Rotated(list, 1)[..j - 1] == list[1..j]
  {
  }

  // While nothing else happens the threads of the best priority take turns: the j-th one
  // runs as soon as those before it have used up what was left of their slices, and
  // after a whole round the list is as it was.
  lemma {:induction false} RoundRobin(s: State, p: nat, j: nat)
    requires TakesTurns(s, p) && j <= |s.table[p]|
    ensures forall t :: t in s.table[p] ==> t in s.threads
    ensures var r := TicksOn(s, p, Slices(s.threads, s.table[p][..j]));
      r.table[p] == Rotated(s.table[p], j) && r.current == Some(Rotated(s.table[p], j)[0])
    decreases j
  {
    hide HasTurn, TakesTurns, Ticked, TicksOn, Rotated;
    TurnFacts(s, p);
    var (list, t) := (s.table[p], s.current.value);
    if j == 0 {
      NotRotated(list);
      NoTicks(s, p);
    } else {
      TurnEnds(s, p);
      var m := TicksOn(s, p, Left(s));
      RotateOn(list, j);
      RoundRobin(m, p, j - 1);
      assert list[..j][1..] == list[1..j];
      SlicesSame(s.threads, m.threads, list[1..j]);
      TicksAdd(s, p, Left(s), Slices(s.threads, list[1..j]));
    }
  }

  lemma NoTicks(s: State, p: nat)
    requires TakesTurns(s, p)
    ensures TicksOn(s, p, 0) == s
  {
  }

  lemma NotRotated(list: seq<Tid>)
    ensures Rotated(list, 0) == list
  {
  }

  lemma TurnFacts(s: State, p: nat)
    requires TakesTurns(s, p)
    ensures s.current.Some?
    ensures var t := s.current.value;
      && t in s.threads && 0 < Left(s) <= s.threads[t].initTick && p < |s.table| && |s.table[p]| > 1
      && s.table[p][0] == t && t !in s.table[p][1..] && forall u :: u in s.table[p] ==> u in s.threads
  {
    ListIsKnown(s, s.current.value, p);
    TurnHasTicks(s, s.current.value, p);
  }

  lemma ListIsKnown(s: State, t: Tid, p: nat)
    requires HasTurn(s, t, p)
    ensures s.table[p][0] == t && t !in s.table[p][1..] && forall u :: u in s.table[p] ==> u in s.threads
  {
    hide Grouped, Ffs;
  }

  lemma TurnHasTicks(s: State, t: Tid, p: nat)
    requires HasTurn(s, t, p)
    ensures 0 < s.threads[t].remaining <= s.threads[t].initTick
  {
    hide Grouped, Ffs, Mask;
  }

  lemma SliceGoesOn(s: State, t: Tid, p: nat)
    requires HasTurn(s, t, p) && s.threads[t].remaining != 1
    ensures Slice(s) == (WithTicks(s, t, s.threads[t].remaining - 1), false) && HasTurn(Slice(s).0, t, p)
  {
    hide Grouped, Mask, Ffs, Yield;
  }

  lemma SliceEnds(s: State, t: Tid, p: nat)
    requires HasTurn(s, t, p) && s.threads[t].remaining == 1
    ensures var (r, moved) := Slice(s);
      && moved && r.nest == 0 && r.table[p] == Rotated(s.table[p], 1)
      && r.threads == s.threads[t := s.threads[t].(remaining := s.threads[t].initTick)]
      && Schedulable(r)
      && HasTurn(Schedule(r), s.table[p][1], p) && Schedule(r).table == r.table && Schedule(r).threads == r.threads
  {
    hide Ffs, Listed, Grouped, ThreadOk, Bit, Without;
    var m := s.(threads := s.threads[t := s.threads[t].(remaining := s.threads[t].initTick)]);
    RenewedHasTurn(s, t, p);
    assert Slice(s) == Yield(m);
    YieldHandsOver(m, t);
    NextHasTurn(m, t, p);
  }

  lemma NextHasTurn(s: State, t: Tid, p: nat)
    requires HasTurn(s, t, p)
    ensures var y := Yield(s).0;
      && y.nest == 0 && Schedulable(y)
      && HasTurn(Schedule(y), s.table[p][1], p) && Schedule(y).table == y.table && Schedule(y).threads == y.threads
  {
    hide Ffs, Listed, Grouped, ThreadOk, Bit, Without;
    YieldHandsOver(s, t);
    SchedulePicksBest(Yield(s).0);
  }

  lemma RenewedHasTurn(s: State, t: Tid, p: nat)
    requires HasTurn(s, t, p)
    ensures HasTurn(s.(threads := s.threads[t := s.threads[t].(remaining := s.threads[t].initTick)]), t, p)
  {
    hide Grouped, Mask;
  }

  lemma ListIsDistinct(table: seq<seq<Tid>>, threads: map<Tid, Thread>, p: nat)
    requires Listed(table, threads) && p < |table|
    ensures Distinct(table[p])
  {
  }

  lemma BestIsHere(s: State, y: State, t: Tid, u: Tid)
    requires s.threads == y.threads && Best(s, t) && Best(y, u)
    ensures s.threads[t].priority == s.threads[u].priority
  {
  }

  // ----- runs -----

  datatype Step =
    | StartupStep(t: Tid) | ResumeStep(t: Tid) | TimeoutStep(t: Tid) | SuspendStep(t: Tid)
    | PriorityStep(t: Tid, p: nat) | CloseStep(t: Tid)
    | YieldStep | TickStep | EnterStep | LeaveStep | ScheduleStep

  // What the callers of each operation make sure of.
  ghost predicate Enabled(s: State, a: Step) {
    match a
    case StartupStep(t) => t in s.threads && s.threads[t].stat.Init?
    case ResumeStep(t) => t in s.threads
    case TimeoutStep(t) => t in s.threads && s.threads[t].stat.Suspended?
    case SuspendStep(t) => t in s.threads
    case PriorityStep(t, p) => t in s.threads && p < PRIORITIES
    case CloseStep(t) => t in s.threads && !s.threads[t].stat.Closed?
    case YieldStep => s.current.Some?
    case TickStep => s.current.Some?
    case ScheduleStep => Busy(s)
    case _ => true
  }

  ghost function Next(s: State, a: Step): State
    requires Invariant(s) && Enabled(s, a)
  {
    match a
    case StartupStep(t) => Startup(s, t)
    case ResumeStep(t) => Resume(s, t).0
    case TimeoutStep(t) => Resume(s, t).0
    case SuspendStep(t) => Suspend(s, t).0
    case PriorityStep(t, p) => ChangePriority(s, t, p)
    case CloseStep(t) => Close(s, t)
    case YieldStep => Yield(s).0
    case TickStep => Slice(s).0
    case EnterStep => Enter(s)
    case LeaveStep => Leave(s)
    case ScheduleStep => if s.nest == 0 then (SchedulePicksBest(s); Schedule(s)) else s
  }

  lemma StepKeepsInvariant(s: State, a: Step)
    requires Invariant(s) && Enabled(s, a)
    ensures Invariant(Next(s, a))
  {
    hide Ffs, Listed, Grouped;
    match a
    case StartupStep(t) => StartupOk(s, t);
    case ResumeStep(t) => ResumeOk(s, t);
    case TimeoutStep(t) => ResumeOk(s, t);
    case SuspendStep(t) => SuspendOk(s, t);
    case PriorityStep(t, p) => ChangePriorityOk(s, t, p);
    case CloseStep(t) => CloseOk(s, t);
    case YieldStep => YieldOk(s);
    case TickStep => SliceOk(s);
    case ScheduleStep => if s.nest == 0 { SchedulePicksBest(s); }
    case _ =>
  }

  ghost predicate IsRun(s: State, run: seq<Step>)
    requires Invariant(s)
    decreases run
  {
    run == [] || (Enabled(s, run[0]) && (StepKeepsInvariant(s, run[0]); IsRun(Next(s, run[0]), run[1..])))
  }

  ghost function After(s: State, run: seq<Step>): State
    requires Invariant(s) && IsRun(s, run)
    decreases run
  {
    if run == [] then s
    else
      StepKeepsInvariant(s, run[0]);
      After(Next(s, run[0]), run[1..])
  }

  // In every run a thread is in the ready list of its current priority exactly if it
  // is READY, the group has a bit exactly for the lists that are not empty, and an
  // unlocked rt_schedule makes the head of the best list current.
  lemma {:induction false} RunsKeepInvariant(s: State, run: seq<Step>)
    requires Invariant(s) && IsRun(s, run)
    ensures var r := After(s, run);
      && Invariant(r)
      && (Busy(r) && r.nest == 0 ==> Enabled(r, ScheduleStep) && Next(r, ScheduleStep).current.Some?
                                     && Best(r, Next(r, ScheduleStep).current.value))
    decreases run
  {
    hide Invariant, Ffs;
    if run != [] {
      StepKeepsInvariant(s, run[0]);
      RunsKeepInvariant(Next(s, run[0]), run[1..]);
    } else if Busy(s) && s.nest == 0 {
      SchedulePicksBest(s);
    }
  }

  // ----- the lock -----

  // The scheduler is locked before each step of the run.
  ghost predicate StaysLocked(s: State, run: seq<Step>)
    requires Invariant(s) && IsRun(s, run)
    decreases run
  {
    run == [] || (s.nest != 0 && (StepKeepsInvariant(s, run[0]); StaysLocked(Next(s, run[0]), run[1..])))
  }

  // While it is, the current thread stays current, whatever becomes of the others.
  lemma {:induction false} LockedKeepsCurrent(s: State, run: seq<Step>)
    requires Invariant(s) && IsRun(s, run) && StaysLocked(s, run)
    ensures After(s, run).current == s.current
    decreases run
  {
    hide Invariant, Ffs, Next;
    if run != [] {
      StepKeepsInvariant(s, run[0]);
      LockedStep(s, run[0]);
      LockedKeepsCurrent(Next(s, run[0]), run[1..]);
    }
  }

  lemma LockedStep(s: State, a: Step)
    requires Invariant(s) && Enabled(s, a) && s.nest != 0
    ensures Next(s, a).current == s.current
  {
    hide Invariant, Ffs, Without, Join, Minus;
  }

  function Entered(s: State, d: nat): State
    decreases d
  {
    if d == 0 then s else Enter(Entered(s, d - 1))
  }

  lemma {:induction false} EnteredIs(s: State, d: nat)
    requires s.nest == 0
    ensures Entered(s, d) == s.(nest := Int16(d))
  {
    if d > 0 { EnteredIs(s, d - 1); }
  }

  // Of d nested locks, one that is given back leaves the scheduler locked exactly if it
  // was not the last and the 16-bit count did not wrap.
  lemma LockHoldsIff(s: State, d: nat)
    requires s.nest == 0 && 0 < d
    ensures Leave(Entered(s, d)).nest != 0 <==> 0 < (d - 1) % 0x1_0000 < 0x8000
  {
    hide Int16;
    EnteredIs(s, d);
    PredecessorWraps(d);
    Int16Positive(d - 1);
  }

  lemma PredecessorWraps(n: int)
    ensures Int16(Int16(n) - 1) == Int16(n - 1)
  {
  }

  lemma Int16Positive(n: int)
    ensures 0 < Int16(n) <==> 0 < n % 0x1_0000 < 0x8000
  {
  }

  // ----- what the two list operations do -----

  // t is READY and comes last in the list of its priority; no other list and no other
  // bit changed.
  ghost predicate Inserted(s: State, r: State, t: Tid)
    requires t in s.threads && s.threads[t].priority < |s.table|
  {
    var p := s.threads[t].priority;
    && OthersAre(s, r, t) && t in r.threads && r.threads[t].stat.Ready? && r.threads[t].priority == p
    && |r.table| == |s.table| && r.table[p] == s.table[p] + [t] && (forall q :: 0 <= q < |s.table| && q != p ==> r.table[q] == s.table[q])
    && (p < PRIORITIES && s.threads[t].mask == Mask(p) ==> forall q: nat :: q < PRIORITIES ==> (Bit(r.group, q) <==> q == p || Bit(s.group, q)))
  }

  // t is not in the list of its priority, whose other threads keep their order; the bit
  // went exactly if it was the last of them.
  ghost predicate Removed(s: State, r: State, t: Tid)
    requires t in s.threads && s.threads[t].priority < |s.table|
  {
    var p := s.threads[t].priority;
    && r.threads == s.threads
    && |r.table| == |s.table| && t !in r.table[p] && (forall u :: u in s.table[p] && u != t ==> u in r.table[p])
    && (t !in s.table[p] ==> r.table[p] == s.table[p])
    && (forall q :: 0 <= q < |s.table| && q != p ==> r.table[q] == s.table[q])
    && (p < PRIORITIES && s.threads[t].mask == Mask(p) ==>
          forall q: nat :: q < PRIORITIES ==> (Bit(r.group, q) <==> Bit(s.group, q) && (q != p || r.table[p] != [])))
  }

  lemma InsertIs(s: State, t: Tid)
    requires t in s.threads && s.threads[t].priority < |s.table|
    ensures Inserted(s, InsertThread(s, t), t)
    ensures Invariant(s) && !s.threads[t].stat.Ready? && s.threads[t].mask == Mask(s.threads[t].priority) ==> Invariant(InsertThread(s, t))
  {
    hide Bit, Join, Mask, Invariant;
    var p := s.threads[t].priority;
    if p < PRIORITIES { BitsAreIndependent(s.group, p); }
    if Invariant(s) && !s.threads[t].stat.Ready? && s.threads[t].mask == Mask(p) { InsertKeepsInvariant(s, t); }
  }

  lemma InsertKeepsInvariant(s: State, t: Tid)
    requires Invariant(s) && t in s.threads && s.threads[t].priority < |s.table| && !s.threads[t].stat.Ready?
    requires s.threads[t].mask == Mask(s.threads[t].priority)
    ensures Invariant(InsertThread(s, t))
  {
    hide Grouped, Mask;
    InsertOk(s, t);
  }

  lemma RemoveIs(s: State, t: Tid)
    requires t in s.threads && s.threads[t].priority < |s.table|
    ensures Removed(s, RemoveThread(s, t), t)
  {
    hide Bit, Minus, Mask, Without;
    var p := s.threads[t].priority;
    WithoutIn(s.table[p], t);
    if p < PRIORITIES { BitsAreIndependent(s.group, p); }
  }

  lemma InitIsSound(threads: map<Tid, Thread>)
    requires forall t :: t in threads ==> threads[t].stat.Init? && ThreadOk(threads[t])
    ensures Invariant(State(seq(PRIORITIES, _ => []), 0, threads, None, PRIORITIES - 1, 0))
  {
    hide Bit;
    forall p: nat | p < PRIORITIES ensures !Bit(0, p) { EmptyGroup(p); }
  }
}
