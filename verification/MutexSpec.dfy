// A mutex of ipc.c whose waiters queue by priority, on values; no other mutex is
// held and no other priority changes.
module MutexSpec {
  import opened Common
  import opened Sequences
  import opened WaitList

  type Tid = nat

  const NONE := 0xFF     // original_priority of a free mutex

  // prio: current_priority of every thread; 0 is the best.
  datatype State = State(owner: Option<Tid>, hold: nat, value: nat, original: nat, waiters: seq<Tid>, prio: map<Tid, nat>)

  function Prios(waiters: seq<Tid>, prio: map<Tid, nat>): (r: seq<nat>)
    ensures |r| == |waiters|
    ensures forall i :: 0 <= i < |waiters| && waiters[i] in prio ==> r[i] == prio[waiters[i]]
  {
    seq(|waiters|, i requires 0 <= i < |waiters| => if waiters[i] in prio then prio[waiters[i]] else 0)
  }

  datatype Reply = Taken | TimedOut | Suspended

  // rt_mutex_take by thread t, up to its wait. hold is an 8-bit counter.
  function Take(s: State, t: Tid, wait: bool): (State, Reply)
    requires t in s.prio
  {
    if s.owner == Some(t) then (s.(hold := (s.hold + 1) % 256), Taken)
    else if s.value > 0 || s.owner.None? then
      (s.(value := if s.value > 0 then s.value - 1 else 0, owner := Some(t), original := s.prio[t], hold := (s.hold + 1) % 256), Taken)
    else if !wait then (s, TimedOut)
    else
      var o := s.owner.value;
      var boosted := if o in s.prio && s.prio[t] < s.prio[o] then s.prio[o := s.prio[t]] else s.prio;
      (s.(prio := boosted, waiters := Put(s.waiters, Position(Prios(s.waiters, boosted), s.prio[t]), t)), Suspended)
  }

  // The last release: the owner t gets its own priority back, and the first waiter
  // the mutex.
  function HandOn(s: State, t: Tid): State
    requires t in s.prio && forall w :: w in s.waiters ==> w in s.prio
  {
    var prio := s.prio[t := s.original];
    if s.waiters != [] then State(Some(s.waiters[0]), 1, s.value, prio[s.waiters[0]], s.waiters[1..], prio)
    else State(None, 0, s.value + 1, NONE, [], prio)
  }

  // rt_mutex_release by thread t; the flag is false if t is not the owner.
  function Release(s: State, t: Tid): (State, bool)
    requires t in s.prio && forall w :: w in s.waiters ==> w in s.prio
  {
    if s.owner != Some(t) then (s, false)
    else
      var hold := (s.hold + 255) % 256;
      if hold != 0 then (s.(hold := hold), true) else (HandOn(s, t), true)
  }

  // The timer of waiting thread t expires.
  function Expire(s: State, t: Tid): State { s.(waiters := Without(s.waiters, t)) }

  // ----- the invariant -----

  ghost predicate Invariant(s: State) {
    && (s.owner.None? ==> s.hold == 0 && s.value == 1 && s.waiters == [] && s.original == NONE)
    && (s.owner.Some? ==> 0 < s.hold < 256 && s.value == 0 && s.owner.value in s.prio && s.owner.value !in s.waiters
                          && s.prio[s.owner.value] <= s.original)
    && (forall w :: w in s.waiters ==> w in s.prio && s.owner.Some? && s.prio[s.owner.value] <= s.prio[w])
    && Distinct(s.waiters) && Sorted(Prios(s.waiters, s.prio))
  }

  // The priority of a thread when it has not inherited any.
  function OwnPriority(s: State, t: Tid): nat
    requires t in s.prio
  {
    if s.owner == Some(t) then s.original else s.prio[t]
  }

  // No thread's own priority changes.
  ghost predicate KeepsOwn(s: State, r: State) {
    r.prio.Keys == s.prio.Keys && forall t :: t in s.prio ==> OwnPriority(r, t) == OwnPriority(s, t)
  }

  // ----- taking -----

  // A take keeps everything in order unless it is the 256th of the owner in a row,
  // which makes the counter of holds wrap around.
  lemma TakeKeepsInvariantIff(s: State, t: Tid, wait: bool)
    requires Invariant(s) && t in s.prio && t !in s.waiters
    ensures Invariant(Take(s, t, wait).0) <==> !(s.owner == Some(t) && s.hold == 255)
    ensures KeepsOwn(s, Take(s, t, wait).0)
  {
    if s.owner.Some? && s.owner.value != t && wait {
      SuspendOk(s, t);
    }
  }

  // What the reply means: taken says that the thread owns the mutex now, suspended that
  // it waits for it, and timed out that nothing happened.
  lemma ReplyIs(s: State, t: Tid, wait: bool)
    requires Invariant(s) && t in s.prio && t !in s.waiters
    ensures var (r, reply) := Take(s, t, wait);
      && (reply == Taken <==> r.owner == Some(t)) && (reply == Suspended <==> t in r.waiters) && (reply == TimedOut <==> r == s)
      && (reply == Suspended ==> wait)
  {
    hide Sorted, Position, Put, Distinct;
    if s.owner.Some? && s.owner.value != t && wait {
      var prio := Take(s, t, true).0.prio;
      PutIsStable(Prios(s.waiters, prio), s.prio[t]) by { SamePrios(s.waiters, s.prio, prio); }
      PutIn(s.waiters, Position(Prios(s.waiters, prio), s.prio[t]), t);
    }
  }

  // Only the priorities of the waiters count.
  lemma SamePrios(ws: seq<Tid>, a: map<Tid, nat>, b: map<Tid, nat>)
    requires forall w :: w in ws ==> w in a && w in b && a[w] == b[w]
    ensures Prios(ws, a) == Prios(ws, b)
  {
  }

  lemma PutPrios(ws: seq<Tid>, prio: map<Tid, nat>, i: nat, t: Tid)
    requires i <= |ws| && t in prio
    ensures Prios(Put(ws, i, t), prio) == Put(Prios(ws, prio), i, prio[t])
  {
  }

  lemma SuspendOk(s: State, t: Tid)
    requires Invariant(s) && t in s.prio && t !in s.waiters && s.owner.Some? && s.owner.value != t
    ensures Invariant(Take(s, t, true).0)
  {
    hide Sorted, Position, Put, Prios, Distinct;
    var prio := Take(s, t, true).0.prio;
    SamePrios(s.waiters, s.prio, prio);
    var i := Position(Prios(s.waiters, prio), s.prio[t]);
    PutIsStable(Prios(s.waiters, prio), s.prio[t]);
    PutIn(s.waiters, i, t);
    PutPrios(s.waiters, prio, i, t);
  }

  // A thread that has to wait queues behind all waiters that are as good as it is,
  // and before all others.
  lemma SuspendedQueuesByPriority(s: State, t: Tid)
    requires Invariant(s) && t in s.prio && t !in s.waiters && s.owner.Some? && s.owner.value != t
    ensures var r := Take(s, t, true).0;
      exists i :: 0 <= i <= |s.waiters| && r.waiters == Put(s.waiters, i, t)
        && (forall j :: 0 <= j < i ==> s.prio[s.waiters[j]] <= s.prio[t])
        && (forall j :: i <= j < |s.waiters| ==> s.prio[t] < s.prio[s.waiters[j]])
  {
    var prio := Take(s, t, true).0.prio;
    SamePrios(s.waiters, s.prio, prio);
    PutIsStable(Prios(s.waiters, prio), s.prio[t]);
    var i := Position(Prios(s.waiters, prio), s.prio[t]);
    assert Take(s, t, true).0.waiters == Put(s.waiters, i, t);
  }

  // ----- releasing -----

  // A release by the owner undoes one take. The last one gives the thread its own
  // priority back and hands over to the first waiter, which no waiter beats.
  lemma ReleaseKeepsInvariant(s: State, t: Tid)
    requires Invariant(s) && t in s.prio
    ensures var (r, ok) := Release(s, t);
      && Invariant(r) && KeepsOwn(s, r) && ok == (s.owner == Some(t))
      && (ok && s.hold > 1 ==> r == s.(hold := s.hold - 1))
      && (ok && s.hold == 1 ==> r.prio[t] == OwnPriority(s, t) && r.owner == (if s.waiters == [] then None else Some(s.waiters[0])))
      && (ok && s.hold == 1 && s.waiters != [] ==>
            r.hold == 1 && r.waiters == s.waiters[1..] && r.original == s.prio[s.waiters[0]])
      && (forall w :: r.owner.Some? && w in r.waiters ==> r.prio[r.owner.value] <= r.prio[w])
  {
    hide Sorted, Prios, Distinct;
    if s.owner == Some(t) && s.hold == 1 {
      var prio := s.prio[t := s.original];
      SamePrios(s.waiters, s.prio, prio);
      if s.waiters != [] {
        FirstIsBest(s.waiters, prio);
      } else {
        NoWaiters(prio);
      }
    }
  }

  lemma NoWaiters(prio: map<Tid, nat>)
    ensures Distinct<Tid>([]) && Sorted(Prios([], prio))
  {
  }

  lemma TailPrios(ws: seq<Tid>, prio: map<Tid, nat>)
    requires ws != []
    ensures Prios(ws[1..], prio) == Prios(ws, prio)[1..]
  {
  }

  lemma SortedTail(p: seq<nat>)
    requires p != [] && Sorted(p)
    ensures Sorted(p[1..]) && forall i :: 0 <= i < |p| ==> p[0] <= p[i]
  {
    assert forall i :: 0 <= i < |p[1..]| ==> p[1..][i] == p[i + 1];
  }

  lemma FirstOutranks(ws: seq<Tid>, prio: map<Tid, nat>, u: Tid)
    requires (forall w :: w in ws ==> w in prio) && Sorted(Prios(ws, prio)) && u in ws
    ensures prio[ws[0]] <= prio[u]
  {
    var i :| 0 <= i < |ws| && ws[i] == u;
    assert Prios(ws, prio)[0] <= Prios(ws, prio)[i];
  }

  lemma FirstIsBest(ws: seq<Tid>, prio: map<Tid, nat>)
    requires ws != [] && (forall w :: w in ws ==> w in prio) && Distinct(ws) && Sorted(Prios(ws, prio))
    ensures Distinct(ws[1..]) && Sorted(Prios(ws[1..], prio)) && ws[0] !in ws[1..]
    ensures forall w :: w in ws[1..] ==> w in ws && prio[ws[0]] <= prio[w]
  {
    hide Sorted, Distinct;
    RestDistinct(ws);
    TailPrios(ws, prio);
    SortedTail(Prios(ws, prio));
    forall w | w in ws[1..] ensures w in ws && prio[ws[0]] <= prio[w] { FirstOutranks(ws, prio, w); }
  }

  // ----- timeouts -----

  lemma SortedCons(x: nat, p: seq<nat>)
    requires Sorted(p) && forall i :: 0 <= i < |p| ==> x <= p[i]
    ensures Sorted([x] + p)
  {
  }

  lemma PriosCons(w: Tid, ws: seq<Tid>, prio: map<Tid, nat>)
    requires w in prio && forall u :: u in ws ==> u in prio
    ensures Prios([w] + ws, prio) == [prio[w]] + Prios(ws, prio)
  {
  }

  lemma {:induction false} WithoutSorted(ws: seq<Tid>, prio: map<Tid, nat>, t: Tid)
    requires (forall w :: w in ws ==> w in prio) && Sorted(Prios(ws, prio))
    ensures Sorted(Prios(Without(ws, t), prio))
  {
    hide Sorted;
    if ws != [] {
      TailPrios(ws, prio);
      SortedTail(Prios(ws, prio));
      WithoutSorted(ws[1..], prio, t);
      WithoutIn(ws[1..], t);
      var r := Without(ws[1..], t);
      forall u | u in r ensures prio[ws[0]] <= prio[u] { FirstOutranks(ws, prio, u); }
      SortedCons(prio[ws[0]], Prios(r, prio));
      PriosCons(ws[0], r, prio);
    }
  }

  lemma ExpireKeepsInvariant(s: State, t: Tid)
    requires Invariant(s) && t in s.prio
    ensures Invariant(Expire(s, t)) && KeepsOwn(s, Expire(s, t))
  {
    WithoutIn(s.waiters, t);
    WithoutSorted(s.waiters, s.prio, t);
  }

  // ----- how much is inherited -----

  // The owner runs at its own priority or at that of its best waiter, if that is
  // better.
  ghost predicate Exact(s: State) {
    s.owner.Some? && s.owner.value in s.prio ==>
      s.prio[s.owner.value] == s.original || exists w :: w in s.waiters && w in s.prio && s.prio[w] == s.prio[s.owner.value]
  }

  lemma TakeAndReleaseAreExact(s: State, t: Tid, wait: bool)
    requires Invariant(s) && Exact(s) && t in s.prio && t !in s.waiters
    ensures Exact(Take(s, t, wait).0) && Exact(Release(s, t).0)
  {
    var r := Take(s, t, wait).0;
    if s.owner.Some? && s.owner.value != t && wait {
      PutIn(s.waiters, Position(Prios(s.waiters, r.prio), s.prio[t]), t);
      if s.prio[s.owner.value] != s.original && !(s.prio[t] < s.prio[s.owner.value]) {
        var w :| w in s.waiters && w in s.prio && s.prio[w] == s.prio[s.owner.value];
        assert w in r.waiters && r.prio[w] == s.prio[w];
      }
    }
  }

  // The waiter whose leaving the owner's priority does not follow: the owner inherited
  // from the first in the queue, and the next is weaker.
  predicate Sponsors(s: State, t: Tid)
    requires s.owner.Some? && s.owner.value in s.prio && s.waiters != [] && forall w :: w in s.waiters ==> w in s.prio
  {
    && s.prio[s.owner.value] < s.original && t == s.waiters[0]
    && (|s.waiters| == 1 || s.prio[t] < s.prio[s.waiters[1]])
  }

  // A waiter that gives up leaves the owner at the priority it should have unless it
  // is that one: then the owner keeps what it inherited.
  lemma ExpireIsExactIff(s: State, t: Tid)
    requires Invariant(s) && Exact(s) && t in s.waiters
    ensures Exact(Expire(s, t)) <==> !Sponsors(s, t)
  {
    hide Sorted, Prios, Distinct;
    var (ws, o, r) := (s.waiters, s.owner.value, Expire(s, t));
    WithoutIn(ws, t);
    FirstIsBest(ws, s.prio);
    if |ws| > 1 {
      FirstIsBest(ws[1..], s.prio);
      assert ws[1] in ws[1..];
    }
    if s.prio[o] < s.original {
      var w :| w in ws && s.prio[w] == s.prio[o];
      assert s.prio[ws[0]] == s.prio[o];
      if t != ws[0] {
        assert ws[0] in r.waiters;
      } else if |ws| > 1 {
        assert ws[1] in r.waiters;
        assert forall v :: v in r.waiters ==> v in ws[1..];
      }
    }
  }

  // ----- runs -----

  datatype Step = TakeStep(t: Tid, wait: bool) | ReleaseStep(t: Tid) | ExpireStep(t: Tid)

  // A waiting thread neither takes nor releases.
  ghost predicate Enabled(s: State, a: Step) {
    match a
    case TakeStep(t, _) => t in s.prio && t !in s.waiters && !(s.owner == Some(t) && s.hold == 255)
    case ReleaseStep(t) => t in s.prio && t !in s.waiters
    case ExpireStep(t) => t in s.prio
  }

  ghost function Next(s: State, a: Step): State
    requires Invariant(s) && Enabled(s, a)
  {
    match a
    case TakeStep(t, wait) => Take(s, t, wait).0
    case ReleaseStep(t) => Release(s, t).0
    case ExpireStep(t) => Expire(s, t)
  }

  lemma StepKeepsInvariant(s: State, a: Step)
    requires Invariant(s) && Enabled(s, a)
    ensures Invariant(Next(s, a)) && KeepsOwn(s, Next(s, a))
  {
    hide Invariant, KeepsOwn;
    match a
    case TakeStep(t, wait) => TakeKeepsInvariantIff(s, t, wait);
    case ReleaseStep(t) => ReleaseKeepsInvariant(s, t);
    case ExpireStep(t) => ExpireKeepsInvariant(s, t);
  }

  ghost predicate IsRun(s: State, run: seq<Step>)
    requires Invariant(s)
    decreases run
  {
    run == [] || (Enabled(s, run[0]) && (StepKeepsInvariant(s, run[0]); IsRun(Next(s, run[0]), run[1..])))
  }

  ghost function After(s: State, run: seq<Step>): State
    requires Invariant(s) && IsRun(s, run)
    decreases run
  {
    if run == [] then s
    else
      StepKeepsInvariant(s, run[0]);
      After(Next(s, run[0]), run[1..])
  }

  // Over every run a thread that does not own the mutex has its own priority, and
  // the owner is never weaker than that, nor than any waiter.
  lemma {:induction false} RunsKeepPriorities(s: State, run: seq<Step>)
    requires Invariant(s) && IsRun(s, run)
    ensures var r := After(s, run); Invariant(r) && KeepsOwn(s, r)
    decreases run
  {
    hide Invariant, OwnPriority;
    if run != [] {
      StepKeepsInvariant(s, run[0]);
      RunsKeepPriorities(Next(s, run[0]), run[1..]);
    }
  }

  // The owner, or a thread that finds the mutex free, can take it as often as the counter
  // allows.
  lemma {:induction false} HoldsAreReached(s: State, t: Tid, n: nat) returns (run: seq<Step>)
    requires Invariant(s) && t in s.prio && (s.owner == None || s.owner == Some(t)) && s.hold + n < 256
    ensures IsRun(s, run)
    ensures var r := After(s, run); Invariant(r) && r.hold == s.hold + n && r.owner == (if n == 0 then s.owner else Some(t)) && r.prio == s.prio
    decreases n
  {
    hide Sorted, Prios, Distinct, Position, Put;
    if n == 0 {
      run := [];
    } else {
      var a := TakeStep(t, true);
      StepKeepsInvariant(s, a);
      var rest := HoldsAreReached(Next(s, a), t, n - 1);
      run := [a] + rest;
      assert run[1..] == rest;
    }
  }

  // So the 256th take in a row is reached from every free mutex, and leaves a counter
  // of holds that says nobody holds it.
  lemma WrapIsReached(s: State, t: Tid) returns (run: seq<Step>)
    requires Invariant(s) && t in s.prio && s.owner == None
    ensures IsRun(s, run)
    ensures var r := After(s, run);
      && Invariant(r) && t in r.prio && r.owner == Some(t) && r.hold == 255
      && Take(r, t, true).0.hold == 0 && !Invariant(Take(r, t, true).0)
  {
    run := HoldsAreReached(s, t, 255);
  }

  // So thread 1, of priority 20, keeps priority 5 after thread 2, the only waiter there
  // ever was, gave up.
  lemma BoostOutlivesTimeout()
    ensures var s := State(None, 0, 1, NONE, [], map[1 := 20, 2 := 5]);
      var run := [TakeStep(1, true), TakeStep(2, true), ExpireStep(2)];
      && Invariant(s) && Exact(s) && IsRun(s, run)
      && After(s, run).owner == Some(1) && After(s, run).waiters == [] && After(s, run).prio[1] == 5 && !Exact(After(s, run))
  {
    var s := State(None, 0, 1, NONE, [], map[1 := 20, 2 := 5]);
    NoWaiters(s.prio);
    BoostStates();
    hide Sorted, Prios, Position, Put, Distinct, Take, Expire;
    StepKeepsInvariant(s, TakeStep(1, true));
    StepKeepsInvariant(s.(owner := Some(1), hold := 1, value := 0, original := 20), TakeStep(2, true));
    StepKeepsInvariant(State(Some(1), 1, 0, 20, [2], map[1 := 5, 2 := 5]), ExpireStep(2));
    ThreeSteps(s, TakeStep(1, true), TakeStep(2, true), ExpireStep(2));
  }

  lemma BoostStates()
    ensures var (s, prio) := (State(None, 0, 1, NONE, [], map[1 := 20, 2 := 5]), map[1 := 5, 2 := 5]);
      var s1 := s.(owner := Some(1), hold := 1, value := 0, original := 20);
      && Take(s, 1, true).0 == s1 && Take(s1, 2, true).0 == State(Some(1), 1, 0, 20, [2], prio)
      && Expire(State(Some(1), 1, 0, 20, [2], prio), 2) == State(Some(1), 1, 0, 20, [], prio)
  {
    assert Without([2], 2) == [];
    assert map[1 := 20, 2 := 5][1 := 5] == map[1 := 5, 2 := 5];
    assert Put([], 0, 2) == [2];
  }

  lemma ThreeSteps(s: State, a: Step, b: Step, c: Step)
    requires Invariant(s) && Enabled(s, a) && Invariant(Next(s, a)) && Enabled(Next(s, a), b)
    requires Invariant(Next(Next(s, a), b)) && Enabled(Next(Next(s, a), b), c) && Invariant(Next(Next(Next(s, a), b), c))
    ensures IsRun(s, [a, b, c]) && After(s, [a, b, c]) == Next(Next(Next(s, a), b), c)
  {
    hide Invariant, Enabled, Next;
    assert [a, b, c][1..] == [b, c] && [b, c][1..] == [c] && [c][1..] == [];
    assert IsRun(Next(Next(Next(s, a), b), c), []);
    assert IsRun(Next(Next(s, a), b), [c]);
    assert IsRun(Next(s, a), [b, c]);
    assert After(Next(Next(s, a), b), [c]) == After(Next(Next(Next(s, a), b), c), []);
    assert After(Next(s, a), [b, c]) == After(Next(Next(s, a), b), [c]);
  }
}
