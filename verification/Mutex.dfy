// A mutex itself, over the scheduler that holds the priorities of its threads.
module Mutex {
  import opened Common
  import opened Sequences
  import opened ReadyGroup
  import opened WaitList
  import opened MutexSpec
  import SchedulerSpec
  import opened SchedulerTheorems
  import opened Scheduler

  function Priorities(threads: map<Tid, SchedulerSpec.Thread>): (r: map<Tid, nat>)
    ensures r.Keys == threads.Keys && forall t :: t in threads ==> r[t] == threads[t].priority
  {
    map t | t in threads :: threads[t].priority
  }

  class Mutex {
    const sched: Scheduler
    var owner: Option<Tid>
    var hold: nat
    var value: nat
    var original: nat
    var waiters: seq<Tid>

    ghost function View(): MutexSpec.State
      reads this, sched
    {
      MutexSpec.State(owner, hold, value, original, waiters, Priorities(sched.threads))
    }

    // The invariant of every run; the waiters are suspended.
    ghost predicate Valid()
      reads this, sched
    {
      && sched.Valid() && Invariant(View()) && (owner.Some? ==> original < PRIORITIES)
      && forall w :: w in waiters ==> w in sched.threads && sched.threads[w].stat.Suspended?
    }

    constructor (sched: Scheduler)
      requires sched.Valid()
      ensures Valid() && this.sched == sched && View() == MutexSpec.State(None, 0, 1, NONE, [], Priorities(sched.threads))
    {
      this.sched := sched;
      value, owner, original, hold, waiters := 1, None, NONE, 0, [];
      new;
      NoWaiters(Priorities(sched.threads));
    }

    // rt_mutex_take by the current thread, up to its wait.
    method Take(wait: bool) returns (r: Reply)
      requires Valid() && sched.current.Some? && sched.current.value in sched.threads && sched.current.value !in waiters
      requires sched.threads[sched.current.value].stat.Ready?
      modifies this, sched`table, sched`group, sched`threads
      ensures Valid() <==> !(old(owner) == old(sched.current) && old(hold) == 255)
      ensures sched.Valid() && old(sched.current.value) in Priorities(old(sched.threads))
      ensures View() == MutexSpec.Take(old(View()), old(sched.current.value), wait).0
      ensures r == MutexSpec.Take(old(View()), old(sched.current.value), wait).1
      ensures r == Suspended ==> sched.threads[old(sched.current.value)].stat.Suspended?
    {
      hide Invariant, Scheduler.Valid, Position, Prios, Put;
      ghost var s := View();
      var t := sched.current.value;
      TakeKeepsInvariantIff(s, t, wait);
      OwnedIffTaken(s);
      PriorityInRange(sched, t);
      if owner == Some(t) {
        hold := (hold + 1) % 256;
        return Taken;
      }
      if value > 0 {
        value := value - 1;
        owner := Some(t);
        original := sched.threads[t].priority;
        hold := (hold + 1) % 256;
        return Taken;
      }
      if !wait {
        return TimedOut;
      }
      Inherit(t);
      Enqueue(t);
      PutIn(old(waiters), Position(Prios(old(waiters), Priorities(sched.threads)), sched.threads[t].priority), t);
      r := Suspended;
    }

    // The owner inherits the priority of t if that is better.
    method Inherit(t: Tid)
      requires sched.Valid() && t in sched.threads && owner.Some? && owner.value in sched.threads && owner.value != t
      modifies sched`table, sched`group, sched`threads
      ensures sched.Valid()
      ensures var prio := Priorities(old(sched.threads));
        Priorities(sched.threads) == if prio[t] < prio[owner.value] then prio[owner.value := prio[t]] else prio
      ensures forall u :: u in sched.threads ==> u in old(sched.threads) && sched.threads[u].stat == old(sched.threads[u].stat)
    {
      hide Scheduler.Valid;
      if sched.threads[t].priority < sched.threads[owner.value].priority {
        PriorityInRange(sched, owner.value);
        PriorityInRange(sched, t);
        ChangeIs(sched.View(), owner.value, sched.threads[t].priority);
        sched.ChangePriority(owner.value, sched.threads[t].priority);
      }
    }

    // rt_ipc_list_suspend by priority.
    method Enqueue(t: Tid)
      requires sched.Valid() && t in sched.threads && sched.threads[t].stat.Ready?
      requires forall w :: w in waiters ==> w in sched.threads
      modifies `waiters, sched`table, sched`group, sched`threads
      ensures sched.Valid() && Priorities(sched.threads) == Priorities(old(sched.threads)) && sched.threads[t].stat.Suspended?
      ensures forall u :: u in sched.threads && u != t ==> u in old(sched.threads) && sched.threads[u].stat == old(sched.threads[u].stat)
      ensures var prio := Priorities(sched.threads);
        waiters == Put(old(waiters), Position(Prios(old(waiters), prio), prio[t]), t)
    {
      hide Scheduler.Valid, Put, Position;
      PriorityInRange(sched, t);
      SuspendIs(sched.View(), t);
      var _ := sched.Suspend(t);
      var i := 0;
      while i < |waiters| && !(sched.threads[t].priority < sched.threads[waiters[i]].priority)
        invariant i <= |waiters| && forall k :: 0 <= k < i ==> sched.threads[waiters[k]].priority <= sched.threads[t].priority
      {
        i := i + 1;
      }
      PositionFound(Prios(waiters, Priorities(sched.threads)), sched.threads[t].priority, i);
      waiters := Put(waiters, i, t);
    }

    // rt_mutex_release by the current thread, up to a call of rt_schedule.
    method Release() returns (ok: bool)
      requires Valid() && sched.current.Some? && sched.current.value in sched.threads && sched.current.value !in waiters
      modifies this, sched`table, sched`group, sched`threads
      ensures Valid() && old(sched.current.value) in Priorities(old(sched.threads))
      ensures forall w :: w in old(waiters) ==> w in Priorities(old(sched.threads))
      ensures (View(), ok) == MutexSpec.Release(old(View()), old(sched.current.value))
      ensures ok && old(hold) == 1 && old(waiters) != [] ==> sched.threads[old(waiters)[0]].stat.Ready?
    {
      hide Invariant, Scheduler.Valid, Distinct, KeepsOwn, Priorities, OwnPriority, HandOn;
      ghost var s := View();
      var t := sched.current.value;
      OwnedIffTaken(s);
      ReleaseKeepsInvariant(s, t);
      if owner != Some(t) {
        return false;
      }
      ok := true;
      hold := (hold + 255) % 256;
      if hold == 0 {
        HoldIsMoot(s, t);
        Pass(t);
      }
    }

    // The end of the last release by the owner t.
    method Pass(t: Tid)
      requires sched.Valid() && t in sched.threads && original < PRIORITIES && hold == 0 && t !in waiters && Distinct(waiters)
      requires forall w :: w in waiters ==> w in sched.threads && sched.threads[w].stat.Suspended?
      modifies this, sched`table, sched`group, sched`threads
      ensures sched.Valid() && old(View()).prio == Priorities(old(sched.threads)) && View() == HandOn(old(View()), t)
      ensures owner.Some? ==> original < PRIORITIES
      ensures forall w :: w in waiters ==> w in sched.threads && sched.threads[w].stat.Suspended?
      ensures old(waiters) != [] ==> old(waiters)[0] in sched.threads && sched.threads[old(waiters)[0]].stat.Ready?
    {
      hide Scheduler.Valid, Distinct;
      Restore(t);
      if waiters != [] {
        HandOver();
      } else {
        value := value + 1;
        owner := None;
        original := NONE;
      }
    }

    // The owner t gets its own priority back.
    method Restore(t: Tid)
      requires sched.Valid() && t in sched.threads && original < PRIORITIES
      modifies sched`table, sched`group, sched`threads
      ensures sched.Valid() && Priorities(sched.threads) == Priorities(old(sched.threads))[t := original]
      ensures forall u :: u in old(sched.threads) ==> u in sched.threads && sched.threads[u].stat == old(sched.threads[u].stat)
    {
      hide Scheduler.Valid;
      if original != sched.threads[t].priority {
        PriorityInRange(sched, t);
        ChangeIs(sched.View(), t, original);
        sched.ChangePriority(t, original);
      }
    }

    // The first waiter becomes the owner and ready.
    method HandOver()
      requires sched.Valid() && waiters != [] && Distinct(waiters)
      requires forall w :: w in waiters ==> w in sched.threads && sched.threads[w].stat.Suspended?
      modifies this, sched`table, sched`group, sched`threads
      ensures sched.Valid() && Priorities(sched.threads) == Priorities(old(sched.threads))
      ensures owner == Some(old(waiters)[0]) && old(waiters)[0] in sched.threads && original == sched.threads[old(waiters)[0]].priority
      ensures hold == old(hold) + 1 && value == old(value) && waiters == old(waiters)[1..] && original < PRIORITIES
      ensures sched.threads[old(waiters)[0]].stat.Ready?
      ensures forall w :: w in waiters ==> w in sched.threads && sched.threads[w].stat.Suspended?
    {
      hide Scheduler.Valid;
      var w := waiters[0];
      RestDistinct(waiters);
      PriorityInRange(sched, w);
      owner := Some(w);
      original := sched.threads[w].priority;
      hold := hold + 1;
      ResumeIs(sched.View(), w);
      var _ := sched.Resume(w);
      waiters := waiters[1..];
    }

    // The timer of a waiting thread expires.
    method Expire(t: Tid)
      requires Valid() && t in waiters
      modifies this`waiters, sched`table, sched`group, sched`threads, sched`current, sched`currentPriority
      ensures Valid() && View() == MutexSpec.Expire(old(View()), t)
      ensures sched.threads[t].stat.Ready?
    {
      hide Invariant, Scheduler.Valid;
      ghost var s := View();
      OwnedIffTaken(s);
      ExpireKeepsInvariant(s, t);
      WithoutIn(waiters, t);
      PriorityInRange(sched, t);
      ResumeIs(sched.View(), t);
      sched.Timeout(t);
      waiters := Without(waiters, t);
    }
  }

  lemma ResumeIs(s: SchedulerSpec.State, t: Tid)
    requires t in s.threads && s.threads[t].priority < |s.table| && s.threads[t].stat.Suspended?
    ensures var r := SchedulerSpec.Resume(s, t).0;
      && Priorities(r.threads) == Priorities(s.threads) && r.threads[t].stat.Ready?
      && forall u :: u in s.threads && u != t ==> u in r.threads && r.threads[u].stat == s.threads[u].stat
  {
    hide Mask;
  }


  lemma HoldIsMoot(s: MutexSpec.State, t: Tid)
    requires t in s.prio && forall w :: w in s.waiters ==> w in s.prio
    ensures HandOn(s.(hold := 0), t) == HandOn(s, t)
  {
  }

  lemma OwnedIffTaken(s: MutexSpec.State)
    requires Invariant(s)
    ensures s.owner.Some? <==> s.value == 0
    ensures s.owner.Some? ==> s.owner.value in s.prio && s.owner.value !in s.waiters
    ensures Distinct(s.waiters) && forall w :: w in s.waiters ==> w in s.prio
  {
  }

  lemma PriorityInRange(sched: Scheduler, t: Tid)
    requires sched.Valid() && t in sched.threads
    ensures sched.threads[t].priority < PRIORITIES == |sched.table|
  {
    hide SchedulerSpec.Grouped, Mask;
    assert SchedulerSpec.ThreadOk(sched.threads[t]);
  }

  lemma ChangeIs(s: SchedulerSpec.State, t: Tid, p: nat)
    requires t in s.threads && s.threads[t].priority < |s.table| && p < |s.table|
    ensures var r := SchedulerSpec.ChangePriority(s, t, p);
      Priorities(r.threads) == Priorities(s.threads)[t := p]
      && forall u :: u in s.threads ==> u in r.threads && r.threads[u].stat == s.threads[u].stat
  {
    hide Mask, Without;
  }

  lemma SuspendIs(s: SchedulerSpec.State, t: Tid)
    requires t in s.threads && s.threads[t].priority < |s.table| && s.threads[t].stat.Ready?
    ensures var r := SchedulerSpec.Suspend(s, t).0;
      && Priorities(r.threads) == Priorities(s.threads) && r.threads[t].stat.Suspended?
      && forall u :: u in s.threads && u != t ==> u in r.threads && r.threads[u].stat == s.threads[u].stat
  {
    hide Mask, Without;
  }
}
