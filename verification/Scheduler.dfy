// The scheduler itself: global ready lists and group, and the threads they rule.
module Scheduler {
  import opened Common
  import opened Sequences
  import opened BitSets
  import opened ReadyGroup
  import opened WaitList
  import opened SchedulerSpec
  import opened SchedulerTheorems

  class Scheduler {
    var table: seq<seq<Tid>>
    var group: Bits
    var threads: map<Tid, Thread>
    var current: Option<Tid>
    var currentPriority: nat
    var nest: int

    ghost function View(): State
      reads this
    {
      State(table, group, threads, current, currentPriority, nest)
    }

    // The invariant of every run.
    ghost predicate Valid()
      reads this
    {
      Invariant(View())
    }

    // rt_system_scheduler_init, with the threads that there will be.
    constructor (threads: map<Tid, Thread>)
      requires forall t :: t in threads ==> threads[t].stat.Init? && ThreadOk(threads[t])
      ensures Valid() && this.threads == threads && current == None && nest == 0
    {
      var lists: seq<seq<Tid>> := [];
      var offset := 0;
      while offset < PRIORITIES
        invariant offset <= PRIORITIES && lists == seq(offset, _ => [])
      {
        lists := lists + [[]];
        offset := offset + 1;
      }
      table, group, this.threads, current, currentPriority, nest := lists, 0, threads, None, PRIORITIES - 1, 0;
      new;
      InitIsSound(threads);
    }

    method InsertThread(t: Tid)
      requires t in threads && threads[t].priority < |table|
      modifies `table, `group, `threads
      ensures View() == SchedulerSpec.InsertThread(old(View()), t) && Inserted(old(View()), View(), t)
      ensures old(Valid()) && !old(threads)[t].stat.Ready? && old(threads)[t].mask == Mask(old(threads)[t].priority) ==> Valid()
    {
      hide Join, Invariant, Inserted;
      InsertIs(View(), t);
      threads := threads[t := threads[t].(stat := Ready)];
      var p := threads[t].priority;
      table := table[p := table[p] + [t]];
      group := Join(group, threads[t].mask);
    }

    method RemoveThread(t: Tid)
      requires t in threads && threads[t].priority < |table|
      modifies `table, `group
      ensures View() == SchedulerSpec.RemoveThread(old(View()), t) && Removed(old(View()), View(), t)
    {
      hide Minus, Without, Removed;
      RemoveIs(View(), t);
      var p := threads[t].priority;
      table := table[p := Without(table[p], t)];
      if table[p] == [] {
        group := Minus(group, threads[t].mask);
      }
    }

    method Schedule()
      requires Valid() && (nest == 0 ==> Busy(View()))
      modifies `current, `currentPriority
      ensures Valid()
      ensures nest == 0 ==> current.Some? && Best(View(), current.value) && current.value == table[threads[current.value].priority][0]
      ensures nest != 0 ==> View() == old(View())
      ensures current != old(current) ==> current.Some? && currentPriority == threads[current.value].priority
      ensures current == old(current) ==> currentPriority == old(currentPriority)
    {
      hide Ffs, Invariant;
      if nest == 0 {
        SchedulePicksBest(View());
        var p := Ffs(group) - 1;
        var to := table[p][0];
        if current != Some(to) {
          currentPriority := p;
          current := Some(to);
        }
      }
    }

    method Resume(t: Tid) returns (ok: bool)
      requires Valid() && t in threads
      modifies `table, `group, `threads
      ensures Valid() && old(threads)[t].priority < |old(table)| && (View(), ok) == SchedulerSpec.Resume(old(View()), t)
    {
      hide Invariant, SchedulerSpec.InsertThread, Inserted;
      ResumeOk(View(), t);
      if threads[t].stat != Suspended {
        return false;
      }
      InsertThread(t);
      ok := true;
    }

    method Startup(t: Tid)
      requires Valid() && t in threads && threads[t].stat.Init?
      modifies `table, `group, `threads, `current, `currentPriority
      ensures Valid() && old(threads)[t].initPriority < |old(table)|
      ensures var r := SchedulerSpec.Startup(old(View()), t); table == r.table && group == r.group && threads == r.threads
      ensures old(current).Some? && nest == 0 ==> current.Some? && Best(View(), current.value)
    {
      hide Invariant, SchedulerSpec.InsertThread, SchedulerSpec.RemoveThread, Mask;
      StartupOk(View(), t);
      var p := threads[t].initPriority;
      threads := threads[t := threads[t].(priority := p, mask := Mask(p), stat := Suspended)];
      InsertedIsReady(View(), t);
      InsertThread(t);
      if current.Some? {
        Schedule();
      }
    }

    method Suspend(t: Tid) returns (ok: bool)
      requires Valid() && t in threads
      modifies `table, `group, `threads
      ensures Valid() && old(threads)[t].priority < |old(table)| && (View(), ok) == SchedulerSpec.Suspend(old(View()), t)
    {
      hide Invariant, SchedulerSpec.RemoveThread, Removed;
      SuspendOk(View(), t);
      if threads[t].stat != Ready {
        return false;
      }
      threads := threads[t := threads[t].(stat := Suspended)];
      RemoveThread(t);
      ok := true;
    }

    // rt_thread_timeout.
    method Timeout(t: Tid)
      requires Valid() && t in threads && threads[t].stat.Suspended?
      modifies `table, `group, `threads, `current, `currentPriority
      ensures Valid() && old(threads)[t].priority < |old(table)|
      ensures var r := SchedulerSpec.Resume(old(View()), t).0; table == r.table && group == r.group && threads == r.threads
      ensures nest == 0 ==> current.Some? && Best(View(), current.value)
    {
      hide Invariant, SchedulerSpec.InsertThread, Inserted;
      ResumeOk(View(), t);
      InsertedIsReady(View(), t);
      InsertThread(t);
      Schedule();
    }

    // RT_THREAD_CTRL_CHANGE_PRIORITY of rt_thread_control.
    method ChangePriority(t: Tid, p: nat)
      requires Valid() && t in threads && p < PRIORITIES
      modifies `table, `group, `threads
      ensures Valid() && old(threads)[t].priority < |old(table)| == PRIORITIES
      ensures View() == SchedulerSpec.ChangePriority(old(View()), t, p)
    {
      hide Invariant, Mask;
      ChangePriorityOk(View(), t, p);
      if threads[t].stat == Ready {
        RemoveThread(t);
        threads := threads[t := threads[t].(priority := p, mask := Mask(p))];
        InsertThread(t);
      } else {
        threads := threads[t := threads[t].(priority := p, mask := Mask(p))];
      }
    }

    method Yield()
      requires Valid() && current.Some? && (nest == 0 ==> Busy(View()))
      modifies `table, `current, `currentPriority
      ensures Valid() && old(threads)[old(current).value].priority < |old(table)|
      ensures var (r, moved) := SchedulerSpec.Yield(old(View()));
        table == r.table && if moved && nest == 0 then current.Some? && Best(View(), current.value)
                            else current == old(current)
    {
      hide Invariant, Without, Ffs;
      CurrentIn(View());
      YieldOk(View());
      var t := current.value;
      var p := threads[t].priority;
      if threads[t].stat == Ready && |table[p]| > 1 {
        table := table[p := Without(table[p], t) + [t]];
        Schedule();
      }
    }

    // rt_thread_exit of the current thread; another one is ready.
    method Exit()
      requires Valid() && current.Some? && !threads[current.value].stat.Closed?
      requires nest == 0 ==> exists u :: u in threads && u != current.value && threads[u].stat.Ready?
      modifies `table, `group, `threads, `current, `currentPriority
      ensures Valid() && old(threads)[old(current).value].priority < |old(table)|
      ensures var r := Close(old(View()), old(current).value); table == r.table && group == r.group && threads == r.threads
      ensures nest == 0 ==> current.Some? && Best(View(), current.value)
    {
      hide Invariant, SchedulerSpec.RemoveThread, Removed;
      ghost var s := View();
      CurrentIn(s);
      CloseOk(s, current.value);
      CloseLeaves(s, current.value);
      CloseThread(current.value);
      Schedule();
    }

    // rt_thread_detach and rt_thread_delete, and what rt_thread_exit shares with them.
    method CloseThread(t: Tid)
      requires Valid() && t in threads && !threads[t].stat.Closed?
      modifies `table, `group, `threads
      ensures Valid() && old(threads)[t].priority < |old(table)| && View() == Close(old(View()), t)
    {
      hide Invariant, SchedulerSpec.RemoveThread, Removed;
      CloseOk(View(), t);
      CloseLeaves(View(), t);
      if threads[t].stat != Init {
        RemoveThread(t);
      }
      threads := threads[t := threads[t].(stat := Closed)];
    }

    method EnterCritical()
      requires Valid()
      modifies `nest
      ensures Valid() && View() == Enter(old(View()))
    {
      nest := Int16(nest + 1);
    }

    method ExitCritical()
      requires Valid() && Busy(View())
      modifies `nest, `current, `currentPriority
      ensures Valid() && nest == Leave(old(View())).nest
      ensures nest == 0 && old(current).Some? ==> current.Some? && Best(View(), current.value)
      ensures nest != 0 ==> current == old(current)
    {
      nest := Int16(nest - 1);
      if nest <= 0 {
        nest := 0;
        if current.Some? {
          Schedule();
        }
      }
    }

    // The time slice in rt_tick_increase.
    method Tick()
      requires Valid() && current.Some? && (nest == 0 ==> Busy(View()))
      modifies `table, `threads, `current, `currentPriority
      ensures Valid() && old(threads)[old(current).value].priority < |old(table)|
      ensures var (r, moved) := Slice(old(View()));
        && table == r.table && threads == r.threads
        && if moved && nest == 0 then current.Some? && Best(View(), current.value) else current == old(current)
    {
      hide Invariant, Without, Ffs;
      CurrentIn(View());
      SliceOk(View());
      ghost var s := View();
      var t := current.value;
      HasTicks(s, t);
      threads := threads[t := threads[t].(remaining := threads[t].remaining - 1)];
      if threads[t].remaining == 0 {
        threads := threads[t := threads[t].(remaining := threads[t].initTick)];
        SlicedIsValid(s, View(), t);
        Yield();
      }
    }
  }

  lemma HasTicks(s: State, t: Tid)
    requires Invariant(s) && t in s.threads
    ensures 0 < s.threads[t].remaining <= s.threads[t].initTick
  {
    hide Grouped, Mask;
  }

  lemma CurrentIn(s: State)
    requires Invariant(s) && s.current.Some?
    ensures s.current.value in s.threads
  {
  }

  lemma InsertedIsReady(s: State, t: Tid)
    requires t in s.threads && s.threads[t].priority < |s.table|
    ensures Busy(SchedulerSpec.InsertThread(s, t))
  {
    hide Join;
    assert SchedulerSpec.InsertThread(s, t).threads[t].stat.Ready?;
  }

  lemma CloseLeaves(s: State, t: Tid)
    requires t in s.threads && s.threads[t].priority < |s.table|
    ensures Close(s, t).threads == s.threads[t := s.threads[t].(stat := Closed)] && Close(s, t).nest == s.nest
    ensures (exists u :: u in s.threads && u != t && s.threads[u].stat.Ready?) ==> Busy(Close(s, t))
  {
    hide Minus, Without;
    var r := Close(s, t);
    if u :| u in s.threads && u != t && s.threads[u].stat.Ready? {
      assert r.threads[u].stat.Ready?;
    }
  }

  lemma SlicedIsValid(s: State, r: State, t: Tid)
    requires Invariant(s) && t in s.threads && r == s.(threads := s.threads[t := s.threads[t].(remaining := s.threads[t].initTick)])
    ensures Invariant(r) && (Busy(s) ==> Busy(r))
  {
    hide Grouped, Mask;
    assert ThreadOk(s.threads[t]);
    if u :| u in s.threads && s.threads[u].stat.Ready? {
      assert r.threads[u].stat.Ready?;
    }
  }
}
