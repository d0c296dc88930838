// The scheduler and the life of a thread, from scheduler.c and thread.c, on values.
module SchedulerSpec {
  import opened Common
  import opened Sequences
  import opened BitSets
  import opened ReadyGroup
  import opened WaitList

  type Tid = nat

  datatype Stat = Init | Ready | Suspended | Closed

  datatype Thread = Thread(stat: Stat, priority: nat, initPriority: nat, mask: Bits, initTick: nat, remaining: nat)

  // table: the ready list of every priority. nest: rt_scheduler_lock_nest.
  datatype State = State(
    table: seq<seq<Tid>>, group: Bits, threads: map<Tid, Thread>,
    current: Option<Tid>, currentPriority: nat, nest: int)

  // ----- the invariant -----

  // A thread is in a ready list exactly if it is READY, and then in that of its
  // current priority, once.
  ghost predicate Listed(table: seq<seq<Tid>>, threads: map<Tid, Thread>) {
    && |table| == PRIORITIES
    && (forall p :: 0 <= p < PRIORITIES ==> Distinct(table[p]))
    && (forall p, t :: 0 <= p < PRIORITIES && t in table[p] ==> t in threads && threads[t].stat.Ready? && threads[t].priority == p)
    && (forall t :: t in threads ==> ThreadOk(threads[t]))
    && (forall t :: t in threads && threads[t].stat.Ready? ==> t in table[threads[t].priority])
  }

  predicate ThreadOk(t: Thread) {
    && t.priority < PRIORITIES && t.initPriority < PRIORITIES && 0 < t.remaining <= t.initTick
    && (t.stat.Ready? || t.stat.Suspended? ==> t.mask == Mask(t.priority))
  }

  // Bit p of the ready group says whether list p has a thread.
  ghost predicate Grouped(table: seq<seq<Tid>>, group: Bits) {
    |table| == PRIORITIES && forall p: nat :: p < PRIORITIES ==> (Bit(group, p) <==> table[p] != [])
  }

  ghost predicate Invariant(s: State) {
    && Listed(s.table, s.threads) && Grouped(s.table, s.group)
    && (s.current.Some? ==> s.current.value in s.threads)
  }

  // ----- ready lists -----

  // rt_schedule_insert_thread.
  function InsertThread(s: State, t: Tid): State
    requires t in s.threads && s.threads[t].priority < |s.table|
  {
    var p := s.threads[t].priority;
    s.(threads := s.threads[t := s.threads[t].(stat := Ready)],
       table := s.table[p := s.table[p] + [t]],
       group := Join(s.group, s.threads[t].mask))
  }

  // rt_schedule_remove_thread.
  function RemoveThread(s: State, t: Tid): State
    requires t in s.threads && s.threads[t].priority < |s.table|
  {
    var p := s.threads[t].priority;
    var list := Without(s.table[p], t);
    s.(table := s.table[p := list], group := if list == [] then Minus(s.group, s.threads[t].mask) else s.group)
  }

  // A value stored in rt_scheduler_lock_nest.
  function Int16(n: int): int { (n + 0x8000) % 0x1_0000 - 0x8000 }

  function Enter(s: State): State { s.(nest := Int16(s.nest + 1)) }

  // rt_exit_critical up to its call of rt_schedule.
  function Leave(s: State): State { s.(nest := if Int16(s.nest - 1) <= 0 then 0 else Int16(s.nest - 1)) }

  // The list that the group points to has a thread.
  predicate Schedulable(s: State) { s.nest == 0 ==> 0 < Ffs(s.group) <= |s.table| && s.table[Ffs(s.group) - 1] != [] }

  // rt_schedule: the head of the best list that is not empty becomes current.
  function Schedule(s: State): State
    requires Schedulable(s)
  {
    if s.nest != 0 then s
    else
      var p := Ffs(s.group) - 1;
      var to := s.table[p][0];
      if s.current == Some(to) then s else s.(current := Some(to), currentPriority := p)
  }

  // Some thread is ready: the idle thread always is.
  ghost predicate Busy(s: State) { exists t :: t in s.threads && s.threads[t].stat.Ready? }

  // Threads with better priority, or of the same priority and ahead in the list.
  ghost predicate Best(s: State, t: Tid) {
    && t in s.threads && s.threads[t].stat.Ready?
    && forall u :: u in s.threads && s.threads[u].stat.Ready? ==> s.threads[t].priority <= s.threads[u].priority
  }

  // ----- operations on a thread -----

  function Resume(s: State, t: Tid): (State, bool)
    requires t in s.threads && s.threads[t].priority < |s.table|
  {
    if s.threads[t].stat.Suspended? then (InsertThread(s, t), true) else (s, false)
  }

  // rt_thread_startup up to its call of rt_schedule.
  function Startup(s: State, t: Tid): State
    requires t in s.threads && s.threads[t].initPriority < |s.table|
  {
    var p := s.threads[t].initPriority;
    Resume(s.(threads := s.threads[t := s.threads[t].(priority := p, mask := Mask(p), stat := Suspended)]), t).0
  }

  function Suspend(s: State, t: Tid): (State, bool)
    requires t in s.threads && s.threads[t].priority < |s.table|
  {
    if !s.threads[t].stat.Ready? then (s, false)
    else (RemoveThread(s.(threads := s.threads[t := s.threads[t].(stat := Suspended)]), t), true)
  }

  function ChangePriority(s: State, t: Tid, p: nat): State
    requires t in s.threads && s.threads[t].priority < |s.table| && p < |s.table|
  {
    if s.threads[t].stat.Ready? then
      var r := RemoveThread(s, t);
      InsertThread(r.(threads := r.threads[t := r.threads[t].(priority := p, mask := Mask(p))]), t)
    else s.(threads := s.threads[t := s.threads[t].(priority := p, mask := Mask(p))])
  }

  // rt_thread_yield up to its call of rt_schedule; the thread moves to the end of
  // its list unless it is alone there.
  function Yield(s: State): (State, bool)
    requires s.current.Some? ==> s.current.value in s.threads && s.threads[s.current.value].priority < |s.table|
  {
    if s.current.None? then (s, false)
    else
      var t := s.current.value;
      var p := s.threads[t].priority;
      if s.threads[t].stat.Ready? && |s.table[p]| > 1 then (s.(table := s.table[p := Without(s.table[p], t) + [t]]), true)
      else (s, false)
  }

  // rt_thread_exit, detach and delete, up to a call of rt_schedule.
  function Close(s: State, t: Tid): State
    requires t in s.threads && s.threads[t].priority < |s.table|
  {
    var r := if s.threads[t].stat.Init? then s else RemoveThread(s, t);
    r.(threads := r.threads[t := r.threads[t].(stat := Closed)])
  }

  // The time slice in rt_tick_increase; the flag says that the slice is over.
  function Slice(s: State): (State, bool)
    requires s.current.Some? ==> s.current.value in s.threads && s.threads[s.current.value].priority < |s.table|
  {
    if s.current.None? then (s, false)
    else
      var t := s.current.value;
      var th := s.threads[t];
      if th.remaining == 1 then Yield(s.(threads := s.threads[t := th.(remaining := th.initTick)]))
      else if th.remaining > 1 then (s.(threads := s.threads[t := th.(remaining := th.remaining - 1)]), false)
      else (s, false)
  }
}
