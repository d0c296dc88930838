// Event objects themselves: the set of bits, the wait list, and the fields of the
// waiting threads that the two share.
module Event {
  import opened Sequences
  import opened BitSets
  import opened WaitList
  import opened EventSpec

  datatype Error = Ok | Timeout | Failed

  // thread->event_set, event_info, current_priority and error.
  datatype Thread = Thread(eventSet: Bits, all: bool, clear: bool, priority: nat, error: Error)

  function AsWaiter(id: Tid, t: Thread): Waiter { Waiter(id, t.eventSet, t.all, t.clear, t.priority) }

  function Waiters(list: seq<Tid>, threads: map<Tid, Thread>): (r: seq<Waiter>)
    requires forall id :: id in list ==> id in threads
    ensures |r| == |list| && forall i :: 0 <= i < |list| ==> r[i] == AsWaiter(list[i], threads[list[i]])
  {
    seq(|list|, i requires 0 <= i < |list| => AsWaiter(list[i], threads[list[i]]))
  }

  // What a send leaves in the threads it wakes.
  ghost predicate Delivered(woken: seq<Wake>, threads: map<Tid, Thread>) {
    forall k :: 0 <= k < |woken| ==> woken[k].id in threads && threads[woken[k].id].eventSet == woken[k].got
  }

  ghost predicate Gone(woken: seq<Wake>, list: seq<Tid>) { forall k :: 0 <= k < |woken| ==> woken[k].id !in list }

  // At most the event sets of threads on the list have changed.
  ghost predicate Spares(was: map<Tid, Thread>, now: map<Tid, Thread>, list: seq<Tid>) {
    && now.Keys == was.Keys
    && forall id :: id in was ==> now[id] == if id in list then was[id].(eventSet := now[id].eventSet) else was[id]
  }

  lemma SparesAll(threads: map<Tid, Thread>, list: seq<Tid>)
    ensures Spares(threads, threads, list)
  {
  }

  lemma SparesOne(was: map<Tid, Thread>, now: map<Tid, Thread>, list: seq<Tid>, id: Tid, got: Bits)
    requires id in list && id in was && now == was[id := was[id].(eventSet := got)]
    ensures Spares(was, now, list)
  {
  }

  lemma SparesThen(a: map<Tid, Thread>, b: map<Tid, Thread>, c: map<Tid, Thread>, list: seq<Tid>, rest: seq<Tid>)
    requires Spares(a, b, list) && Spares(b, c, rest) && forall x :: x in rest ==> x in list
    ensures Spares(a, c, list)
  {
  }

  class EventObject {
    const byPriority: bool
    var bits: Bits
    var list: seq<Tid>
    var threads: map<Tid, Thread>

    ghost predicate Listed()
      reads this
    {
      Distinct(list) && forall id :: id in list ==> id in threads
    }

    ghost function View(): EventSpec.Event
      requires Listed()
      reads this
    {
      EventSpec.Event(bits, Waiters(list, threads))
    }

    // The invariant of every run.
    ghost predicate Valid()
      reads this
    {
      Listed() && Quiet(View())
    }

    constructor (byPriority: bool, threads: map<Tid, Thread>)
      ensures Valid() && View() == EventSpec.Event(0, []) && this.threads == threads && this.byPriority == byPriority
    {
      this.byPriority, bits, list, this.threads := byPriority, 0, [], threads;
    }

    // Hands got to thread i of the list and takes it out of the list.
    method Resume(i: nat, got: Bits)
      requires Listed() && i < |list|
      modifies `bits, `list, `threads
      ensures Listed() && |list| + 1 == old(|list|) && threads == old(threads)[old(list)[i] := old(threads)[old(list)[i]].(eventSet := got)]
      ensures bits == if old(threads)[old(list)[i]].clear then Minus(old(bits), got) else old(bits)
      ensures Waiters(list, threads)[..i] == Waiters(old(list), old(threads))[..i]
      ensures Waiters(list, threads)[i..] == Waiters(old(list), old(threads))[i + 1..]
      ensures old(list)[i] !in list && forall x :: x in list ==> x in old(list)
    {
      hide Distinct, Minus;
      var id := list[i];
      DistinctWithout(list, i);
      threads := threads[id := threads[id].(eventSet := got)];
      if threads[id].clear {
        bits := Minus(bits, got);
      }
      list := list[..i] + list[i + 1..];
      WaitersWithout(old(list), list, threads, Waiters(old(list), old(threads)), i);
    }

    // The loop of a send has passed the first i threads of what is left of the list;
    // all is what it comes to.
    ghost predicate Midway(all: Outcome, i: nat, woken: seq<Wake>)
      reads this
    {
      && i <= |list| && Listed()
      && Ahead(all, Waiters(list, threads)[..i], woken, Deliver(bits, Waiters(list, threads)[i..]))
      && Delivered(woken, threads) && Gone(woken, list)
    }

    // One round of the loop.
    method Visit(ghost all: Outcome, i: nat, ghost woken: seq<Wake>) returns (j: nat, ghost now: seq<Wake>)
      requires i < |list| && Midway(all, i, woken)
      modifies `bits, `list, `threads
      ensures Midway(all, j, now) && |list| - j < old(|list|) - i
      ensures Spares(old(threads), threads, old(list)) && forall x :: x in list ==> x in old(list)
    {
      hide Met, Meet, Minus, Got, Left, Deliver, Distinct, Ahead, Delivered, Spares;
      SparesAll(threads, list);
      var id := list[i];
      ghost var ws := Waiters(list, threads);
      assert ws[i..][0] == ws[i] == AsWaiter(id, threads[id]);
      assert ws[i..][1..] == ws[i + 1..];
      DeliverFirst(bits, ws[i..]);
      var got, met := Check(id);
      if met {
        ghost var wake := Wake(id, got, threads[id].clear);
        DeliveredMore(woken, threads, list, wake);
        LeftIs(ws[i], bits, got);
        Resume(i, got);
        SparesOne(old(threads), threads, old(list), id, got);
        AheadWoken(all, ws[..i], woken, wake, Deliver(bits, ws[i + 1..]));
        j, now := i, woken + [wake];
      } else {
        AheadKept(all, ws[..i], woken, ws[i], Deliver(bits, ws[i + 1..]));
        assert ws[..i + 1] == ws[..i] + [ws[i]];
        j, now := i + 1, woken;
      }
    }

    method Send(sent: Bits) returns (ok: bool, ghost woken: seq<Wake>)
      requires Valid()
      modifies `bits, `list, `threads
      ensures Valid() && ok == (sent != 0) && (View(), woken) == EventSpec.Send(old(View()), sent)
      ensures Delivered(woken, threads) && Spares(old(threads), threads, old(list))
    {
      hide Join, Quiet, Deliver, Distinct, Ahead, Delivered, Gone, Spares;
      SparesAll(threads, list);
      if sent == 0 {
        Start(Outcome(0, [], []), threads, list);
        ok, woken := false, [];
        return;
      }
      ok := true;
      ghost var e := View();
      SendIsExact(e, sent);
      bits := Join(bits, sent);
      ghost var all := Deliver(bits, e.waiters);
      Start(all, threads, list);
      assert Waiters(list, threads)[0..] == e.waiters;
      woken := Walk(all);
    }

    // The loop.
    method Walk(ghost all: Outcome) returns (ghost woken: seq<Wake>)
      requires Midway(all, 0, [])
      modifies `bits, `list, `threads
      ensures Listed() && all == Outcome(bits, Waiters(list, threads), woken)
      ensures Delivered(woken, threads) && Spares(old(threads), threads, old(list))
    {
      hide Deliver, Distinct, Ahead, Delivered, Gone, Spares;
      SparesAll(threads, list);
      woken := [];
      var i: nat := 0;
      while i < |list|
        invariant Midway(all, i, woken) && Spares(old(threads), threads, old(list)) && forall x :: x in list ==> x in old(list)
        decreases |list| - i
      {
        ghost var (now, rest) := (threads, list);
        i, woken := Visit(all, i, woken);
        SparesThen(old(threads), now, threads, old(list), rest);
      }
      ghost var ws := Waiters(list, threads);
      assert ws[..i] == ws && ws[i..] == [];
      DeliverNone(bits);
      AheadDone(all, ws, woken, bits);
    }

    // rt_event_recv up to the wait; the thread is that of the caller, and not waiting.
    method Recv(id: Tid, want: Bits, all: bool, clear: bool, wait: bool) returns (r: Reply)
      requires Valid() && id in threads && id !in list
      modifies `bits, `list, `threads
      ensures Valid() && threads.Keys == old(threads).Keys && forall x :: x in threads && x != id ==> threads[x] == old(threads)[x]
      ensures (View(), r) == EventSpec.Recv(old(View()), Waiter(id, want, all, clear, old(threads)[id].priority), byPriority, wait)
      ensures threads[id].priority == old(threads)[id].priority
      ensures threads[id].error == if r.TimedOut? then Timeout else if r.Refused? then old(threads)[id].error else Ok
    {
      hide Met, Meet, Minus, Got, Left, Position, Distinct, Quiet;
      ghost var w := Waiter(id, want, all, clear, threads[id].priority);
      RecvKeepsQuiet(View(), w, byPriority, wait);
      if want == 0 {
        return Refused;
      }
      SameWaiters(list, threads, id, threads[id].(error := Ok));
      threads := threads[id := threads[id].(error := Ok)];
      var met := Wanted(want, all);
      assert met == Met(w, bits) by { WantedIs(w, bits); }
      if met {
        r := Received(Meet(bits, want));
        if clear {
          bits := Minus(bits, want);
        }
      } else if !wait {
        SameWaiters(list, threads, id, threads[id].(error := Timeout));
        threads := threads[id := threads[id].(error := Timeout)];
        r := TimedOut;
      } else {
        SameWaiters(list, threads, id, Thread(want, all, clear, threads[id].priority, Ok));
        threads := threads[id := Thread(want, all, clear, threads[id].priority, Ok)];
        var i := |list|;
        if byPriority {
          i := 0;
          while i < |list| && !(threads[id].priority < threads[list[i]].priority)
            invariant i <= |list| && forall k :: 0 <= k < i ==> threads[list[k]].priority <= threads[id].priority
          {
            i := i + 1;
          }
          PositionFound(Prios(Waiters(list, threads)), threads[id].priority, i);
        }
        Enlist(list, threads, id, i);
        list := Put(list, i, id);
        r := Suspended;
      }
    }

    method Wanted(want: Bits, all: bool) returns (met: bool)
      ensures met == if all then Meet(bits, want) == want else Meet(bits, want) != 0
    {
      met := if all then Meet(bits, want) == want else Meet(bits, want) != 0;
    }

    // Where a waiting thread is in the list.
    method Find(id: Tid) returns (i: nat)
      requires id in list
      ensures i < |list| && list[i] == id && forall k :: 0 <= k < i ==> list[k] != id
    {
      i := 0;
      while list[i] != id
        invariant i < |list| && forall k :: 0 <= k < i ==> list[k] != id
        decreases |list| - i
      {
        i := i + 1;
        assert i < |list| by {
          var k :| 0 <= k < |list| && list[k] == id;
        }
      }
    }

    // The timer of a waiting thread expires.
    method Expire(id: Tid)
      requires Valid() && id in list
      modifies `list, `threads
      ensures Valid() && View() == EventSpec.Event(bits, Leave(old(View().waiters), id))
      ensures threads == old(threads)[id := old(threads)[id].(error := Timeout)]
    {
      hide Met, Quiet, Distinct, Leave;
      ghost var e := View();
      var i := Find(id);
      threads := threads[id := threads[id].(error := Timeout)];
      LeaveAt(e.waiters, id, i);
      DistinctWithout(list, i);
      list := list[..i] + list[i + 1..];
      WaitersWithout(old(list), list, threads, e.waiters, i);
      assert Waiters(list, threads) == Waiters(list, threads)[..i] + Waiters(list, threads)[i..];
      LeaveKeepsQuiet(e, id);
    }

    // Whether the thread's condition is met, and with what.
    method Check(id: Tid) returns (got: Bits, met: bool)
      requires id in threads
      ensures met == Met(AsWaiter(id, threads[id]), bits) && (met ==> got == Got(AsWaiter(id, threads[id]), bits))
    {
      got, met := threads[id].eventSet, false;
      if threads[id].all {
        if Meet(threads[id].eventSet, bits) == threads[id].eventSet {
          met := true;
        }
      } else if Meet(threads[id].eventSet, bits) != 0 {
        got := Meet(threads[id].eventSet, bits);
        met := true;
      }
    }
  }

  // all is what the loop has done so far and what is still to come.
  ghost predicate Ahead(all: Outcome, kept: seq<Waiter>, woken: seq<Wake>, rest: Outcome) {
    all.bits == rest.bits && all.kept == kept + rest.kept && all.woken == woken + rest.woken
  }

  lemma LeftIs(w: Waiter, bits: Bits, got: Bits)
    requires got == Got(w, bits)
    ensures Left(w, bits) == if w.clear then Minus(bits, got) else bits
  {
    hide Minus, Meet;
  }

  lemma WantedIs(w: Waiter, bits: Bits)
    ensures Met(w, bits) == if w.all then Meet(bits, w.want) == w.want else Meet(bits, w.want) != 0
  {
    hide Meet, Within;
    MeetWithin(w.want, bits);
  }

  // The fields of a thread that does not wait do not matter.
  lemma SameWaiters(list: seq<Tid>, threads: map<Tid, Thread>, id: Tid, t: Thread)
    requires (forall x :: x in list ==> x in threads) && id !in list
    ensures Waiters(list, threads[id := t]) == Waiters(list, threads)
  {
  }

  lemma Enlist(list: seq<Tid>, threads: map<Tid, Thread>, id: Tid, i: nat)
    requires (forall x :: x in list ==> x in threads) && id !in list && id in threads && i <= |list| && Distinct(list)
    ensures Distinct(Put(list, i, id)) && (forall x :: x in Put(list, i, id) ==> x in threads)
    ensures Waiters(Put(list, i, id), threads) == Put(Waiters(list, threads), i, AsWaiter(id, threads[id]))
  {
  }

  lemma {:induction false} LeaveAt(ws: seq<Waiter>, id: Tid, i: nat)
    requires i < |ws| && ws[i].id == id && forall k :: 0 <= k < i ==> ws[k].id != id
    ensures Leave(ws, id) == ws[..i] + ws[i + 1..]
  {
    if i > 0 {
      LeaveAt(ws[1..], id, i - 1);
      assert ws[..i] + ws[i + 1..] == [ws[0]] + (ws[1..][..i - 1] + ws[1..][i..]);
    }
  }

  lemma LeaveKeepsQuiet(e: EventSpec.Event, id: Tid)
    requires Quiet(e)
    ensures Quiet(e.(waiters := Leave(e.waiters, id)))
  {
    hide Met;
    LeaveIn(e.waiters, id);
  }

  lemma DeliverNone(bits: Bits)
    ensures Deliver(bits, []) == Outcome(bits, [], [])
  {
  }

  lemma DeliverFirst(bits: Bits, ws: seq<Waiter>)
    requires ws != []
    ensures var (w, o) := (ws[0], Deliver(bits, ws));
      if Met(w, bits) then
        var r := Deliver(Left(w, bits), ws[1..]);
        o == r.(woken := [Wake(w.id, Got(w, bits), w.clear)] + r.woken)
      else
        var r := Deliver(bits, ws[1..]);
        o == r.(kept := [w] + r.kept)
  {
    hide Met, Got, Left;
  }

  // The waiters that are left when thread i leaves the list; its fields do not matter.
  lemma WaitersWithout(was: seq<Tid>, list: seq<Tid>, threads: map<Tid, Thread>, ws: seq<Waiter>, i: nat)
    requires i < |was| && Distinct(was) && list == was[..i] + was[i + 1..]
    requires (forall id :: id in was ==> id in threads) && |ws| == |was|
    requires forall j :: 0 <= j < |was| && j != i ==> ws[j] == AsWaiter(was[j], threads[was[j]])
    ensures (forall id :: id in list ==> id in threads) && was[i] !in list
    ensures Waiters(list, threads)[..i] == ws[..i] && Waiters(list, threads)[i..] == ws[i + 1..]
  {
    DistinctWithout(was, i);
  }

  lemma AheadWoken(all: Outcome, kept: seq<Waiter>, woken: seq<Wake>, wake: Wake, rest: Outcome)
    requires Ahead(all, kept, woken, rest.(woken := [wake] + rest.woken))
    ensures Ahead(all, kept, woken + [wake], rest)
  {
  }

  lemma AheadKept(all: Outcome, kept: seq<Waiter>, woken: seq<Wake>, w: Waiter, rest: Outcome)
    requires Ahead(all, kept, woken, rest.(kept := [w] + rest.kept))
    ensures Ahead(all, kept + [w], woken, rest)
  {
  }

  lemma AheadDone(all: Outcome, kept: seq<Waiter>, woken: seq<Wake>, bits: Bits)
    requires Ahead(all, kept, woken, Outcome(bits, [], []))
    ensures all == Outcome(bits, kept, woken)
  {
  }

  // A thread woken later is none of those woken before.
  lemma DeliveredMore(woken: seq<Wake>, threads: map<Tid, Thread>, list: seq<Tid>, wake: Wake)
    requires Delivered(woken, threads) && wake.id in list && wake.id in threads
    requires Gone(woken, list)
    ensures Delivered(woken + [wake], threads[wake.id := threads[wake.id].(eventSet := wake.got)])
  {
  }

  lemma Start(all: Outcome, threads: map<Tid, Thread>, list: seq<Tid>)
    ensures Ahead(all, [], [], all) && Delivered([], threads) && Gone([], list)
  {
  }

  lemma DistinctWithout(s: seq<Tid>, i: nat)
    requires i < |s| && Distinct(s)
    ensures Distinct(s[..i] + s[i + 1..]) && s[i] !in s[..i] + s[i + 1..]
    ensures forall x :: x in s[..i] + s[i + 1..] ==> x in s
  {
  }
}
