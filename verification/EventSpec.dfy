// Event objects of ipc.c on values: a set of bits, and the threads that wait for
// some of them.
module EventSpec {
  import opened BitSets
  import opened WaitList

  type Tid = nat

  // all: RT_EVENT_FLAG_AND, otherwise RT_EVENT_FLAG_OR; clear: RT_EVENT_FLAG_CLEAR.
  datatype Waiter = Waiter(id: Tid, want: Bits, all: bool, clear: bool, priority: nat)

  // What a thread got when it was resumed.
  datatype Wake = Wake(id: Tid, got: Bits, clear: bool)

  datatype Event = Event(bits: Bits, waiters: seq<Waiter>)

  predicate Met(w: Waiter, bits: Bits) { if w.all then Meet(w.want, bits) == w.want else Meet(w.want, bits) != 0 }

  function Got(w: Waiter, bits: Bits): Bits { if w.all then w.want else Meet(w.want, bits) }

  // ----- rt_event_send -----

  datatype Outcome = Outcome(bits: Bits, kept: seq<Waiter>, woken: seq<Wake>)

  function Left(w: Waiter, bits: Bits): Bits { if w.clear then Minus(bits, Got(w, bits)) else bits }

  // The loop over the wait list.
  function Deliver(bits: Bits, ws: seq<Waiter>): Outcome
    decreases ws
  {
    if ws == [] then Outcome(bits, [], [])
    else if Met(ws[0], bits) then
      var o := Deliver(Left(ws[0], bits), ws[1..]);
      o.(woken := [Wake(ws[0].id, Got(ws[0], bits), ws[0].clear)] + o.woken)
    else
      var o := Deliver(bits, ws[1..]);
      o.(kept := [ws[0]] + o.kept)
  }

  function Send(e: Event, bits: Bits): (Event, seq<Wake>) {
    var o := Deliver(Join(e.bits, bits), e.waiters);
    if bits == 0 then (e, []) else (Event(o.bits, o.kept), o.woken)
  }

  // ----- rt_event_recv, up to its wait -----

  function Prios(ws: seq<Waiter>): (r: seq<nat>)
    ensures |r| == |ws| && forall i :: 0 <= i < |ws| ==> r[i] == ws[i].priority
  {
    seq(|ws|, i requires 0 <= i < |ws| => ws[i].priority)
  }

  // byPriority: RT_IPC_FLAG_PRIO, otherwise RT_IPC_FLAG_FIFO.
  function Suspend(ws: seq<Waiter>, w: Waiter, byPriority: bool): seq<Waiter> {
    Put(ws, if byPriority then Position(Prios(ws), w.priority) else |ws|, w)
  }

  datatype Reply = Refused | Received(got: Bits) | TimedOut | Suspended

  function Recv(e: Event, w: Waiter, byPriority: bool, wait: bool): (Event, Reply) {
    if w.want == 0 then (e, Refused)
    else if Met(w, e.bits) then (e.(bits := if w.clear then Minus(e.bits, w.want) else e.bits), Received(Meet(e.bits, w.want)))
    else if !wait then (e, TimedOut)
    else (e.(waiters := Suspend(e.waiters, w, byPriority)), Suspended)
  }

  // A waiting thread's timer expires.
  function Leave(ws: seq<Waiter>, id: Tid): seq<Waiter> {
    if ws == [] then [] else if ws[0].id == id then ws[1..] else [ws[0]] + Leave(ws[1..], id)
  }

  // ----- no waiter is left whose condition is met -----

  ghost predicate Quiet(e: Event) { forall w :: w in e.waiters ==> !Met(w, e.bits) && w.want != 0 }

  // Taking bits away meets no condition.
  lemma LessMeetsNone(w: Waiter, bits: Bits, less: Bits)
    requires !Met(w, bits) && Within(less, bits)
    ensures !Met(w, less)
  {
    hide Meet, Within;
    SmallerMeetsLess(w.want, less, bits);
  }

  lemma LeftWithin(w: Waiter, bits: Bits)
    ensures Within(Left(w, bits), bits)
  {
    hide Meet, Within, Minus;
    WithinSelf(bits);
    MinusWithin(bits, Got(w, bits));
  }

  lemma {:induction false} DeliverShrinks(bits: Bits, ws: seq<Waiter>)
    ensures Within(Deliver(bits, ws).bits, bits)
    decreases ws
  {
    hide Meet, Within, Minus, Met, Got, Left;
    if ws == [] {
      WithinSelf(bits);
    } else if Met(ws[0], bits) {
      DeliverShrinks(Left(ws[0], bits), ws[1..]);
      LeftWithin(ws[0], bits);
      WithinTrans(Deliver(bits, ws).bits, Left(ws[0], bits), bits);
    } else {
      DeliverShrinks(bits, ws[1..]);
    }
  }

  lemma {:induction false} DeliverQuiet(bits: Bits, ws: seq<Waiter>)
    ensures forall w :: w in Deliver(bits, ws).kept ==> w in ws && !Met(w, Deliver(bits, ws).bits)
    decreases ws
  {
    hide Meet, Within, Minus, Met, Got, Left;
    if ws != [] {
      if Met(ws[0], bits) {
        DeliverQuiet(Left(ws[0], bits), ws[1..]);
      } else {
        DeliverQuiet(bits, ws[1..]);
        DeliverShrinks(bits, ws[1..]);
        LessMeetsNone(ws[0], bits, Deliver(bits, ws[1..]).bits);
      }
    }
  }

  // ----- what a send hands out -----

  // All bits taken by waiters that clear what they get.
  function Cleared(woken: seq<Wake>): Bits {
    if woken == [] then 0
    else if woken[0].clear then Join(woken[0].got, Cleared(woken[1..]))
    else Cleared(woken[1..])
  }

  // What a waiter cleared goes to no later waiter.
  ghost predicate Disjoint(woken: seq<Wake>) {
    forall i, j :: 0 <= i < j < |woken| && woken[i].clear ==> Apart(woken[i].got, woken[j].got)
  }

  ghost predicate AllWithin(woken: seq<Wake>, bits: Bits) { forall k :: 0 <= k < |woken| ==> Within(woken[k].got, bits) }

  lemma GotWithin(w: Waiter, bits: Bits)
    requires Met(w, bits)
    ensures Within(Got(w, bits), bits)
  {
    hide Meet, Within;
    WithinMeet(w.want, bits);
    MeetWithin(w.want, bits);
  }

  // A condition with AND is met if all bits that are wanted are there, one with OR if some
  // are.
  lemma MetMeans(w: Waiter, bits: Bits)
    ensures Met(w, bits) <==> if w.all then Within(w.want, bits) else !Apart(w.want, bits)
  {
  }

  // Once it is met a waiter gets, of the bits that are there, just those it wants.
  lemma GotMeans(w: Waiter, bits: Bits, x: Bits)
    requires Met(w, bits)
    ensures Within(x, Got(w, bits)) <==> Within(x, w.want) && Within(x, bits)
  {
    hide Meet, Within;
    MeetWithin(w.want, bits);
    WithinMeetIff(x, w.want, bits);
  }

  // And they stay in the set, or all of them and nothing else goes.
  lemma LeftMeans(w: Waiter, bits: Bits, x: Bits)
    ensures Within(x, Left(w, bits)) <==> Within(x, bits) && (w.clear ==> Apart(x, Got(w, bits)))
  {
    hide Minus, Within, Got;
    WithinMinusIff(x, bits, Got(w, bits));
  }

  lemma OneMore(w: Waiter, bits: Bits, rest: seq<Wake>)
    requires AllWithin(rest, Left(w, bits)) && Within(Got(w, bits), bits) && Disjoint(rest)
    ensures AllWithin([Wake(w.id, Got(w, bits), w.clear)] + rest, bits)
    ensures Disjoint([Wake(w.id, Got(w, bits), w.clear)] + rest)
  {
    hide Meet, Within, Minus, Got, Apart;
    forall k | 0 <= k < |rest| ensures Within(rest[k].got, bits) && (w.clear ==> Apart(Got(w, bits), rest[k].got)) {
      assert Within(rest[k].got, Left(w, bits));
      if w.clear { WithinMinus(rest[k].got, bits, Got(w, bits)); }
    }
  }

  // Everything handed out was in the set when it was handed out; the set loses
  // exactly what was cleared.
  lemma {:induction false} DeliverHandsOut(bits: Bits, ws: seq<Waiter>)
    ensures var o := Deliver(bits, ws); AllWithin(o.woken, bits) && Disjoint(o.woken) && o.bits == Minus(bits, Cleared(o.woken))
    decreases ws
  {
    hide Meet, Within, Minus, Join, Met, Got, Disjoint, AllWithin;
    if ws == [] {
      assert Disjoint([]) && AllWithin([], bits) by { NoneWoken(bits); }
      WithinSelf(bits);
    } else if Met(ws[0], bits) {
      var w := ws[0];
      DeliverHandsOut(Left(w, bits), ws[1..]);
      GotWithin(w, bits);
      var rest := Deliver(Left(w, bits), ws[1..]).woken;
      OneMore(w, bits, rest);
      assert Deliver(bits, ws).woken[1..] == rest;
      MinusMinus(bits, Got(w, bits), Cleared(rest));
    } else {
      DeliverHandsOut(bits, ws[1..]);
    }
  }

  lemma NoneWoken(bits: Bits)
    ensures Disjoint([]) && AllWithin([], bits)
  {
  }

  // ----- every waiter is served or kept, in order -----

  // The waiter was woken with bits it wants, with AND with all of them.
  ghost predicate Serves(w: Waiter, k: Wake) {
    k.id == w.id && k.clear == w.clear && Within(k.got, w.want) && (w.all ==> k.got == w.want) && (w.want != 0 ==> k.got != 0)
  }

  lemma GotServes(w: Waiter, bits: Bits)
    requires Met(w, bits)
    ensures Serves(w, Wake(w.id, Got(w, bits), w.clear))
  {
    hide Meet, Within;
    WithinSelf(w.want);
    MeetWithin(w.want, bits);
    GotMeans(w, bits, Got(w, bits));
    WithinSelf(Got(w, bits));
  }

  // woken and kept interleave to the old list.
  ghost predicate Splits(ws: seq<Waiter>, kept: seq<Waiter>, woken: seq<Wake>)
    decreases ws
  {
    if ws == [] then kept == [] && woken == []
    else
      || (woken != [] && Serves(ws[0], woken[0]) && Splits(ws[1..], kept, woken[1..]))
      || (kept != [] && kept[0] == ws[0] && Splits(ws[1..], kept[1..], woken))
  }

  lemma {:induction false} DeliverSplits(bits: Bits, ws: seq<Waiter>)
    ensures Splits(ws, Deliver(bits, ws).kept, Deliver(bits, ws).woken)
    decreases ws
  {
    hide Met, Got, Left, Serves;
    if ws != [] {
      var o := Deliver(bits, ws);
      if Met(ws[0], bits) {
        GotServes(ws[0], bits);
        DeliverSplits(Left(ws[0], bits), ws[1..]);
        assert o.woken[1..] == Deliver(Left(ws[0], bits), ws[1..]).woken;
      } else {
        DeliverSplits(bits, ws[1..]);
        assert o.kept[1..] == Deliver(bits, ws[1..]).kept;
      }
    }
  }

  // The waiters of a get their turn before those of b.
  lemma {:induction false} DeliverAppend(bits: Bits, a: seq<Waiter>, b: seq<Waiter>)
    ensures var o := Deliver(bits, a);
      var p := Deliver(o.bits, b);
      Deliver(bits, a + b) == Outcome(p.bits, o.kept + p.kept, o.woken + p.woken)
    decreases a
  {
    hide Met, Got, Left;
    if a == [] {
      assert a + b == b;
    } else {
      assert (a + b)[0] == a[0] && (a + b)[1..] == a[1..] + b;
      if Met(a[0], bits) { DeliverAppend(Left(a[0], bits), a[1..], b); } else { DeliverAppend(bits, a[1..], b); }
    }
  }

  lemma MissingWasCleared(w: Waiter, bits: Bits, cleared: Bits)
    requires Met(w, bits) && !Met(w, Minus(bits, cleared))
    ensures Meet(w.want, cleared) != 0
  {
    hide Meet, Minus;
    MissingMeets(w.want, bits, cleared);
  }

  // A waiter whose condition the bits meet when the loop starts is woken at its turn,
  // unless waiters before it cleared a bit it asked for.
  lemma PassedOverFor(bits: Bits, pre: seq<Waiter>, w: Waiter, post: seq<Waiter>)
    requires Met(w, bits)
    ensures var (o, all) := (Deliver(bits, pre), Deliver(bits, pre + [w] + post));
      || (|o.woken| < |all.woken| && all.woken[|o.woken|] == Wake(w.id, Got(w, o.bits), w.clear))
      || (|o.kept| < |all.kept| && all.kept[|o.kept|] == w && Meet(w.want, Cleared(o.woken)) != 0)
  {
    hide Meet, Minus, Met, Got, Left, Disjoint, AllWithin, Cleared;
    var o := Deliver(bits, pre);
    DeliverHandsOut(bits, pre);
    DeliverAppend(bits, pre, [w] + post);
    assert pre + [w] + post == pre + ([w] + post);
    assert ([w] + post)[0] == w;
    if !Met(w, o.bits) { MissingWasCleared(w, bits, Cleared(o.woken)); }
  }

  // ----- theorems -----

  // A send wakes waiters with bits that are there, gives no cleared bit twice, ends
  // with the set less exactly the cleared bits, and leaves nobody waiting in vain.
  lemma SendIsExact(e: Event, bits: Bits)
    requires Quiet(e) && bits != 0
    ensures var (f, woken) := Send(e, bits);
      && Quiet(f) && f.bits == Minus(Join(e.bits, bits), Cleared(woken)) && Disjoint(woken)
      && AllWithin(woken, Join(e.bits, bits)) && Splits(e.waiters, f.waiters, woken)
  {
    hide Met, Deliver, Splits, Serves, Disjoint, Cleared, AllWithin, Minus, Join;
    DeliverQuiet(Join(e.bits, bits), e.waiters);
    DeliverHandsOut(Join(e.bits, bits), e.waiters);
    DeliverSplits(Join(e.bits, bits), e.waiters);
  }

  // A receiver waits exactly if its condition is not met, and else gets what it asked
  // for, or with OR the part of it that is there.
  lemma RecvKeepsQuiet(e: Event, w: Waiter, byPriority: bool, wait: bool)
    requires Quiet(e)
    ensures var (f, r) := Recv(e, w, byPriority, wait);
      && Quiet(f) && (r.Suspended? <==> w.want != 0 && !Met(w, e.bits) && wait)
      && (r.Received? ==> r.got == Got(w, e.bits) != 0 && Within(r.got, e.bits) && f.bits == Left(w, e.bits))
      && (r.Received? ==> Within(r.got, w.want) && if w.all then r.got == w.want else Within(Meet(w.want, e.bits), r.got))
  {
    hide Meet, Within, Minus, Position;
    WithinSelf(Meet(w.want, e.bits));
    if Met(w, e.bits) { GotServes(w, e.bits); }
    if Met(w, e.bits) && w.want != 0 {
      MeetWithin(w.want, e.bits);
      MinusMeet(e.bits, w.want);
      MinusWithin(e.bits, w.want);
      forall v | v in e.waiters && w.clear ensures !Met(v, Minus(e.bits, w.want)) {
        LessMeetsNone(v, e.bits, Minus(e.bits, w.want));
      }
    }
  }

  // The reply and the place of a thread that waits: by priority, behind those as good as
  // it is, or last. Nothing else about the waiters changes.
  lemma RecvMeans(e: Event, w: Waiter, byPriority: bool, wait: bool)
    requires byPriority ==> Sorted(Prios(e.waiters))
    ensures var (f, r) := Recv(e, w, byPriority, wait);
      && (r.Refused? <==> w.want == 0) && (r.Received? <==> w.want != 0 && Met(w, e.bits))
      && (r.TimedOut? <==> w.want != 0 && !Met(w, e.bits) && !wait)
      && (!r.Received? ==> f.bits == e.bits) && (!r.Suspended? ==> f.waiters == e.waiters)
      && (r.Suspended? ==> exists i :: 0 <= i <= |e.waiters| && f.waiters == Put(e.waiters, i, w) && Queues(e.waiters, w, byPriority, i))
      && (byPriority ==> Sorted(Prios(f.waiters)))
  {
    hide Met, Minus, Meet, Position;
    var i := if byPriority then Position(Prios(e.waiters), w.priority) else |e.waiters|;
    if byPriority { PutIsStable(Prios(e.waiters), w.priority); }
    PutPrios(e.waiters, i, w);
    assert Put(e.waiters, i, w) == Suspend(e.waiters, w, byPriority);
  }

  ghost predicate Queues(ws: seq<Waiter>, w: Waiter, byPriority: bool, i: nat)
    requires i <= |ws|
  {
    if byPriority then (forall j :: 0 <= j < i ==> ws[j].priority <= w.priority) && forall j :: i <= j < |ws| ==> w.priority < ws[j].priority
    else i == |ws|
  }

  lemma PutPrios(ws: seq<Waiter>, i: nat, w: Waiter)
    requires i <= |ws|
    ensures Prios(Put(ws, i, w)) == Put(Prios(ws), i, w.priority)
  {
  }

  // A thread that times out, and no other, leaves the waiters.
  lemma {:induction false} LeaveMeans(a: seq<Waiter>, w: Waiter, b: seq<Waiter>)
    requires forall v :: v in a ==> v.id != w.id
    ensures Leave(a + [w] + b, w.id) == a + b && Leave(a, w.id) == a
    decreases a
  {
    var ws := a + [w] + b;
    if a == [] {
      assert ws[0] == w && ws[1..] == b;
    } else {
      assert ws[0] == a[0] && ws[1..] == a[1..] + [w] + b;
      LeaveMeans(a[1..], w, b);
    }
  }

  lemma {:induction false} LeaveIn(ws: seq<Waiter>, id: Tid)
    ensures forall w :: w in Leave(ws, id) ==> w in ws
  {
    if ws != [] { LeaveIn(ws[1..], id); }
  }

  datatype Step = SendStep(bits: Bits) | RecvStep(w: Waiter, byPriority: bool, wait: bool) | TimeoutStep(id: Tid) | ResetStep

  function Next(e: Event, a: Step): Event {
    match a
    case SendStep(bits) => Send(e, bits).0
    case RecvStep(w, p, wait) => Recv(e, w, p, wait).0
    case TimeoutStep(id) => e.(waiters := Leave(e.waiters, id))
    case ResetStep => Event(0, [])
  }

  function Run(e: Event, steps: seq<Step>): Event
    decreases steps
  {
    if steps == [] then e else Run(Next(e, steps[0]), steps[1..])
  }

  // After every step of every run no suspended thread's condition is met.
  lemma {:induction false} RunsAreQuiet(e: Event, steps: seq<Step>)
    requires Quiet(e)
    ensures Quiet(Run(e, steps))
    decreases steps
  {
    hide Met, Deliver, Splits, Disjoint, Cleared, AllWithin, Minus, Join, Meet;
    if steps != [] {
      match steps[0] {
        case SendStep(bits) => if bits != 0 { SendIsExact(e, bits); }
        case RecvStep(w, p, wait) => RecvKeepsQuiet(e, w, p, wait);
        case TimeoutStep(id) => LeaveIn(e.waiters, id);
        case ResetStep =>
      }
      RunsAreQuiet(Next(e, steps[0]), steps[1..]);
    }
  }
}
