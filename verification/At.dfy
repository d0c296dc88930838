// The variables of myat_sever.c and what each thread does with them in one round,
// over the event object the threads wait for.
module At {
  import opened Sequences
  import opened BitSets
  import opened WaitList
  import opened EventSpec
  import opened Event
  import opened AtSpec

  // The bits of rx1_event.
  const PACKET: Bits := 2       // RX1_PROCESS_EVENT
  const EXPIRED: Bits := 4      // AT_TIMEOUT_EVENT
  const SEND: Bits := 16        // ATSTATUS_SEND_EVENT
  const ACK: Bits := 32         // ATCMD_SEND_ACK_OK_EVENT
  const EITHER: Bits := 6       // RX1_PROCESS_EVENT | AT_TIMEOUT_EVENT

  // The threads at_process and at_send_thread, and how they wait.
  const PROCESS: Tid := 0
  const SENDER: Tid := 1

  function ProcessWaiter(): Waiter { Waiter(PROCESS, EITHER, false, true, 4) }

  function SendWaiter(): Waiter { Waiter(SENDER, SEND, true, true, 5) }

  function BitOf(e: Signal): Bits {
    match e
    case PacketSignal => PACKET
    case TimeoutSignal => EXPIRED
    case SendSignal => SEND
    case AckSignal => ACK
  }

  predicate Has(bits: Bits, b: Bits) { Meet(bits, b) != 0 }

  // ----- single bits -----

  lemma HasAfter(bits: Bits, e: Signal, f: Signal)
    ensures Has(Join(bits, BitOf(e)), BitOf(f)) <==> e == f || Has(bits, BitOf(f))
    ensures Has(BitOf(e), BitOf(f)) <==> e == f
    ensures !Has(0, BitOf(f)) && BitOf(e) != 0
  {
    hide Has, Meet, Join, BitOf;
    SingleBits(e, f);
    HasJoin(bits, BitOf(e), BitOf(f));
  }

  lemma HasJoin(a: Bits, b: Bits, c: Bits)
    ensures Has(Join(a, b), c) <==> Has(a, c) || Has(b, c)
    ensures !Has(0, c)
  {
    assert (a | b) & c == (a & c) | (b & c);
  }

  lemma SingleBits(e: Signal, f: Signal)
    ensures (Has(BitOf(e), BitOf(f)) <==> e == f) && BitOf(e) != 0
  {
  }

  lemma EitherIs(bits: Bits)
    ensures Has(Minus(bits, EITHER), SEND) == Has(bits, SEND) && Has(Minus(bits, EITHER), ACK) == Has(bits, ACK)
    ensures !Has(Minus(bits, EITHER), PACKET) && !Has(Minus(bits, EITHER), EXPIRED)
    ensures Has(Meet(bits, EITHER), PACKET) == Has(bits, PACKET) && Has(Meet(bits, EITHER), EXPIRED) == Has(bits, EXPIRED)
    ensures Meet(bits, EITHER) != 0 <==> Has(bits, PACKET) || Has(bits, EXPIRED)
  {
  }

  lemma SendIs(bits: Bits)
    ensures forall f: Signal :: f != SendSignal ==> Has(Minus(bits, SEND), BitOf(f)) == Has(bits, BitOf(f))
    ensures !Has(Minus(bits, SEND), SEND)
  {
  }

  // When each thread's condition is met, and what it leaves of a bit just sent.
  lemma MetIs(bits: Bits)
    ensures Met(ProcessWaiter(), bits) <==> Has(bits, PACKET) || Has(bits, EXPIRED)
    ensures Met(SendWaiter(), bits) <==> Has(bits, SEND)
  {
  }

  lemma TakesTheBit(w: Waiter, bits: Bits, e: Signal)
    requires w == ProcessWaiter() || w == SendWaiter()
    requires !Met(w, bits) && Met(w, Join(bits, BitOf(e)))
    ensures Got(w, Join(bits, BitOf(e))) == BitOf(e) && Left(w, Join(bits, BitOf(e))) == bits
  {
  }

  // ----- a send -----

  // One or both threads wait, or none.
  ghost predicate Queued(ws: seq<Waiter>) {
    || ws == [] || ws == [ProcessWaiter()] || ws == [SendWaiter()]
    || ws == [ProcessWaiter(), SendWaiter()] || ws == [SendWaiter(), ProcessWaiter()]
  }

  // The thread that waits for the bit.
  predicate Takes(w: Waiter, e: Signal) {
    (w == ProcessWaiter() && (e.PacketSignal? || e.TimeoutSignal?)) || (w == SendWaiter() && e.SendSignal?)
  }

  lemma MetByIt(w: Waiter, bits: Bits, e: Signal)
    requires (w == ProcessWaiter() || w == SendWaiter()) && !Met(w, bits)
    ensures Met(w, Join(bits, BitOf(e))) <==> Takes(w, e)
  {
    hide Met, Join, Has, BitOf;
    MetIs(bits);
    MetIs(Join(bits, BitOf(e)));
    HasAfter(bits, e, PacketSignal);
    HasAfter(bits, e, TimeoutSignal);
    HasAfter(bits, e, SendSignal);
    assert BitOf(PacketSignal) == PACKET && BitOf(TimeoutSignal) == EXPIRED && BitOf(SendSignal) == SEND by { BitsOf(); }
  }

  lemma BitsOf()
    ensures BitOf(PacketSignal) == PACKET && BitOf(TimeoutSignal) == EXPIRED && BitOf(SendSignal) == SEND && BitOf(AckSignal) == ACK
  {
  }

  // The list without the first that waits for the bit.
  function Kept(ws: seq<Waiter>, e: Signal): seq<Waiter> {
    if ws == [] then [] else if Takes(ws[0], e) then ws[1..] else [ws[0]] + Kept(ws[1..], e)
  }

  predicate Taken(ws: seq<Waiter>, e: Signal) { ws != [] && (Takes(ws[0], e) || Taken(ws[1..], e)) }

  function TakerOf(e: Signal): Tid { if e.SendSignal? then SENDER else PROCESS }

  ghost predicate Idle(ws: seq<Waiter>, bits: Bits) {
    forall w :: w in ws ==> (w == ProcessWaiter() || w == SendWaiter()) && !Met(w, bits)
  }

  lemma IdleRest(ws: seq<Waiter>, bits: Bits)
    requires ws != [] && Idle(ws, bits)
    ensures (ws[0] == ProcessWaiter() || ws[0] == SendWaiter()) && !Met(ws[0], bits) && Idle(ws[1..], bits)
  {
    hide Met;
    assert ws[0] in ws && forall w :: w in ws[1..] ==> w in ws;
  }

  lemma TakerIs(w: Waiter, e: Signal)
    requires Takes(w, e)
    ensures w.id == TakerOf(e) && w.clear
  {
  }

  // The waiting thread that takes the bit is woken with it, and the set stays as it was;
  // if none takes it, it stays in the set.
  lemma {:induction false} Delivers(bits: Bits, e: Signal, ws: seq<Waiter>)
    requires Idle(ws, bits)
    ensures Deliver(Join(bits, BitOf(e)), ws) ==
      if Taken(ws, e) then Outcome(bits, Kept(ws, e), [Wake(TakerOf(e), BitOf(e), true)]) else Outcome(Join(bits, BitOf(e)), ws, [])
    decreases ws
  {
    hide Met, Got, Left, Join, BitOf, Takes, Idle, ProcessWaiter, SendWaiter, TakerOf;
    if ws != [] {
      IdleRest(ws, bits);
      MetByIt(ws[0], bits, e);
      if Takes(ws[0], e) {
        TakerIs(ws[0], e);
        TakesTheBit(ws[0], bits, e);
        NobodyElse(bits, ws[1..]);
      } else {
        Delivers(bits, e, ws[1..]);
      }
    }
  }

  lemma {:induction false} NobodyElse(bits: Bits, ws: seq<Waiter>)
    requires Idle(ws, bits)
    ensures Deliver(bits, ws) == Outcome(bits, ws, [])
    decreases ws
  {
    hide Met, Idle, Got, Left;
    if ws != [] {
      IdleRest(ws, bits);
      NobodyElse(bits, ws[1..]);
    }
  }

  // ----- what the two threads see of it -----

  // What the bits in the set and the bits e with which the process thread was woken, if
  // it was, mean for the protocol.
  ghost predicate Shows(s: State, bits: Bits, ws: seq<Waiter>, e: Bits) {
    && s.packet == Has(bits, PACKET) && s.timeout == Has(bits, EXPIRED) && s.send == Has(bits, SEND) && s.ack == Has(bits, ACK)
    && Queued(ws)
    && (ProcessWaiter() in ws ==> ProcessWaits(s))
    && (ProcessWaiter() !in ws ==> !ProcessWaits(s) && s.inPacket == Has(e, PACKET) && s.inTimeout == Has(e, EXPIRED))
    && (s.inSend <==> SendWaiter() !in ws)
  }

  lemma KeptIs(ws: seq<Waiter>, e: Signal)
    requires Queued(ws)
    ensures Queued(Kept(ws, e))
    ensures ProcessWaiter() in Kept(ws, e) <==> ProcessWaiter() in ws && !Takes(ProcessWaiter(), e)
    ensures SendWaiter() in Kept(ws, e) <==> SendWaiter() in ws && !Takes(SendWaiter(), e)
    ensures Taken(ws, e) <==> (ProcessWaiter() in ws && Takes(ProcessWaiter(), e)) || (SendWaiter() in ws && Takes(SendWaiter(), e))
  {
  }

  // A send is a signal.
  lemma SendShows(s: State, ev: EventSpec.Event, e: Bits, x: Signal)
    requires Shows(s, ev.bits, ev.waiters, e) && EventSpec.Quiet(ev)
    ensures var (f, woken) := EventSpec.Send(ev, BitOf(x));
      && woken == (if Taken(ev.waiters, x) then [Wake(TakerOf(x), BitOf(x), true)] else [])
      && f.waiters == (if Taken(ev.waiters, x) then Kept(ev.waiters, x) else ev.waiters)
      && Shows(Raise(s, x), f.bits, f.waiters, if Taken(ev.waiters, x) && TakerOf(x) == PROCESS then BitOf(x) else e)
  {
    hide Met, Join, Has, Deliver, Kept, Taken;
    assert Idle(ev.waiters, ev.bits) by { QueuedIsIdle(ev); }
    BitsOf();
    HasAfter(ev.bits, x, PacketSignal);
    HasAfter(ev.bits, x, TimeoutSignal);
    HasAfter(ev.bits, x, SendSignal);
    HasAfter(ev.bits, x, AckSignal);
    Delivers(ev.bits, x, ev.waiters);
    KeptIs(ev.waiters, x);
    hide BitOf, Queued;
  }

  lemma QueuedIsIdle(ev: EventSpec.Event)
    requires Queued(ev.waiters) && EventSpec.Quiet(ev)
    ensures Idle(ev.waiters, ev.bits)
  {
    hide Met;
  }

  // A waiting process thread has no bits yet.
  lemma ShowsAny(s: State, bits: Bits, ws: seq<Waiter>, e: Bits, f: Bits)
    requires Shows(s, bits, ws, e) && (ProcessWaiter() in ws || e == f)
    ensures Shows(s, bits, ws, f)
  {
    hide Has, Queued;
  }

  // The process thread takes both bits at once, or waits.
  lemma ProcessShows(s: State, ev: EventSpec.Event, e: Bits)
    requires Shows(s, ev.bits, ev.waiters, e) && ProcessWaiter() !in ev.waiters
    ensures var (f, r) := EventSpec.Recv(ev, ProcessWaiter(), false, true);
      && Shows(ProcessRecv(s), f.bits, f.waiters, if r.Received? then r.got else 0)
      && (r.Received? || r.Suspended?) && (r.Received? ==> r.got != 0 && f.waiters == ev.waiters)
      && (r.Suspended? ==> ProcessWaiter() in f.waiters)
  {
    hide Has, Minus, Meet, Met;
    MetIs(ev.bits);
    EitherIs(ev.bits);
    assert ev.waiters + [ProcessWaiter()] == Put(ev.waiters, |ev.waiters|, ProcessWaiter());
    assert EITHER != 0;
  }

  lemma SenderShows(s: State, ev: EventSpec.Event, e: Bits)
    requires Shows(s, ev.bits, ev.waiters, e) && SendWaiter() !in ev.waiters
    ensures var (f, r) := EventSpec.Recv(ev, SendWaiter(), false, true);
      && Shows(SendRecv(s), f.bits, f.waiters, e) && (ProcessWaiter() in f.waiters <==> ProcessWaiter() in ev.waiters)
  {
    hide Has, Minus, Meet, Met;
    MetIs(ev.bits);
    SendIs(ev.bits);
    BitsOf();
    assert ev.waiters + [SendWaiter()] == Put(ev.waiters, |ev.waiters|, SendWaiter());
    assert SEND != 0;
  }

  lemma ListedIds(list: seq<Tid>, threads: map<Tid, Thread>)
    requires (forall id :: id in list ==> id in threads) && Queued(Waiters(list, threads))
    ensures PROCESS in list <==> ProcessWaiter() in Waiters(list, threads)
    ensures SENDER in list <==> SendWaiter() in Waiters(list, threads)
  {
    var ws := Waiters(list, threads);
    forall i | 0 <= i < |list| ensures list[i] == ws[i].id && (ws[i] == ProcessWaiter() || ws[i] == SendWaiter()) {}
  }

  // ----- the variables and the threads -----

  class AtServer {
    const event: EventObject
    var currentRty: nat
    var currentCmd: Cmd
    var nextCmd: Cmd
    var recCmd: Cmd
    var timeoutCnt: nat
    var timerRunning: bool
    var received: Bits    // what the process thread received without waiting, or 0
    ghost var state: State

    // The bits the process thread runs with, once it is woken.
    function Woken(): Bits
      requires PROCESS in event.threads
      reads this, event
    {
      if received != 0 then received else event.threads[PROCESS].eventSet
    }

    ghost predicate Threads()
      reads event
    {
      && event.Valid() && !event.byPriority && PROCESS in event.threads && SENDER in event.threads
      && event.threads[PROCESS].priority == 4 && event.threads[SENDER].priority == 5
    }

    // The variables and the event object are those of the protocol's state.
    ghost predicate Valid()
      reads this, event
    {
      && Threads() && Invariant(state)
      && Shows(state, event.bits, event.View().waiters, Woken())
      && (ProcessWaiter() in event.View().waiters ==> received == 0)
      && state.rty == currentRty && state.current == currentCmd && state.next == nextCmd && state.rec == recCmd
      && state.cnt == timeoutCnt && state.running == timerRunning
    }

    // AT_Init, and the two threads up to their first wait.
    constructor ()
      ensures Valid() && state == Init() && fresh(event)
    {
      event := new EventObject(false, map[PROCESS := Thread(0, false, false, 4, Ok), SENDER := Thread(0, false, false, 5, Ok)]);
      currentRty, timeoutCnt := 0, 0;
      currentCmd, nextCmd, recCmd := 0, TNOCMD1, 0;
      timerRunning, received := false, 0;
      state := Init();
      new;
      hide Met, EventSpec.Quiet, Distinct, Has, EventSpec.Recv, Shows;
      FirstWaits();
      var _ := event.Recv(PROCESS, EITHER, false, true, true);
      ListedIds(event.list, event.threads);
      var _ := event.Recv(SENDER, SEND, true, true, true);
    }

    // rt_event_send.
    method Signal(x: AtSpec.Signal)
      requires Valid()
      modifies `state, event`bits, event`list, event`threads
      ensures Valid() && state == Raise(old(state), x)
    {
      hide Shows, EventSpec.Send, EventSpec.Quiet, Kept, AtSpec.Invariant, Raise, Queued, BitOf, Distinct;
      ghost var (ev, e, list) := (event.View(), Woken(), event.list);
      SendShows(state, ev, e, x);
      RaiseKeeps(state, x);
      ShowsIds(state, event);
      ghost var woken;
      var ok;
      ok, woken := event.Send(BitOf(x));
      ShowsWoken(state, ev, x);
      state := Raise(state, x);
      ghost var f := if Taken(ev.waiters, x) && TakerOf(x) == PROCESS then BitOf(x) else e;
      if ProcessWaiter() !in event.View().waiters {
        if ProcessWaiter() in ev.waiters {
          assert woken[0] == Wake(PROCESS, BitOf(x), true);
          SignalIsNotZero(x);
          assert event.threads[woken[0].id].eventSet == BitOf(x);
        } else {
          assert PROCESS !in list;
        }
        assert Woken() == f;
      }
      ShowsAny(state, event.bits, event.View().waiters, f, Woken());
    }

    // The state follows the variables, which have just been assigned.
    ghost method Set(s: State)
      requires Threads() && Shows(state, event.bits, event.View().waiters, Woken())
      requires (ProcessWaiter() in event.View().waiters ==> received == 0) && AtSpec.Invariant(s)
      requires s == state.(rty := currentRty, current := currentCmd, next := nextCmd, rec := recCmd, cnt := timeoutCnt, running := timerRunning)
      modifies `state
      ensures Valid() && state == s
    {
      hide Shows, AtSpec.Invariant, EventSpec.Quiet, Distinct;
      VariablesShow(state, s, event.bits, event.View().waiters, Woken());
      state := s;
    }

    method AtSend(cmd: Cmd)
      requires Valid()
      modifies this, event`bits, event`list, event`threads
      ensures Valid() && state == AtSpec.AtSend(old(state), cmd) && currentCmd == cmd && recCmd == cmd
    {
      hide Shows, EventSpec.Quiet, Queued, Distinct, Raise;
      currentCmd := cmd;
      nextCmd := TNOCMD;
      recCmd := cmd;
      timeoutCnt := TIMEOUT;
      timerRunning := true;
      Set(state.(current := cmd, next := TNOCMD, rec := cmd, cnt := TIMEOUT, running := true));
      Signal(SendSignal);
    }

    // The callback of timer2.
    method Tick()
      requires Valid() && timerRunning
      modifies this, event`bits, event`list, event`threads
      ensures Valid() && state == AtSpec.Next(old(state), AtSpec.Tick)
    {
      hide Shows, EventSpec.Quiet, Queued, Distinct;
      if timeoutCnt != 0 {
        timeoutCnt := timeoutCnt - 1;
        Set(state.(cnt := timeoutCnt));
        if timeoutCnt == 0 {
          Signal(TimeoutSignal);
          timerRunning := false;
          Set(state.(running := false));
        }
      }
    }

    // The serial port has a whole packet.
    method Arrive()
      requires Valid()
      modifies `state, event`bits, event`list, event`threads
      ensures Valid() && state == AtSpec.Next(old(state), AtSpec.Arrive)
    {
      hide Valid, Raise;
      Signal(PacketSignal);
    }

    // One round of at_process_entry, from the bits it was woken with to its next receive.
    method Process(reply: bool)
      requires Valid() && Enabled(state, AtSpec.Process(reply))
      modifies this, event`bits, event`list, event`threads
      ensures Valid() && state == AtSpec.Next(old(state), AtSpec.Process(reply))
    {
      hide EventSpec.Quiet, Queued, Distinct, Raise, EventSpec.Recv, Has, Meet;
      ghost var s := state;
      WokenShows(state, event, Woken());
      RoundIsWoken(state, reply);
      if Meet(Woken(), PACKET) != 0 {
        RecWaitAt(reply);
      } else if Meet(Woken(), EXPIRED) != 0 {
        Timeout();
      }
      Receive();
    }

    // What a timeout leads to: a repetition, or a reset.
    method Timeout()
      requires Valid() && state.inTimeout && !state.inPacket
      modifies this, event`bits, event`list, event`threads
      ensures Valid() && forall reply :: state == Round(old(state), reply)
    {
      hide Shows, EventSpec.Quiet, Queued, Distinct, Raise;
      if currentRty > 0 {
        currentRty := currentRty - 1;
        nextCmd := currentCmd;
        timeoutCnt := TIMEOUT;
        timerRunning := true;
        Set(state.(rty := currentRty, next := currentCmd, cnt := TIMEOUT, running := true));
        Signal(SendSignal);
      } else {
        AtSend(REST);
      }
    }

    // Rec_WaitAT: reply says that the packet contains what recCmd waits for.
    method RecWaitAt(reply: bool)
      requires Valid()
      modifies this, event`bits, event`list, event`threads
      ensures Valid() && state == if reply then Raise(old(state).(cnt := 0), AckSignal) else old(state)
    {
      hide Shows, EventSpec.Quiet, Queued, Distinct, Raise;
      if reply {
        timeoutCnt := 0;
        Set(state.(cnt := 0));
        Signal(AckSignal);
      }
    }

    // The receive of at_process_entry.
    method Receive()
      requires Valid() && !ProcessWaits(state)
      modifies `state, `received, event`bits, event`list, event`threads
      ensures Valid() && state == ProcessRecv(old(state))
    {
      hide EventSpec.Quiet, Queued, Distinct, EventSpec.Recv, Has;
      ghost var (ev, e) := (event.View(), Woken());
      ProcessShows(state, ev, e);
      ShowsIds(state, event);
      var r := event.Recv(PROCESS, EITHER, false, true, true);
      received := match r case Received(got) => got case _ => 0;
      state := ProcessRecv(state);
      ShowsAny(state, event.bits, event.View().waiters, if r.Received? then r.got else 0, Woken());
    }

    // One round of at_send_thread_entry; sent is the command that goes out.
    method Transmit() returns (sent: Cmd)
      requires Valid() && Enabled(state, AtSpec.Transmit)
      modifies this, event`bits, event`list, event`threads
      ensures Valid() && state == AtSpec.Next(old(state), AtSpec.Transmit) && sent == old(currentCmd)
    {
      hide Shows, EventSpec.Quiet, Queued, Distinct;
      if currentCmd != nextCmd {
        currentRty := RETRIES;
      }
      sent := currentCmd;
      Set(state.(rty := currentRty));
      Await();
    }

    // The receive of at_send_thread_entry.
    method Await()
      requires Valid() && state.inSend
      modifies `state, event`bits, event`list, event`threads
      ensures Valid() && state == SendRecv(old(state))
    {
      hide EventSpec.Quiet, Queued, Distinct, EventSpec.Recv, Has;
      ghost var (ev, e) := (event.View(), Woken());
      SenderShows(state, ev, e);
      ShowsIds(state, event);
      var _ := event.Recv(SENDER, SEND, true, true, true);
      state := SendRecv(state);
    }
  }

  // The variables do not matter for what the event object shows.
  lemma VariablesShow(s: State, r: State, bits: Bits, ws: seq<Waiter>, e: Bits)
    requires Shows(s, bits, ws, e)
    requires r == s.(rty := r.rty, current := r.current, next := r.next, rec := r.rec, cnt := r.cnt, running := r.running)
    ensures Shows(r, bits, ws, e)
  {
    hide Queued, Has;
  }

  lemma RoundIsWoken(s: State, reply: bool)
    requires !ProcessWaits(s)
    ensures !ProcessWaits(Round(s, reply))
    ensures s.inPacket ==> Round(s, reply) == if reply then Raise(s.(cnt := 0), AckSignal) else s
  {
  }

  lemma WokenShows(s: State, event: EventObject, e: Bits)
    requires event.Listed() && Shows(s, event.bits, event.View().waiters, e) && !ProcessWaits(s)
    ensures (Meet(e, PACKET) != 0 <==> s.inPacket) && (Meet(e, EXPIRED) != 0 <==> s.inTimeout)
  {
    hide Queued;
  }

  lemma FirstWaits()
    ensures EventSpec.Recv(EventSpec.Event(0, []), ProcessWaiter(), false, true) == (EventSpec.Event(0, [ProcessWaiter()]), Suspended)
    ensures EventSpec.Recv(EventSpec.Event(0, [ProcessWaiter()]), SendWaiter(), false, true)
      == (EventSpec.Event(0, [ProcessWaiter(), SendWaiter()]), Suspended)
    ensures forall e :: Shows(Init(), 0, [ProcessWaiter(), SendWaiter()], e)
  {
    hide Met;
    MetIs(0);
    assert Put([], 0, ProcessWaiter()) == [ProcessWaiter()];
    assert Put([ProcessWaiter()], 1, SendWaiter()) == [ProcessWaiter(), SendWaiter()];
    assert ProcessWaiter() in [ProcessWaiter(), SendWaiter()] && SendWaiter() in [ProcessWaiter(), SendWaiter()];
  }

  lemma SignalIsNotZero(x: AtSpec.Signal)
    ensures BitOf(x) != 0
  {
  }

  lemma RaiseKeeps(s: State, x: Signal)
    requires AtSpec.Invariant(s)
    ensures AtSpec.Invariant(Raise(s, x))
    ensures var r := Raise(s, x);
      r.rty == s.rty && r.current == s.current && r.next == s.next && r.rec == s.rec && r.cnt == s.cnt && r.running == s.running
  {
  }

  lemma ShowsIds(s: State, event: EventObject)
    requires event.Listed() && exists e :: Shows(s, event.bits, event.View().waiters, e)
    ensures PROCESS in event.list <==> ProcessWaiter() in event.View().waiters
    ensures SENDER in event.list <==> SendWaiter() in event.View().waiters
  {
    ListedIds(event.list, event.threads);
  }

  // Whether the process thread is still waiting after the signal.
  lemma ShowsWoken(s: State, ev: EventSpec.Event, x: Signal)
    requires exists e :: Shows(s, ev.bits, ev.waiters, e)
    ensures Taken(ev.waiters, x) && TakerOf(x) == PROCESS ==> ProcessWaiter() in ev.waiters
    ensures ProcessWaiter() in Kept(ev.waiters, x) ==> ProcessWaiter() in ev.waiters
    ensures Taken(ev.waiters, x) && TakerOf(x) != PROCESS ==> (ProcessWaiter() in Kept(ev.waiters, x) <==> ProcessWaiter() in ev.waiters)
    ensures Taken(ev.waiters, x) && TakerOf(x) == PROCESS ==> ProcessWaiter() !in Kept(ev.waiters, x)
  {
    KeptIs(ev.waiters, x);
  }
}
