// The AT command retries of myat_sever.c as a protocol: the thread that processes
// events, the thread that transmits, the timeout timer and the callers of ATSend
// share a few variables and the bits of one event object. A thread that waits is
// woken with the bits that were sent; until it has run, later bits stay in the set.
module AtSpec {
  type Cmd = c: nat | c < 12

  const REST: Cmd := 9        // AT_REST
  const TNOCMD: Cmd := 10     // AT_TNOCMD
  const TNOCMD1: Cmd := 11
  const RETRIES := 3          // RtyNum of every command in ATCmds
  const TIMEOUT := 500        // at_timeout_cnt, in timer periods

  // rty: CurrentRty. cnt: at_timeout_cnt. running: timer2 is started. packet, timeout,
  // send, ack: bits of rx1_event. inPacket, inTimeout, inSend: the bits with which the
  // two threads have been woken and not yet run; without any, the thread waits.
  datatype State = State(
    rty: nat, current: Cmd, next: Cmd, rec: Cmd, cnt: nat, running: bool,
    packet: bool, timeout: bool, send: bool, ack: bool,
    inPacket: bool, inTimeout: bool, inSend: bool)

  datatype Step =
    | Call(cmd: Cmd)            // ATSend by an application
    | Tick                      // timer2 expires
    | Arrive                    // a packet is complete
    | Process(reply: bool)      // at_process_entry, once; reply: the packet matches
    | Transmit                  // at_send_thread_entry, once

  datatype Signal = PacketSignal | TimeoutSignal | SendSignal | AckSignal

  // AT_Init, with both threads waiting.
  function Init(): State {
    State(0, 0, TNOCMD1, 0, 0, false, false, false, false, false, false, false, false)
  }

  predicate ProcessWaits(s: State) { !s.inPacket && !s.inTimeout }

  // rt_event_send: a waiting thread is woken with the bit, and clears it.
  function Raise(s: State, e: Signal): State {
    match e
    case PacketSignal => if ProcessWaits(s) then s.(inPacket := true) else s.(packet := true)
    case TimeoutSignal => if ProcessWaits(s) then s.(inTimeout := true) else s.(timeout := true)
    case SendSignal => if !s.inSend then s.(inSend := true) else s.(send := true)
    case AckSignal => s.(ack := true)
  }

  // rt_event_recv of the two threads: what is in the set is taken, all at once.
  function ProcessRecv(s: State): State { s.(inPacket := s.packet, inTimeout := s.timeout, packet := false, timeout := false) }

  function SendRecv(s: State): State { s.(inSend := s.send, send := false) }

  function AtSend(s: State, cmd: Cmd): State {
    Raise(s.(current := cmd, next := TNOCMD, rec := cmd, cnt := TIMEOUT, running := true), SendSignal)
  }

  // A thread runs once it is woken.
  predicate Enabled(s: State, a: Step) {
    match a
    case Tick => s.running
    case Process(_) => !ProcessWaits(s)
    case Transmit => s.inSend
    case _ => true
  }

  // What the process thread does with the bits it was woken with.
  function Round(s: State, reply: bool): State {
    if s.inPacket then (if reply then Raise(s.(cnt := 0), AckSignal) else s)
    else if s.rty > 0 then Raise(s.(rty := s.rty - 1, next := s.current, cnt := TIMEOUT, running := true), SendSignal)
    else AtSend(s, REST)
  }

  function Next(s: State, a: Step): State {
    match a
    case Call(cmd) => AtSend(s, cmd)
    case Tick =>
      if s.cnt == 1 then Raise(s.(cnt := 0, running := false), TimeoutSignal)
      else if s.cnt > 1 then s.(cnt := s.cnt - 1)
      else s
    case Arrive => Raise(s, PacketSignal)
    case Process(reply) => ProcessRecv(Round(s, reply))
    case Transmit => SendRecv(s.(rty := if s.current != s.next then RETRIES else s.rty))
  }

  // The step is a call of ATSend, by an application or by the last timeout.
  predicate Sends(s: State, a: Step) { a.Call? || (a.Process? && !s.inPacket && s.rty == 0) }

  // The step handles a timeout.
  predicate TimesOut(s: State, a: Step) { a.Process? && !s.inPacket }

  predicate IsRun(s: State, run: seq<Step>)
    decreases run
  {
    run == [] || (Enabled(s, run[0]) && IsRun(Next(s, run[0]), run[1..]))
  }

  function After(s: State, run: seq<Step>): State
    decreases run
  {
    if run == [] then s else After(Next(s, run[0]), run[1..])
  }

  // How often the run transmits, calls ATSend and handles a timeout.
  function Transmissions(s: State, run: seq<Step>): nat
    decreases run
  {
    if run == [] then 0 else (if run[0].Transmit? then 1 else 0) + Transmissions(Next(s, run[0]), run[1..])
  }

  predicate NoSends(s: State, run: seq<Step>)
    decreases run
  {
    run == [] || (!Sends(s, run[0]) && NoSends(Next(s, run[0]), run[1..]))
  }

  predicate NoCalls(run: seq<Step>) { forall a :: a in run ==> !a.Call? }

  function Timeouts(s: State, run: seq<Step>): nat
    decreases run
  {
    if run == [] then 0 else (if TimesOut(s, run[0]) then 1 else 0) + Timeouts(Next(s, run[0]), run[1..])
  }

  // ----- how often a command is transmitted -----

  // A thread does not wait while a bit it waits for is set; the timer runs while there
  // is something to count down.
  predicate Invariant(s: State) {
    && s.rty <= RETRIES && s.cnt <= TIMEOUT && (0 < s.cnt ==> s.running)
    && (ProcessWaits(s) ==> !s.packet && !s.timeout) && (!s.inSend ==> !s.send)
  }

  // Rounds the transmitting thread will make without another signal.
  function Pending(s: State): nat { (if s.inSend then 1 else 0) + if s.send then 1 else 0 }

  // Transmissions that are still possible before the next call of ATSend: those
  // pending, and the retries, which a first transmission sets anew.
  function Possible(s: State): nat { Pending(s) + if Pending(s) > 0 && s.current != s.next then RETRIES else s.rty }

  // A step other than ATSend uses up a possible transmission for each it makes.
  predicate UsesUp(s: State, a: Step) {
    var t := Next(s, a);
    && Invariant(t)
    && (!Sends(s, a) ==> Possible(t) + (if a.Transmit? then 1 else 0) <= Possible(s))
    && (Sends(s, a) ==> Possible(t) <= RETRIES + 1 + (if s.inSend then 1 else 0))
  }

  lemma StepUsesUp(s: State, a: Step)
    requires Invariant(s) && Enabled(s, a)
    ensures UsesUp(s, a)
  {
    hide *;
    match a
    case Process(reply) => RoundUsesUp(s, reply);
    case Call(cmd) => CallUsesUp(s, cmd);
    case Transmit => TransmitUsesUp(s);
    case Tick => TickUsesUp(s);
    case Arrive => ArriveUsesUp(s);
  }

  lemma CallUsesUp(s: State, cmd: Cmd)
    requires Invariant(s)
    ensures UsesUp(s, Call(cmd))
  {
  }

  lemma TransmitUsesUp(s: State)
    requires Invariant(s) && Enabled(s, Transmit)
    ensures UsesUp(s, Transmit)
  {
  }

  lemma TickUsesUp(s: State)
    requires Invariant(s)
    ensures UsesUp(s, Tick)
  {
    hide Raise, Possible;
    RaiseIsFree(s.(cnt := 0, running := false), TimeoutSignal);
    CountIsFree(s, 0, false);
    if s.cnt > 0 { CountIsFree(s, s.cnt - 1, s.running); }
  }

  lemma CountIsFree(s: State, cnt: nat, running: bool)
    ensures Possible(s.(cnt := cnt, running := running)) == Possible(s)
  {
  }

  lemma RaiseIsFree(s: State, e: Signal)
    requires Invariant(s) && (e.PacketSignal? || e.TimeoutSignal?)
    ensures Invariant(Raise(s, e)) && Possible(Raise(s, e)) == Possible(s)
  {
  }

  lemma ArriveUsesUp(s: State)
    requires Invariant(s)
    ensures UsesUp(s, Arrive)
  {
    hide Raise, Possible, Invariant;
    RaiseIsFree(s, PacketSignal);
  }

  lemma RoundUsesUp(s: State, reply: bool)
    requires Invariant(s) && Enabled(s, Process(reply))
    ensures UsesUp(s, Process(reply))
  {
    var r := Round(s, reply);
    hide Round;
    RoundIs(s, reply);
    assert ProcessRecv(r).cnt == r.cnt && Possible(ProcessRecv(r)) == Possible(r);
  }

  lemma RoundIs(s: State, reply: bool)
    requires Invariant(s) && !ProcessWaits(s)
    ensures var r := Round(s, reply);
      && r.rty <= RETRIES && r.cnt <= TIMEOUT && (0 < r.cnt ==> r.running) && (r.send ==> r.inSend)
      && (!Sends(s, Process(reply)) ==> Possible(r) <= Possible(s))
      && (Sends(s, Process(reply)) ==> Possible(r) <= RETRIES + 1 + (if s.inSend then 1 else 0))
  {
  }

  lemma {:induction false} RunUsesUp(s: State, run: seq<Step>)
    requires Invariant(s) && IsRun(s, run) && NoSends(s, run)
    ensures Invariant(After(s, run)) && Possible(After(s, run)) + Transmissions(s, run) <= Possible(s)
    decreases run
  {
    if run != [] {
      StepUsesUp(s, run[0]);
      RunUsesUp(Next(s, run[0]), run[1..]);
    }
  }

  // What comes between one call of ATSend and the next: RtyNum + 1 transmissions, and
  // one more if the transmitting thread had been woken and had not yet run at the call.
  // AT_TNOCMD, which is also what marks a command as transmitted, gets the retries
  // that were left.
  function Bound(s: State, a: Step): nat {
    1 + (if s.inSend then 1 else 0) + if a == Call(TNOCMD) then s.rty else RETRIES
  }

  lemma BoundIs(s: State, a: Step)
    requires Invariant(s) && Enabled(s, a) && Sends(s, a)
    ensures var t := Next(s, a);
      && Invariant(t) && Possible(t) == Bound(s, a) && 0 < Pending(t) && t.cnt == TIMEOUT
      && Bound(s, a) <= RETRIES + 1 + (if s.inSend then 1 else 0)
  {
    StepUsesUp(s, a);
  }

  // In every interleaving of the threads and the timer it is no more than that, four
  // or five.
  lemma AtMostFourTransmissions(s: State, a: Step, run: seq<Step>)
    requires Invariant(s) && Enabled(s, a) && Sends(s, a) && IsRun(Next(s, a), run) && NoSends(Next(s, a), run)
    ensures Transmissions(Next(s, a), run) <= Bound(s, a) <= RETRIES + 1 + (if s.inSend then 1 else 0)
  {
    BoundIs(s, a);
    RunUsesUp(Next(s, a), run);
  }

  // And it is reached after every call, in whatever state: by a command that is never
  // answered.
  lemma BoundIsReached(s: State, a: Step) returns (run: seq<Step>)
    requires Invariant(s) && Enabled(s, a) && Sends(s, a)
    ensures IsRun(Next(s, a), run) && NoSends(Next(s, a), run) && Transmissions(Next(s, a), run) == Bound(s, a)
  {
    hide Next, Invariant, Bound, Possible, Enabled, Sends;
    var t := Next(s, a);
    BoundIs(s, a);
    var first, m := Drain(t);
    DrainUsesUp(t, m);
    var rest := Exhaust(m);
    RunAppend(t, first, rest);
    run := first + rest;
  }

  // So more than four are possible exactly after a call that finds the transmitting
  // thread woken, unless it is AT_TNOCMD with a retry already used.
  lemma MoreThanFourIff(s: State, a: Step)
    requires Invariant(s) && Enabled(s, a) && Sends(s, a)
    ensures (exists run :: IsRun(Next(s, a), run) && NoSends(Next(s, a), run) && Transmissions(Next(s, a), run) > RETRIES + 1)
      <==> s.inSend && (a == Call(TNOCMD) ==> s.rty == RETRIES)
  {
    hide Next, Enabled, Sends;
    var most := BoundIsReached(s, a);
    forall run | IsRun(Next(s, a), run) && NoSends(Next(s, a), run) ensures Transmissions(Next(s, a), run) <= Bound(s, a) {
      AtMostFourTransmissions(s, a, run);
    }
  }

  // Five are reached by two calls in a row before the first one is transmitted.
  lemma FiveAreReached() returns (run: seq<Step>)
    ensures var s := Next(Next(Init(), Call(0)), Call(1));
      IsRun(s, run) && NoSends(s, run) && Transmissions(s, run) == RETRIES + 2
  {
    run := BoundIsReached(Next(Init(), Call(0)), Call(1));
  }

  // The transmitting thread makes the rounds that are pending.
  lemma Drain(s: State) returns (run: seq<Step>, t: State)
    requires s.send ==> s.inSend
    ensures IsRun(s, run) && NoSends(s, run) && NoCalls(run) && Transmissions(s, run) == Pending(s) && t == After(s, run)
    ensures t == s.(rty := if s.inSend && s.current != s.next then RETRIES else s.rty, inSend := false, send := false)
  {
    var (one, two) := ([Transmit], [Transmit, Transmit]);
    assert one[1..] == [] && two[1..] == one;
    run := if s.send then two else if s.inSend then one else [];
    t := After(s, run);
    assert s.send ==> After(s, two) == After(Next(s, Transmit), one);
  }

  lemma DrainUsesUp(s: State, t: State)
    requires Invariant(s) && t == s.(rty := if s.inSend && s.current != s.next then RETRIES else s.rty, inSend := false, send := false)
    ensures Invariant(t) && Pending(t) == 0 && Possible(s) == Pending(s) + t.rty
  {
  }

  // Rounds the process thread makes before it waits.
  function Rounds(s: State): nat { if ProcessWaits(s) then 0 else if s.packet || s.timeout then 2 else 1 }

  // While the countdown is on and no packet matches, every retry comes to be transmitted.
  lemma {:induction false} Exhaust(s: State) returns (run: seq<Step>)
    requires Invariant(s) && Pending(s) == 0 && 0 < s.cnt
    ensures IsRun(s, run) && NoSends(s, run) && Transmissions(s, run) == s.rty
    decreases s.rty, Rounds(s)
  {
    hide IsRun, NoSends, Transmissions, After;
    if s.rty == 0 {
      run := [];
      EmptyRun(s);
    } else if ProcessWaits(s) {
      var ticks := Ticks(s);
      var m := s.(cnt := 0, running := false, inTimeout := true);
      var end, t := Retry(m);
      var rest := Exhaust(t);
      RunAppend(m, end, rest);
      RunAppend(s, ticks, end + rest);
      run := ticks + (end + rest);
    } else if s.inPacket {
      var m := Next(s, Process(false));
      OneStep(s, Process(false));
      var rest := Exhaust(m);
      RunAppend(s, [Process(false)], rest);
      run := [Process(false)] + rest;
    } else {
      var end, t := Retry(s);
      var rest := Exhaust(t);
      RunAppend(s, end, rest);
      run := end + rest;
    }
  }

  lemma EmptyRun(s: State)
    ensures IsRun(s, []) && NoSends(s, []) && Transmissions(s, []) == 0 && Timeouts(s, []) == 0 && After(s, []) == s
  {
  }

  lemma OneStep(s: State, a: Step)
    requires Enabled(s, a)
    ensures IsRun(s, [a]) && (NoSends(s, [a]) <==> !Sends(s, a)) && After(s, [a]) == Next(s, a)
    ensures Transmissions(s, [a]) == (if a.Transmit? then 1 else 0) && Timeouts(s, [a]) == if TimesOut(s, a) then 1 else 0
  {
    assert [a][1..] == [];
  }

  // A timeout is handled, and what it starts, a retry or the reset, is transmitted.
  lemma Retry(s: State) returns (run: seq<Step>, t: State)
    requires Invariant(s) && s.inTimeout && !s.inPacket && Pending(s) == 0
    ensures IsRun(s, run) && NoCalls(run) && Transmissions(s, run) == 1 && Timeouts(s, run) == 1 && t == After(s, run)
    ensures Invariant(t) && t.cnt == TIMEOUT && Pending(t) == 0
    ensures 0 < s.rty ==> NoSends(s, run) && t.rty == s.rty - 1
  {
    run := [Process(false), Transmit];
    assert run[1..] == [Transmit] && run[1..][1..] == [];
    t := After(s, run);
    assert t == Next(Next(s, Process(false)), Transmit);
  }

  lemma {:induction false} Ticks(s: State) returns (run: seq<Step>)
    requires s.running && 0 < s.cnt
    ensures IsRun(s, run) && NoSends(s, run) && NoCalls(run) && Transmissions(s, run) == 0 && Timeouts(s, run) == 0
    ensures After(s, run) == Raise(s.(cnt := 0, running := false), TimeoutSignal) && run == seq(s.cnt, _ => Tick)
    decreases s.cnt
  {
    if s.cnt == 1 {
      run := [Tick];
      assert run[1..] == [];
    } else {
      var rest := Ticks(s.(cnt := s.cnt - 1));
      run := [Tick] + rest;
      assert run[1..] == rest;
    }
  }

  // Left to the timer, a command that was called for times out with the 500th tick, five
  // seconds later, and not before.
  lemma TimesOutAfter(s: State, a: Step, n: nat)
    requires Invariant(s) && Enabled(s, a) && Sends(s, a) && n <= 500
    ensures var (t, run) := (Next(s, a), seq(n, _ => Tick));
      && IsRun(t, run)
      && After(t, run) == if n < 500 then t.(cnt := 500 - n) else Raise(t.(cnt := 0, running := false), TimeoutSignal)
  {
    BoundIs(s, a);
    var t := Next(s, a);
    if n < 500 { CountsDown(t, n); } else { var run := Ticks(t); }
  }

  lemma {:induction false} CountsDown(s: State, n: nat)
    requires s.running && n < s.cnt
    ensures IsRun(s, seq(n, _ => Tick)) && After(s, seq(n, _ => Tick)) == s.(cnt := s.cnt - n)
    decreases n
  {
    if n > 0 {
      CountsDown(s.(cnt := s.cnt - 1), n - 1);
      assert seq(n, _ => Tick)[1..] == seq(n - 1, _ => Tick);
    }
  }

  lemma {:induction false} RunAppend(s: State, a: seq<Step>, b: seq<Step>)
    ensures IsRun(s, a + b) <==> IsRun(s, a) && IsRun(After(s, a), b)
    ensures NoSends(s, a + b) <==> NoSends(s, a) && NoSends(After(s, a), b)
    ensures Transmissions(s, a + b) == Transmissions(s, a) + Transmissions(After(s, a), b)
    ensures Timeouts(s, a + b) == Timeouts(s, a) + Timeouts(After(s, a), b)
    ensures After(s, a + b) == After(After(s, a), b)
    decreases a
  {
    hide Next, Enabled, Sends, TimesOut;
    if a == [] {
      assert a + b == b;
    } else {
      assert (a + b)[1..] == a[1..] + b;
      RunAppend(Next(s, a[0]), a[1..], b);
    }
  }

  // ----- which command is transmitted -----

  // The command that a call of ATSend is for: that of the caller, or the reset.
  function Asked(a: Step): Cmd { if a.Call? then a.cmd else REST }

  // The commands of a run, in the order in which they are transmitted.
  function Sent(s: State, run: seq<Step>): seq<Cmd>
    decreases run
  {
    if run == [] then []
    else (if run[0].Transmit? then [s.current] else []) + Sent(Next(s, run[0]), run[1..])
  }

  // Up to the next call every transmission, repeated or not, is of the command that was
  // asked for, and its reply is what is waited for.
  lemma AskedIsSent(s: State, a: Step, run: seq<Step>)
    requires Enabled(s, a) && Sends(s, a) && IsRun(Next(s, a), run) && NoSends(Next(s, a), run)
    ensures |Sent(Next(s, a), run)| == Transmissions(Next(s, a), run)
    ensures forall i :: 0 <= i < |Sent(Next(s, a), run)| ==> Sent(Next(s, a), run)[i] == Asked(a)
    ensures After(Next(s, a), run).current == After(Next(s, a), run).rec == Asked(a)
  {
    CommandStays(Next(s, a), run);
  }

  lemma {:induction false} CommandStays(s: State, run: seq<Step>)
    requires IsRun(s, run) && NoSends(s, run)
    ensures |Sent(s, run)| == Transmissions(s, run)
    ensures forall i :: 0 <= i < |Sent(s, run)| ==> Sent(s, run)[i] == s.current
    ensures After(s, run).current == s.current && After(s, run).rec == s.rec
    decreases run
  {
    hide Next, Sends, Enabled;
    if run != [] {
      StepKeepsCommand(s, run[0]);
      CommandStays(Next(s, run[0]), run[1..]);
    }
  }

  lemma StepKeepsCommand(s: State, a: Step)
    requires Enabled(s, a) && !Sends(s, a)
    ensures Next(s, a).current == s.current && Next(s, a).rec == s.rec
  {
    match a
    case Process(_) =>
    case Tick =>
    case _ =>
  }

  // ----- timeouts lead to a reset -----

  // What is pending is a repetition: it will not set the retries anew.
  predicate Started(s: State) { s.inSend ==> s.current == s.next }

  // So it is after a transmission, unless a call came before it and another before that
  // was transmitted.
  lemma TransmitStarts(s: State)
    requires Invariant(s) && s.inSend && (s.current == s.next || !s.send)
    ensures Started(Next(s, Transmit)) && (s.current != s.next ==> Next(s, Transmit).rty == RETRIES)
  {
  }

  // From then on every timeout that is handled uses up a retry.
  lemma {:induction false} TimeoutsAreCounted(s: State, run: seq<Step>)
    requires Invariant(s) && IsRun(s, run) && NoSends(s, run) && Started(s)
    ensures Invariant(After(s, run)) && Started(After(s, run)) && After(s, run).rty + Timeouts(s, run) == s.rty
    decreases run
  {
    hide Next, Invariant, Started, TimesOut, Sends, Enabled, Possible;
    if run != [] {
      StepUsesUp(s, run[0]);
      StepCountsTimeouts(s, run[0]);
      TimeoutsAreCounted(Next(s, run[0]), run[1..]);
    }
  }

  lemma StepCountsTimeouts(s: State, a: Step)
    requires Invariant(s) && Started(s) && Enabled(s, a) && !Sends(s, a)
    ensures Started(Next(s, a)) && Next(s, a).rty + (if TimesOut(s, a) then 1 else 0) == s.rty
  {
    match a
    case Process(_) =>
    case Transmit =>
    case _ =>
  }

  // And the timeout after the last retry, the fourth at the latest, resets the module:
  // no run without a call of ATSend handles more timeouts than there are retries.
  lemma FourthTimeoutResets(s: State, run: seq<Step>, reply: bool)
    requires Invariant(s) && Started(s) && IsRun(s, run) && NoSends(s, run)
    ensures var t := After(s, run);
      && Timeouts(s, run) <= s.rty <= RETRIES
      && (TimesOut(t, Process(reply)) ==> (Timeouts(s, run) == s.rty <==> Sends(t, Process(reply))))
      && (TimesOut(t, Process(reply)) && Timeouts(s, run) == s.rty ==> Next(t, Process(reply)) == ProcessRecv(AtSend(t, REST)))
  {
    TimeoutsAreCounted(s, run);
  }

  // ----- an acknowledgement ends the retries -----

  // No timeout is counted down to, and none that was set will be looked at: a packet
  // was or will be taken with it.
  predicate Settled(s: State) { s.cnt == 0 && (s.inTimeout ==> s.inPacket) && (s.timeout ==> s.packet) }

  // Then nothing is transmitted any more but what was pending, until ATSend is called.
  lemma {:induction false} AckEndsRetries(s: State, run: seq<Step>)
    requires Settled(s) && Invariant(s) && IsRun(s, run) && NoCalls(run)
    ensures Settled(After(s, run)) && Timeouts(s, run) == 0
    ensures Transmissions(s, run) + Pending(After(s, run)) == Pending(s)
    decreases run
  {
    if run != [] {
      StepUsesUp(s, run[0]);
      SettledStep(s, run[0]);
      AckEndsRetries(Next(s, run[0]), run[1..]);
    }
  }

  lemma SettledStep(s: State, a: Step)
    requires Settled(s) && Invariant(s) && Enabled(s, a) && !a.Call?
    ensures Settled(Next(s, a)) && !TimesOut(s, a)
    ensures Pending(Next(s, a)) + (if a.Transmit? then 1 else 0) == Pending(s)
  {
    match a
    case Process(_) =>
    case Transmit =>
    case _ =>
  }

  // And only then: otherwise a timeout can still be handled and transmitted for.
  lemma {:induction false} Relapse(s: State) returns (run: seq<Step>)
    requires Invariant(s) && !Settled(s) && Pending(s) == 0
    ensures IsRun(s, run) && NoCalls(run) && Transmissions(s, run) == 1 && Timeouts(s, run) == 1
    decreases Rounds(s)
  {
    hide IsRun, NoSends, Transmissions, Timeouts, After;
    if s.inTimeout && !s.inPacket {
      var end, t := Retry(s);
      run := end;
    } else if s.inPacket {
      OneStep(s, Process(false));
      var rest := Relapse(Next(s, Process(false)));
      RunAppend(s, [Process(false)], rest);
      run := [Process(false)] + rest;
    } else {
      var ticks := Ticks(s);
      var m := s.(cnt := 0, running := false, inTimeout := true);
      var end, t := Retry(m);
      RunAppend(s, ticks, end);
      run := ticks + end;
    }
  }

  // The retries are over: nothing but what is pending will be transmitted before ATSend
  // is called again.
  ghost predicate RetriesAreOver(s: State) {
    forall run :: IsRun(s, run) && NoCalls(run) ==> Transmissions(s, run) <= Pending(s)
  }

  lemma RetriesAreOverIff(s: State)
    requires Invariant(s)
    ensures RetriesAreOver(s) <==> Settled(s)
  {
    hide IsRun, NoCalls, Transmissions, Next;
    if Settled(s) {
      forall run | IsRun(s, run) && NoCalls(run) ensures Transmissions(s, run) <= Pending(s) { AckEndsRetries(s, run); }
    } else {
      var first, m := Drain(s);
      var rest := Relapse(m);
      RunAppend(s, first, rest);
      NoCallsAppend(first, rest);
      assert Transmissions(s, first + rest) == Pending(s) + 1;
    }
  }

  lemma NoCallsAppend(a: seq<Step>, b: seq<Step>)
    requires NoCalls(a) && NoCalls(b)
    ensures NoCalls(a + b)
  {
  }

  // A matching reply is reported, and ends the retries in every run exactly if no
  // timeout, or another packet too, came between it and the round that looks at it.
  lemma MatchEndsRetriesIff(s: State)
    requires Invariant(s) && s.inPacket
    ensures Next(s, Process(true)).ack
    ensures RetriesAreOver(Next(s, Process(true))) <==> (s.timeout ==> s.packet)
  {
    hide RetriesAreOver;
    StepUsesUp(s, Process(true));
    RetriesAreOverIff(Next(s, Process(true)));
  }

  // If they are not over, the very next round starts a command again that has been
  // acknowledged, or resets the module.
  lemma AnsweredCommandIsRepeated(s: State, reply: bool)
    requires Invariant(s) && s.inPacket && s.timeout
    ensures var t := Next(s, Process(true)); var u := Next(t, Process(reply));
      && (TimesOut(t, Process(reply)) <==> !s.packet)
      && (!s.packet ==> u.inSend)
      && (!s.packet && 0 < s.rty ==> u.next == u.current == s.current && u.rty == s.rty - 1)
      && (!s.packet && s.rty == 0 ==> u == ProcessRecv(AtSend(t, REST)))
  {
  }

  // Such a state is reached: the packet comes in time, the timeout before the round.
  lemma LateTimeoutIsReached() returns (run: seq<Step>)
    ensures IsRun(Init(), run)
    ensures var s := After(Init(), run); s.inPacket && s.timeout && !s.packet && Pending(s) == 0
  {
    run := BothAreSet();
  }

  // ----- a timeout that is lost -----

  // A timeout in the set is handled in the round after next, unless a packet is in the
  // set as well: then it is taken together with the packet and forgotten.
  lemma TimeoutCountsIff(s: State, first: bool, second: bool)
    requires Invariant(s) && !ProcessWaits(s) && s.timeout
    ensures var t := Next(s, Process(first)); t.inTimeout && (TimesOut(t, Process(second)) <==> !s.packet)
  {
  }

  // With a packet that does not match, the command is then neither repeated nor given
  // up, whatever else happens short of a call of ATSend.
  lemma LostTimeoutStalls(s: State, run: seq<Step>)
    requires Invariant(s) && s.inTimeout && s.inPacket && !s.timeout && s.cnt == 0 && Pending(s) == 0
    requires IsRun(Next(s, Process(false)), run) && NoCalls(run)
    ensures Transmissions(Next(s, Process(false)), run) == 0 && Timeouts(Next(s, Process(false)), run) == 0
  {
    AckEndsRetries(Next(s, Process(false)), run);
  }

  // In general a round for a packet that does not match leaves the command stalled
  // exactly if the countdown is over and no timeout is left to be handled alone.
  lemma StallsIff(s: State)
    requires Invariant(s) && s.inPacket
    ensures RetriesAreOver(Next(s, Process(false))) <==> s.cnt == 0 && (s.timeout ==> s.packet)
  {
    hide RetriesAreOver;
    StepUsesUp(s, Process(false));
    RetriesAreOverIff(Next(s, Process(false)));
  }

  // A command is transmitted; a packet wakes the thread, and the timeout comes first.
  lemma BothAreSet() returns (run: seq<Step>)
    ensures IsRun(Init(), run)
    ensures var s := After(Init(), run);
      s.inPacket && s.timeout && !s.packet && !s.inTimeout && s.cnt == 0 && Pending(s) == 0 && s.current == 0
  {
    var start := [Call(0), Transmit, Arrive];
    assert start[1..] == [Transmit, Arrive] && start[1..][1..] == [Arrive] && start[1..][1..][1..] == [];
    var s := After(Init(), start);
    assert s == Init().(rty := RETRIES, next := TNOCMD, cnt := TIMEOUT, running := true, inPacket := true) && IsRun(Init(), start);
    var ticks := Ticks(s);
    RunAppend(Init(), start, ticks);
    run := start + ticks;
  }

  // With one more packet before the round, the state that stalls is reached.
  lemma LostTimeoutIsReached() returns (run: seq<Step>)
    ensures IsRun(Init(), run)
    ensures var s := After(Init(), run); s.inTimeout && s.inPacket && !s.timeout && s.cnt == 0 && Pending(s) == 0
  {
    var both := BothAreSet();
    var end := [Arrive, Process(false)];
    assert end[1..] == [Process(false)] && end[1..][1..] == [];
    RunAppend(Init(), both, end);
    run := both + end;
  }
}
