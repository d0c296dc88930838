// The message queue of ipc.c as a system of atomic steps: each critical section of
// rt_mq_send, rt_mq_urgent and rt_mq_recv is a step, and so is the copying that
// happens between two of them with interrupts enabled.
module MessageQueueSpec {
  import opened Common
  import opened Sequences

  type Node = nat
  type Message = seq<int>

  // Where the holder of a node stands: it has taken the node from the free list,
  // has copied its message in (to send it in turn, or else urgently), or has taken
  // the node from the queue.
  datatype Hold = Reserved | Filled(inTurn: bool) | Taken

  // body: the bytes of every node. msg: the message a node carries.
  datatype State = State(
    nodes: nat, size: nat, free: seq<Node>, queue: seq<Node>, held: map<Node, Hold>,
    body: map<Node, seq<int>>, msg: map<Node, Message>)

  datatype Step =
    | Reserve                        // first half of send and urgent
    | Fill(n: Node, m: Message, inTurn: bool)   // their copy
    | LinkTail(n: Node)              // second half of send
    | LinkHead(n: Node)              // second half of urgent
    | Pop                            // first half of recv
    | Put(n: Node)                   // second half of recv
    | Reset

  function Reversed(s: seq<Node>): seq<Node> { if s == [] then [] else Reversed(s[1..]) + [s[0]] }

  // n - 1 down to 0.
  function Down(n: nat): seq<Node> { if n == 0 then [] else [n - 1] + Down(n - 1) }

  function Init(nodes: nat, size: nat, body: map<Node, seq<int>>): State {
    State(nodes, size, Down(nodes), [], map[], body, map[])
  }

  // A sender holds what it links; a receiver holds what it puts back.
  ghost predicate Enabled(s: State, a: Step) {
    match a
    case Reserve => s.free != []
    case Fill(n, m, _) => n in s.held && s.held[n].Reserved? && |m| <= s.size && n in s.body && |s.body[n]| == s.size
    case LinkTail(n) => n in s.held && s.held[n] == Filled(true)
    case LinkHead(n) => n in s.held && s.held[n] == Filled(false)
    case Pop => s.queue != []
    case Put(n) => n in s.held && s.held[n].Taken?
    case Reset => true
  }

  ghost function Next(s: State, a: Step): State
    requires Enabled(s, a)
  {
    match a
    case Reserve => s.(free := s.free[1..], held := s.held[s.free[0] := Reserved])
    case Fill(n, m, inTurn) => s.(held := s.held[n := Filled(inTurn)], body := s.body[n := m + s.body[n][|m|..]], msg := s.msg[n := m])
    case LinkTail(n) => s.(held := s.held - {n}, queue := s.queue + [n])
    case LinkHead(n) => s.(held := s.held - {n}, queue := [n] + s.queue)
    case Pop => s.(queue := s.queue[1..], held := s.held[s.queue[0] := Taken])
    case Put(n) => s.(held := s.held - {n}, free := [n] + s.free)
    case Reset => s.(free := Reversed(s.queue) + s.free, queue := [])
  }

  // ----- the invariant -----

  // Every node is in exactly one of the free list, the queue and the hands of some
  // thread, once.
  ghost predicate Partition(nodes: nat, free: seq<Node>, queue: seq<Node>, held: map<Node, Hold>) {
    && Distinct(free) && Distinct(queue)
    && (forall n :: n in free ==> n !in queue && n !in held && n < nodes)
    && (forall n :: n in queue ==> n !in held && n < nodes)
    && (forall n :: n in held ==> n < nodes)
    && |free| + |queue| + |held| == nodes
    && (forall n: Node :: n < nodes ==> n in free || n in queue || n in held)
  }

  // A node in the queue, or in the hands of a thread that filled or took it, still
  // has its message in it.
  ghost predicate Carried(s: State) {
    && (forall n: Node :: n < s.nodes ==> n in s.body && |s.body[n]| == s.size)
    && (forall n :: n in s.queue || (n in s.held && !s.held[n].Reserved?) ==>
          n in s.msg && n in s.body && |s.msg[n]| <= |s.body[n]| && s.body[n][..|s.msg[n]|] == s.msg[n])
  }

  ghost predicate Invariant(s: State) { Partition(s.nodes, s.free, s.queue, s.held) && Carried(s) }

  // The queue as its users see it.
  function Messages(msg: map<Node, Message>, queue: seq<Node>): (r: seq<Message>)
    ensures |r| == |queue|
  {
    if queue == [] then []
    else [if queue[0] in msg then msg[queue[0]] else []] + Messages(msg, queue[1..])
  }

  ghost function Contents(s: State): seq<Message> { Messages(s.msg, s.queue) }

  // ----- every step keeps the invariant -----

  lemma JoinDistinct(a: seq<Node>, b: seq<Node>)
    requires Distinct(a) && Distinct(b) && forall n :: n in a ==> n !in b
    ensures Distinct(a + b) && forall n :: n in a + b <==> n in a || n in b
  {
    var c := a + b;
    forall i, j | 0 <= i < j < |c| ensures c[i] != c[j] {
      if i < |a| { assert c[i] in a; }
      if j >= |a| { assert c[j] in b; }
    }
  }

  lemma {:induction false} ReversedIn(s: seq<Node>)
    ensures |Reversed(s)| == |s| && forall n :: n in Reversed(s) <==> n in s
    ensures Distinct(s) ==> Distinct(Reversed(s))
  {
    if s != [] {
      ReversedIn(s[1..]);
      assert s == [s[0]] + s[1..];
      if Distinct(s) {
        RestDistinct(s);
        JoinDistinct(Reversed(s[1..]), [s[0]]);
      }
    }
  }

  lemma HandOver(held: map<Node, Hold>, n: Node)
    requires n in held
    ensures |held - {n}| + 1 == |held| && forall x :: x in held - {n} <==> x in held && x != n
  {
    assert held.Keys == (held - {n}).Keys + {n};
  }

  lemma TakeUp(held: map<Node, Hold>, n: Node, h: Hold)
    requires n !in held
    ensures |held[n := h]| == |held| + 1
  {
    assert held[n := h].Keys == held.Keys + {n};
  }

  lemma TakingKeepsPartition(s: State, a: Step)
    requires Partition(s.nodes, s.free, s.queue, s.held) && Enabled(s, a) && (a.Reserve? || a.Fill? || a.Pop?)
    ensures var t := Next(s, a); Partition(t.nodes, t.free, t.queue, t.held)
  {
    hide Reversed, Distinct;
    match a
    case Reserve =>
      RestDistinct(s.free);
      TakeUp(s.held, s.free[0], Reserved);
    case Fill(n, m, inTurn) =>
      assert s.held[n := Filled(inTurn)].Keys == s.held.Keys;
    case Pop =>
      RestDistinct(s.queue);
      TakeUp(s.held, s.queue[0], Taken);
  }

  lemma GivingKeepsPartition(s: State, a: Step)
    requires Partition(s.nodes, s.free, s.queue, s.held) && Enabled(s, a) && (a.LinkTail? || a.LinkHead? || a.Put?)
    ensures var t := Next(s, a); Partition(t.nodes, t.free, t.queue, t.held)
  {
    hide Reversed, Distinct;
    HandOver(s.held, a.n);
    OneDistinct(a.n);
    JoinDistinct(s.queue, [a.n]);
    JoinDistinct([a.n], s.queue);
    JoinDistinct([a.n], s.free);
  }

  lemma ResetKeepsPartition(s: State)
    requires Partition(s.nodes, s.free, s.queue, s.held)
    ensures var t := Next(s, Reset); Partition(t.nodes, t.free, t.queue, t.held)
  {
    hide Distinct;
    NoneDistinct();
    ReversedIn(s.queue);
    JoinDistinct(Reversed(s.queue), s.free);
  }

  lemma StepKeepsPartition(s: State, a: Step)
    requires Partition(s.nodes, s.free, s.queue, s.held) && Enabled(s, a)
    ensures var t := Next(s, a); Partition(t.nodes, t.free, t.queue, t.held)
  {
    hide Partition, Next, Enabled;
    match a {
      case Reserve => TakingKeepsPartition(s, a);
      case Fill(_, _, _) => TakingKeepsPartition(s, a);
      case Pop => TakingKeepsPartition(s, a);
      case Reset => ResetKeepsPartition(s);
      case LinkTail(_) => GivingKeepsPartition(s, a);
      case LinkHead(_) => GivingKeepsPartition(s, a);
      case Put(_) => GivingKeepsPartition(s, a);
    }
  }

  lemma OneDistinct(n: Node)
    ensures Distinct([n])
  {
  }

  lemma NoneDistinct()
    ensures Distinct<Node>([])
  {
  }

  lemma StepKeepsCarried(s: State, a: Step)
    requires Invariant(s) && Enabled(s, a)
    ensures Carried(Next(s, a))
  {
    hide Reversed, Distinct;
    var t := Next(s, a);
    match a
    case Reserve => assert s.free[0] in s.free;
    case Fill(n, m, _) => assert t.body[n][..|m|] == m;
    case Pop => assert s.queue == [s.queue[0]] + s.queue[1..];
    case _ =>
  }

  lemma StepKeepsInvariant(s: State, a: Step)
    requires Invariant(s) && Enabled(s, a)
    ensures Invariant(Next(s, a))
  {
    hide Partition, Carried, Next, Enabled;
    StepKeepsPartition(s, a);
    StepKeepsCarried(s, a);
  }

  // ----- the queue is a double-ended queue of messages -----

  lemma {:induction false} MessagesAppend(msg: map<Node, Message>, a: seq<Node>, b: seq<Node>)
    ensures Messages(msg, a + b) == Messages(msg, a) + Messages(msg, b)
  {
    if a == [] {
      assert a + b == b;
    } else {
      assert (a + b)[1..] == a[1..] + b;
      MessagesAppend(msg, a[1..], b);
    }
  }

  lemma {:induction false} MessagesFrame(msg: map<Node, Message>, n: Node, m: Message, q: seq<Node>)
    requires n !in q
    ensures Messages(msg[n := m], q) == Messages(msg, q)
  {
    if q != [] {
      MessagesFrame(msg, n, m, q[1..]);
    }
  }

  // Sending appends at its linking step and nowhere else, urgent sending prepends,
  // receiving takes the front; no other step, of whatever thread, changes the queue.
  lemma StepRefines(s: State, a: Step)
    requires Invariant(s) && Enabled(s, a)
    ensures match a
      case LinkTail(n) => n in s.msg && Contents(Next(s, a)) == Contents(s) + [s.msg[n]]
      case LinkHead(n) => n in s.msg && Contents(Next(s, a)) == [s.msg[n]] + Contents(s)
      case Pop => s.queue[0] in s.msg && Contents(s) == [s.msg[s.queue[0]]] + Contents(Next(s, a))
      case Reset => Contents(Next(s, a)) == []
      case _ => Contents(Next(s, a)) == Contents(s)
    ensures |Contents(s)| == |s.queue|
  {
    match a
    case LinkTail(n) => MessagesAppend(s.msg, s.queue, [n]);
    case LinkHead(n) => assert ([n] + s.queue)[1..] == s.queue;
    case Fill(n, m, _) => MessagesFrame(s.msg, n, m, s.queue);
    case Pop => assert s.queue[0] in s.queue;
    case _ =>
  }

  // What a holder has: the node and its message stay as they are, whatever other
  // threads do.
  lemma HeldIsStable(s: State, a: Step, n: Node)
    requires Invariant(s) && Enabled(s, a) && n in s.held && n !in Touched(a)
    ensures n in Next(s, a).held && Next(s, a).held[n] == s.held[n]
    ensures n in s.body ==> n in Next(s, a).body && Next(s, a).body[n] == s.body[n]
    ensures n in s.msg ==> n in Next(s, a).msg && Next(s, a).msg[n] == s.msg[n]
  {
    assert s.free != [] ==> s.free[0] in s.free;
    assert s.queue != [] ==> s.queue[0] in s.queue;
  }

  // The node a step works on in the name of its holder.
  function Touched(a: Step): set<Node> {
    match a
    case Fill(n, _, _) => {n}
    case LinkTail(n) => {n}
    case LinkHead(n) => {n}
    case Put(n) => {n}
    case _ => {}
  }

  // A receiver that copies the node it took, at any moment before it puts the node
  // back, gets the message, up to the size of its buffer.
  lemma ReceivedIsSent(s: State, n: Node, size: nat)
    requires Invariant(s) && n in s.held && s.held[n].Taken?
    ensures n in s.body && n in s.msg && |s.body[n]| == s.size
    ensures var copied := s.body[n][..Min(size, s.size)];
      var k := Min(size, |s.msg[n]|);
      k <= |copied| && copied[..k] == s.msg[n][..k]
  {
    assert s.body[n][..|s.msg[n]|] == s.msg[n];
  }

  // ----- runs -----

  // Steps of any number of threads, in any order in which each is enabled.
  ghost predicate IsRun(s: State, run: seq<Step>)
    decreases run
  {
    run == [] || (Enabled(s, run[0]) && IsRun(Next(s, run[0]), run[1..]))
  }

  ghost function After(s: State, run: seq<Step>): State
    requires IsRun(s, run)
    decreases run
  {
    if run == [] then s else After(Next(s, run[0]), run[1..])
  }

  // Messages linked, and messages taken, in the order of the steps.
  ghost function Linked(s: State, run: seq<Step>): seq<Message>
    requires IsRun(s, run)
    decreases run
  {
    if run == [] then []
    else
      var rest := Linked(Next(s, run[0]), run[1..]);
      if (run[0].LinkTail? || run[0].LinkHead?) && run[0].n in s.msg then [s.msg[run[0].n]] + rest else rest
  }

  ghost function Received(s: State, run: seq<Step>): seq<Message>
    requires IsRun(s, run)
    decreases run
  {
    if run == [] then []
    else
      var rest := Received(Next(s, run[0]), run[1..]);
      if run[0].Pop? && s.queue[0] in s.msg then [s.msg[s.queue[0]]] + rest else rest
  }

  // The three sections of rt_mq_send, or of rt_mq_urgent.
  ghost function SendSteps(s: State, m: Message, inTurn: bool): seq<Step>
    requires s.free != []
  {
    var n := s.free[0];
    [Reserve, Fill(n, m, inTurn), if inTurn then LinkTail(n) else LinkHead(n)]
  }

  // While a node is free, a message of up to the size of a node can be sent, and is then
  // the last of the queue, or the first if it is urgent.
  lemma SendWorks(s: State, m: Message, inTurn: bool)
    requires Invariant(s) && s.free != [] && |m| <= s.size
    ensures var run := SendSteps(s, m, inTurn);
      && IsRun(s, run) && Invariant(After(s, run)) && After(s, run).free == s.free[1..]
      && Contents(After(s, run)) == if inTurn then Contents(s) + [m] else [m] + Contents(s)
  {
    var n := s.free[0];
    assert n in s.free;
    var (a, b) := (Fill(n, m, inTurn), if inTurn then LinkTail(n) else LinkHead(n));
    StepKeepsInvariant(s, Reserve);
    StepRefines(s, Reserve);
    var s1 := Next(s, Reserve);
    StepKeepsInvariant(s1, a);
    StepRefines(s1, a);
    var s2 := Next(s1, a);
    StepKeepsInvariant(s2, b);
    StepRefines(s2, b);
    hide Invariant, Contents;
    ThreeSteps(s, Reserve, a, b);
  }

  lemma ThreeSteps(s: State, a: Step, b: Step, c: Step)
    requires Enabled(s, a) && Enabled(Next(s, a), b) && Enabled(Next(Next(s, a), b), c)
    ensures IsRun(s, [a, b, c]) && After(s, [a, b, c]) == Next(Next(Next(s, a), b), c)
  {
    hide Enabled, Next;
    var d := Next(Next(Next(s, a), b), c);
    assert [a, b, c][1..] == [b, c] && [b, c][1..] == [c] && [c][1..] == [];
    assert IsRun(d, []) && After(d, []) == d;
    assert IsRun(Next(Next(s, a), b), [c]) && IsRun(Next(s, a), [b, c]);
    assert After(Next(Next(s, a), b), [c]) == d && After(Next(s, a), [b, c]) == d;
  }

  // While a message is queued, the two sections of rt_mq_recv take the first, and the
  // node is free again.
  lemma ReceiveWorks(s: State)
    requires Invariant(s) && s.queue != []
    ensures var run := [Pop, Put(s.queue[0])];
      && IsRun(s, run) && Invariant(After(s, run)) && After(s, run).free == [s.queue[0]] + s.free
      && Contents(After(s, run)) == Contents(s)[1..] && Received(s, run) == [Contents(s)[0]]
  {
    var n := s.queue[0];
    StepKeepsInvariant(s, Pop);
    StepRefines(s, Pop);
    var s1 := Next(s, Pop);
    StepKeepsInvariant(s1, Put(n));
    StepRefines(s1, Put(n));
    hide Invariant, Contents;
    TwoSteps(s, Pop, Put(n));
  }

  lemma TwoSteps(s: State, a: Step, b: Step)
    requires Enabled(s, a) && Enabled(Next(s, a), b)
    ensures IsRun(s, [a, b]) && After(s, [a, b]) == Next(Next(s, a), b)
    ensures a.Pop? && s.queue != [] && s.queue[0] in s.msg && !b.Pop? ==> Received(s, [a, b]) == [s.msg[s.queue[0]]]
  {
    hide Enabled, Next;
    var d := Next(Next(s, a), b);
    assert [a, b][1..] == [b] && [b][1..] == [];
    assert IsRun(d, []) && After(d, []) == d && Received(d, []) == [];
    assert IsRun(Next(s, a), [b]) && After(Next(s, a), [b]) == d;
    assert !b.Pop? ==> Received(Next(s, a), [b]) == [];
  }

  lemma {:induction false} RunsKeepInvariant(s: State, run: seq<Step>)
    requires Invariant(s) && IsRun(s, run)
    ensures Invariant(After(s, run))
    decreases run
  {
    hide Invariant;
    if run != [] {
      StepKeepsInvariant(s, run[0]);
      RunsKeepInvariant(Next(s, run[0]), run[1..]);
    }
  }

  // Without urgent messages and resets the queue is first in, first out over any
  // interleaving: what was queued and what is linked is what is received and what
  // is still queued, in this order.
  lemma {:induction false} Fifo(s: State, run: seq<Step>)
    requires Invariant(s) && IsRun(s, run) && forall a :: a in run ==> !a.LinkHead? && !a.Reset?
    ensures Contents(s) + Linked(s, run) == Received(s, run) + Contents(After(s, run))
    decreases run
  {
    hide Invariant, Messages, Contents;
    if run != [] {
      var (a, t) := (run[0], Next(s, run[0]));
      StepKeepsInvariant(s, a);
      StepRefines(s, a);
      Fifo(t, run[1..]);
      if a.LinkTail? {
        assert Contents(t) + Linked(t, run[1..]) == Contents(s) + ([s.msg[a.n]] + Linked(t, run[1..]));
      } else if a.Pop? {
        assert Contents(s) + Linked(t, run[1..]) == [s.msg[s.queue[0]]] + (Contents(t) + Linked(t, run[1..]));
      }
    }
  }

  function Times(m: Message, s: seq<Message>): nat { multiset(s)[m] }

  lemma Joined(x: Message, m: Message, a: seq<Message>, b: seq<Message>)
    requires b == [m] + a || b == a + [m]
    ensures Times(x, b) == Times(x, a) + if x == m then 1 else 0
  {
  }

  // With urgent messages too, nothing is lost, made up or doubled: every message
  // comes out, or is still queued, as many times as it went in.
  lemma {:induction false} NothingLost(s: State, run: seq<Step>, x: Message)
    requires Invariant(s) && IsRun(s, run) && forall a :: a in run ==> !a.Reset?
    ensures Times(x, Contents(s)) + Times(x, Linked(s, run)) == Times(x, Received(s, run)) + Times(x, Contents(After(s, run)))
    decreases run
  {
    hide Invariant, Messages, Contents, Times;
    if run != [] {
      var (a, t) := (run[0], Next(s, run[0]));
      StepKeepsInvariant(s, a);
      StepRefines(s, a);
      NothingLost(t, run[1..], x);
      if a.LinkTail? || a.LinkHead? {
        Joined(x, s.msg[a.n], Contents(s), Contents(t));
        Joined(x, s.msg[a.n], Linked(t, run[1..]), Linked(s, run));
      } else if a.Pop? {
        Joined(x, s.msg[s.queue[0]], Contents(t), Contents(s));
        Joined(x, s.msg[s.queue[0]], Received(t, run[1..]), Received(s, run));
      }
    }
  }

  lemma {:induction false} DownIs(n: nat)
    ensures |Down(n)| == n && Distinct(Down(n)) && forall x: Node :: x in Down(n) <==> x < n
  {
    if n > 0 {
      DownIs(n - 1);
      OneDistinct(n - 1);
      JoinDistinct([n - 1], Down(n - 1));
    }
  }

  lemma InitIsSound(nodes: nat, size: nat, body: map<Node, seq<int>>)
    requires forall n: Node :: n < nodes ==> n in body && |body[n]| == size
    ensures Invariant(Init(nodes, size, body)) && Contents(Init(nodes, size, body)) == []
  {
    DownIs(nodes);
  }
}
