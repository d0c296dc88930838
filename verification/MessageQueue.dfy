// The message queue itself: nodes linked through one next field, a head and a tail
// for the queue and a head for the free list. Every method is one of the steps.
module MessageQueue {
  import opened Common
  import opened Sequences
  import opened MessageQueueSpec

  const NULL := -1

  function HeadOf(q: seq<Node>): int { if q == [] then NULL else q[0] }

  function LastOf(q: seq<Node>): int { if q == [] then NULL else q[|q| - 1] }

  // From head the next fields lead through the nodes of q to the end.
  ghost predicate Chain(next: map<Node, int>, head: int, q: seq<Node>)
    decreases q
  {
    if q == [] then head == NULL else head == q[0] && q[0] in next && Chain(next, next[q[0]], q[1..])
  }

  lemma {:induction false} ChainFrame(next: map<Node, int>, head: int, q: seq<Node>, n: Node, x: int)
    requires Chain(next, head, q) && n !in q
    ensures Chain(next[n := x], head, q)
    decreases q
  {
    if q != [] {
      ChainFrame(next, next[q[0]], q[1..], n, x);
    }
  }

  // A node behind the last one.
  lemma {:induction false} ChainAppend(next: map<Node, int>, head: int, q: seq<Node>, n: Node)
    requires Chain(next, head, q) && n !in q && n in next && next[n] == NULL && Distinct(q)
    ensures q != [] ==> Chain(next[q[|q| - 1] := n], head, q + [n])
    ensures q == [] ==> Chain(next, n, q + [n])
    decreases q
  {
    if q != [] {
      var next' := next[q[|q| - 1] := n];
      assert (q + [n])[1..] == q[1..] + [n];
      if |q| == 1 {
        assert q + [n] == [q[0], n];
        assert Chain(next', n, [n]);
      } else {
        RestDistinct(q);
        assert q[1..][|q| - 2] == q[|q| - 1] && q[|q| - 1] != q[0];
        ChainAppend(next, next[q[0]], q[1..], n);
      }
    }
  }

  class MessageQueue {
    const nodes: nat
    const size: nat
    var head: int
    var tail: int
    var free: int
    var entry: nat
    var next: map<Node, int>
    var body: map<Node, seq<int>>
    ghost var queue: seq<Node>
    ghost var unused: seq<Node>
    ghost var held: map<Node, Hold>
    ghost var msg: map<Node, Message>

    ghost function View(): State
      reads this
    {
      State(nodes, size, unused, queue, held, body, msg)
    }

    ghost predicate Links()
      reads this
    {
      && Chain(next, head, queue) && tail == LastOf(queue)
      && Chain(next, free, unused) && entry == |queue|
      && forall n :: n in held && held[n] == Filled(true) ==> n in next && next[n] == NULL
    }

    // The invariant of every run.
    ghost predicate Valid()
      reads this
    {
      Invariant(View()) && Links()
    }

    // rt_mq_init with a pool of count nodes of size bytes each.
    constructor (count: nat, size: nat, pool: map<Node, seq<int>>)
      requires forall n: Node :: n < count ==> n in pool && |pool[n]| == size
      ensures Valid() && View() == Init(count, size, pool)
    {
      nodes, this.size := count, size;
      head, tail, free, entry := NULL, NULL, NULL, 0;
      next := map[];
      body := pool;
      queue, unused, held, msg := [], [], map[], map[];
      new;
      hide Chain, Invariant, Contents;
      NoChain(next);
      FreeAll();
      NoChain(next);
      InitIsSound(count, size, pool);
    }

    // Puts every node on the free list.
    method FreeAll()
      requires free == NULL && unused == []
      modifies `next, `free, `unused
      ensures unused == Down(nodes) && Chain(next, free, unused)
    {
      hide Chain, Distinct;
      NoChain(next);
      var temp := 0;
      while temp < nodes
        invariant temp <= nodes && unused == Down(temp) && Chain(next, free, unused)
      {
        DownIs(temp);
        ChainFrame(next, free, unused, temp, free);
        next := next[temp := free];
        ChainCons(next, temp, unused);
        free := temp;
        unused := [temp] + unused;
        temp := temp + 1;
      }
    }

    // The first critical section of rt_mq_send and rt_mq_urgent.
    method ReserveNode() returns (n: int)
      requires Valid()
      modifies this`free, this`unused, this`held
      ensures Valid()
      ensures if old(unused) == [] then n == NULL && View() == old(View())
              else n == old(unused)[0] && View() == Next(old(View()), Reserve)
    {
      hide Invariant, Chain;
      HeadIs(next, free, unused);
      n := free;
      if n == NULL {
        return;
      }
      StepKeepsInvariant(View(), Reserve);
      free := next[n];
      held := held[n := Reserved];
      unused := unused[1..];
    }

    // The copy into the node; send also ends its link, urgent leaves that for later.
    method FillNode(n: Node, m: Message, inTurn: bool)
      requires Valid() && Enabled(View(), Fill(n, m, inTurn))
      modifies this`next, this`body, this`held, this`msg
      ensures Valid() && View() == Next(old(View()), Fill(n, m, inTurn))
    {
      hide Invariant, Chain;
      HeldApart(View(), n);
      StepKeepsInvariant(View(), Fill(n, m, inTurn));
      if inTurn {
        ChainFrame(next, head, queue, n, NULL);
        ChainFrame(next, free, unused, n, NULL);
        next := next[n := NULL];
      }
      body := body[n := m + body[n][|m|..]];
      held := held[n := Filled(inTurn)];
      msg := msg[n := m];
    }

    // The second critical section of rt_mq_send.
    method LinkLast(n: Node)
      requires Valid() && Enabled(View(), LinkTail(n))
      modifies this`head, this`tail, this`entry, this`next, this`queue, this`held
      ensures Valid() && View() == Next(old(View()), LinkTail(n))
    {
      hide Invariant, Chain, Distinct;
      HeldApart(View(), n);
      StepKeepsInvariant(View(), LinkTail(n));
      ChainAppend(next, head, queue, n);
      HeadIs(next, head, queue);
      if tail != NULL {
        assert tail in queue;
        QueuedApart(View(), tail);
        ChainFrame(next, free, unused, tail, n);
        next := next[tail := n];
      }
      tail := n;
      if head == NULL {
        head := n;
      }
      entry := entry + 1;
      held := held - {n};
      queue := queue + [n];
    }

    // The second critical section of rt_mq_urgent.
    method LinkFirst(n: Node)
      requires Valid() && Enabled(View(), LinkHead(n))
      modifies this`head, this`tail, this`entry, this`next, this`queue, this`held
      ensures Valid() && View() == Next(old(View()), LinkHead(n))
    {
      hide Invariant, Chain, Distinct;
      HeldApart(View(), n);
      StepKeepsInvariant(View(), LinkHead(n));
      ChainFrame(next, head, queue, n, head);
      ChainFrame(next, free, unused, n, head);
      next := next[n := head];
      ChainCons(next, n, queue);
      head := n;
      if tail == NULL {
        tail := n;
      }
      entry := entry + 1;
      held := held - {n};
      queue := [n] + queue;
    }

    // The first critical section of rt_mq_recv, once the queue is not empty.
    method PopNode() returns (n: int)
      requires Valid()
      modifies this`head, this`tail, this`entry, this`queue, this`held
      ensures Valid()
      ensures if old(queue) == [] then n == NULL && View() == old(View())
              else n == old(queue)[0] && View() == Next(old(View()), Pop)
    {
      hide Invariant, Chain, Distinct;
      if entry == 0 {
        return NULL;
      }
      StepKeepsInvariant(View(), Pop);
      HeadIs(next, head, queue);
      LastIsFirst(View());
      n := head;
      head := next[n];
      if tail == n {
        tail := NULL;
      }
      entry := entry - 1;
      held := held[n := Taken];
      queue := queue[1..];
    }

    // The copy to the receiver's buffer.
    method Copy(n: Node, room: nat) returns (buffer: seq<int>)
      requires Valid() && n in held && held[n].Taken?
      ensures n in msg && var k := Min(room, |msg[n]|); k <= |buffer| <= room && buffer[..k] == msg[n][..k]
    {
      ReceivedIsSent(View(), n, room);
      buffer := body[n][..if room > size then size else room];
    }

    // The second critical section of rt_mq_recv.
    method PutNode(n: Node)
      requires Valid() && Enabled(View(), Put(n))
      modifies this`free, this`next, this`unused, this`held
      ensures Valid() && View() == Next(old(View()), Put(n))
    {
      hide Invariant, Chain, Distinct;
      HeldApart(View(), n);
      StepKeepsInvariant(View(), Put(n));
      ChainFrame(next, head, queue, n, free);
      ChainFrame(next, free, unused, n, free);
      next := next[n := free];
      ChainCons(next, n, unused);
      free := n;
      held := held - {n};
      unused := [n] + unused;
    }

    // RT_IPC_CMD_RESET of rt_mq_control: every queued node becomes free.
    method Empty()
      requires Valid()
      modifies this`head, this`tail, this`entry, this`free, this`next, this`queue, this`unused
      ensures Valid() && View() == Next(old(View()), Reset)
    {
      hide Invariant, Chain, Distinct, Reversed, LastOf, Next, Enabled;
      ghost var s := View();
      ResetIs(s);
      StepKeepsInvariant(s, Reset);
      NoneReversed();
      ghost var done: seq<Node> := [];
      while head != NULL
        invariant s.queue == done + queue && unused == Reversed(done) + s.free
        invariant Chain(next, head, queue) && Chain(next, free, unused) && tail == LastOf(queue)
        invariant forall n :: n in held && held[n] == Filled(true) ==> n in next && next[n] == NULL
        decreases |queue|
      {
        HeadIs(next, head, queue);
        ResetApart(s, done, queue, unused);
        ReversedSnoc(done, queue[0]);
        assert done + queue == (done + [queue[0]]) + queue[1..];
        done := done + [queue[0]];
        FreeHead();
      }
      HeadIs(next, head, queue);
      assert done == s.queue && queue == [];
      assert View() == Next(s, Reset);
      entry := 0;
    }

    // One round of the loop: the first node goes to the front of the free list.
    method FreeHead()
      requires Chain(next, head, queue) && Chain(next, free, unused) && tail == LastOf(queue) && queue != []
      requires queue[0] !in queue[1..] && queue[0] !in unused
      requires LastOf(queue[1..]) == if LastOf(queue) == queue[0] then NULL else LastOf(queue)
      modifies this`head, this`tail, this`free, this`next, this`queue, this`unused
      ensures Chain(next, head, queue) && Chain(next, free, unused) && tail == LastOf(queue)
      ensures queue == old(queue)[1..] && unused == [old(queue)[0]] + old(unused)
      ensures forall n: Node :: n != old(queue)[0] && n in old(next) ==> n in next && next[n] == old(next)[n]
    {
      hide Chain, LastOf;
      HeadIs(next, head, queue);
      var n := head;
      head := next[n];
      if tail == n {
        tail := NULL;
      }
      ChainFrame(next, head, queue[1..], n, free);
      ChainFrame(next, free, unused, n, free);
      next := next[n := free];
      ChainCons(next, n, unused);
      free := n;
      unused := [n] + unused;
      queue := queue[1..];
    }
  }

  lemma NoChain(next: map<Node, int>)
    ensures Chain(next, NULL, [])
  {
  }

  lemma ResetIs(s: State)
    ensures Enabled(s, Reset) && Next(s, Reset) == s.(free := Reversed(s.queue) + s.free, queue := [])
  {
  }

  lemma NoneReversed()
    ensures Reversed([]) == []
  {
  }

  lemma HeadIs(next: map<Node, int>, head: int, q: seq<Node>)
    requires Chain(next, head, q)
    ensures head == HeadOf(q) && (q == [] <==> head == NULL)
    ensures q != [] ==> q[0] in next && Chain(next, next[q[0]], q[1..])
  {
  }

  lemma ChainCons(next: map<Node, int>, n: Node, q: seq<Node>)
    requires n in next && Chain(next, next[n], q)
    ensures Chain(next, n, [n] + q) && LastOf([n] + q) == if q == [] then n else LastOf(q)
  {
    assert ([n] + q)[1..] == q;
  }

  lemma HeldApart(s: State, n: Node)
    requires Invariant(s) && n in s.held
    ensures n !in s.queue && n !in s.free && Distinct(s.queue)
  {
    hide Carried;
  }

  lemma QueuedApart(s: State, n: Node)
    requires Invariant(s) && n in s.queue
    ensures n !in s.free && n !in s.held
  {
    hide Carried;
  }

  // The last node of the queue is the first only if it is alone.
  lemma LastIsFirst(s: State)
    requires Invariant(s) && s.queue != []
    ensures s.queue[0] !in s.held
    ensures LastOf(s.queue[1..]) == if LastOf(s.queue) == s.queue[0] then NULL else LastOf(s.queue)
  {
    hide Carried;
    assert s.queue[0] in s.queue;
  }

  lemma ResetApart(s: State, done: seq<Node>, queue: seq<Node>, unused: seq<Node>)
    requires Invariant(s) && s.queue == done + queue && unused == Reversed(done) + s.free && queue != []
    ensures queue[0] !in queue[1..] && queue[0] !in unused && queue[0] !in s.held
    ensures LastOf(queue[1..]) == if LastOf(queue) == queue[0] then NULL else LastOf(queue)
  {
    hide Carried, Reversed;
    var i := |done|;
    assert s.queue[i] == queue[0] && queue[0] in s.queue;
    assert forall j :: 0 <= j < |queue| ==> queue[j] == s.queue[i + j];
    assert forall j :: 0 <= j < |done| ==> done[j] == s.queue[j];
    ReversedIn(done);
  }

  lemma {:induction false} ReversedSnoc(s: seq<Node>, n: Node)
    ensures Reversed(s + [n]) == [n] + Reversed(s)
  {
    if s == [] {
      assert s + [n] == [n] && [n][1..] == [];
    } else {
      assert (s + [n])[1..] == s[1..] + [n];
      ReversedSnoc(s[1..], n);
    }
  }
}
